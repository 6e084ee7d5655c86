/** The PHP built-ins that the locator codec and the sun service rely on, with
    PHP's own semantics for the inputs those callers pass: `intval` and `fmod`
    truncate toward zero, `chr` reduces modulo 256, `trim` strips PHP's six
    default characters, `strtoupper`/`strtolower` touch only ASCII letters.
    PHP strings are byte strings; here a string is a `seq<char>` whose
    characters stand for bytes. */
module Php {

  /** A PHP call either returns a value or throws an exception. */
  datatype Exception = InvalidArgumentException(message: string)
  datatype Outcome<T> = Returned(value: T) | Threw(exception: Exception)

  // ---------------------------------------------------------------------
  // Numbers

  /** `intval` of a float: the integer part, truncated toward zero. */
  function IntVal(x: real): (r: int)
    ensures x >= 0.0 ==> (r as real) <= x < (r as real) + 1.0
    ensures x < 0.0 ==> (r as real) - 1.0 < x <= (r as real)
  {
    if x >= 0.0 then x.Floor else -((-x).Floor)
  }

  /** C's `fmod` for a positive divisor: what is left of x after taking out
      the truncated quotient's multiple of y, i.e. y times the fractional
      part of x / y; it has the sign of the dividend. */
  function FMod(x: real, y: real): (r: real)
    requires y > 0.0
    ensures x >= 0.0 ==> 0.0 <= r < y
    ensures x < 0.0 ==> -y < r <= 0.0
  {
    var t := x / y;
    var u := t - (IntVal(t) as real);
    DivideByPositive(x, y);
    assert x >= 0.0 ==> 0.0 <= u < 1.0;
    assert x < 0.0 ==> -1.0 < u <= 0.0;
    ScaleUnitInterval(u, y);
    y * u
  }

  /** PHP's definition of `fmod`: x is an integer multiple of y plus the
      remainder, the multiple being the quotient truncated toward zero. */
  lemma {:induction false} FModQuotient(x: real, y: real)
    requires y > 0.0
    ensures x == IntVal(x / y) as real * y + FMod(x, y)
  {
    var t := x / y;
    Remainder(x, y, t, IntVal(t) as real);
  }

  /** Taking q * y out of x = t * y leaves y times what is left of t. */
  lemma {:induction false} Remainder(x: real, y: real, t: real, q: real)
    requires y > 0.0 && t == x / y
    ensures x == q * y + y * (t - q)
  {
    assert x == t * y;
  }

  lemma {:induction false} DivideByPositive(x: real, y: real)
    requires y > 0.0
    ensures x >= 0.0 <==> x / y >= 0.0
  {
  }

  /** Scaling a value of magnitude below one by a positive y. */
  lemma {:induction false} ScaleUnitInterval(u: real, y: real)
    requires y > 0.0
    ensures 0.0 <= u < 1.0 ==> 0.0 <= y * u < y
    ensures -1.0 < u <= 0.0 ==> -y < y * u <= 0.0
  {
  }

  /** `chr`: PHP keeps the low eight bits of the code, the code modulo 256. */
  function Chr(n: int): (c: char)
    ensures 0 <= c as int < 256
    ensures 0 <= n < 256 ==> c as int == n
    ensures (c as int - n) % 256 == 0
  {
    (n % 256) as char
  }

  // ---------------------------------------------------------------------
  // Decimal digits

  predicate IsDigit(c: char) { '0' <= c <= '9' }

  function DigitChar(d: int): (c: char)
    requires 0 <= d < 10
    ensures IsDigit(c) && c as int - '0' as int == d
  {
    ('0' as int + d) as char
  }

  /** `intval` of a one-character string: its digit value, or 0 when the
      character does not start a number. */
  function IntValChar(c: char): int {
    if IsDigit(c) then c as int - '0' as int else 0
  }

  /** The value of a string of decimal digits. */
  function DecimalValue(s: string): nat
    requires forall k :: 0 <= k < |s| ==> IsDigit(s[k])
  {
    if s == [] then 0
    else
      assert IsDigit(s[|s| - 1]);
      DecimalValue(s[..|s| - 1]) * 10 + (s[|s| - 1] as int - '0' as int)
  }

  /** The decimal numeral of a natural number, without leading zeros. */
  function Decimal(n: nat): (s: string)
    ensures 1 <= |s|
    ensures forall k :: 0 <= k < |s| ==> IsDigit(s[k])
    ensures DecimalValue(s) == n
    ensures n < 10 <==> |s| == 1
    ensures 10 <= n < 100 ==> |s| == 2
    ensures |s| > 1 ==> s[0] != '0'
  {
    if n < 10 then [DigitChar(n)]
    else
      var s := Decimal(n / 10) + [DigitChar(n % 10)];
      assert s[..|s| - 1] == Decimal(n / 10);
      s
  }

  /** `strval` of an integer. */
  function StrVal(n: int): (s: string)
    ensures 0 <= n < 10 ==> s == [DigitChar(n)]
    ensures n >= 0 ==> (forall k :: 0 <= k < |s| ==> IsDigit(s[k])) && DecimalValue(s) == n
    ensures n >= 0 && |s| > 1 ==> s[0] != '0'
    ensures n < 0 ==> |s| >= 2 && s[0] == '-'
    ensures n < 0 ==> (forall k :: 1 <= k < |s| ==> IsDigit(s[k])) && DecimalValue(s[1..]) == -n
    ensures n < 0 && |s| > 2 ==> s[1] != '0'
  {
    if n < 0 then "-" + Decimal(-n) else Decimal(n)
  }

  /** `sprintf('%02d', n)`: the numeral, zero-padded on the left to width two. */
  function Pad2(n: int): (s: string)
    ensures 0 <= n < 100 ==> |s| == 2 && IsDigit(s[0]) && IsDigit(s[1]) && DecimalValue(s) == n
  {
    var t := StrVal(n);
    if |t| < 2 then
      var s := "0" + t;
      assert n >= 0 ==> s[..1] == "0" && DecimalValue(s) == DecimalValue(t);
      s
    else t
  }

  // ---------------------------------------------------------------------
  // Strings

  /** The characters PHP's `trim` removes by default: space, tab, newline,
      carriage return, NUL and vertical tab. */
  predicate IsTrimmable(c: char) {
    c == ' ' || c == '\t' || c == '\n' || c == '\r' || c == '\0' || c as int == 11
  }

  /** `ltrim`: what remains after the leading trimmable characters. */
  function TrimStart(s: string): string {
    if s != [] && IsTrimmable(s[0]) then TrimStart(s[1..]) else s
  }

  /** `rtrim`: what remains before the trailing trimmable characters. */
  function TrimEnd(s: string): string {
    if s != [] && IsTrimmable(s[|s| - 1]) then TrimEnd(s[..|s| - 1]) else s
  }

  /** `trim`. */
  function Trim(s: string): string {
    TrimEnd(TrimStart(s))
  }

  /** `ltrim` removes a run of trimmable characters from the front and
      nothing else: the result is a suffix that does not start with one. */
  lemma {:induction false} TrimStartShape(s: string)
    ensures |TrimStart(s)| <= |s| && TrimStart(s) == s[|s| - |TrimStart(s)|..]
    ensures forall k :: 0 <= k < |s| - |TrimStart(s)| ==> IsTrimmable(s[k])
    ensures TrimStart(s) == [] || !IsTrimmable(TrimStart(s)[0])
  {
    if s != [] && IsTrimmable(s[0]) {
      var t := s[1..];
      TrimStartShape(t);
      var n := |s| - |TrimStart(t)|;
      assert s[n..] == t[n - 1..];
      forall k | 1 <= k < n
        ensures IsTrimmable(s[k])
      {
        assert s[k] == t[k - 1];
      }
    }
  }

  /** `rtrim` removes a run of trimmable characters from the back and
      nothing else: the result is a prefix that does not end with one. */
  lemma {:induction false} TrimEndShape(s: string)
    ensures |TrimEnd(s)| <= |s| && TrimEnd(s) == s[..|TrimEnd(s)|]
    ensures forall k :: |TrimEnd(s)| <= k < |s| ==> IsTrimmable(s[k])
    ensures TrimEnd(s) == [] || !IsTrimmable(TrimEnd(s)[|TrimEnd(s)| - 1])
  {
    if s != [] && IsTrimmable(s[|s| - 1]) {
      var t := s[..|s| - 1];
      TrimEndShape(t);
      var n := |TrimEnd(t)|;
      assert s[..n] == t[..n];
      forall k | n <= k < |s| - 1
        ensures IsTrimmable(s[k])
      {
        assert s[k] == t[k];
      }
    }
  }

  function UpperChar(c: char): char {
    if 'a' <= c <= 'z' then (c as int - 32) as char else c
  }

  function LowerChar(c: char): char {
    if 'A' <= c <= 'Z' then (c as int + 32) as char else c
  }

  /** `strtoupper` (ASCII letters only, as in PHP 8.2 and later). */
  function Upper(s: string): string {
    if s == [] then [] else [UpperChar(s[0])] + Upper(s[1..])
  }

  /** `strtolower` (ASCII letters only, as in PHP 8.2 and later). */
  function Lower(s: string): string {
    if s == [] then [] else [LowerChar(s[0])] + Lower(s[1..])
  }

  /** `strtoupper` maps each character on its own. */
  lemma {:induction false} UpperShape(s: string)
    ensures |Upper(s)| == |s| && forall k :: 0 <= k < |s| ==> Upper(s)[k] == UpperChar(s[k])
  {
    if s != [] {
      UpperShape(s[1..]);
    }
  }

  /** A string without lower-case ASCII letters is left alone by `strtoupper`. */
  lemma {:induction false} UpperNoop(s: string)
    requires forall k :: 0 <= k < |s| ==> !('a' <= s[k] <= 'z')
    ensures Upper(s) == s
  {
    UpperShape(s);
  }

  /** `strtolower` maps each character on its own. */
  lemma {:induction false} LowerShape(s: string)
    ensures |Lower(s)| == |s| && forall k :: 0 <= k < |s| ==> Lower(s)[k] == LowerChar(s[k])
  {
    if s != [] {
      LowerShape(s[1..]);
    }
  }

  /** A string without trimmable characters at either end is left alone by `trim`. */
  lemma {:induction false} TrimNoop(s: string)
    requires s == [] || (!IsTrimmable(s[0]) && !IsTrimmable(s[|s| - 1]))
    ensures Trim(s) == s
  {
  }

  /** Lower-casing neither creates nor removes trimmable characters, so it
      commutes with `ltrim`. */
  lemma {:induction false} TrimStartLower(s: string)
    ensures TrimStart(Lower(s)) == Lower(TrimStart(s))
  {
    if s != [] && IsTrimmable(s[0]) {
      TrimStartLower(s[1..]);
    }
  }

  /** Lower-casing commutes with `rtrim`. */
  lemma {:induction false} TrimEndLower(s: string)
    ensures TrimEnd(Lower(s)) == Lower(TrimEnd(s))
  {
    LowerShape(s);
    if s != [] {
      var t := s[..|s| - 1];
      LowerShape(t);
      assert Lower(s)[..|s| - 1] == Lower(t);
      assert Lower(s)[|s| - 1] == LowerChar(s[|s| - 1]);
      if IsTrimmable(s[|s| - 1]) {
        TrimEndLower(t);
      }
    }
  }

  /** `trim(strtolower(s)) == strtolower(trim(s))`. */
  lemma {:induction false} TrimLower(s: string)
    ensures Trim(Lower(s)) == Lower(Trim(s))
  {
    TrimStartLower(s);
    TrimEndLower(TrimStart(s));
  }

  /** Upper-casing a lower-cased string gives the upper-cased original. */
  lemma {:induction false} UpperLower(s: string)
    ensures Upper(Lower(s)) == Upper(s)
  {
    if s != [] {
      UpperLower(s[1..]);
    }
  }

  /** PHP's truthiness of a string: "" and "0" are false. */
  predicate Falsy(s: string) { s == "" || s == "0" }

  predicate Truthy(s: string) { !Falsy(s) }

  /** `trim` is idempotent. */
  lemma {:induction false} TrimTwice(s: string)
    ensures Trim(Trim(s)) == Trim(s)
  {
    var t := Trim(s);
    TrimStartShape(s);
    TrimEndShape(TrimStart(s));
    if t != [] {
      assert TrimStart(s) != [];
      assert t[0] == TrimStart(s)[0];
    }
    TrimNoop(t);
  }

  // ---------------------------------------------------------------------
  // Arrays, as lists in order (the callers renumber the keys)

  /** `array_map(f, s)`: f applied to each entry, in order. */
  function ArrayMap<T, U>(f: T -> U, s: seq<T>): (r: seq<U>)
    ensures |r| == |s| && forall k :: 0 <= k < |s| ==> r[k] == f(s[k])
  {
    seq(|s|, k requires 0 <= k < |s| => f(s[k]))
  }

  /** `array_map` works on each part of a list separately. */
  lemma {:induction false} ArrayMapAppend<T, U>(f: T -> U, s: seq<T>, t: seq<T>)
    ensures ArrayMap(f, s + t) == ArrayMap(f, s) + ArrayMap(f, t)
  {
    var l, r := ArrayMap(f, s + t), ArrayMap(f, s) + ArrayMap(f, t);
    forall k | 0 <= k < |l|
      ensures l[k] == r[k]
    {
      if k < |s| {
        assert (s + t)[k] == s[k];
      } else {
        assert (s + t)[k] == t[k - |s|];
      }
    }
  }

  /** `array_filter(s, keep)`, renumbered: the entries keep accepts. */
  function ArrayFilter<T(==,!new)>(keep: T -> bool, s: seq<T>): (r: seq<T>)
    ensures forall x :: x in r <==> x in s && keep(x)
    ensures |r| <= |s|
  {
    if s == [] then []
    else if keep(s[0]) then [s[0]] + ArrayFilter(keep, s[1..])
    else ArrayFilter(keep, s[1..])
  }

  /** `array_filter` keeps the entries it accepts in their order and with
      their repeats: it works on each part of a list separately. */
  lemma {:induction false} ArrayFilterAppend<T(!new)>(keep: T -> bool, s: seq<T>, t: seq<T>)
    ensures ArrayFilter(keep, s + t) == ArrayFilter(keep, s) + ArrayFilter(keep, t)
  {
    if s == [] {
      assert s + t == t;
    } else {
      ArrayFilterAppend(keep, s[1..], t);
      assert (s + t)[0] == s[0] && (s + t)[1..] == s[1..] + t;
    }
  }

  /** `array_filter` of one entry keeps it exactly when it is accepted. */
  lemma {:induction false} ArrayFilterOne<T(!new)>(keep: T -> bool, x: T)
    ensures ArrayFilter(keep, [x]) == if keep(x) then [x] else []
  {
    assert [x][1..] == [];
  }

  // ---------------------------------------------------------------------
  // Arrays of strings

  /** `explode(sep, s)`: the pieces between the separators; an empty string
      gives one empty piece. */
  function Explode(sep: char, s: string): (r: seq<string>)
    ensures |r| >= 1
    ensures forall k :: 0 <= k < |r| ==> sep !in r[k]
  {
    if s == [] then [""]
    else
      var rest := Explode(sep, s[1..]);
      if s[0] == sep then [""] + rest
      else [[s[0]] + rest[0]] + rest[1..]
  }

  /** `implode(sep, parts)`. */
  function Implode(sep: char, parts: seq<string>): string {
    if |parts| == 0 then ""
    else if |parts| == 1 then parts[0]
    else parts[0] + [sep] + Implode(sep, parts[1..])
  }

  /** Joining the pieces of `explode` gives back the string. */
  lemma {:induction false} ImplodeExplode(sep: char, s: string)
    ensures Implode(sep, Explode(sep, s)) == s
  {
    if s != [] {
      var rest := Explode(sep, s[1..]);
      ImplodeExplode(sep, s[1..]);
      if s[0] == sep {
        assert Explode(sep, s) == [""] + rest;
        assert Implode(sep, [""] + rest) == "" + [sep] + Implode(sep, rest);
      } else {
        var r := Explode(sep, s);
        assert r == [[s[0]] + rest[0]] + rest[1..];
        if |rest| == 1 {
          assert r == [[s[0]] + rest[0]];
        } else {
          assert r[1..] == rest[1..];
          assert Implode(sep, rest) == rest[0] + [sep] + Implode(sep, rest[1..]);
        }
      }
    }
  }

  /** A separator-free prefix stays in front of the first piece. */
  lemma {:induction false} ExplodeAppend(sep: char, p: string, t: string)
    requires sep !in p
    ensures Explode(sep, p + t) == [p + Explode(sep, t)[0]] + Explode(sep, t)[1..]
  {
    if p != [] {
      ExplodeAppend(sep, p[1..], t);
      assert (p + t)[1..] == p[1..] + t;
      assert (p + t)[0] == p[0];
      assert [p[0]] + (p[1..] + Explode(sep, t)[0]) == p + Explode(sep, t)[0];
    } else {
      var e := Explode(sep, t);
      assert p + t == t && p + e[0] == e[0];
      assert e == [e[0]] + e[1..];
    }
  }

  /** Splitting a join of separator-free pieces gives back the pieces. */
  lemma {:induction false} ExplodeImplode(sep: char, parts: seq<string>)
    requires |parts| >= 1 && forall k :: 0 <= k < |parts| ==> sep !in parts[k]
    ensures Explode(sep, Implode(sep, parts)) == parts
  {
    if |parts| == 1 {
      ExplodeAppend(sep, parts[0], "");
      assert parts[0] + "" == parts[0];
    } else {
      var rest := Implode(sep, parts[1..]);
      ExplodeImplode(sep, parts[1..]);
      ExplodeSep(sep, rest);
      assert Implode(sep, parts) == parts[0] + ([sep] + rest);
      ExplodeAppend(sep, parts[0], [sep] + rest);
      var e := [""] + parts[1..];
      assert e[0] == "" && e[1..] == parts[1..];
      assert parts[0] + e[0] == parts[0];
      assert [parts[0]] + parts[1..] == parts;
    }
  }

  /** A leading separator starts an empty piece. */
  lemma {:induction false} ExplodeSep(sep: char, s: string)
    ensures Explode(sep, [sep] + s) == [""] + Explode(sep, s)
  {
    assert ([sep] + s)[1..] == s;
  }

  /** Splitting a join at one separator splits each side: the pieces of
      a + sep + b are those of a followed by those of b. */
  lemma {:induction false} ExplodeJoin(sep: char, a: string, b: string)
    ensures Explode(sep, a + [sep] + b) == Explode(sep, a) + Explode(sep, b)
  {
    if a == [] {
      assert a + [sep] + b == [sep] + b;
      ExplodeSep(sep, b);
    } else {
      var c, u := a[0], a[1..];
      assert a == [c] + u && a + [sep] + b == [c] + (u + [sep] + b);
      ExplodeJoin(sep, u, b);
      var e, f := Explode(sep, u), Explode(sep, b);
      if c == sep {
        ExplodeSep(sep, u + [sep] + b);
        ExplodeSep(sep, u);
        assert [""] + (e + f) == ([""] + e) + f;
      } else {
        ExplodeCons(sep, c, u + [sep] + b);
        ExplodeCons(sep, c, u);
        JoinFirst(c, e, f);
      }
    }
  }

  /** A character put in front of the first piece of e + f lands in front
      of the first piece of e. */
  lemma {:induction false} JoinFirst(c: char, e: seq<string>, f: seq<string>)
    requires |e| >= 1
    ensures [[c] + (e + f)[0]] + (e + f)[1..] == ([[c] + e[0]] + e[1..]) + f
  {
    assert (e + f)[0] == e[0] && (e + f)[1..] == e[1..] + f;
  }

  /** A first character other than the separator joins the first piece. */
  lemma {:induction false} ExplodeCons(sep: char, c: char, s: string)
    requires c != sep
    ensures Explode(sep, [c] + s) == [[c] + Explode(sep, s)[0]] + Explode(sep, s)[1..]
  {
    assert ([c] + s)[0] == c && ([c] + s)[1..] == s;
  }

  /** No value occurs twice. */
  predicate NoDup<T(==)>(s: seq<T>) {
    forall i, j :: 0 <= i < j < |s| ==> s[i] != s[j]
  }

  /** `array_unique` followed by renumbering: the first occurrence of each
      value, in order. */
  function Unique(s: seq<string>): (r: seq<string>)
    ensures NoDup(r)
    ensures forall x :: x in r <==> x in s
  {
    if s == [] then []
    else
      var r := Unique(s[..|s| - 1]);
      assert forall x :: x in s <==> x in s[..|s| - 1] || x == s[|s| - 1] by {
        assert s == s[..|s| - 1] + [s[|s| - 1]];
      }
      if s[|s| - 1] in r then r else r + [s[|s| - 1]]
  }

  /** A list without duplicates is left alone. */
  lemma {:induction false} UniqueNoDup(s: seq<string>)
    requires NoDup(s)
    ensures Unique(s) == s
  {
    if s != [] {
      var p := s[..|s| - 1];
      assert NoDup(p);
      UniqueNoDup(p);
      assert s[|s| - 1] !in p;
      assert s == p + [s[|s| - 1]];
    }
  }

  /** What is appended cannot change the first occurrences of what came
      before. */
  lemma {:induction false} UniquePrefix(s: seq<string>, t: seq<string>)
    ensures |Unique(s)| <= |Unique(s + t)| && Unique(s + t)[..|Unique(s)|] == Unique(s)
  {
    if t == [] {
      assert s + t == s;
    } else {
      var t' := t[..|t| - 1];
      UniquePrefix(s, t');
      assert (s + t)[..|s + t| - 1] == s + t';
    }
  }

  /** The position of the first occurrence of x in s. */
  function FirstIndex(s: seq<string>, x: string): (i: nat)
    requires x in s
    ensures i < |s| && s[i] == x && x !in s[..i]
  {
    if s[0] == x then 0 else 1 + FirstIndex(s[1..], x)
  }

  /** Extending a list does not move the first occurrences in it. */
  lemma {:induction false} FirstIndexPrefix(s: seq<string>, x: string, t: seq<string>)
    requires x in s
    ensures x in s + t && FirstIndex(s + t, x) == FirstIndex(s, x)
  {
    var i, i' := FirstIndex(s, x), FirstIndex(s + t, x);
    assert (s + t)[i] == x;
    assert s[..i] == (s + t)[..i];
  }

  /** `array_unique` keeps the values in the order of their first
      occurrences. */
  lemma {:induction false} UniqueOrder(s: seq<string>)
    ensures forall i, j :: 0 <= i < j < |Unique(s)| ==> FirstIndex(s, Unique(s)[i]) < FirstIndex(s, Unique(s)[j])
  {
    if s != [] {
      var p, x := s[..|s| - 1], s[|s| - 1];
      assert s == p + [x];
      var r := Unique(p);
      UniqueOrder(p);
      forall y | y in r
        ensures FirstIndex(s, y) == FirstIndex(p, y) < |p|
      {
        FirstIndexPrefix(p, y, [x]);
      }
      if x !in r {
        assert x !in p;
        assert FirstIndex(s, x) == |p| by {
          var i := FirstIndex(s, x);
          assert s[..|p|] == p;
        }
        var u := Unique(s);
        assert u == r + [x];
        forall i, j | 0 <= i < j < |u|
          ensures FirstIndex(s, u[i]) < FirstIndex(s, u[j])
        {
          assert u[i] == r[i] && u[i] in r;
          if j < |r| {
            assert u[j] == r[j] && u[j] in r;
          }
        }
      }
    }
  }
}
