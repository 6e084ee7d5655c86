/** What the two directions of the Maidenhead codec promise about each other:
    the shape and character classes of an encoded locator, the cells a
    decoded point lies in, and the round trip from a position to the centre
    of the cell that contains it. All arithmetic is exact. */
module LocatorTheorems {
  import opened Php
  import opened Maidenhead

  /** A position the encoder is meant for. */
  predicate InRange(lat: real, lon: real) {
    -90.0 <= lat < 90.0 && -180.0 <= lon < 180.0
  }

  /** (lat, lon) lies in the cell named by g, a locator of n pairs. */
  predicate InCell(g: string, n: nat, lat: real, lon: real) {
    1 <= n && |g| == 2 * n
    && CornerLon(g, n) <= lon < CornerLon(g, n) + LonSpan(n - 1)
    && CornerLat(g, n) <= lat < CornerLat(g, n) + LatSpan(n - 1)
  }

  /** p lies, on one axis and in longitude units from the origin, in the
      cell named by g, a locator of n pairs. */
  predicate AxisCell(g: string, n: nat, axis: nat, p: real)
    requires axis < 2
  {
    1 <= n && |g| == 2 * n && Offset(g, n, axis) <= p < Offset(g, n, axis) + LonSpan(n - 1)
  }

  /** Working values pair i can be taken from: both within [0, Radix(i)),
      i.e. [0, 10) before a digit pair and [0, 24) before a letter pair. */
  predicate Working(lon: real, lat: real, i: nat) {
    0.0 <= lon < Radix(i) as real && 0.0 <= lat < Radix(i) as real
  }

  // ---------------------------------------------------------------------
  // Arithmetic helpers

  /** A working value w below the radix r, in cells of span s, stays below
      the parent span p = s * r. */
  lemma {:induction false} MulBetween(s: real, w: real, r: real, p: real)
    requires s > 0.0 && 0.0 <= w < r && s * r == p
    ensures 0.0 <= s * w < p
  {
  }

  /** A point x of the cell [o, o + s) is within half the span of the
      cell's centre c. */
  lemma {:induction false} NearCentre(c: real, x: real, o: real, s: real)
    requires o <= x < o + s && c == o + s / 2.0
    ensures c - s / 2.0 <= x < c + s / 2.0
  {
  }

  /** A latitude y whose doubled distance from -90 lies in [o, o + s) lies
      in the half-size latitude interval from -90 + o / 2. */
  lemma {:induction false} HalfAxis(o: real, s: real, y: real)
    requires o <= 2.0 * (y + 90.0) < o + s
    ensures -90.0 + o / 2.0 <= y < -90.0 + o / 2.0 + s / 2.0
  {
  }

  /** Splitting a working value w of span s into its integer part d and the
      remainder c, scaled by r into the next span s' = s / r, keeps the
      point: the corner o moves by d cells to o', and the rest is c cells of
      the next span. */
  lemma {:induction false} SplitCell(o: real, o': real, s: real, s': real, r: real, w: real, d: real, c: real)
    requires o' == o + d * s && s' * r == s && c == r * (w - d)
    ensures o' + s' * c == o + s * w
  {
    calc {
      s' * c;
      s' * (r * (w - d));
      (s' * r) * (w - d);
      s * (w - d);
    }
  }

  // ---------------------------------------------------------------------
  // The encoder's loop invariant

  /** The working values left after the field pair are a valid start for
      pair 1, whenever the position is not below (-90, -180). */
  lemma {:induction false} StartWorking(lat: real, lon: real)
    requires lat >= -90.0 && lon >= -180.0
    ensures Working(FMod(lon + 180.0, 20.0) / 2.0, FMod(lat + 90.0, 10.0), 1)
  {
  }

  /** One loop iteration: the carry of a working value of pair i is a
      working value of pair i + 1, and equals the next radix times the
      fractional part. */
  lemma {:induction false} ScaleStep(w: real, i: nat)
    requires 1 <= i && 0.0 <= w < Radix(i) as real
    ensures FMod(w, 1.0) == w - IntVal(w) as real
    ensures Carry(w, i + 1) == Radix(i + 1) as real * (w - IntVal(w) as real)
    ensures 0.0 <= Carry(w, i + 1) < Radix(i + 1) as real
  {
    assert w / 1.0 == w;
  }

  lemma {:induction false} CarryWorking(lon: real, lat: real, i: nat)
    requires 1 <= i && Working(lon, lat, i)
    ensures Working(Carry(lon, i + 1), Carry(lat, i + 1), i + 1)
  {
    ScaleStep(lon, i);
    ScaleStep(lat, i);
  }

  /** The pair emitted from working values of pair i has two characters of
      pair i's class, and the decoder reads back their integer parts. */
  lemma {:induction false} EmittedPair(lon: real, lat: real, i: nat)
    requires 1 <= i && Working(lon, lat, i)
    ensures |EmitPair(lon, lat, i + 1)| == 2
    ensures InClass(EmitPair(lon, lat, i + 1)[0], i) && InClass(EmitPair(lon, lat, i + 1)[1], i)
    ensures CharIndex(EmitPair(lon, lat, i + 1)[0], i) == IntVal(lon)
    ensures CharIndex(EmitPair(lon, lat, i + 1)[1], i) == IntVal(lat)
  {
    var p := EmitPair(lon, lat, i + 1);
    var d, e := IntVal(lon), IntVal(lat);
    if (i + 1) % 2 == 0 {
      assert p == [DigitChar(d), DigitChar(e)];
    } else {
      assert p == [Chr(A + d), Chr(A + e)];
    }
  }

  /** The loop appends two characters per remaining iteration. */
  lemma {:induction false} TailLength(lon: real, lat: real, i: nat, precision: int)
    requires 1 <= i && Working(lon, lat, i)
    ensures |Tail(lon, lat, i, precision)| == if i < precision then 2 * (precision - i) else 0
    decreases precision - i
  {
    if i < precision {
      EmittedPair(lon, lat, i);
      CarryWorking(lon, lat, i);
      TailLength(Carry(lon, i + 1), Carry(lat, i + 1), i + 1, precision);
    }
  }

  /** Each character the loop appends from counter value i on is of the
      class of its pair. */
  lemma {:induction false} TailShape(lon: real, lat: real, i: nat, precision: int)
    requires 1 <= i && Working(lon, lat, i)
    ensures forall j :: 0 <= j < |Tail(lon, lat, i, precision)| ==> InClass(Tail(lon, lat, i, precision)[j], i + j / 2)
    decreases precision - i
  {
    if i < precision {
      var pair := EmitPair(lon, lat, i + 1);
      var rest := Tail(Carry(lon, i + 1), Carry(lat, i + 1), i + 1, precision);
      EmittedPair(lon, lat, i);
      CarryWorking(lon, lat, i);
      TailShape(Carry(lon, i + 1), Carry(lat, i + 1), i + 1, precision);
      var t := Tail(lon, lat, i, precision);
      assert t == pair + rest;
      forall j | 0 <= j < |t|
        ensures InClass(t[j], i + j / 2)
      {
        if j >= 2 {
          assert t[j] == rest[j - 2] && i + 1 + (j - 2) / 2 == i + j / 2;
        }
      }
    }
  }

  /** The field pair of an in-range position: two letters A-R, read back by
      the decoder as the field's indices. */
  lemma {:induction false} FieldPairInClass(lat: real, lon: real)
    requires InRange(lat, lon)
    ensures InClass(FieldPair(lat, lon)[0], 0) && InClass(FieldPair(lat, lon)[1], 0)
    ensures CharIndex(FieldPair(lat, lon)[0], 0) == IntVal((lon + 180.0) / 20.0)
    ensures CharIndex(FieldPair(lat, lon)[1], 0) == IntVal((lat + 90.0) / 10.0)
  {
  }

  /** The encoded locator is the field pair followed by what the loop
      appends. */
  lemma {:induction false} LocatorParts(position: seq<real>, precision: int)
    requires |position| == 2
    ensures
      var g := Locator(position, precision).value;
      var lat, lon := position[0], position[1];
      |g| >= 2 && g[..2] == FieldPair(lat, lon)
      && g[2..] == Tail(FMod(lon + 180.0, 20.0) / 2.0, FMod(lat + 90.0, 10.0), 1, precision)
  {
  }

  /** A string made of two field characters followed by what the loop
      appends from working values of pair 1 has 2 characters for precision
      1 or less and twice the precision otherwise. */
  lemma {:induction false} PartsLength(g: string, lat: real, lon: real, precision: int)
    requires lat >= -90.0 && lon >= -180.0 && |g| >= 2
    requires g[2..] == Tail(FMod(lon + 180.0, 20.0) / 2.0, FMod(lat + 90.0, 10.0), 1, precision)
    ensures |g| == if precision <= 1 then 2 else 2 * precision
  {
    assert |g| == 2 + |g[2..]|;
    StartWorking(lat, lon);
    TailLength(FMod(lon + 180.0, 20.0) / 2.0, FMod(lat + 90.0, 10.0), 1, precision);
  }

  /** The length of `latlon2loc`'s result: 2 for precision 1 or less, twice
      the precision otherwise, for any position not below (-90, -180). */
  lemma {:induction false} LocatorLength(position: seq<real>, precision: int)
    requires |position| == 2 && position[0] >= -90.0 && position[1] >= -180.0
    ensures Locator(position, precision).Returned?
    ensures |Locator(position, precision).value| == if precision <= 1 then 2 else 2 * precision
  {
    LocatorParts(position, precision);
    PartsLength(Locator(position, precision).value, position[0], position[1], precision);
  }

  /** A string of two field letters followed by pairs of the classes of
      pairs 1, 2, ... has every pair in its class. */
  lemma {:induction false} ClassesOfParts(g: string)
    requires |g| >= 2 && InClass(g[0], 0) && InClass(g[1], 0)
    requires forall j :: 0 <= j < |g[2..]| ==> InClass(g[2..][j], 1 + j / 2)
    ensures PairsInClass(g)
  {
    forall j | 2 <= j < |g|
      ensures InClass(g[j], j / 2)
    {
      assert g[j] == g[2..][j - 2] && 1 + (j - 2) / 2 == j / 2;
    }
  }

  /** A string made of the field pair of an in-range position followed by
      what the loop appends has every pair in its class. */
  lemma {:induction false} PartsClasses(g: string, lat: real, lon: real, precision: int)
    requires InRange(lat, lon) && |g| >= 2 && g[..2] == FieldPair(lat, lon)
    requires g[2..] == Tail(FMod(lon + 180.0, 20.0) / 2.0, FMod(lat + 90.0, 10.0), 1, precision)
    ensures PairsInClass(g)
  {
    StartWorking(lat, lon);
    TailShape(FMod(lon + 180.0, 20.0) / 2.0, FMod(lat + 90.0, 10.0), 1, precision);
    FieldPairInClass(lat, lon);
    assert g[0] == g[..2][0] && g[1] == g[..2][1];
    ClassesOfParts(g);
  }

  /** An in-range position gives characters of each pair's class: letters
      A-R in the field, digits in pairs 1, 3 and 5, letters A-X in pairs 2
      and 4 (and so on for longer locators). */
  lemma {:induction false} LocatorClasses(position: seq<real>, precision: int)
    requires |position| == 2 && InRange(position[0], position[1])
    ensures PairsInClass(Locator(position, precision).value)
  {
    LocatorParts(position, precision);
    PartsClasses(Locator(position, precision).value, position[0], position[1], precision);
  }

  // ---------------------------------------------------------------------
  // Which encoded locators decode

  /** Letters and digits of the pair classes survive `strtoupper(trim(...))`. */
  lemma {:induction false} NormalizeClassed(g: string)
    requires PairsInClass(g)
    ensures Normalize(g) == g
  {
    if g != [] {
      assert InClass(g[0], 0) && InClass(g[|g| - 1], (|g| - 1) / 2);
    }
    TrimNoop(g);
    UpperShape(g);
    forall j | 0 <= j < |g|
      ensures Upper(g)[j] == g[j]
    {
      assert InClass(g[j], j / 2);
    }
  }

  /** A string of letter and digit pairs of the length the encoder gives
      for a precision decodes exactly when that precision is at most 6. */
  lemma {:induction false} ClassedDecodes(g: string, precision: int)
    requires PairsInClass(g) && |g| == if precision <= 1 then 2 else 2 * precision
    ensures Decoded(g).Returned? <==> precision <= 6
  {
    NormalizeClassed(g);
    assert ValidLength(|g|) <==> precision <= 6;
  }

  /** An encoded in-range position decodes exactly when the precision is at
      most 6: longer locators are rejected for their length. */
  lemma {:induction false} EncodedDecodes(position: seq<real>, precision: int)
    requires |position| == 2 && InRange(position[0], position[1])
    ensures Decoded(Locator(position, precision).value).Returned? <==> precision <= 6
  {
    LocatorLength(position, precision);
    LocatorClasses(position, precision);
    ClassedDecodes(Locator(position, precision).value, precision);
  }

  // ---------------------------------------------------------------------
  // Round trip

  /** The point the encoder's state stands for on one axis, in longitude
      units from the origin, once it has emitted the first i pairs of g: the
      corner of their cell plus the working value in units of pair i's
      span. */
  function Position(g: string, w: real, i: nat, axis: nat): real
    requires axis < 2 && 2 * i <= |g|
  {
    Offset(g, i, axis) + LonSpan(i) * w
  }

  /** Equal factors give equal products (stated for the solver, which does
      not substitute inside products on its own). */
  lemma {:induction false} MulEqual(a: real, a': real, b: real, b': real)
    requires a == a' && b == b'
    ensures a * b == a' * b'
  {
  }

  /** One loop iteration keeps the point the state stands for: the pair
      whose character is worth d moves the corner by d cells of its span,
      and the remainder c is carried into the next span. */
  lemma {:induction false} PositionStep(g: string, w: real, c: real, i: nat, axis: nat, d: int)
    requires axis < 2 && 1 <= i && 2 * i + 2 <= |g|
    requires CharIndex(g[2 * i + axis], i) == d
    requires c == Radix(i + 1) as real * (w - d as real)
    ensures Position(g, c, i + 1, axis) == Position(g, w, i, axis)
  {
    OffsetUnfold(g, i, axis, d);
    SpanTimesRadix(i + 1);
    SplitCell(Offset(g, i, axis), Offset(g, i + 1, axis), LonSpan(i), LonSpan(i + 1), Radix(i + 1) as real, w, d as real, c);
  }

  /** A working value of pair i stands for a point of the cell of the
      first i pairs. */
  lemma {:induction false} PositionInCell(g: string, w: real, i: nat, axis: nat)
    requires axis < 2 && 1 <= i && 2 * i <= |g| && 0.0 <= w < Radix(i) as real
    ensures Offset(g, i, axis) <= Position(g, w, i, axis) < Offset(g, i, axis) + LonSpan(i - 1)
  {
    SpanTimesRadix(i);
    MulBetween(LonSpan(i), w, Radix(i) as real, ParentSpan(i));
  }

  /** Reading the next pair off a string whose suffix is a pair followed by
      the rest. */
  lemma {:induction false} SuffixStep(g: string, k: nat, pair: string, rest: string)
    requires k <= |g| && |pair| == 2 && g[k..] == pair + rest
    ensures k + 2 <= |g| && g[k] == pair[0] && g[k + 1] == pair[1] && g[k + 2..] == rest
  {
    assert g[k..][0] == pair[0] && g[k..][1] == pair[1];
    assert g[k + 2..] == g[k..][2..];
  }

  /** The first pair of what the loop appends from counter value i on is
      the pair emitted from the working values; the rest is what it appends
      from i + 1 on. */
  lemma {:induction false} TailSplit(g: string, lon: real, lat: real, i: nat, precision: int)
    requires 1 <= i < precision && 2 * i <= |g| && Working(lon, lat, i)
    requires g[2 * i..] == Tail(lon, lat, i, precision)
    ensures 2 * i + 2 <= |g|
    ensures g[2 * i] == EmitPair(lon, lat, i + 1)[0] && g[2 * i + 1] == EmitPair(lon, lat, i + 1)[1]
    ensures g[2 * (i + 1)..] == Tail(Carry(lon, i + 1), Carry(lat, i + 1), i + 1, precision)
  {
    EmittedPair(lon, lat, i);
    SuffixStep(g, 2 * i, EmitPair(lon, lat, i + 1), Tail(Carry(lon, i + 1), Carry(lat, i + 1), i + 1, precision));
    assert 2 * (i + 1) == 2 * i + 2;
  }

  /** One loop iteration, on one axis: once the pair emitted from the
      working values of pair i stands at pair i of g, the carried working
      value stands for the same point as w. */
  lemma {:induction false} CarryStep(g: string, lon: real, lat: real, i: nat, axis: nat, w: real)
    requires axis < 2 && 1 <= i && 2 * i + 2 <= |g| && Working(lon, lat, i)
    requires g[2 * i] == EmitPair(lon, lat, i + 1)[0] && g[2 * i + 1] == EmitPair(lon, lat, i + 1)[1]
    requires w == (if axis == 0 then lon else lat)
    ensures Position(g, Carry(w, i + 1), i + 1, axis) == Position(g, w, i, axis)
  {
    EmittedPair(lon, lat, i);
    assert CharIndex(g[2 * i + axis], i) == IntVal(w) by {
      if axis == 0 {
        assert g[2 * i + axis] == g[2 * i];
      } else {
        assert g[2 * i + axis] == g[2 * i + 1];
      }
    }
    ScaleStep(w, i);
    PositionStep(g, w, Carry(w, i + 1), i, axis, IntVal(w));
  }

  /** If the encoder has emitted the first i pairs of g, the rest of g is
      what its loop appends from counter value i on, and p is the point its
      state stands for on one axis (w being that axis' working value), then
      g has n pairs and p lies in the cell of the whole of g. */
  lemma {:induction false} TailInCell(g: string, lon: real, lat: real, i: nat, precision: int, axis: nat, w: real, n: nat, p: real)
    requires axis < 2 && 1 <= i && 2 * i <= |g| && Working(lon, lat, i)
    requires g[2 * i..] == Tail(lon, lat, i, precision)
    requires w == (if axis == 0 then lon else lat)
    requires n == (if i < precision then precision else i)
    requires p == Position(g, w, i, axis)
    ensures AxisCell(g, n, axis, p)
    decreases precision - i
  {
    if i < precision {
      var lon', lat' := Carry(lon, i + 1), Carry(lat, i + 1);
      var w' := if axis == 0 then lon' else lat';
      TailSplit(g, lon, lat, i, precision);
      CarryStep(g, lon, lat, i, axis, w);
      CarryWorking(lon, lat, i);
      TailInCell(g, lon', lat', i + 1, precision, axis, w', n, p);
    } else {
      assert |g[2 * i..]| == 0;
      PositionInCell(g, w, i, axis);
    }
  }

  /** After the field pair, the state stands for the position itself:
      lon + 180 on axis 0 and twice lat + 90 on axis 1. */
  lemma {:induction false} FieldPosition(g: string, lat: real, lon: real)
    requires InRange(lat, lon) && |g| >= 2 && g[..2] == FieldPair(lat, lon)
    ensures Position(g, FMod(lon + 180.0, 20.0) / 2.0, 1, 0) == lon + 180.0
    ensures Position(g, FMod(lat + 90.0, 10.0), 1, 1) == 2.0 * (lat + 90.0)
  {
    var h := FieldPair(lat, lon);
    assert g[0] == h[0] && g[1] == h[1];
    FieldPairInClass(lat, lon);
    SpanTable();
    var x, y := lon + 180.0, lat + 90.0;
    var a0, b0 := IntVal(x / 20.0) as real, IntVal(y / 10.0) as real;
    OffsetUnfold(g, 0, 0, CharIndex(g[0], 0));
    assert Offset(g, 1, 0) == CharIndex(g[0], 0) as real * LonSpan(0);
    MulEqual(CharIndex(g[0], 0) as real, a0, LonSpan(0), 20.0);
    OffsetUnfold(g, 0, 1, CharIndex(g[1], 0));
    assert Offset(g, 1, 1) == CharIndex(g[1], 0) as real * LonSpan(0);
    MulEqual(CharIndex(g[1], 0) as real, b0, LonSpan(0), 20.0);
    assert FMod(x, 20.0) == 20.0 * (x / 20.0 - a0);
    assert FMod(y, 10.0) == 10.0 * (y / 10.0 - b0);
    MulEqual(LonSpan(1), 2.0, FMod(x, 20.0) / 2.0, 10.0 * (x / 20.0 - a0));
    MulEqual(LonSpan(1), 2.0, FMod(y, 10.0), 10.0 * (y / 10.0 - b0));
  }

  /** A string made of the field pair of an in-range position followed by
      what the loop appends has n pairs, and the position lies in the cell
      they name. */
  lemma {:induction false} PartsCell(g: string, lat: real, lon: real, precision: int, n: nat)
    requires InRange(lat, lon) && |g| >= 2 && g[..2] == FieldPair(lat, lon)
    requires g[2..] == Tail(FMod(lon + 180.0, 20.0) / 2.0, FMod(lat + 90.0, 10.0), 1, precision)
    requires n == if precision < 1 then 1 else precision
    ensures InCell(g, n, lat, lon)
  {
    var w, v := FMod(lon + 180.0, 20.0) / 2.0, FMod(lat + 90.0, 10.0);
    StartWorking(lat, lon);
    FieldPosition(g, lat, lon);
    TailInCell(g, w, v, 1, precision, 0, w, n, lon + 180.0);
    TailInCell(g, w, v, 1, precision, 1, v, n, 2.0 * (lat + 90.0));
    HalfAxis(Offset(g, n, 1), LonSpan(n - 1), lat);
  }

  /** An in-range position lies in the cell of its own locator, for every
      precision: the locator has n pairs and the position is inside the
      n-pair cell they name. */
  lemma {:induction false} LocatorCell(position: seq<real>, precision: int)
    requires |position| == 2 && InRange(position[0], position[1])
    ensures InCell(Locator(position, precision).value, if precision < 1 then 1 else precision, position[0], position[1])
  {
    LocatorParts(position, precision);
    PartsCell(Locator(position, precision).value, position[0], position[1], precision,
      if precision < 1 then 1 else precision);
  }

  /** A locator of n pairs in their classes, whose cell contains (lat,
      lon), decodes to a point within half the last pair's span of (lat,
      lon) on each axis: the centre of that cell. */
  lemma {:induction false} DecodeNear(g: string, n: nat, lat: real, lon: real)
    requires PairsInClass(g) && n <= 6 && InCell(g, n, lat, lon)
    ensures Decoded(g) == Returned(Centre(g))
    ensures Centre(g).lon - LonSpan(n - 1) / 2.0 <= lon < Centre(g).lon + LonSpan(n - 1) / 2.0
    ensures Centre(g).lat - LatSpan(n - 1) / 2.0 <= lat < Centre(g).lat + LatSpan(n - 1) / 2.0
  {
    NormalizeClassed(g);
    CentreOf(g, n);
    NearCentre(Centre(g).lon, lon, CornerLon(g, n), LonSpan(n - 1));
    NearCentre(Centre(g).lat, lat, CornerLat(g, n), LatSpan(n - 1));
  }

  /** The round trip: encoding an in-range position with precision up to 6
      and decoding the locator gives the centre of the cell containing the
      position, so each coordinate is within half the last pair's span of
      the decoded one. */
  lemma {:induction false} RoundTrip(position: seq<real>, precision: int)
    requires |position| == 2 && InRange(position[0], position[1]) && precision <= 6
    ensures
      var g := Locator(position, precision).value;
      var n := if precision < 1 then 1 else precision;
      var lat, lon := position[0], position[1];
      |g| == 2 * n && Decoded(g) == Returned(Centre(g)) && InCell(g, n, lat, lon)
      && Centre(g).lon - LonSpan(n - 1) / 2.0 <= lon < Centre(g).lon + LonSpan(n - 1) / 2.0
      && Centre(g).lat - LatSpan(n - 1) / 2.0 <= lat < Centre(g).lat + LatSpan(n - 1) / 2.0
  {
    var g := Locator(position, precision).value;
    var n := if precision < 1 then 1 else precision;
    var lat, lon := position[0], position[1];
    LocatorCell(position, precision);
    assert InCell(g, n, lat, lon);
    LocatorClasses(position, precision);
    DecodeNear(g, n, lat, lon);
  }
}
