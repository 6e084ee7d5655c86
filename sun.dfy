/** The decision logic of the sun-times service: the nearest time zone to a
    position, the rounding of a time to the minute, the polar-day/night
    classification of a day, and the column list and headers of the
    output. The spherical distance, the time-zone database and the
    sun-position library are outside the model: the distance and the
    library's answers are parameters. */
module Sun {
  import opened Php

  datatype Option<T> = None | Some(value: T)

  // ---------------------------------------------------------------------
  // get_nearest_timezone

  datatype Location = Location(latitude: real, longitude: real)

  /** A time-zone identifier with the location the time-zone database gives
      for it, if any. */
  datatype Zone = Zone(id: string, location: Option<Location>)

  predicate NoneLocated(zones: seq<Zone>) {
    forall j :: 0 <= j < |zones| ==> zones[j].location.None?
  }

  /** Zone k has a location, none is nearer, and every located zone before
      it is strictly farther away. */
  predicate FirstNearest(zones: seq<Zone>, distance: Location -> real, k: int) {
    && 0 <= k < |zones| && zones[k].location.Some?
    && (forall j :: 0 <= j < |zones| && zones[j].location.Some? ==>
          distance(zones[k].location.value) <= distance(zones[j].location.value))
    && (forall j :: 0 <= j < k && zones[j].location.Some? ==>
          distance(zones[k].location.value) < distance(zones[j].location.value))
  }

  /** `$closestTimezone ?: 'UTC'`. */
  function OrUtc(id: string): (r: string)
    ensures !Falsy(r)
    ensures Falsy(id) <==> r == "UTC" && id != "UTC"
    ensures !Falsy(id) ==> r == id
  {
    if Falsy(id) then "UTC" else id
  }

  /** `get_nearest_timezone` on the identifiers the database lists: the
      first located zone of least distance, or UTC when no zone is located.
      `None` stands for the initial INF. */
  method NearestTimezone(zones: seq<Zone>, distance: Location -> real) returns (r: string)
    ensures NoneLocated(zones) ==> r == "UTC"
    ensures !NoneLocated(zones) ==> exists k :: FirstNearest(zones, distance, k) && r == OrUtc(zones[k].id)
  {
    if |zones| == 0 {
      return "UTC";
    }
    var closest := "";
    var shortest: Option<real> := None;
    ghost var best := -1;
    for n := 0 to |zones|
      invariant shortest.None? ==> closest == "" && forall j :: 0 <= j < n ==> zones[j].location.None?
      invariant shortest.Some? ==>
        && 0 <= best < n && zones[best].location.Some?
        && closest == zones[best].id && shortest.value == distance(zones[best].location.value)
        && (forall j :: 0 <= j < n && zones[j].location.Some? ==> shortest.value <= distance(zones[j].location.value))
        && (forall j :: 0 <= j < best && zones[j].location.Some? ==> shortest.value < distance(zones[j].location.value))
    {
      var location := zones[n].location;
      if location.None? {
        continue;
      }
      var d := distance(location.value);
      if shortest.None? || d < shortest.value {
        shortest := Some(d);
        closest := zones[n].id;
        best := n;
      }
    }
    r := OrUtc(closest);
    if shortest.Some? {
      assert FirstNearest(zones, distance, best);
    }
  }

  /** The zone `get_nearest_timezone` picks is determined: at most one zone
      is the first nearest. */
  lemma {:induction false} FirstNearestUnique(zones: seq<Zone>, distance: Location -> real, k: int, k': int)
    requires FirstNearest(zones, distance, k) && FirstNearest(zones, distance, k')
    ensures k == k'
  {
    var d, d' := distance(zones[k].location.value), distance(zones[k'].location.value);
    assert k < k' ==> d' < d;
    assert k' < k ==> d < d';
  }

  // ---------------------------------------------------------------------
  // formatTimeRounded

  /** The minute of the day a time rounds to: half a minute or more rounds
      up, and 24:00 is 00:00. */
  function RoundedMinute(hours: int, minutes: int, seconds: int): (t: int)
    requires 0 <= hours < 24 && 0 <= minutes < 60 && 0 <= seconds < 60
    ensures 0 <= t < 1440
  {
    (hours * 60 + minutes + (if seconds >= 30 then 1 else 0)) % 1440
  }

  /** "HH:MM" for a minute of the day. */
  function Clock(t: int): string
    requires 0 <= t < 1440
  {
    Pad2(t / 60) + ":" + Pad2(t % 60)
  }

  /** A clock string is two digits, a colon and two digits, and reading the
      digits back gives the hour (below 24) and the minute (below 60). */
  lemma {:induction false} ClockShape(t: int)
    requires 0 <= t < 1440
    ensures |Clock(t)| == 5 && Clock(t)[2] == ':'
    ensures IsDigit(Clock(t)[0]) && IsDigit(Clock(t)[1]) && IsDigit(Clock(t)[3]) && IsDigit(Clock(t)[4])
    ensures DecimalValue(Clock(t)[..2]) == t / 60 < 24 && DecimalValue(Clock(t)[3..]) == t % 60 < 60
  {
    var h, m := Pad2(t / 60), Pad2(t % 60);
    assert Clock(t) == h + ":" + m;
    assert Clock(t)[..2] == h && Clock(t)[3..] == m;
  }

  /** Different minutes of the day give different clock strings. */
  lemma {:induction false} ClockInjective(t: int, t': int)
    requires 0 <= t < 1440 && 0 <= t' < 1440 && Clock(t) == Clock(t')
    ensures t == t'
  {
    ClockShape(t);
    ClockShape(t');
  }

  /** `formatTimeRounded` on the hour, minute and second of a DateTime. */
  method FormatTimeRounded(hours: int, minutes: int, seconds: int) returns (r: string)
    requires 0 <= hours < 24 && 0 <= minutes < 60 && 0 <= seconds < 60
    ensures r == Clock(RoundedMinute(hours, minutes, seconds))
  {
    var h, m := hours, minutes;
    if seconds >= 30 {
      m := m + 1;
      if m >= 60 {
        m := 0;
        h := (h + 1) % 24;
      }
    }
    var t := RoundedMinute(hours, minutes, seconds);
    assert t == h * 60 + m;
    assert t / 60 == h && t % 60 == m;
    r := Pad2(h) + ":" + Pad2(m);
  }

  /** Under half a minute, the hour and minute are kept. */
  lemma {:induction false} RoundsDown(hours: int, minutes: int, seconds: int)
    requires 0 <= hours < 24 && 0 <= minutes < 60 && 0 <= seconds < 30
    ensures Clock(RoundedMinute(hours, minutes, seconds)) == Pad2(hours) + ":" + Pad2(minutes)
  {
    var t := hours * 60 + minutes;
    assert RoundedMinute(hours, minutes, seconds) == t;
    assert t / 60 == hours && t % 60 == minutes;
  }

  /** From half a minute on, the minute advances; minute 60 becomes 00 of
      the next hour, and hour 24 becomes 00. */
  lemma {:induction false} RoundsUp(hours: int, minutes: int, seconds: int)
    requires 0 <= hours < 24 && 0 <= minutes < 60 && 30 <= seconds < 60
    ensures minutes < 59 ==> Clock(RoundedMinute(hours, minutes, seconds)) == Pad2(hours) + ":" + Pad2(minutes + 1)
    ensures minutes == 59 ==> Clock(RoundedMinute(hours, minutes, seconds)) == Pad2((hours + 1) % 24) + ":00"
  {
    var t := RoundedMinute(hours, minutes, seconds);
    if minutes < 59 {
      assert t == hours * 60 + minutes + 1;
      assert t / 60 == hours && t % 60 == minutes + 1;
    } else {
      assert t == ((hours + 1) % 24) * 60;
      assert t / 60 == (hours + 1) % 24 && t % 60 == 0;
      assert Pad2(0) == "00";
    }
  }

  /** 23:59:30 rounds to midnight. */
  lemma {:induction false} MidnightWrap()
    ensures Clock(RoundedMinute(23, 59, 30)) == "00:00"
  {
    assert RoundedMinute(23, 59, 30) == 0;
    assert Pad2(0) == "00";
  }

  // ---------------------------------------------------------------------
  // The condition of a day

  /** The classification of a day from the sun-position library's answers:
      whether sunrise and sunset are null, and the altitude at solar noon
      (`None` when there is no solar noon or no altitude). */
  function Condition(sunriseNull: bool, sunsetNull: bool, altitude: Option<real>): (c: string)
    ensures c == "Normal" <==> !(sunriseNull && sunsetNull)
    ensures c == "Polar Day" <==> sunriseNull && sunsetNull && altitude.Some? && altitude.value > 0.0
    ensures c == "Polar Night" <==> sunriseNull && sunsetNull && altitude.Some? && altitude.value < 0.0
    ensures c == "Undet" <==> sunriseNull && sunsetNull && (altitude.None? || altitude.value == 0.0)
  {
    if sunriseNull && sunsetNull then
      if altitude.Some? && altitude.value > 0.0 then "Polar Day"
      else if altitude.Some? && altitude.value < 0.0 then "Polar Night"
      else "Undet"
    else "Normal"
  }

  // ---------------------------------------------------------------------
  // Columns and headers

  /** The fourteen sun phases reported when no column is selected. */
  const DefaultColumns: seq<string> := [
    "nightend", "nauticaldawn", "dawn", "sunrise", "sunriseend", "goldenhourend", "solarnoon",
    "goldenhour", "sunsetstart", "sunset", "dusk", "nauticaldusk", "night", "nadir"]

  /** `array_map('trim', ...)`. */
  function TrimEach(s: seq<string>): (r: seq<string>)
    ensures |r| == |s| && forall k :: 0 <= k < |s| ==> r[k] == Trim(s[k])
  {
    ArrayMap(Trim, s)
  }

  /** `array_filter` without a callback: drops the falsy strings. */
  function DropFalsy(s: seq<string>): (r: seq<string>)
    ensures forall x :: x in r <==> x in s && !Falsy(x)
    ensures |r| <= |s|
  {
    ArrayFilter(Truthy, s)
  }

  /** `array_map('strtolower', ...)`. */
  function LowerEach(s: seq<string>): (r: seq<string>)
    ensures |r| == |s| && forall k :: 0 <= k < |s| ==> r[k] == Lower(s[k])
  {
    ArrayMap(Lower, s)
  }

  /** The columns the pieces of the parameter name: trimmed, the falsy ones
      dropped, lower-cased. */
  function Picked(pieces: seq<string>): seq<string> {
    LowerEach(DropFalsy(TrimEach(pieces)))
  }

  /** The selected columns for the `columns` request parameter ("" when it
      is absent): split on commas, trimmed, falsy entries dropped,
      lower-cased, or the defaults when nothing remains. */
  function SelectedColumns(param: string): seq<string> {
    var picked := Picked(Explode(',', param));
    if picked == [] then DefaultColumns else picked
  }

  /** The trimmed pieces that survive the filter are the trims of the
      pieces that do not trim to a falsy string. */
  lemma {:induction false} KeptMembers(pieces: seq<string>, x: string)
    ensures x in DropFalsy(TrimEach(pieces)) <==> exists p :: p in pieces && !Falsy(Trim(p)) && x == Trim(p)
  {
    var trimmed := TrimEach(pieces);
    if x in trimmed && !Falsy(x) {
      var i :| 0 <= i < |trimmed| && trimmed[i] == x;
      assert pieces[i] in pieces;
    }
    if exists p :: p in pieces && !Falsy(Trim(p)) && x == Trim(p) {
      var p :| p in pieces && !Falsy(Trim(p)) && x == Trim(p);
      var i :| 0 <= i < |pieces| && pieces[i] == p;
      assert trimmed[i] == x;
    }
  }

  /** The lower-cased list holds the lower-case forms of its input's
      members. */
  lemma {:induction false} LoweredMembers(kept: seq<string>, c: string)
    ensures c in LowerEach(kept) <==> exists x :: x in kept && c == Lower(x)
  {
    var picked := LowerEach(kept);
    if c in picked {
      var i :| 0 <= i < |picked| && picked[i] == c;
      assert kept[i] in kept;
    }
    if exists x :: x in kept && c == Lower(x) {
      var x :| x in kept && c == Lower(x);
      var i :| 0 <= i < |kept| && kept[i] == x;
      assert picked[i] == c;
    }
  }

  /** The columns come from the pieces of the parameter: when every piece
      trims to a falsy string the defaults are used, and otherwise the
      columns are exactly the trimmed, lower-cased pieces that are not
      falsy after trimming. */
  lemma {:induction false} SelectedMembers(param: string)
    ensures var pieces := Explode(',', param);
      (forall p :: p in pieces ==> Falsy(Trim(p))) ==> SelectedColumns(param) == DefaultColumns
    ensures var pieces := Explode(',', param);
      (exists p :: p in pieces && !Falsy(Trim(p))) ==>
        forall c :: c in SelectedColumns(param) <==> exists p :: p in pieces && !Falsy(Trim(p)) && c == Lower(Trim(p))
  {
    var pieces := Explode(',', param);
    var kept := DropFalsy(TrimEach(pieces));
    var picked := LowerEach(kept);
    if forall p :: p in pieces ==> Falsy(Trim(p)) {
      if picked != [] {
        assert kept[0] in kept;
        KeptMembers(pieces, kept[0]);
      }
    } else {
      var p :| p in pieces && !Falsy(Trim(p));
      KeptMembers(pieces, Trim(p));
      LoweredMembers(kept, Lower(Trim(p)));
      assert picked != [];
      forall c
        ensures c in picked <==> exists p :: p in pieces && !Falsy(Trim(p)) && c == Lower(Trim(p))
      {
        LoweredMembers(kept, c);
        if c in picked {
          var x :| x in kept && c == Lower(x);
          KeptMembers(pieces, x);
        }
        if exists p :: p in pieces && !Falsy(Trim(p)) && c == Lower(Trim(p)) {
          var q :| q in pieces && !Falsy(Trim(q)) && c == Lower(Trim(q));
          KeptMembers(pieces, Trim(q));
        }
      }
    }
  }

  /** The pieces are picked one by one, in order: the picks of ps + qs are
      those of ps followed by those of qs, and one piece gives its
      trimmed, lower-cased form unless it trims to a falsy string. */
  lemma {:induction false} PickedAppend(ps: seq<string>, qs: seq<string>)
    ensures Picked(ps + qs) == Picked(ps) + Picked(qs)
    ensures |ps| == 1 ==> Picked(ps) == if Falsy(Trim(ps[0])) then [] else [Lower(Trim(ps[0]))]
  {
    ArrayMapAppend(Trim, ps, qs);
    ArrayFilterAppend(Truthy, TrimEach(ps), TrimEach(qs));
    ArrayMapAppend(Lower, DropFalsy(TrimEach(ps)), DropFalsy(TrimEach(qs)));
    if |ps| == 1 {
      assert TrimEach(ps) == [Trim(ps[0])];
      ArrayFilterOne(Truthy, Trim(ps[0]));
    }
  }

  /** A parameter without commas selects its one trimmed, lower-cased
      column, or the defaults when it trims to a falsy string. */
  lemma {:induction false} SelectedPiece(p: string)
    requires ',' !in p
    ensures SelectedColumns(p) == if Falsy(Trim(p)) then DefaultColumns else [Lower(Trim(p))]
  {
    ExplodeAppend(',', p, "");
    assert p + "" == p;
    assert Explode(',', p) == [p];
    PickedAppend([p], []);
  }

  /** The selection keeps the order of the parameter: for a comma-joined
      parameter whose two sides both name columns, the columns are those of
      the first side followed by those of the second, repeats included. */
  lemma {:induction false} SelectedJoin(a: string, b: string)
    requires Picked(Explode(',', a)) != [] && Picked(Explode(',', b)) != []
    ensures SelectedColumns(a + "," + b) == SelectedColumns(a) + SelectedColumns(b)
  {
    ExplodeJoin(',', a, b);
    PickedAppend(Explode(',', a), Explode(',', b));
  }

  /** A column name as the selection leaves it. */
  predicate Clean(c: string) {
    !Falsy(c) && ',' !in c && Trim(c) == c && Lower(c) == c
  }

  /** Lower-casing keeps the characters `trim` looks at and the commas. */
  lemma {:induction false} LowerKeeps(s: string)
    ensures Trim(Lower(s)) == Lower(Trim(s))
    ensures ',' in Lower(s) <==> ',' in s
    ensures Lower(Lower(s)) == Lower(s)
    ensures Falsy(Lower(s)) <==> Falsy(s)
  {
    TrimLower(s);
    LowerShape(s);
    LowerShape(Lower(s));
    if ',' in Lower(s) {
      var k :| 0 <= k < |s| && Lower(s)[k] == ',';
      assert s[k] == ',';
    }
    if ',' in s {
      var k :| 0 <= k < |s| && s[k] == ',';
      assert Lower(s)[k] == ',';
    }
  }

  /** Each selected column is non-empty, not "0", free of commas, trimmed and
      lower case. */
  lemma {:induction false} SelectedClean(param: string)
    ensures SelectedColumns(param) != []
    ensures forall c :: c in SelectedColumns(param) ==> Clean(c)
  {
    var pieces := Explode(',', param);
    var trimmed := TrimEach(pieces);
    var kept := DropFalsy(trimmed);
    var picked := LowerEach(kept);
    if picked == [] {
      DefaultsClean();
    } else {
      forall c | c in picked
        ensures Clean(c)
      {
        var k :| 0 <= k < |picked| && picked[k] == c;
        var x := kept[k];
        assert x in trimmed && !Falsy(x);
        var i :| 0 <= i < |trimmed| && trimmed[i] == x;
        assert x == Trim(pieces[i]) && ',' !in pieces[i];
        TrimTwice(pieces[i]);
        TrimNoComma(pieces[i]);
        LowerKeeps(x);
      }
    }
  }

  /** `trim` keeps no character the string did not have. */
  lemma {:induction false} TrimNoComma(s: string)
    requires ',' !in s
    ensures ',' !in Trim(s)
  {
    TrimStartShape(s);
    TrimEndShape(TrimStart(s));
  }

  /** A string of characters other than upper-case letters is its own
      lower-case form. */
  lemma {:induction false} LowerNoop(s: string)
    requires forall k :: 0 <= k < |s| ==> !('A' <= s[k] <= 'Z')
    ensures Lower(s) == s
  {
    LowerShape(s);
  }

  lemma {:induction false} LowerWord(s: string)
    requires forall k :: 0 <= k < |s| ==> 'a' <= s[k] <= 'z'
    requires s != [] && s != "0"
    ensures Clean(s)
  {
    LowerNoop(s);
    TrimNoop(s);
  }

  /** The default columns are clean. */
  lemma {:induction false} DefaultsClean()
    ensures forall c :: c in DefaultColumns ==> Clean(c)
  {
    forall c | c in DefaultColumns
      ensures Clean(c)
    {
      LowerWord(c);
    }
  }

  /** Selecting from the comma-join of clean columns gives them back: the
      selection is a fixed point, so applying it to its own output changes
      nothing. */
  lemma {:induction false} SelectClean(cols: seq<string>)
    requires cols != [] && forall c :: c in cols ==> Clean(c)
    ensures SelectedColumns(Implode(',', cols)) == cols
  {
    forall k | 0 <= k < |cols|
      ensures ',' !in cols[k] && Trim(cols[k]) == cols[k] && Lower(cols[k]) == cols[k]
    {
      assert Clean(cols[k]);
    }
    ExplodeImplode(',', cols);
    assert TrimEach(cols) == cols;
    DropFalsyNoop(cols);
    assert LowerEach(cols) == cols;
  }

  lemma {:induction false} DropFalsyNoop(s: seq<string>)
    requires forall x :: x in s ==> !Falsy(x)
    ensures DropFalsy(s) == s
  {
    if s != [] {
      DropFalsyNoop(s[1..]);
    }
  }

  /** The selection is idempotent on its own comma-joined output. */
  lemma {:induction false} SelectIdempotent(param: string)
    ensures SelectedColumns(Implode(',', SelectedColumns(param))) == SelectedColumns(param)
  {
    SelectedClean(param);
    SelectClean(SelectedColumns(param));
  }

  /** The output headers for the selected columns: date and condition, the
      columns without later duplicates, then latitude and longitude. */
  function Headers(cols: seq<string>): seq<string> {
    Unique(["date", "condition"] + cols) + ["latitude", "longitude"]
  }

  /** The headers start with date and condition and end with latitude and
      longitude; in between, each name occurs once, the names are those of
      date, condition and the columns, and they keep the order of their
      first occurrences. */
  lemma {:induction false} HeadersShape(cols: seq<string>)
    ensures var h, all := Headers(cols), ["date", "condition"] + cols;
      && |h| >= 4 && h[..2] == ["date", "condition"] && h[|h| - 2..] == ["latitude", "longitude"]
      && NoDup(h[..|h| - 2])
      && (forall x :: x in h[..|h| - 2] <==> x == "date" || x == "condition" || x in cols)
      && (forall i, j :: 0 <= i < j < |h| - 2 ==> FirstIndex(all, h[i]) < FirstIndex(all, h[j]))
  {
    var front: seq<string> := ["date", "condition"];
    var u := Unique(front + cols);
    UniqueNoDup(front);
    UniquePrefix(front, cols);
    UniqueOrder(front + cols);
    var h := Headers(cols);
    assert h[..|h| - 2] == u;
    assert h[..2] == u[..2];
    forall i | 0 <= i < |h| - 2
      ensures h[i] == u[i]
    {
    }
  }
}
