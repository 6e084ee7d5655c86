/** The Maidenhead grid locator codec: `latlon2loc` encodes a position as
    pairs of characters, `loc2latlon` decodes a locator to the centre of its
    cell. Pair k (counted from 0) has one character for longitude and one
    for latitude; pair 0 (the field) uses letters A-R, odd pairs use digits
    0-9 and the other even pairs letters A-X. Each pair divides the cell of
    the previous one into Radix(k) parts per axis.

    Arithmetic is exact (`real`); the floating-point rounding of the PHP
    doubles is not modelled. */
module Maidenhead {
  import opened Php

  /** `ord("A")`. */
  const A: int := 65

  datatype LatLon = LatLon(lat: real, lon: real)

  /** The messages of the two exceptions the codec throws. */
  const ArityMessage := "array of latitude and longitude required"
  const LengthMessage := "Maidenhead grid locator requires 2-12 characters, and an even number of characters"

  // ---------------------------------------------------------------------
  // The cell geometry shared by both directions

  /** How many values pair k takes on each axis in a well-formed locator. */
  function Radix(k: nat): (r: nat)
    ensures r == 10 || r == 18 || r == 24
  {
    if k == 0 then 18 else if k % 2 == 1 then 10 else 24
  }

  /** The recurrence of the cell widths: 20 degrees for the field, then
      each pair divides the previous width by 10 (digit pairs) or 24
      (letter pairs). */
  function Span(k: nat): (s: real)
    ensures s > 0.0
  {
    if k == 0 then 20.0
    else if k % 2 == 1 then Span(k - 1) / 10.0
    else Span(k - 1) / 24.0
  }

  /** Longitude width of one cell of pair k, in degrees; the latitude
      height is half of it. Statements about cells use this name, which is
      not recursive, and reach the recurrence through SpanTimesRadix. */
  function LonSpan(k: nat): (s: real)
    ensures s > 0.0
  {
    Span(k)
  }

  function LatSpan(k: nat): real {
    LonSpan(k) / 2.0
  }

  /** The longitude width of the cell that pair k subdivides: the whole
      360 degrees for the field, the previous pair's cell otherwise. */
  function ParentSpan(k: nat): real {
    if k == 0 then 360.0 else LonSpan(k - 1)
  }

  /** Each pair splits its parent cell into Radix(k) cells per axis. */
  lemma {:induction false} SpanTimesRadix(k: nat)
    ensures LonSpan(k) * Radix(k) as real == ParentSpan(k)
  {
    if k == 0 {
    } else if k % 2 == 1 {
      assert Radix(k) as real == 10.0;
    } else {
      assert Radix(k) as real == 24.0;
    }
  }

  /** The spans written out in `loc2latlon` are those of the pair geometry:
      longitude 20, 2, 5/60, 5/600, 5/14400, 5/144000 degrees. */
  lemma {:induction false} SpanTable()
    ensures LonSpan(0) == 20.0 && LonSpan(1) == 2.0
    ensures LonSpan(2) == 5.0 / 60.0 && LonSpan(3) == 5.0 / 600.0
    ensures LonSpan(4) == 5.0 / 14400.0 && LonSpan(5) == 5.0 / 144000.0
  {
    assert LonSpan(1) == 20.0 / 10.0;
    assert LonSpan(2) == 2.0 / 24.0;
    assert LonSpan(3) == (5.0 / 60.0) / 10.0;
    assert LonSpan(4) == (5.0 / 600.0) / 24.0;
    assert LonSpan(5) == (5.0 / 14400.0) / 10.0;
  }

  /** The characters a well-formed locator may hold in pair k. */
  predicate InClass(c: char, k: nat) {
    if k % 2 == 1 then IsDigit(c) else A <= c as int < A + Radix(k)
  }

  predicate PairsInClass(g: string) {
    forall j :: 0 <= j < |g| ==> InClass(g[j], j / 2)
  }

  /** The lengths `loc2latlon` accepts. */
  predicate ValidLength(n: int) {
    2 <= n <= 12 && n % 2 == 0
  }

  predicate WellFormed(g: string) {
    ValidLength(|g|) && PairsInClass(g)
  }

  // ---------------------------------------------------------------------
  // Decoding

  /** The value the decoder reads from character c of pair k: `intval` of a
      digit pair, the distance from 'A' otherwise. */
  function CharIndex(c: char, k: nat): int {
    if k % 2 == 1 then IntValChar(c) else c as int - A
  }

  lemma {:induction false} CharIndexInClass(c: char, k: nat)
    requires InClass(c, k)
    ensures 0 <= CharIndex(c, k) < Radix(k)
  {
  }

  /** The distance, in longitude degrees, of the corner of the cell named by
      the first n pairs from the origin, on axis 0 (longitude) or 1
      (latitude, which is measured in half-degrees here). */
  function Offset(g: string, n: nat, axis: nat): real
    requires axis < 2 && 2 * n <= |g|
  {
    PairSum(g, n, axis)
  }

  /** The sum behind Offset: pair k adds its character's value in cells of
      pair k's span. Statements about corners use Offset, which is not
      recursive, and reach the sum through OffsetUnfold. */
  function PairSum(g: string, n: nat, axis: nat): real
    requires axis < 2 && 2 * n <= |g|
  {
    if n == 0 then 0.0
    else PairSum(g, n - 1, axis) + CharIndex(g[2 * (n - 1) + axis], n - 1) as real * LonSpan(n - 1)
  }

  /** One more pair adds its character's weight d to the corner, in cells
      of the pair's span. */
  lemma {:induction false} OffsetUnfold(g: string, k: nat, axis: nat, d: int)
    requires axis < 2 && 2 * k + 2 <= |g| && CharIndex(g[2 * k + axis], k) == d
    ensures Offset(g, k + 1, axis) == Offset(g, k, axis) + d as real * LonSpan(k)
  {
    assert Offset(g, k + 1, axis) == Offset(g, k, axis) + CharIndex(g[2 * k + axis], k) as real * LonSpan(k);
  }

  /** The south-west corner of the cell of the first n pairs. */
  function CornerLon(g: string, n: nat): real
    requires 2 * n <= |g|
  {
    -180.0 + Offset(g, n, 0)
  }

  function CornerLat(g: string, n: nat): real
    requires 2 * n <= |g|
  {
    -90.0 + Offset(g, n, 1) / 2.0
  }

  /** `strtoupper(trim($grid))`. */
  function Normalize(grid: string): string {
    Upper(Trim(grid))
  }

  /** The centre of the cell a locator of valid length names: its corner
      plus half the last pair's span on each axis. */
  function Centre(g: string): LatLon
    requires ValidLength(|g|)
  {
    var n := |g| / 2;
    LatLon(CornerLat(g, n) + LatSpan(n - 1) / 2.0, CornerLon(g, n) + LonSpan(n - 1) / 2.0)
  }

  /** `loc2latlon` as a function: the centre of the cell the normalised
      locator names, or the exception for a bad length. */
  function Decoded(grid: string): Outcome<LatLon> {
    var g := Normalize(grid);
    if ValidLength(|g|) then Returned(Centre(g))
    else Threw(InvalidArgumentException(LengthMessage))
  }

  /** (lon, lat) is the corner of the cell of the first k pairs of g. */
  ghost predicate Corner(g: string, lon: real, lat: real, k: nat) {
    2 * k <= |g| && lon == CornerLon(g, k) && lat == CornerLat(g, k)
  }

  /** Adding pair k's weights to the corner of the first k pairs gives the
      corner of the first k + 1 pairs. */
  lemma {:induction false} AddPair(g: string, k: nat, lon0: real, lat0: real, lon: real, lat: real, lonSpan: real, latSpan: real)
    requires 2 * k + 2 <= |g|
    requires lonSpan == LonSpan(k) && latSpan == LonSpan(k) / 2.0
    requires Corner(g, lon0, lat0, k)
    requires lon == lon0 + CharIndex(g[2 * k], k) as real * lonSpan
    requires lat == lat0 + CharIndex(g[2 * k + 1], k) as real * latSpan
    ensures Corner(g, lon, lat, k + 1)
  {
  }

  lemma {:induction false} CentreOfCorner(g: string, lon: real, lat: real)
    requires ValidLength(|g|) && Corner(g, lon, lat, |g| / 2)
    ensures Centre(g) == LatLon(lat + LonSpan(|g| / 2 - 1) / 4.0, lon + LonSpan(|g| / 2 - 1) / 2.0)
  {
  }

  /** The centre of a locator of n pairs, in terms of its corner. */
  lemma {:induction false} CentreOf(g: string, n: nat)
    requires ValidLength(|g|) && |g| == 2 * n
    ensures Centre(g).lon == CornerLon(g, n) + LonSpan(n - 1) / 2.0
    ensures Centre(g).lat == CornerLat(g, n) + LatSpan(n - 1) / 2.0
  {
  }

  /** `loc2latlon`: trims and upper-cases the locator, rejects a bad
      length, accumulates the corner of the cell and adds half the last
      pair's span to reach its centre. */
  method Loc2LatLon(grid: string) returns (r: Outcome<LatLon>)
    ensures r == Decoded(grid)
    ensures r.Threw? <==> !ValidLength(|Normalize(grid)|)
  {
    var g := Upper(Trim(grid));
    var n := |g|;
    if n < 2 || n > 12 || n % 2 != 0 {
      return Threw(InvalidArgumentException(LengthMessage));
    }
    var lat, lon := CellCorner(g);
    CentreOfCorner(g, lon, lat);
    SpanTable();

    if n == 2 {
      lon := lon + 20.0 / 2.0;
      lat := lat + 10.0 / 2.0;
    } else if n == 4 {
      lon := lon + 2.0 / 2.0;
      lat := lat + 1.0 / 2.0;
    } else if n == 6 {
      lon := lon + (5.0 / 60.0) / 2.0;
      lat := lat + (2.5 / 60.0) / 2.0;
    } else if n == 8 {
      lon := lon + (5.0 / 600.0) / 2.0;
      lat := lat + (2.5 / 600.0) / 2.0;
    } else if n == 10 {
      lon := lon + (5.0 / 14400.0) / 2.0;
      lat := lat + (2.5 / 14400.0) / 2.0;
    } else if n >= 12 {
      lon := lon + (5.0 / 144000.0) / 2.0;
      lat := lat + (2.5 / 144000.0) / 2.0;
    }
    return Returned(LatLon(lat, lon));
  }

  /** The accumulation of `loc2latlon` on a normalised locator of valid
      length: starting from (-180, -90), each present pair adds its index
      times the pair's span, written with the source's constants. The
      result is the south-west corner of the locator's cell. */
  method CellCorner(g: string) returns (lat: real, lon: real)
    requires ValidLength(|g|)
    ensures Corner(g, lon, lat, |g| / 2)
  {
    var n := |g|;
    SpanTable();
    lon := -180.0;
    lat := -90.0;

    lon := lon + (g[0] as int - A) as real * 20.0;
    lat := lat + (g[1] as int - A) as real * 10.0;
    AddPair(g, 0, -180.0, -90.0, lon, lat, 20.0, 10.0);

    if n >= 4 {
      ghost var lon0, lat0 := lon, lat;
      lon := lon + IntValChar(g[2]) as real * 2.0;
      lat := lat + IntValChar(g[3]) as real * 1.0;
      AddPair(g, 1, lon0, lat0, lon, lat, 2.0, 1.0);
      if n >= 6 {
        ghost var lon0, lat0 := lon, lat;
        lon := lon + (g[4] as int - A) as real * 5.0 / 60.0;
        lat := lat + (g[5] as int - A) as real * 2.5 / 60.0;
        AddPair(g, 2, lon0, lat0, lon, lat, 5.0 / 60.0, 2.5 / 60.0);
        if n >= 8 {
          ghost var lon0, lat0 := lon, lat;
          lon := lon + IntValChar(g[6]) as real * 5.0 / 600.0;
          lat := lat + IntValChar(g[7]) as real * 2.5 / 600.0;
          AddPair(g, 3, lon0, lat0, lon, lat, 5.0 / 600.0, 2.5 / 600.0);
          if n >= 10 {
            ghost var lon0, lat0 := lon, lat;
            lon := lon + (g[8] as int - A) as real * 5.0 / 14400.0;
            lat := lat + (g[9] as int - A) as real * 2.5 / 14400.0;
            AddPair(g, 4, lon0, lat0, lon, lat, 5.0 / 14400.0, 2.5 / 14400.0);
            if n >= 12 {
              ghost var lon0, lat0 := lon, lat;
              lon := lon + IntValChar(g[10]) as real * 5.0 / 144000.0;
              lat := lat + IntValChar(g[11]) as real * 2.5 / 144000.0;
              AddPair(g, 5, lon0, lat0, lon, lat, 5.0 / 144000.0, 2.5 / 144000.0);
            } else {
              assert n / 2 == 5;
            }
          } else {
            assert n / 2 == 4;
          }
        } else {
          assert n / 2 == 3;
        }
      } else {
        assert n / 2 == 2;
      }
    } else {
      assert n / 2 == 1;
    }
  }

  // ---------------------------------------------------------------------
  // Encoding

  /** The pair `latlon2loc` appends on loop iteration `next` (2, 3, ...):
      digits on even iterations, letters on odd ones. */
  function EmitPair(lon: real, lat: real, next: int): string {
    if next % 2 == 0 then StrVal(IntVal(lon)) + StrVal(IntVal(lat))
    else [Chr(A + IntVal(lon)), Chr(A + IntVal(lat))]
  }

  /** The working value carried to the next pair after iteration `next`:
      the fractional part, scaled by 24 after a digit pair and by 10 after a
      letter pair. */
  function Carry(w: real, next: int): real {
    if next % 2 == 0 then 24.0 * FMod(w, 1.0) else 10.0 * FMod(w, 1.0)
  }

  /** What the loop of `latlon2loc` appends from counter value i on, given
      the working values lon and lat. */
  function Tail(lon: real, lat: real, i: int, precision: int): string
    decreases precision - i
  {
    if i < precision then
      EmitPair(lon, lat, i + 1)
        + Tail(Carry(lon, i + 1), Carry(lat, i + 1), i + 1, precision)
    else []
  }

  /** The field pair: the 20 by 10 degree cell, counted from (-180, -90). */
  function FieldPair(lat: real, lon: real): string {
    [Chr(A + IntVal((lon + 180.0) / 20.0)), Chr(A + IntVal((lat + 90.0) / 10.0))]
  }

  /** `latlon2loc` as a function. */
  function Locator(position: seq<real>, precision: int := 6): Outcome<string> {
    if |position| != 2 then
      Threw(InvalidArgumentException(ArityMessage))
    else
      var lat, lon := position[0], position[1];
      Returned(FieldPair(lat, lon) + Tail(FMod(lon + 180.0, 20.0) / 2.0, FMod(lat + 90.0, 10.0), 1, precision))
  }

  /** The state of `latlon2loc` before its loop: the field pair and the
      working values left over from it. */
  lemma {:induction false} LocatorStart(position: seq<real>, precision: int, grid: string, lon: real, lat: real)
    requires |position| == 2 && grid == FieldPair(position[0], position[1])
    requires lon == FMod(position[1] + 180.0, 20.0) / 2.0 && lat == FMod(position[0] + 90.0, 10.0)
    ensures Locator(position, precision).value == grid + Tail(lon, lat, 1, precision)
  {
  }

  /** One loop iteration of `latlon2loc` moves one pair from the pending
      tail to the string built so far. */
  lemma {:induction false} TailStep(grid: string, lon: real, lat: real, i: int, precision: int)
    requires i < precision
    ensures grid + Tail(lon, lat, i, precision)
      == (grid + EmitPair(lon, lat, i + 1)) + Tail(Carry(lon, i + 1), Carry(lat, i + 1), i + 1, precision)
  {
    var pair, rest := EmitPair(lon, lat, i + 1), Tail(Carry(lon, i + 1), Carry(lat, i + 1), i + 1, precision);
    assert Tail(lon, lat, i, precision) == pair + rest;
    assert grid + (pair + rest) == (grid + pair) + rest;
  }

  /** `latlon2loc`: the field pair, then one pair per loop iteration. */
  method LatLon2Loc(position: seq<real>, precision: int := 6) returns (r: Outcome<string>)
    ensures r == Locator(position, precision)
    ensures r.Threw? <==> |position| != 2
  {
    if |position| != 2 {
      return Threw(InvalidArgumentException(ArityMessage));
    }
    var lat := position[0];
    var lon := position[1];

    var a := FMod(lon + 180.0, 20.0);
    var b := FMod(lat + 90.0, 10.0);
    var a0 := IntVal((lon + 180.0) / 20.0);
    var b0 := IntVal((lat + 90.0) / 10.0);
    var grid := [Chr(A + a0), Chr(A + b0)];
    lon := a / 2.0;
    lat := b;
    var i := 1;
    LocatorStart(position, precision, grid, lon, lat);

    while i < precision
      invariant 1 <= i
      invariant grid + Tail(lon, lat, i, precision) == Locator(position, precision).value
      decreases precision - i
    {
      ghost var old_grid, old_lon, old_lat := grid, lon, lat;
      TailStep(grid, lon, lat, i, precision);
      i := i + 1;
      a := FMod(lon, 1.0);
      b := FMod(lat, 1.0);
      a0 := IntVal(lon);
      b0 := IntVal(lat);
      if i % 2 == 0 {
        grid := grid + (StrVal(a0) + StrVal(b0));
        lon := 24.0 * a;
        lat := 24.0 * b;
      } else {
        grid := grid + [Chr(A + a0), Chr(A + b0)];
        lon := 10.0 * a;
        lat := 10.0 * b;
      }
      assert grid == old_grid + EmitPair(old_lon, old_lat, i);
      assert lon == Carry(old_lon, i) && lat == Carry(old_lat, i);
    }
    assert Tail(lon, lat, i, precision) == [];
    assert grid == grid + Tail(lon, lat, i, precision);
    return Returned(grid);
  }
}
