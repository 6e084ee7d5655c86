/** Concrete values of the codec: the New York example that accompanies
    the code, and the inputs that show the checks the code does not make
    (no range check in the encoder, only a length check in the decoder). */
module LocatorExamples {
  import opened Php
  import opened Maidenhead

  /** One unrolling of the encoder's loop on known values. */
  lemma {:induction false} TailPair(lon: real, lat: real, i: int, precision: int, pair: string, lon': real, lat': real)
    requires i < precision && EmitPair(lon, lat, i + 1) == pair
    requires Carry(lon, i + 1) == lon' && Carry(lat, i + 1) == lat'
    ensures Tail(lon, lat, i, precision) == pair + Tail(lon', lat', i + 1, precision)
  {
  }

  /** A digit pair on known working values. */
  lemma {:induction false} DigitPair(lon: real, lat: real, d: int, e: int, next: int)
    requires next % 2 == 0 && 0 <= d < 10 && 0 <= e < 10
    requires d as real <= lon < d as real + 1.0 && e as real <= lat < e as real + 1.0
    ensures EmitPair(lon, lat, next) == [DigitChar(d), DigitChar(e)]
    ensures Carry(lon, next) == 24.0 * (lon - d as real) && Carry(lat, next) == 24.0 * (lat - e as real)
  {
    assert lon / 1.0 == lon && lat / 1.0 == lat;
  }

  /** A letter pair on known working values. */
  lemma {:induction false} LetterPair(lon: real, lat: real, d: int, e: int, next: int)
    requires next % 2 == 1 && 0 <= d < 24 && 0 <= e < 24
    requires d as real <= lon < d as real + 1.0 && e as real <= lat < e as real + 1.0
    ensures EmitPair(lon, lat, next) == [Chr(A + d), Chr(A + e)]
    ensures Carry(lon, next) == 10.0 * (lon - d as real) && Carry(lat, next) == 10.0 * (lat - e as real)
  {
    assert lon / 1.0 == lon && lat / 1.0 == lat;
  }

  // The loop of the New York example, one iteration per lemma, from the
  // last to the first: the working values before each iteration and the
  // pair it appends.

  lemma {:induction false} NewYorkFrom5()
    ensures Tail(8.7744, 6.1696, 5, 6) == "86"
  {
    DigitPair(8.7744, 6.1696, 8, 6, 6);
    TailPair(8.7744, 6.1696, 5, 6, "86", 18.5856, 4.0704);
    assert Tail(18.5856, 4.0704, 6, 6) == [];
    var s: string := "86";
    assert s + [] == s;
  }

  lemma {:induction false} NewYorkFrom4()
    ensures Tail(18.87744, 20.61696, 4, 6) == "SU86"
  {
    LetterPair(18.87744, 20.61696, 18, 20, 5);
    assert Chr(A + 18) == 'S' && Chr(A + 20) == 'U';
    TailPair(18.87744, 20.61696, 4, 6, "SU", 8.7744, 6.1696);
    NewYorkFrom5();
  }

  lemma {:induction false} NewYorkFrom3()
    ensures Tail(5.78656, 4.85904, 3, 6) == "54SU86"
  {
    DigitPair(5.78656, 4.85904, 5, 4, 4);
    TailPair(5.78656, 4.85904, 3, 6, "54", 18.87744, 20.61696);
    NewYorkFrom4();
  }

  lemma {:induction false} NewYorkFrom2()
    ensures Tail(2.578656, 15.485904, 2, 6) == "CP54SU86"
  {
    LetterPair(2.578656, 15.485904, 2, 15, 3);
    assert Chr(A + 2) == 'C' && Chr(A + 15) == 'P';
    TailPair(2.578656, 15.485904, 2, 6, "CP", 5.78656, 4.85904);
    NewYorkFrom3();
  }

  /** The loop part of the New York example: from the working values the
      field pair leaves, five iterations append 30, CP, 54, SU and 86. */
  lemma {:induction false} NewYorkTail()
    ensures Tail(3.107444, 0.645246, 1, 6) == "30CP54SU86"
  {
    DigitPair(3.107444, 0.645246, 3, 0, 2);
    TailPair(3.107444, 0.645246, 1, 6, "30", 2.578656, 15.485904);
    NewYorkFrom2();
  }

  /** The field pair of the New York example and the working values it
      leaves. */
  lemma {:induction false} NewYorkField()
    ensures FieldPair(40.645246, -73.785112) == "FN"
    ensures FMod(-73.785112 + 180.0, 20.0) / 2.0 == 3.107444 && FMod(40.645246 + 90.0, 10.0) == 0.645246
  {
    assert IntVal(106.214888 / 20.0) == 5 && IntVal(130.645246 / 10.0) == 13;
    assert Chr(A + 5) == 'F' && Chr(A + 13) == 'N';
  }

  /** The encoder's result assembled from its two parts. */
  lemma {:induction false} LocatorValue(position: seq<real>, precision: int, field: string, rest: string)
    requires |position| == 2 && FieldPair(position[0], position[1]) == field
    requires Tail(FMod(position[1] + 180.0, 20.0) / 2.0, FMod(position[0] + 90.0, 10.0), 1, precision) == rest
    ensures Locator(position, precision) == Returned(field + rest)
  {
  }

  /** New York, (40.645246, -73.785112), encodes to FN30CP54SU86 at the
      default precision of six pairs. */
  lemma {:induction false} NewYorkEncodes()
    ensures Locator([40.645246, -73.785112]) == Returned("FN30CP54SU86")
  {
    var position := [40.645246, -73.785112];
    assert position[0] == 40.645246 && position[1] == -73.785112;
    NewYorkField();
    NewYorkTail();
    LocatorValue(position, 6, "FN", "30CP54SU86");
    NewYorkJoin();
  }

  lemma {:induction false} NewYorkJoin()
    ensures "FN" + "30CP54SU86" == "FN30CP54SU86"
  {
  }

  /** One unfolding of the decoder's sum on known values. */
  lemma {:induction false} OffsetStep(g: string, k: nat, axis: nat, c: int, s: real, prev: real, next: real)
    requires axis < 2 && 2 * k + 2 <= |g|
    requires Offset(g, k, axis) == prev && CharIndex(g[2 * k + axis], k) == c && LonSpan(k) == s
    requires next == prev + c as real * s
    ensures Offset(g, k + 1, axis) == next
  {
    OffsetUnfold(g, k, axis, c);
  }

  /** The longitude sum of FN30CP54SU86: F, 3, C, 5, S, 8. */
  lemma {:induction false} NewYorkLonOffset()
    ensures Offset("FN30CP54SU86", 6, 0) == 106.0 + 1.0 / 6.0 + 1.0 / 24.0 + 1.0 / 160.0 + 1.0 / 3600.0
  {
    var g := "FN30CP54SU86";
    SpanTable();
    assert g[0] == 'F' && g[2] == '3' && g[4] == 'C' && g[6] == '5' && g[8] == 'S' && g[10] == '8';
    OffsetStep(g, 0, 0, 5, 20.0, 0.0, 100.0);
    OffsetStep(g, 1, 0, 3, 2.0, 100.0, 106.0);
    OffsetStep(g, 2, 0, 2, 5.0 / 60.0, 106.0, 106.0 + 1.0 / 6.0);
    OffsetStep(g, 3, 0, 5, 5.0 / 600.0, 106.0 + 1.0 / 6.0, 106.0 + 1.0 / 6.0 + 1.0 / 24.0);
    OffsetStep(g, 4, 0, 18, 5.0 / 14400.0, 106.0 + 1.0 / 6.0 + 1.0 / 24.0, 106.0 + 1.0 / 6.0 + 1.0 / 24.0 + 1.0 / 160.0);
    OffsetStep(g, 5, 0, 8, 5.0 / 144000.0, 106.0 + 1.0 / 6.0 + 1.0 / 24.0 + 1.0 / 160.0,
      106.0 + 1.0 / 6.0 + 1.0 / 24.0 + 1.0 / 160.0 + 1.0 / 3600.0);
  }

  /** The latitude sum of FN30CP54SU86: N, 0, P, 4, U, 6 (in longitude
      units, twice the degrees). */
  lemma {:induction false} NewYorkLatOffset()
    ensures Offset("FN30CP54SU86", 6, 1) == 261.25 + 1.0 / 30.0 + 1.0 / 144.0 + 1.0 / 4800.0
  {
    var g := "FN30CP54SU86";
    SpanTable();
    assert g[1] == 'N' && g[3] == '0' && g[5] == 'P' && g[7] == '4' && g[9] == 'U' && g[11] == '6';
    OffsetStep(g, 0, 1, 13, 20.0, 0.0, 260.0);
    OffsetStep(g, 1, 1, 0, 2.0, 260.0, 260.0);
    OffsetStep(g, 2, 1, 15, 5.0 / 60.0, 260.0, 261.25);
    OffsetStep(g, 3, 1, 4, 5.0 / 600.0, 261.25, 261.25 + 1.0 / 30.0);
    OffsetStep(g, 4, 1, 20, 5.0 / 14400.0, 261.25 + 1.0 / 30.0, 261.25 + 1.0 / 30.0 + 1.0 / 144.0);
    OffsetStep(g, 5, 1, 6, 5.0 / 144000.0, 261.25 + 1.0 / 30.0 + 1.0 / 144.0,
      261.25 + 1.0 / 30.0 + 1.0 / 144.0 + 1.0 / 4800.0);
  }

  /** The centre of FN30CP54SU86: the corner sums plus half the span of the
      sixth pair, 1/57600 degrees of longitude and 1/115200 of latitude. */
  lemma {:induction false} NewYorkCentre()
    ensures Centre("FN30CP54SU86") == LatLon(40.0 + 74333.0 / 115200.0, -74.0 + 12377.0 / 57600.0)
  {
    var g := "FN30CP54SU86";
    SpanTable();
    CentreOf(g, 6);
    NewYorkLonOffset();
    NewYorkLatOffset();
    assert Centre(g).lon == -180.0 + (106.0 + 1.0 / 6.0 + 1.0 / 24.0 + 1.0 / 160.0 + 1.0 / 3600.0) + 1.0 / 57600.0;
    assert Centre(g).lat == -90.0 + (261.25 + 1.0 / 30.0 + 1.0 / 144.0 + 1.0 / 4800.0) / 2.0 + 1.0 / 115200.0;
  }

  /** FN30CP54SU86 is already trimmed and upper case. */
  lemma {:induction false} NewYorkNormal()
    ensures Normalize("FN30CP54SU86") == "FN30CP54SU86"
  {
    var g := "FN30CP54SU86";
    TrimNoop(g);
    UpperNoop(g);
  }

  /** FN30CP54SU86 decodes to the centre of its cell,
      (40.645251736..., -73.785121527...). */
  lemma {:induction false} NewYorkDecodes()
    ensures Decoded("FN30CP54SU86") == Returned(LatLon(40.0 + 74333.0 / 115200.0, -74.0 + 12377.0 / 57600.0))
  {
    NewYorkNormal();
    NewYorkCentre();
  }

  /** The encoder does not range-check: latitude 90 gives the field letter
      'S', one past the last field letter 'R'. */
  lemma {:induction false} NorthPoleOutOfClass()
    ensures Locator([90.0, 0.0], 1) == Returned("JS")
    ensures !InClass("JS"[1], 0)
  {
    var position := [90.0, 0.0];
    assert position[0] == 90.0 && position[1] == 0.0;
    assert IntVal((0.0 + 180.0) / 20.0) == 9 && IntVal((90.0 + 90.0) / 10.0) == 18;
    assert Chr(A + 9) == 'J' && Chr(A + 18) == 'S';
    assert FieldPair(90.0, 0.0) == "JS";
    var js: string := "JS";
    assert js + [] == js;
  }

  /** The decoder checks only the length: letters beyond 'R' are accepted
      and give a point off the globe. */
  lemma {:induction false} DecodesOffGlobe()
    ensures Decoded("ZZ") == Returned(LatLon(165.0, 330.0))
  {
    var g := "ZZ";
    assert Normalize(g) == g by {
      assert Trim(g) == g;
      UpperShape(g);
    }
    CentreOf(g, 1);
  }

  /** A two-pair locator with field AA and a square pair that `intval`
      reads as 00 decodes to the centre of square AA00. */
  lemma {:induction false} FirstSquareCentre(g: string)
    requires |g| == 4 && g[0] == 'A' && g[1] == 'A' && IntValChar(g[2]) == 0 && IntValChar(g[3]) == 0
    ensures Centre(g) == LatLon(-89.5, -179.0)
  {
    SpanTable();
    CentreOf(g, 2);
    OffsetUnfold(g, 0, 0, 0);
    OffsetUnfold(g, 0, 1, 0);
    OffsetUnfold(g, 1, 0, 0);
    OffsetUnfold(g, 1, 1, 0);
  }

  /** `intval` of a letter is 0, so letters in a digit pair read as zeros:
      AAXX decodes to the centre of square AA00. */
  lemma {:induction false} LettersInDigitPair()
    ensures Decoded("AAXX") == Decoded("AA00") == Returned(LatLon(-89.5, -179.0))
  {
    var g, h := "AAXX", "AA00";
    TrimNoop(g);
    UpperNoop(g);
    TrimNoop(h);
    UpperNoop(h);
    FirstSquareCentre(g);
    FirstSquareCentre(h);
  }
}
