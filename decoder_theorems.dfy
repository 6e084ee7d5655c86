/** What `loc2latlon` promises about the points it returns: the decoded
    point of a well-formed locator lies strictly inside the cell of each of
    its even-length prefixes, hence strictly inside the globe, and the
    case of the input does not matter. */
module DecoderTheorems {
  import opened Php
  import opened Maidenhead

  /** a <= b scaled by a positive s. */
  lemma {:induction false} MulMono(a: real, b: real, s: real)
    requires a <= b && s > 0.0
    ensures a * s <= b * s
  {
  }

  /** A digit c below the radix r, weighted by the cell span s, stays
      within the parent span p = r * s less one cell. */
  lemma {:induction false} WeightBound(c: int, r: int, s: real, p: real)
    requires 0 <= c < r && s > 0.0 && s * r as real == p
    ensures 0.0 <= c as real * s <= p - s
  {
    MulMono(0.0, c as real, s);
    MulMono(c as real, r as real - 1.0, s);
    assert (r as real - 1.0) * s == s * r as real - s;
  }

  /** The weight pair k adds to the corner when its character is of its
      class: at least 0 and at most the parent cell less one cell, so the
      cell it names lies inside its parent. */
  lemma {:induction false} PairWeight(g: string, k: nat, axis: nat)
    requires axis < 2 && 2 * k + 2 <= |g| && InClass(g[2 * k + axis], k)
    ensures 0.0 <= Offset(g, k + 1, axis) - Offset(g, k, axis) <= ParentSpan(k) - LonSpan(k)
  {
    var c := CharIndex(g[2 * k + axis], k);
    OffsetUnfold(g, k, axis, c);
    CharIndexInClass(g[2 * k + axis], k);
    SpanTimesRadix(k);
    WeightBound(c, Radix(k), LonSpan(k), ParentSpan(k));
  }

  /** The pairs k..m-1 of a well-formed string move the corner by at least
      0 and at most the span of the k-pair cell less the span of the m-pair
      cell: the m-pair cell lies inside the k-pair cell. */
  lemma {:induction false} TailBound(g: string, k: nat, m: nat, axis: nat)
    requires axis < 2 && 1 <= k <= m && 2 * m <= |g| && PairsInClass(g)
    ensures 0.0 <= Offset(g, m, axis) - Offset(g, k, axis) <= LonSpan(k - 1) - LonSpan(m - 1)
    decreases m - k
  {
    if m > k {
      assert InClass(g[2 * (m - 1) + axis], m - 1) by {
        var j := 2 * (m - 1) + axis;
        assert j / 2 == m - 1;
        assert InClass(g[j], j / 2);
      }
      PairWeight(g, m - 1, axis);
      TailBound(g, k, m - 1, axis);
      assert ParentSpan(m - 1) == LonSpan(m - 2);
    }
  }

  /** The field cell lies on the globe: its corner is at least 0 and at most
      360 less 20 longitude units from the origin. */
  lemma {:induction false} FieldBound(g: string, axis: nat)
    requires axis < 2 && 2 <= |g| && PairsInClass(g)
    ensures 0.0 <= Offset(g, 1, axis) <= 340.0
  {
    assert InClass(g[axis], axis / 2);
    PairWeight(g, 0, axis);
  }

  /** The centre of a well-formed locator lies strictly inside the cell of
      its first k pairs, for each k from 1 to all of them. */
  lemma {:induction false} CentreInCell(g: string, k: nat)
    requires WellFormed(g) && 1 <= k <= |g| / 2
    ensures CornerLon(g, k) < Centre(g).lon < CornerLon(g, k) + LonSpan(k - 1)
    ensures CornerLat(g, k) < Centre(g).lat < CornerLat(g, k) + LatSpan(k - 1)
  {
    var n := |g| / 2;
    CentreOf(g, n);
    TailBound(g, k, n, 0);
    TailBound(g, k, n, 1);
  }

  /** The centre of a well-formed locator lies strictly inside
      (-90, 90) x (-180, 180). */
  lemma {:induction false} CentreOnGlobe(g: string)
    requires WellFormed(g)
    ensures -90.0 < Centre(g).lat < 90.0 && -180.0 < Centre(g).lon < 180.0
  {
    CentreInCell(g, 1);
    FieldBound(g, 0);
    FieldBound(g, 1);
  }

  /** `loc2latlon` of a locator whose normalised form is well formed returns
      a point strictly inside the cell of each of its prefixes of 2, 4, ...
      characters, and strictly inside the globe. */
  lemma {:induction false} DecodeInsideCells(grid: string)
    requires WellFormed(Normalize(grid))
    ensures Decoded(grid).Returned?
    ensures
      var g, c := Normalize(grid), Decoded(grid).value;
      && (forall k :: 1 <= k <= |g| / 2 ==>
            CornerLon(g, k) < c.lon < CornerLon(g, k) + LonSpan(k - 1)
            && CornerLat(g, k) < c.lat < CornerLat(g, k) + LatSpan(k - 1))
      && -90.0 < c.lat < 90.0 && -180.0 < c.lon < 180.0
  {
    var g := Normalize(grid);
    forall k | 1 <= k <= |g| / 2
      ensures CornerLon(g, k) < Centre(g).lon < CornerLon(g, k) + LonSpan(k - 1)
      ensures CornerLat(g, k) < Centre(g).lat < CornerLat(g, k) + LatSpan(k - 1)
    {
      CentreInCell(g, k);
    }
    CentreOnGlobe(g);
  }

  /** `strtoupper(trim(...))` makes the decoder blind to case: a locator and
      its lower-case form normalise to the same string. */
  lemma {:induction false} NormalizeLower(grid: string)
    ensures Normalize(Lower(grid)) == Normalize(grid)
  {
    TrimLower(grid);
    UpperLower(Trim(grid));
  }

  /** A locator and its lower-case form decode identically, errors
      included. */
  lemma {:induction false} DecodeIgnoresCase(grid: string)
    ensures Decoded(Lower(grid)) == Decoded(grid)
  {
    NormalizeLower(grid);
  }
}
