/** The zigzag scan order of an 8x8 block of coefficients, as in Figure A.6 of
    ITU-T T.81, and the conversion between the two orders. */
module ZigZagOrder {

  /** `zigzag[8 * row + col]` is the zigzag position of the coefficient at (row, col)
      (extrator_dqt_categorico.py, the `zigzag` list). */
  const ZigZag: seq<nat> :=
    [ 0,  1,  5,  6, 14, 15, 27, 28] +
    [ 2,  4,  7, 13, 16, 26, 29, 42] +
    [ 3,  8, 12, 17, 25, 30, 41, 43] +
    [ 9, 11, 18, 24, 31, 40, 44, 53] +
    [10, 19, 23, 32, 39, 45, 52, 54] +
    [20, 22, 33, 38, 46, 51, 55, 60] +
    [21, 34, 37, 47, 50, 56, 59, 61] +
    [35, 36, 48, 49, 57, 58, 62, 63]

  /** The inverse map: `NaturalOrder[k]` is the raster index (8 * row + col) of the
      k-th coefficient in zigzag order. */
  const NaturalOrder: seq<nat> :=
    [ 0,  1,  8, 16,  9,  2,  3, 10] +
    [17, 24, 32, 25, 18, 11,  4,  5] +
    [12, 19, 26, 33, 40, 48, 41, 34] +
    [27, 20, 13,  6,  7, 14, 21, 28] +
    [35, 42, 49, 56, 57, 50, 43, 36] +
    [29, 22, 15, 23, 30, 37, 44, 51] +
    [58, 59, 52, 45, 38, 31, 39, 46] +
    [53, 60, 61, 54, 47, 55, 62, 63]

  predicate InverseAt(k: nat)
  {
    && k < 64
    && ZigZag[k] < 64 && NaturalOrder[k] < 64
    && NaturalOrder[ZigZag[k]] == k && ZigZag[NaturalOrder[k]] == k
  }

  /** The two tables are inverse on zigzag positions 0 to 15. */
  lemma ZigZagInverseFirst()
    ensures forall k :: 0 <= k < 16 ==> InverseAt(k)
  {
    forall k | 0 <= k < 16 ensures InverseAt(k) {
      if k == 0 { } else if k == 1 { } else if k == 2 { } else if k == 3 { } else if k == 4 { } else if k == 5 { } else if k == 6 { } else if k == 7 { } else
      if k == 8 { } else if k == 9 { } else if k == 10 { } else if k == 11 { } else if k == 12 { } else if k == 13 { } else if k == 14 { } else { }
    }
  }

  /** The two tables are inverse on zigzag positions 16 to 31. */
  lemma ZigZagInverseSecond()
    ensures forall k :: 16 <= k < 32 ==> InverseAt(k)
  {
    forall k | 16 <= k < 32 ensures InverseAt(k) {
      if k == 16 { } else if k == 17 { } else if k == 18 { } else if k == 19 { } else if k == 20 { } else if k == 21 { } else if k == 22 { } else if k == 23 { } else
      if k == 24 { } else if k == 25 { } else if k == 26 { } else if k == 27 { } else if k == 28 { } else if k == 29 { } else if k == 30 { } else { }
    }
  }

  /** The two tables are inverse on zigzag positions 32 to 47. */
  lemma ZigZagInverseThird()
    ensures forall k :: 32 <= k < 48 ==> InverseAt(k)
  {
    forall k | 32 <= k < 48 ensures InverseAt(k) {
      if k == 32 { } else if k == 33 { } else if k == 34 { } else if k == 35 { } else if k == 36 { } else if k == 37 { } else if k == 38 { } else if k == 39 { } else
      if k == 40 { } else if k == 41 { } else if k == 42 { } else if k == 43 { } else if k == 44 { } else if k == 45 { } else if k == 46 { } else { }
    }
  }

  /** The two tables are inverse on zigzag positions 48 to 63. */
  lemma ZigZagInverseFourth()
    ensures forall k :: 48 <= k < 64 ==> InverseAt(k)
  {
    forall k | 48 <= k < 64 ensures InverseAt(k) {
      if k == 48 { } else if k == 49 { } else if k == 50 { } else if k == 51 { } else if k == 52 { } else if k == 53 { } else if k == 54 { } else if k == 55 { } else
      if k == 56 { } else if k == 57 { } else if k == 58 { } else if k == 59 { } else if k == 60 { } else if k == 61 { } else if k == 62 { } else { }
    }
  }

  /** The two tables are inverse permutations of 0..63. */
  lemma ZigZagInverse()
    ensures |ZigZag| == 64 && |NaturalOrder| == 64
    ensures forall k :: 0 <= k < 64 ==> InverseAt(k)
  {
    ZigZagInverseFirst();
    ZigZagInverseSecond();
    ZigZagInverseThird();
    ZigZagInverseFourth();
  }

  /** `zigzag` is a permutation of 0..63: injective, and every position is hit. */
  lemma ZigZagIsPermutation()
    ensures |ZigZag| == 64
    ensures forall p :: 0 <= p < 64 ==> ZigZag[p] < 64
    ensures forall p, q :: 0 <= p < 64 && 0 <= q < 64 && ZigZag[p] == ZigZag[q] ==> p == q
    ensures forall k :: 0 <= k < 64 ==> k in ZigZag
  {
    ZigZagInverse();
    forall p, q | 0 <= p < 64 && 0 <= q < 64 && ZigZag[p] == ZigZag[q] ensures p == q {
      assert InverseAt(p) && InverseAt(q);
    }
    forall k | 0 <= k < 64 ensures k in ZigZag {
      assert InverseAt(k) && ZigZag[NaturalOrder[k]] == k;
    }
  }

  /** Every entry of `zigzag` is a valid index into 64 stored coefficients. */
  lemma ZigZagBounded()
    ensures |ZigZag| == 64
    ensures forall k :: 0 <= k < 64 ==> ZigZag[k] < 64
  {
    ZigZagInverse();
  }

  predicate Is8x8(m: seq<seq<int>>)
  {
    |m| == 8 && forall r :: 0 <= r < 8 ==> |m[r]| == 8
  }

  /** The 8x8 matrix in raster order of 64 coefficients stored in zigzag order:
      `matriz[r][c] == table_values[zigzag[8 * r + c]]`. */
  function Dezigzag(values: seq<int>): (m: seq<seq<int>>)
    requires |values| == 64
    ensures Is8x8(m)
  {
    ZigZagBounded();
    seq(8, r requires 0 <= r < 8 => seq(8, c requires 0 <= c < 8 => values[ZigZag[8 * r + c]]))
  }

  /** A matrix whose entry (r, c) is the coefficient at zigzag position
      `ZigZag[8 * r + c]` is the one `Dezigzag` lays out. */
  lemma DezigzagIs(values: seq<int>, m: seq<seq<int>>)
    requires |values| == 64 && Is8x8(m)
    requires |ZigZag| == 64 && forall k :: 0 <= k < 64 ==> ZigZag[k] < 64
    requires forall r, c :: 0 <= r < 8 && 0 <= c < 8 ==> m[r][c] == values[ZigZag[8 * r + c]]
    ensures m == Dezigzag(values)
  {
    var d := Dezigzag(values);
    forall r | 0 <= r < 8 ensures m[r] == d[r] {
      assert forall c :: 0 <= c < 8 ==> m[r][c] == d[r][c];
    }
  }

  /** Zigzag storage order of an 8x8 matrix: the inverse of `Dezigzag`. */
  function ZigzagEncode(m: seq<seq<int>>): (values: seq<int>)
    requires Is8x8(m)
    ensures |values| == 64
  {
    ZigZagInverse();
    seq(64, k requires 0 <= k < 64 => m[NaturalOrder[k] / 8][NaturalOrder[k] % 8])
  }

  /** Reordering the stored coefficients into a matrix loses nothing: the stored
      zigzag sequence is recovered exactly. */
  lemma DezigzagRoundTrip(values: seq<int>)
    requires |values| == 64
    ensures ZigzagEncode(Dezigzag(values)) == values
  {
    ZigZagInverse();
    var m := Dezigzag(values);
    var e := ZigzagEncode(m);
    forall k | 0 <= k < 64 ensures e[k] == values[k] {
      assert InverseAt(k);
      var p := NaturalOrder[k];
      var r, c := p / 8, p % 8;
      assert 0 <= r < 8 && 0 <= c < 8 && 8 * r + c == p;
      assert e[k] == m[r][c];
      assert m[r][c] == values[ZigZag[p]];
    }
  }

  /** Every 8x8 matrix is the reordering of exactly one zigzag sequence. */
  lemma ZigzagEncodeRoundTrip(m: seq<seq<int>>)
    requires Is8x8(m)
    ensures Dezigzag(ZigzagEncode(m)) == m
  {
    ZigZagInverse();
    var d := Dezigzag(ZigzagEncode(m));
    forall r, c | 0 <= r < 8 && 0 <= c < 8 ensures d[r][c] == m[r][c] {
      var p := 8 * r + c;
      assert InverseAt(p);
      assert NaturalOrder[ZigZag[p]] / 8 == r && NaturalOrder[ZigZag[p]] % 8 == c;
    }
    forall r | 0 <= r < 8 ensures d[r] == m[r] {
      assert forall c :: 0 <= c < 8 ==> d[r][c] == m[r][c];
    }
  }
}
