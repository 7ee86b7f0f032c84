/** The table fingerprint of the database (`qhash_from_tables` and `flatten_8x8`):
    the SHA-256 of the 64 coefficients of a table written as comma-separated
    decimals, row after row. */
module Fingerprint {
  import opened Text
  import opened ZigZagOrder

  /** The tables of one image as `extract_qtables` returns them, keyed "Y", "Cb"
      and "Cr", each an 8x8 matrix. */
  type QTables = map<string, seq<seq<int>>>

  /** `flatten_8x8`: the rows of a matrix, one after another. */
  function Flatten(m: seq<seq<int>>): seq<int>
    decreases |m|
  {
    if |m| == 0 then [] else m[0] + Flatten(m[1..])
  }

  /** The 8x8 matrix whose rows are the consecutive groups of 8 values. */
  function Unflatten(v: seq<int>): (m: seq<seq<int>>)
    requires |v| == 64
    ensures Is8x8(m)
  {
    seq(8, r requires 0 <= r < 8 => v[8 * r..8 * r + 8])
  }

  lemma {:induction false} FlattenAppend(a: seq<seq<int>>, b: seq<seq<int>>)
    ensures Flatten(a + b) == Flatten(a) + Flatten(b)
    decreases |a|
  {
    if |a| > 0 {
      assert (a + b)[1..] == a[1..] + b;
      FlattenAppend(a[1..], b);
      assert Flatten(a + b) == a[0] + (Flatten(a[1..]) + Flatten(b));
    } else {
      assert a + b == b;
    }
  }

  /** Flattening an 8x8 matrix gives 64 values, the cell (r, c) at index 8r + c. */
  lemma {:induction false} Flatten8x8(m: seq<seq<int>>)
    requires Is8x8(m)
    ensures |Flatten(m)| == 64
    ensures forall r, c :: 0 <= r < 8 && 0 <= c < 8 ==> Flatten(m)[8 * r + c] == m[r][c]
  {
    forall n | 0 <= n <= 8
      ensures |Flatten(m[..n])| == 8 * n
      ensures forall r, c :: 0 <= r < n && 0 <= c < 8 ==> Flatten(m[..n])[8 * r + c] == m[r][c]
    {
      FlattenPrefix(m, n);
    }
    assert m[..8] == m;
  }

  lemma {:induction false} FlattenPrefix(m: seq<seq<int>>, n: nat)
    requires Is8x8(m) && n <= 8
    ensures |Flatten(m[..n])| == 8 * n
    ensures forall r, c :: 0 <= r < n && 0 <= c < 8 ==> Flatten(m[..n])[8 * r + c] == m[r][c]
    decreases n
  {
    if n > 0 {
      FlattenPrefix(m, n - 1);
      assert m[..n] == m[..n - 1] + [m[n - 1]];
      FlattenAppend(m[..n - 1], [m[n - 1]]);
      assert Flatten([m[n - 1]]) == m[n - 1] + Flatten([]);
    }
  }

  /** Flattening loses nothing on 8x8 matrices: both round trips hold. */
  lemma FlattenRoundTrip(m: seq<seq<int>>)
    requires Is8x8(m)
    ensures |Flatten(m)| == 64 && Unflatten(Flatten(m)) == m
  {
    Flatten8x8(m);
    var u := Unflatten(Flatten(m));
    forall r | 0 <= r < 8 ensures u[r] == m[r] {
      forall c | 0 <= c < 8 ensures u[r][c] == m[r][c] {
        assert u[r][c] == Flatten(m)[8 * r + c];
      }
    }
  }

  lemma UnflattenRoundTrip(v: seq<int>)
    requires |v| == 64
    ensures Flatten(Unflatten(v)) == v
  {
    var m := Unflatten(v);
    Flatten8x8(m);
    forall k | 0 <= k < 64 ensures Flatten(m)[k] == v[k] {
      assert Flatten(m)[8 * (k / 8) + k % 8] == m[k / 8][k % 8];
    }
  }

  /** The hashed text of one table. */
  function TableText(m: seq<seq<int>>): string
  {
    CommaJoin(Flatten(m))
  }

  /** `qhash_from_tables`: "Y" from the luma table and "C" from the Cb table; "Cr"
      is ignored. `sha` is `sha256_text`. */
  function QHash(q: QTables, sha: string -> string): (h: map<string, string>)
    ensures h.Keys <= {"Y", "C"}
    ensures "Y" in h <==> "Y" in q
    ensures "C" in h <==> "Cb" in q
    ensures "Y" in q ==> h["Y"] == sha(TableText(q["Y"]))
    ensures "Cb" in q ==> h["C"] == sha(TableText(q["Cb"]))
  {
    var hy := if "Y" in q then map["Y" := sha(TableText(q["Y"]))] else map[];
    if "Cb" in q then hy["C" := sha(TableText(q["Cb"]))] else hy
  }

  /** Under a collision-free digest, two 8x8 tables share a fingerprint only when
      they are equal. */
  lemma FingerprintInjective(a: seq<seq<int>>, b: seq<seq<int>>, sha: string -> string)
    requires forall x, y :: sha(x) == sha(y) ==> x == y
    requires Is8x8(a) && Is8x8(b)
    requires sha(TableText(a)) == sha(TableText(b))
    ensures a == b
  {
    CommaJoinInjective(Flatten(a), Flatten(b));
    FlattenRoundTrip(a);
    FlattenRoundTrip(b);
  }

  /** The Cr table never affects the fingerprint. */
  lemma QHashIgnoresCr(q: QTables, cr: seq<seq<int>>, sha: string -> string)
    ensures QHash(q["Cr" := cr], sha) == QHash(q, sha)
  {
  }
}
