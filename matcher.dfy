/** `match_against_db`: the database items whose luma ("Y") or chroma ("C")
    fingerprint equals the query's, scored, ranked and cut to the first topk. */
module Matcher {
  import opened Optional
  import opened Text
  import opened Sorting

  /** A database item as read back from JSON; every field may be missing. */
  datatype DbItem = DbItem(software: Option<string>, quality: Option<int>, filename: Option<string>,
                           sha256: Option<string>, qhash: Option<map<string, string>>)

  /** `MatchHit`. The score is kept in tenths: 10, 7 and 6 stand for 1.0, 0.7 and 0.6,
      which compare the same way. */
  datatype MatchHit = MatchHit(software: string, quality: Option<int>, filename: string,
                               sha256: string, score: nat)

  const BothScore: nat := 10
  const LumaScore: nat := 7
  const ChromaScore: nat := 6

  /** The sort key's stand-in for a missing or zero quality (`x.quality or 10**9`). */
  const NoQualityRank: int := 1_000_000_000

  function OrDefault(o: Option<string>, d: string): string
  {
    if o.Some? then o.value else d
  }

  function ItemQHash(it: DbItem): map<string, string>
  {
    if it.qhash.Some? then it.qhash.value else map[]
  }

  /** `key in qhash and it_q.get(key) == qhash.get(key)`. */
  predicate SameHash(q: map<string, string>, itq: map<string, string>, key: string)
  {
    key in q && key in itq && itq[key] == q[key]
  }

  /** The score of an item against the query fingerprint, None when neither hash agrees. */
  function Score(it: DbItem, q: map<string, string>): Option<nat>
  {
    var yOk := SameHash(q, ItemQHash(it), "Y");
    var cOk := SameHash(q, ItemQHash(it), "C");
    if !(yOk || cOk) then None
    else if yOk && cOk then Some(BothScore)
    else if yOk then Some(LumaScore)
    else Some(ChromaScore)
  }

  function HitOf(it: DbItem, score: nat): MatchHit
  {
    MatchHit(OrDefault(it.software, "?"), it.quality, OrDefault(it.filename, "?"),
             OrDefault(it.sha256, "?"), score)
  }

  /** The hits in database order, before ranking. */
  function CollectHits(items: seq<DbItem>, q: map<string, string>): seq<MatchHit>
    decreases |items|
  {
    if |items| == 0 then []
    else
      var prev := CollectHits(items[..|items| - 1], q);
      var it := items[|items| - 1];
      match Score(it, q)
      case None => prev
      case Some(s) => prev + [HitOf(it, s)]
  }

  function QualityRank(h: MatchHit): int
  {
    if h.quality.None? || h.quality.value == 0 then NoQualityRank else h.quality.value
  }

  /** The ranking key `(-score, software, quality or 10**9)`, compared as a tuple. */
  predicate HitLe(a: MatchHit, b: MatchHit)
  {
    || a.score > b.score
    || (a.score == b.score && StrLe(a.software, b.software) && a.software != b.software)
    || (a.score == b.score && a.software == b.software && QualityRank(a) <= QualityRank(b))
  }

  lemma HitLeTotalPreorder()
    ensures TotalPreorder(HitLe)
  {
    forall a, b ensures HitLe(a, b) || HitLe(b, a) {
      StrLeTotal(a.software, b.software);
    }
    forall a, b, c | HitLe(a, b) && HitLe(b, c) ensures HitLe(a, c) {
      if a.score == b.score == c.score {
        if StrLe(a.software, b.software) && StrLe(b.software, c.software) {
          StrLeTransitive(a.software, b.software, c.software);
        }
        if a.software == c.software && a.software != b.software {
          StrLeAntisymmetric(a.software, b.software);
        }
      }
    }
  }

  /** Between hits of equal score and software, a missing quality and a quality of
      0 both rank after every quality from 1 up to 10**9 - 1. */
  lemma MissingQualityLast(a: MatchHit, b: MatchHit)
    requires a.score == b.score && a.software == b.software
    requires a.quality.None? || a.quality == Some(0)
    requires b.quality.Some? && 0 < b.quality.value < NoQualityRank
    ensures HitLe(b, a) && !HitLe(a, b)
  {
  }

  /** Python's `s[:k]`, a negative k counting from the end. */
  function TakePrefix(s: seq<MatchHit>, k: int): (r: seq<MatchHit>)
    ensures r <= s
    ensures |r| == if k >= 0 then (if k < |s| then k else |s|) else (if |s| + k > 0 then |s| + k else 0)
  {
    if k >= 0 then (if k < |s| then s[..k] else s)
    else if |s| + k > 0 then s[..|s| + k] else []
  }

  function ItemsOf(db: Option<seq<DbItem>>): seq<DbItem>
  {
    if db.Some? then db.value else []
  }

  /** The `hits` of `match_against_db` for the database (None when it has no "items"),
      the query fingerprint and topk. */
  function MatchResult(db: Option<seq<DbItem>>, q: map<string, string>, topk: int): seq<MatchHit>
  {
    TakePrefix(SortBy(CollectHits(ItemsOf(db), q), HitLe), topk)
  }

  method MatchAgainstDb(db: Option<seq<DbItem>>, q: map<string, string>, topk: int) returns (hits: seq<MatchHit>)
    ensures hits == MatchResult(db, q, topk)
  {
    var items := ItemsOf(db);
    hits := [];
    for n := 0 to |items|
      invariant hits == CollectHits(items[..n], q)
    {
      var it := items[n];
      var itq := ItemQHash(it);
      var yOk := "Y" in q && "Y" in itq && itq["Y"] == q["Y"];
      var cOk := "C" in q && "C" in itq && itq["C"] == q["C"];
      assert items[..n + 1][..n] == items[..n];
      if !(yOk || cOk) {
        continue;
      }
      var score;
      if yOk && cOk {
        score := BothScore;
      } else if yOk {
        score := LumaScore;
      } else {
        score := ChromaScore;
      }
      hits := hits + [HitOf(it, score)];
    }
    assert items[..|items|] == items;
    hits := SortBy(hits, HitLe);
    hits := TakePrefix(hits, topk);
  }

  // ---- properties ----

  /** A hit is an item that agrees on at least one hash; its score is 10 when both
      agree and otherwise 7 for luma, 6 for chroma. */
  predicate Explains(it: DbItem, q: map<string, string>, h: MatchHit)
  {
    var yOk := SameHash(q, ItemQHash(it), "Y");
    var cOk := SameHash(q, ItemQHash(it), "C");
    && (yOk || cOk)
    && h == HitOf(it, if yOk && cOk then BothScore else if yOk then LumaScore else ChromaScore)
  }

  /** Every collected hit stands for some agreeing item, and there are no more hits
      than items. */
  lemma {:induction false} CollectHitsSound(items: seq<DbItem>, q: map<string, string>)
    ensures var hs := CollectHits(items, q);
      && (forall k :: 0 <= k < |hs| ==> exists n :: 0 <= n < |items| && Explains(items[n], q, hs[k]))
      && |hs| <= |items|
    decreases |items|
  {
    if |items| > 0 {
      var init := items[..|items| - 1];
      CollectHitsSound(init, q);
      var hs := CollectHits(items, q);
      var prev := CollectHits(init, q);
      forall k | 0 <= k < |hs| ensures exists n :: 0 <= n < |items| && Explains(items[n], q, hs[k]) {
        if k < |prev| {
          var n :| 0 <= n < |init| && Explains(init[n], q, prev[k]);
          assert items[n] == init[n];
        } else {
          assert Explains(items[|items| - 1], q, hs[k]);
        }
      }
    }
  }

  /** Every agreeing item yields a hit. */
  lemma {:induction false} CollectHitsComplete(items: seq<DbItem>, q: map<string, string>, n: nat)
    requires n < |items| && Score(items[n], q).Some?
    ensures HitOf(items[n], Score(items[n], q).value) in CollectHits(items, q)
    decreases |items|
  {
    if n < |items| - 1 {
      CollectHitsComplete(items[..|items| - 1], q, n);
    }
  }

  /** The result is ranked: score never rises, and equal scores are in software
      order, then quality order (missing and zero qualities last). */
  lemma MatchResultRanked(db: Option<seq<DbItem>>, q: map<string, string>, topk: int)
    ensures var hs := MatchResult(db, q, topk);
      forall i, j :: 0 <= i < j < |hs| ==> HitLe(hs[i], hs[j])
  {
    HitLeTotalPreorder();
    SortBySorted(CollectHits(ItemsOf(db), q), HitLe);
  }

  /** The result is the best-ranked part of all hits: a prefix of their ranking,
      which is a permutation of them, of length min(topk, number of hits) for
      topk >= 0. */
  lemma MatchResultTopOfAll(db: Option<seq<DbItem>>, q: map<string, string>, topk: int)
    ensures var all := CollectHits(ItemsOf(db), q);
      && multiset(SortBy(all, HitLe)) == multiset(all)
      && MatchResult(db, q, topk) <= SortBy(all, HitLe)
      && |MatchResult(db, q, topk)| == (if topk < 0 then (if |all| + topk > 0 then |all| + topk else 0)
                                        else if topk < |all| then topk else |all|)
  {
    var all := CollectHits(ItemsOf(db), q);
    SortByPermutes(all, HitLe);
    assert |SortBy(all, HitLe)| == |multiset(SortBy(all, HitLe))| == |all|;
  }

  /** Hits with equal ranking keys keep their database order (Python's sort is
      stable), and any stable sort gives the same ranking. */
  lemma MatchStable(db: Option<seq<DbItem>>, q: map<string, string>, z: MatchHit, other: seq<MatchHit>)
    requires SortedBy(other, HitLe)
    requires forall w :: TiedWith(other, HitLe, w) == TiedWith(CollectHits(ItemsOf(db), q), HitLe, w)
    ensures TiedWith(SortBy(CollectHits(ItemsOf(db), q), HitLe), HitLe, z) == TiedWith(CollectHits(ItemsOf(db), q), HitLe, z)
    ensures SortBy(CollectHits(ItemsOf(db), q), HitLe) == other
  {
    var all := CollectHits(ItemsOf(db), q);
    HitLeTotalPreorder();
    SortByStable(all, HitLe, z);
    SortBySorted(all, HitLe);
    forall w ensures TiedWith(SortBy(all, HitLe), HitLe, w) == TiedWith(other, HitLe, w) {
      SortByStable(all, HitLe, w);
    }
    StableSortUnique(SortBy(all, HitLe), other, HitLe);
  }

  /** Each reported hit stands for a database item that agrees with the query. */
  lemma MatchResultSound(db: Option<seq<DbItem>>, q: map<string, string>, topk: int, h: MatchHit)
    requires h in MatchResult(db, q, topk)
    ensures exists n :: 0 <= n < |ItemsOf(db)| && Explains(ItemsOf(db)[n], q, h)
  {
    var all := CollectHits(ItemsOf(db), q);
    SortByPermutes(all, HitLe);
    assert h in multiset(SortBy(all, HitLe));
    var k :| 0 <= k < |all| && all[k] == h;
    CollectHitsSound(ItemsOf(db), q);
  }

  /** With topk at least the database size, no agreeing item is dropped. */
  lemma MatchResultComplete(db: Option<seq<DbItem>>, q: map<string, string>, topk: int, n: nat)
    requires n < |ItemsOf(db)| && Score(ItemsOf(db)[n], q).Some?
    requires topk >= |ItemsOf(db)|
    ensures HitOf(ItemsOf(db)[n], Score(ItemsOf(db)[n], q).value) in MatchResult(db, q, topk)
  {
    var all := CollectHits(ItemsOf(db), q);
    CollectHitsComplete(ItemsOf(db), q, n);
    CollectHitsSound(ItemsOf(db), q);
    SortByPermutes(all, HitLe);
    assert HitOf(ItemsOf(db)[n], Score(ItemsOf(db)[n], q).value) in multiset(SortBy(all, HitLe));
  }

  /** A query without fingerprints matches nothing. */
  lemma EmptyQueryNoHits(db: Option<seq<DbItem>>, topk: int)
    ensures MatchResult(db, map[], topk) == []
  {
    var items := ItemsOf(db);
    forall m | 0 <= m <= |items| ensures CollectHits(items[..m], map[]) == [] {
      EmptyQueryPrefix(items, m);
    }
    assert items[..|items|] == items;
  }

  lemma {:induction false} EmptyQueryPrefix(items: seq<DbItem>, m: nat)
    requires m <= |items|
    ensures CollectHits(items[..m], map[]) == []
    decreases m
  {
    if m > 0 {
      EmptyQueryPrefix(items, m - 1);
      assert items[..m][..m - 1] == items[..m - 1];
    }
  }
}
