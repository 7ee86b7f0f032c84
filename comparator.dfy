/** The forensic comparison table (`comparador_forense.py`): for every quality from
    1 to 100 that the results contain, the softwares grouped by identical luma table
    hash, largest group first. */
module Comparator {
  import opened Text
  import opened Sorting

  /** The fields read from one result entry: software, quality factor and the hash
      of its luma table. */
  datatype Entry = Entry(software: string, quality: int, hashY: string)

  /** `db[qualidade][software] = hash_y`. */
  type Index = map<int, map<string, string>>

  /** The index after all entries, a later entry overwriting an earlier one with the
      same quality and software. */
  function BuildIndex(entries: seq<Entry>): Index
    decreases |entries|
  {
    if |entries| == 0 then map[]
    else
      var db := BuildIndex(entries[..|entries| - 1]);
      var e := entries[|entries| - 1];
      db[e.quality := RowOf(db, e.quality)[e.software := e.hashY]]
  }

  /** `db[q]` of the defaultdict: the row of quality q, empty when it has none yet. */
  function RowOf(db: Index, q: int): map<string, string>
  {
    if q in db then db[q] else map[]
  }

  function SoftwareNames(entries: seq<Entry>): (names: seq<string>)
    ensures |names| == |entries|
    ensures forall k :: 0 <= k < |entries| ==> names[k] == entries[k].software
  {
    seq(|entries|, k requires 0 <= k < |entries| => entries[k].software)
  }

  /** `sorted(list(softwares_presentes))`. */
  function SortedSoftwares(entries: seq<Entry>): seq<string>
  {
    SortedSet(SoftwareNames(entries), StrLe)
  }

  const Missing: string := "missing"

  /** The `reverse_map` key of a software at one quality: its hash, or "missing". */
  function BucketKey(row: map<string, string>, sw: string): string
  {
    if sw in row then row[sw] else Missing
  }

  /** `reverse_map`, as (key, softwares) pairs in the order keys were first used. */
  type Buckets = seq<(string, seq<string>)>

  predicate KeysDistinct(rm: Buckets)
  {
    forall i, j :: 0 <= i < j < |rm| ==> rm[i].0 != rm[j].0
  }

  /** The position of key in the reverse map, or its length when key is not there. */
  function KeyIndex(rm: Buckets, key: string): (i: nat)
    ensures i <= |rm| && (i < |rm| ==> rm[i].0 == key)
    ensures forall j :: 0 <= j < i ==> rm[j].0 != key
    decreases |rm|
  {
    if |rm| == 0 then 0 else if rm[0].0 == key then 0 else 1 + KeyIndex(rm[1..], key)
  }

  /** `reverse_map[key].append(sw)`: a present key's list grows, a new key is added last. */
  function AddToBucket(rm: Buckets, key: string, sw: string): Buckets
  {
    var i := KeyIndex(rm, key);
    if i < |rm| then rm[i := (key, rm[i].1 + [sw])] else rm + [(key, [sw])]
  }

  /** The reverse map of one quality's row, filled in the order of `sws`. */
  function ReverseMap(sws: seq<string>, row: map<string, string>): Buckets
    decreases |sws|
  {
    if |sws| == 0 then []
    else AddToBucket(ReverseMap(sws[..|sws| - 1], row), BucketKey(row, sws[|sws| - 1]), sws[|sws| - 1])
  }

  /** `reverse_map.values()`. */
  function Groups(rm: Buckets): (gs: seq<seq<string>>)
    ensures |gs| == |rm|
    ensures forall k :: 0 <= k < |rm| ==> gs[k] == rm[k].1
  {
    seq(|rm|, k requires 0 <= k < |rm| => rm[k].1)
  }

  /** The group order `(-len(x), x[0])`: larger groups first, then by first member. */
  predicate GroupLe(a: seq<string>, b: seq<string>)
  {
    |a| > |b| || (|a| == |b| && (|a| == 0 || StrLe(a[0], b[0])))
  }

  lemma GroupLeTotalPreorder()
    ensures TotalPreorder(GroupLe)
  {
    forall a, b ensures GroupLe(a, b) || GroupLe(b, a) {
      if |a| == |b| && |a| > 0 { StrLeTotal(a[0], b[0]); }
    }
    forall a, b, c | GroupLe(a, b) && GroupLe(b, c) ensures GroupLe(a, c) {
      if |a| == |b| == |c| && |a| > 0 { StrLeTransitive(a[0], b[0], c[0]); }
    }
  }

  predicate AllNonEmpty(gs: seq<seq<string>>)
  {
    forall k :: 0 <= k < |gs| ==> |gs[k]| > 0
  }

  function BucketBefore(rm: Buckets, i: nat): seq<string>
  {
    if i < |rm| then rm[i].1 else []
  }

  /** Appending to a reverse map with distinct keys keeps the keys distinct and
      adds sw to exactly the bucket of its key, creating it at the end if needed. */
  lemma AddToBucketSpec(rm: Buckets, key: string, sw: string)
    requires KeysDistinct(rm)
    ensures var r := AddToBucket(rm, key, sw);
      && KeysDistinct(r)
      && (|r| == |rm| || (|r| == |rm| + 1 && r[|rm|].0 == key))
      && (forall i :: 0 <= i < |rm| ==> r[i].0 == rm[i].0)
      && (exists i :: 0 <= i < |r| && r[i].0 == key)
      && (forall i :: 0 <= i < |r| ==> r[i].1 == BucketBefore(rm, i) + (if r[i].0 == key then [sw] else []))
  {
    var i := KeyIndex(rm, key);
    var r := AddToBucket(rm, key, sw);
    assert r[i].0 == key;
  }

  predicate BucketsNonEmpty(rm: Buckets)
  {
    forall i :: 0 <= i < |rm| ==> |rm[i].1| > 0
  }

  /** A bucket holds exactly the softwares whose key it is. */
  ghost predicate BucketExact(b: (string, seq<string>), sws: seq<string>, row: map<string, string>)
  {
    forall sw :: sw in b.1 <==> sw in sws && BucketKey(row, sw) == b.0
  }

  /** Each bucket holds exactly the softwares whose key it is. */
  ghost predicate Partitioned(rm: Buckets, sws: seq<string>, row: map<string, string>)
  {
    forall i :: 0 <= i < |rm| ==> BucketExact(rm[i], sws, row)
  }

  /** Every software's key has a bucket. */
  ghost predicate Covers(rm: Buckets, sws: seq<string>, row: map<string, string>)
  {
    forall sw :: sw in sws ==> exists i :: 0 <= i < |rm| && rm[i].0 == BucketKey(row, sw)
  }

  ghost predicate ReverseMapInv(rm: Buckets, sws: seq<string>, row: map<string, string>)
  {
    KeysDistinct(rm) && BucketsNonEmpty(rm) && Partitioned(rm, sws, row) && Covers(rm, sws, row)
  }

  lemma ReverseMapStep(prev: Buckets, init: seq<string>, x: string, row: map<string, string>)
    requires ReverseMapInv(prev, init, row)
    ensures ReverseMapInv(AddToBucket(prev, BucketKey(row, x), x), init + [x], row)
  {
    var key := BucketKey(row, x);
    var rm := AddToBucket(prev, key, x);
    AddToBucketSpec(prev, key, x);
    var sws := init + [x];
    assert forall y :: y in sws <==> y in init || y == x;
    StepNonEmpty(prev, key, x);
    StepPartitioned(prev, init, x, row);
    forall y | y in sws ensures exists i :: 0 <= i < |rm| && rm[i].0 == BucketKey(row, y) {
      if y in init {
        var j :| 0 <= j < |prev| && prev[j].0 == BucketKey(row, y);
        assert rm[j].0 == prev[j].0;
      }
    }
  }

  lemma StepNonEmpty(prev: Buckets, key: string, x: string)
    requires KeysDistinct(prev) && BucketsNonEmpty(prev)
    ensures BucketsNonEmpty(AddToBucket(prev, key, x))
  {
    AddToBucketSpec(prev, key, x);
    var rm := AddToBucket(prev, key, x);
    forall i | 0 <= i < |rm| ensures |rm[i].1| > 0 {
      if i >= |prev| {
        assert rm[i].1 == [] + [x];
      }
    }
  }

  lemma StepPartitioned(prev: Buckets, init: seq<string>, x: string, row: map<string, string>)
    requires ReverseMapInv(prev, init, row)
    ensures Partitioned(AddToBucket(prev, BucketKey(row, x), x), init + [x], row)
  {
    if KeyIndex(prev, BucketKey(row, x)) < |prev| {
      StepPartitionedHit(prev, init, x, row);
    } else {
      StepPartitionedNew(prev, init, x, row);
    }
  }

  /** A software whose key has a bucket joins that bucket; the other buckets keep
      their softwares. */
  lemma StepPartitionedHit(prev: Buckets, init: seq<string>, x: string, row: map<string, string>)
    requires KeysDistinct(prev) && Partitioned(prev, init, row)
    requires KeyIndex(prev, BucketKey(row, x)) < |prev|
    ensures Partitioned(AddToBucket(prev, BucketKey(row, x), x), init + [x], row)
  {
    var key := BucketKey(row, x);
    var i0 := KeyIndex(prev, key);
    var rm := AddToBucket(prev, key, x);
    assert rm == prev[i0 := (key, prev[i0].1 + [x])];
    forall i | 0 <= i < |rm| ensures BucketExact(rm[i], init + [x], row) {
      if i == i0 {
        JoinBucket(prev[i0], init, x, row);
      } else {
        KeepBucket(prev[i], init, x, row);
      }
    }
  }

  /** A software with a key not seen before opens a new bucket. */
  lemma StepPartitionedNew(prev: Buckets, init: seq<string>, x: string, row: map<string, string>)
    requires Partitioned(prev, init, row) && Covers(prev, init, row)
    requires KeyIndex(prev, BucketKey(row, x)) == |prev|
    ensures Partitioned(AddToBucket(prev, BucketKey(row, x), x), init + [x], row)
  {
    var key := BucketKey(row, x);
    var rm := AddToBucket(prev, key, x);
    assert rm == prev + [(key, [x])];
    forall y | y in init ensures BucketKey(row, y) != key {
      var j :| 0 <= j < |prev| && prev[j].0 == BucketKey(row, y);
    }
    forall i | 0 <= i < |rm| ensures BucketExact(rm[i], init + [x], row) {
      if i < |prev| {
        KeepBucket(prev[i], init, x, row);
      } else {
        NewBucket(init, x, row);
      }
    }
  }

  lemma JoinBucket(b: (string, seq<string>), init: seq<string>, x: string, row: map<string, string>)
    requires BucketExact(b, init, row) && b.0 == BucketKey(row, x)
    ensures BucketExact((b.0, b.1 + [x]), init + [x], row)
  {
    assert forall y :: y in init + [x] <==> y in init || y == x;
    assert forall y :: y in b.1 + [x] <==> y in b.1 || y == x;
  }

  lemma KeepBucket(b: (string, seq<string>), init: seq<string>, x: string, row: map<string, string>)
    requires BucketExact(b, init, row) && b.0 != BucketKey(row, x)
    ensures BucketExact(b, init + [x], row)
  {
    assert forall y :: y in init + [x] <==> y in init || y == x;
  }

  lemma NewBucket(init: seq<string>, x: string, row: map<string, string>)
    requires forall y :: y in init ==> BucketKey(row, y) != BucketKey(row, x)
    ensures BucketExact((BucketKey(row, x), [x]), init + [x], row)
  {
    assert forall y :: y in init + [x] <==> y in init || y == x;
  }

  /** `reverse_map` partitions the softwares by key: keys are distinct, a bucket
      holds exactly the softwares whose key it is, no bucket is empty, and every
      software's key has a bucket. */
  lemma {:induction false} ReverseMapSpec(sws: seq<string>, row: map<string, string>)
    ensures ReverseMapInv(ReverseMap(sws, row), sws, row)
    decreases |sws|
  {
    if |sws| > 0 {
      var init := sws[..|sws| - 1];
      ReverseMapSpec(init, row);
      ReverseMapStep(ReverseMap(init, row), init, sws[|sws| - 1], row);
      assert sws == init + [sws[|sws| - 1]];
    }
  }

  /** The groups of one quality, in display order. */
  function SortedGroups(sws: seq<string>, row: map<string, string>): (gs: seq<seq<string>>)
    ensures AllNonEmpty(gs)
  {
    var groups := Groups(ReverseMap(sws, row));
    ReverseMapSpec(sws, row);
    SortByPermutes(groups, GroupLe);
    assert forall k :: 0 <= k < |SortBy(groups, GroupLe)| ==> SortBy(groups, GroupLe)[k] in multiset(groups);
    SortBy(groups, GroupLe)
  }

  const Identical: string := " são idênticos"

  /** One group as printed: a lone software by name, a larger group joined by " e ". */
  function RenderGroup(g: seq<string>): string
    requires |g| > 0
  {
    if |g| > 1 then Join(SortBy(g, StrLe), " e ") + Identical else g[0]
  }

  function RenderGroups(gs: seq<seq<string>>): (ss: seq<string>)
    requires AllNonEmpty(gs)
    ensures |ss| == |gs|
  {
    seq(|gs|, k requires 0 <= k < |gs| => RenderGroup(gs[k]))
  }

  /** The line printed for quality q. */
  function RenderLine(q: int, sws: seq<string>, row: map<string, string>): string
  {
    IntToDecimal(q) + "%: " + Join(RenderGroups(SortedGroups(sws, row)), " vs ")
  }

  /** The qualities below hi, from 1 on, that have a row, in ascending order. */
  function QualitiesBelow(idx: Index, hi: int): seq<int>
    decreases hi
  {
    if hi <= 1 then [] else QualitiesBelow(idx, hi - 1) + (if hi - 1 in idx then [hi - 1] else [])
  }

  function LinesBelow(idx: Index, sws: seq<string>, hi: int): seq<string>
    decreases hi
  {
    if hi <= 1 then []
    else LinesBelow(idx, sws, hi - 1) + (if hi - 1 in idx then [RenderLine(hi - 1, sws, idx[hi - 1])] else [])
  }

  const Rule: string := "============================================================"
  const Title: string := "MATCHES POR PORCENTAGEM DE QUALIDADE (GIMP vs PHOTOSHOP vs PIXLR)"

  /** Everything `main` prints once the results are loaded, one string per line. */
  function ComparisonLines(entries: seq<Entry>): seq<string>
  {
    [Rule, Title, Rule] + LinesBelow(BuildIndex(entries), SortedSoftwares(entries), 101)
  }

  /** The body of `main` after loading the JSON results: the index loop, then the
      loop over qualities 1 to 100, each with its reverse map. */
  method ComparisonTable(entries: seq<Entry>) returns (lines: seq<string>)
    ensures lines == ComparisonLines(entries)
  {
    var db: Index := map[];
    for n := 0 to |entries|
      invariant db == BuildIndex(entries[..n])
    {
      assert entries[..n + 1][..n] == entries[..n];
      var e := entries[n];
      var row := if e.quality in db then db[e.quality] else map[];
      db := db[e.quality := row[e.software := e.hashY]];
    }
    assert entries[..|entries|] == entries;
    var sortedSoftwares := SortedSoftwares(entries);
    lines := [Rule, Title, Rule];
    for q := 1 to 101
      invariant lines == [Rule, Title, Rule] + LinesBelow(db, sortedSoftwares, q)
    {
      if q !in db {
        continue;
      }
      var line := QualityLine(q, sortedSoftwares, db[q]);
      lines := lines + [line];
    }
  }

  /** One pass of the quality loop: the reverse map, the sorted groups, their
      strings and the line they make. */
  method QualityLine(q: int, sws: seq<string>, hashesAtQ: map<string, string>) returns (line: string)
    ensures line == RenderLine(q, sws, hashesAtQ)
  {
    var reverseMap := BuildReverseMap(sws, hashesAtQ);
    var sortedGroups := SortBy(Groups(reverseMap), GroupLe);
    assert sortedGroups == SortedGroups(sws, hashesAtQ);
    var groupStrings := [];
    for k := 0 to |sortedGroups|
      invariant |groupStrings| == k
      invariant forall j :: 0 <= j < k ==> groupStrings[j] == RenderGroup(sortedGroups[j])
    {
      var group := sortedGroups[k];
      if |group| > 1 {
        groupStrings := groupStrings + [Join(SortBy(group, StrLe), " e ") + Identical];
      } else {
        groupStrings := groupStrings + [group[0]];
      }
    }
    assert groupStrings == RenderGroups(sortedGroups);
    line := IntToDecimal(q) + "%: " + Join(groupStrings, " vs ");
  }

  /** The `for sw in sorted_softwares` loop that fills `reverse_map`. */
  method BuildReverseMap(sws: seq<string>, row: map<string, string>) returns (rm: Buckets)
    ensures rm == ReverseMap(sws, row)
  {
    rm := [];
    for n := 0 to |sws|
      invariant rm == ReverseMap(sws[..n], row)
    {
      assert sws[..n + 1][..n] == sws[..n];
      var sw := sws[n];
      if sw in row {
        rm := AddToBucket(rm, row[sw], sw);
      } else {
        rm := AddToBucket(rm, Missing, sw);
      }
    }
    assert sws[..|sws|] == sws;
  }

  // ---- properties ----

  /** Entry k is the last one with quality q and software sw. */
  predicate LastWrite(entries: seq<Entry>, k: nat, q: int, sw: string)
  {
    && k < |entries| && entries[k].quality == q && entries[k].software == sw
    && forall l :: k < l < |entries| ==> entries[l].quality != q || entries[l].software != sw
  }

  /** The index holds a row for q with an entry for sw exactly when some result has
      that quality and software, and the hash kept is that of the last such result. */
  lemma {:induction false} IndexLastWriteWins(entries: seq<Entry>, q: int, sw: string)
    ensures var idx := BuildIndex(entries);
      (q in idx && sw in idx[q]) <==> exists k :: 0 <= k < |entries| && entries[k].quality == q && entries[k].software == sw
    ensures forall k :: 0 <= k < |entries| && LastWrite(entries, k, q, sw) ==> BuildIndex(entries)[q][sw] == entries[k].hashY
    decreases |entries|
  {
    if |entries| > 0 {
      var init := entries[..|entries| - 1];
      IndexLastWriteWins(init, q, sw);
      var e := entries[|entries| - 1];
      if e.quality == q && e.software == sw {
        assert entries[|entries| - 1].quality == q;
      } else {
        forall k | 0 <= k < |init| ensures init[k] == entries[k] {}
      }
    }
  }

  /** The index has a row for q exactly when some result has quality q. */
  lemma {:induction false} IndexRows(entries: seq<Entry>, q: int)
    ensures q in BuildIndex(entries) <==> exists k :: 0 <= k < |entries| && entries[k].quality == q
    decreases |entries|
  {
    if |entries| > 0 {
      var init := entries[..|entries| - 1];
      IndexRows(init, q);
      forall k | 0 <= k < |init| ensures init[k] == entries[k] {}
    }
  }

  /** The software list is each software once, in ascending order. */
  lemma SortedSoftwaresSpec(entries: seq<Entry>)
    ensures StrictlySortedBy(SortedSoftwares(entries), StrLe)
    ensures forall sw :: sw in SortedSoftwares(entries) <==> exists k :: 0 <= k < |entries| && entries[k].software == sw
  {
    StrLeTotalPreorder();
    SortedSetSpec(SoftwareNames(entries), StrLe);
  }

  /** Two softwares share a group exactly when they have the same key at this
      quality: the same hash, or both missing (a hash "missing" counts as missing). */
  lemma SameGroupIff(sws: seq<string>, row: map<string, string>, a: string, b: string)
    requires a in sws && b in sws
    ensures (exists g :: g in SortedGroups(sws, row) && a in g && b in g) <==> BucketKey(row, a) == BucketKey(row, b)
  {
    var rm := ReverseMap(sws, row);
    var groups := Groups(rm);
    ReverseMapSpec(sws, row);
    SortByPermutes(groups, GroupLe);
    var sorted := SortedGroups(sws, row);
    if BucketKey(row, a) == BucketKey(row, b) {
      var i :| 0 <= i < |rm| && rm[i].0 == BucketKey(row, a);
      assert BucketExact(rm[i], sws, row);
      assert a in groups[i] && b in groups[i];
      assert groups[i] in multiset(groups);
      assert groups[i] in sorted;
    }
    if g :| g in sorted && a in g && b in g {
      assert g in multiset(groups);
      var i :| 0 <= i < |groups| && groups[i] == g;
      assert BucketExact(rm[i], sws, row);
    }
  }

  /** No software is in two groups. */
  ghost predicate GroupsDisjoint(gs: seq<seq<string>>)
  {
    forall i, j, x :: 0 <= i < j < |gs| && x in gs[i] ==> x !in gs[j]
  }

  /** The buckets of the reverse map share no software. */
  lemma BucketsDisjoint(sws: seq<string>, row: map<string, string>)
    ensures GroupsDisjoint(Groups(ReverseMap(sws, row)))
  {
    var rm := ReverseMap(sws, row);
    ReverseMapSpec(sws, row);
    var gs := Groups(rm);
    forall i, j, x | 0 <= i < j < |gs| && x in gs[i] ensures x !in gs[j] {
      assert BucketExact(rm[i], sws, row) && BucketExact(rm[j], sws, row);
    }
  }

  /** Reordering disjoint non-empty groups keeps them disjoint. */
  lemma PermutedDisjoint(a: seq<seq<string>>, b: seq<seq<string>>)
    requires multiset(a) == multiset(b)
    requires GroupsDisjoint(a) && AllNonEmpty(a)
    ensures GroupsDisjoint(b)
  {
    assert NoDuplicates(a) by {
      forall i, j | 0 <= i < j < |a| ensures a[i] != a[j] {
        assert a[i][0] in a[i];
      }
    }
    forall g ensures multiset(b)[g] <= 1 {
      NoDuplicatesCount(a, g);
    }
    CountsNoDuplicates(b);
    forall i, j, x | 0 <= i < j < |b| && x in b[i] ensures x !in b[j] {
      assert b[i] in multiset(a) && b[j] in multiset(a);
      var p :| 0 <= p < |a| && a[p] == b[i];
      var q :| 0 <= q < |a| && a[q] == b[j];
      assert p != q;
    }
  }

  /** Each software appears in exactly one group of its line. */
  lemma OneGroupEach(sws: seq<string>, row: map<string, string>, sw: string)
    requires sw in sws
    ensures var gs := SortedGroups(sws, row);
      exists k :: 0 <= k < |gs| && sw in gs[k] && forall l :: 0 <= l < |gs| && sw in gs[l] ==> l == k
  {
    var groups := Groups(ReverseMap(sws, row));
    var gs := SortedGroups(sws, row);
    ReverseMapSpec(sws, row);
    SortByPermutes(groups, GroupLe);
    BucketsDisjoint(sws, row);
    PermutedDisjoint(groups, gs);
    SameGroupIff(sws, row, sw, sw);
    var g :| g in gs && sw in g;
    var k :| 0 <= k < |gs| && gs[k] == g;
    assert GroupsDisjoint(gs);
  }

  ghost predicate BucketsSorted(rm: Buckets)
  {
    forall i :: 0 <= i < |rm| ==> SortedBy(rm[i].1, StrLe)
  }

  lemma AppendSorted(b: seq<string>, x: string)
    requires SortedBy(b, StrLe)
    requires forall y :: y in b ==> StrLe(y, x)
    ensures SortedBy(b + [x], StrLe)
  {
    var c := b + [x];
    forall i, j | 0 <= i < j < |c| ensures StrLe(c[i], c[j]) {
      if j < |b| {
        assert c[i] == b[i] && c[j] == b[j];
      } else {
        assert c[i] == b[i] && b[i] in b;
      }
    }
  }

  /** Filling the reverse map in sorted order keeps every bucket sorted. */
  lemma {:induction false} ReverseMapSorted(sws: seq<string>, row: map<string, string>)
    requires SortedBy(sws, StrLe)
    ensures BucketsSorted(ReverseMap(sws, row))
    decreases |sws|
  {
    if |sws| > 0 {
      var init, x := sws[..|sws| - 1], sws[|sws| - 1];
      assert SortedBy(init, StrLe) by {
        forall i, j | 0 <= i < j < |init| ensures StrLe(init[i], init[j]) {
          assert init[i] == sws[i] && init[j] == sws[j];
        }
      }
      ReverseMapSorted(init, row);
      ReverseMapSpec(init, row);
      var prev := ReverseMap(init, row);
      var key := BucketKey(row, x);
      AddToBucketSpec(prev, key, x);
      var rm := AddToBucket(prev, key, x);
      assert rm == ReverseMap(sws, row);
      forall i | 0 <= i < |rm| ensures SortedBy(rm[i].1, StrLe) {
        var b := BucketBefore(prev, i);
        if rm[i].0 == key {
          forall y | y in b ensures StrLe(y, x) {
            assert BucketExact(prev[i], init, row);
            var k :| 0 <= k < |init| && init[k] == y;
            assert sws[k] == y;
          }
          AppendSorted(b, x);
        } else {
          assert rm[i].1 == b + [];
        }
      }
    }
  }

  /** With the softwares taken in ascending order, every group is already sorted:
      sorting it for display changes nothing, and its first member, which the
      group order uses, is its smallest. */
  lemma GroupsAlreadySorted(sws: seq<string>, row: map<string, string>, g: seq<string>)
    requires SortedBy(sws, StrLe)
    requires g in SortedGroups(sws, row)
    ensures SortBy(g, StrLe) == g
    ensures forall y :: y in g ==> StrLe(g[0], y)
  {
    var rm := ReverseMap(sws, row);
    var groups := Groups(rm);
    ReverseMapSpec(sws, row);
    ReverseMapSorted(sws, row);
    SortByPermutes(groups, GroupLe);
    assert g in multiset(groups);
    var i :| 0 <= i < |groups| && groups[i] == g;
    assert SortedBy(g, StrLe);
    StrLeTotalPreorder();
    SortBySortedIdentity(g, StrLe);
    forall y | y in g ensures StrLe(g[0], y) {
      var k :| 0 <= k < |g| && g[k] == y;
      if k == 0 { StrLeReflexive(y); }
    }
  }

  const ExampleSoftwares: seq<string> := ["gimp", "photoshop", "pixlr"]
  const ExampleRow: map<string, string> := map["gimp" := "h1", "photoshop" := "h2", "pixlr" := "h2"]

  lemma ExampleBuckets()
    ensures ReverseMap(ExampleSoftwares, ExampleRow) == [("h1", ["gimp"]), ("h2", ["photoshop", "pixlr"])]
  {
    var row, sws := ExampleRow, ExampleSoftwares;
    assert sws[..2] == ["gimp", "photoshop"] && sws[..2][..1] == ["gimp"];
    assert ReverseMap(["gimp"], row) == [("h1", ["gimp"])];
    assert ReverseMap(["gimp", "photoshop"], row) == [("h1", ["gimp"]), ("h2", ["photoshop"])];
    var prev: Buckets := [("h1", ["gimp"]), ("h2", ["photoshop"])];
    assert prev[1..][0].0 == "h2" && prev[0].0 != "h2";
    assert KeyIndex(prev, "h2") == 1;
    assert BucketKey(row, "pixlr") == "h2";
    assert ["photoshop"] + ["pixlr"] == ["photoshop", "pixlr"];
  }

  lemma ExampleGroups()
    ensures SortedGroups(ExampleSoftwares, ExampleRow) == [["photoshop", "pixlr"], ["gimp"]]
  {
    ExampleBuckets();
    var groups := Groups(ReverseMap(ExampleSoftwares, ExampleRow));
    assert groups == [["gimp"], ["photoshop", "pixlr"]];
    assert SortBy(groups[1..], GroupLe) == [["photoshop", "pixlr"]];
  }

  lemma ExamplePair()
    ensures RenderGroup(["photoshop", "pixlr"]) == "photoshop e pixlr" + Identical
  {
    assert StrLe("photoshop", "pixlr");
    assert SortBy(["photoshop", "pixlr"], StrLe) == ["photoshop", "pixlr"];
  }

  lemma Decimal90()
    ensures IntToDecimal(90) == "90"
  {
    assert NatToDecimal(9) == "9";
  }

  lemma ExampleJoin()
    ensures Join(RenderGroups([["photoshop", "pixlr"], ["gimp"]]), " vs ") == "photoshop e pixlr" + Identical + " vs " + "gimp"
  {
    ExamplePair();
    var rs := RenderGroups([["photoshop", "pixlr"], ["gimp"]]);
    assert rs[0] == "photoshop e pixlr" + Identical;
    assert rs[1] == "gimp";
    assert rs[1..] == ["gimp"];
    assert Join(rs, " vs ") == rs[0] + " vs " + rs[1];
  }

  /** Three softwares at one quality, two of them with the same table: the pair
      is printed first, as one group, and the odd one out after it. */
  lemma RenderLineExample()
    ensures RenderLine(90, ExampleSoftwares, ExampleRow) == "90%: " + "photoshop e pixlr" + Identical + " vs " + "gimp"
  {
    ExampleGroups();
    ExampleJoin();
    Decimal90();
  }

  /** The groups are printed largest first, groups of one size by first member. */
  lemma SortedGroupsOrdered(sws: seq<string>, row: map<string, string>)
    ensures var gs := SortedGroups(sws, row);
      forall i, j :: 0 <= i < j < |gs| ==> |gs[i]| >= |gs[j]| && (|gs[i]| == |gs[j]| ==> StrLe(gs[i][0], gs[j][0]))
  {
    GroupLeTotalPreorder();
    SortBySorted(Groups(ReverseMap(sws, row)), GroupLe);
  }

  /** The qualities that get a line are those of 1..hi-1 with a row, ascending. */
  lemma {:induction false} QualitiesBelowSpec(idx: Index, hi: int)
    ensures forall i, j :: 0 <= i < j < |QualitiesBelow(idx, hi)| ==> QualitiesBelow(idx, hi)[i] < QualitiesBelow(idx, hi)[j]
    ensures forall q :: q in QualitiesBelow(idx, hi) <==> 1 <= q < hi && q in idx
    decreases hi
  {
    if hi > 1 {
      QualitiesBelowSpec(idx, hi - 1);
      var prev := QualitiesBelow(idx, hi - 1);
      forall i | 0 <= i < |prev| ensures prev[i] < hi - 1 {
        assert prev[i] in prev;
      }
    }
  }

  /** There is one line per such quality, in the same order. */
  lemma {:induction false} LinesBelowSpec(idx: Index, sws: seq<string>, hi: int)
    ensures var qs := QualitiesBelow(idx, hi);
      && |LinesBelow(idx, sws, hi)| == |qs|
      && (forall k :: 0 <= k < |qs| ==> qs[k] in idx && LinesBelow(idx, sws, hi)[k] == RenderLine(qs[k], sws, idx[qs[k]]))
    decreases hi
  {
    if hi > 1 {
      LinesBelowSpec(idx, sws, hi - 1);
      QualitiesBelowSpec(idx, hi);
    }
  }

  /** The table shows the qualities 1 to 100 present in the results, ascending, one
      line each after the three header lines. */
  lemma ComparisonLinesSpec(entries: seq<Entry>)
    ensures var idx := BuildIndex(entries);
      var qs := QualitiesBelow(idx, 101);
      && |ComparisonLines(entries)| == 3 + |qs|
      && (forall i, j :: 0 <= i < j < |qs| ==> qs[i] < qs[j])
      && (forall q :: q in qs <==> 1 <= q <= 100 && exists k :: 0 <= k < |entries| && entries[k].quality == q)
      && (forall k :: 0 <= k < |qs| ==> qs[k] in idx && ComparisonLines(entries)[3 + k] == RenderLine(qs[k], SortedSoftwares(entries), idx[qs[k]]))
  {
    var idx := BuildIndex(entries);
    var qs := QualitiesBelow(idx, 101);
    var sws := SortedSoftwares(entries);
    var below := LinesBelow(idx, sws, 101);
    QualitiesBelowSpec(idx, 101);
    LinesBelowSpec(idx, sws, 101);
    assert ComparisonLines(entries) == [Rule, Title, Rule] + below;
    forall q ensures q in qs <==> 1 <= q <= 100 && exists k :: 0 <= k < |entries| && entries[k].quality == q {
      IndexRows(entries, q);
    }
  }
}
