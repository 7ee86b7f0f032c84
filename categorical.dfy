/** `ExtratorDQTCategorico`: one categorical record per processed JPEG file (the
    parameters encoded in its name, its quantization tables read straight from the
    header, their hashes) kept in `resultados`, and the per-software summary of
    those records. */
module Categorical {
  import opened Optional
  import opened Bytes
  import opened Text
  import opened Sorting
  import opened DqtExtractor

  // ---- extrair_parametros_nome ----

  /** The parameters encoded in a file name `software_quality_subsampling_mode.ext`. */
  datatype NameParams = NameParams(software: Option<string>, quality: int, subsampling: string, progressive: bool)

  const Unknown: string := "unknown"

  /** The ASCII characters `str.isspace` accepts: space, tab, line feed, carriage
      return, vertical tab, form feed and the separators 0x1C-0x1F. */
  predicate IsSpace(c: char)
  {
    c == ' ' || c == '\t' || c == '\n' || c == '\r' || c == '\U{B}' || c == '\U{C}' || '\U{1C}' <= c <= '\U{1F}'
  }

  function TrimStart(s: string): (r: string)
    ensures |r| <= |s| && r == s[|s| - |r|..]
    ensures |r| > 0 ==> !IsSpace(r[0])
    decreases |s|
  {
    if |s| > 0 && IsSpace(s[0]) then TrimStart(s[1..]) else s
  }

  function TrimEnd(s: string): (r: string)
    ensures r <= s
    ensures |r| > 0 ==> !IsSpace(r[|r| - 1])
    decreases |s|
  {
    if |s| > 0 && IsSpace(s[|s| - 1]) then TrimEnd(s[..|s| - 1]) else s
  }

  /** Python `int(s)` on a string: surrounding whitespace, an optional sign, then
      decimal digits; None where `int` raises ValueError. */
  function ParseInt(s: string): (r: Option<int>)
    ensures r.Some? ==> exists k :: 0 <= k < |s| && IsDigit(s[k])
  {
    var t := TrimEnd(TrimStart(s));
    if IsAllDigits(t) then Some(DecimalValue(t))
    else if |t| > 1 && (t[0] == '-' || t[0] == '+') && IsAllDigits(t[1..]) then
      var v: int := DecimalValue(t[1..]);
      Some(if t[0] == '-' then -v else v)
    else None
  }

  /** A plain run of digits is read as its decimal value. */
  lemma ParseIntDigits(s: string)
    requires IsAllDigits(s)
    ensures ParseInt(s) == Some(DecimalValue(s))
  {
    assert !IsSpace(s[0]) && !IsSpace(s[|s| - 1]);
    assert TrimStart(s) == s;
    assert TrimEnd(s) == s;
  }

  /** The ASCII separators count as whitespace: `int("\x1c" + digits)` reads the
      digits (so `int("\x1c95")` is 95). */
  lemma ParseIntStripsSeparator(d: string)
    requires IsAllDigits(d)
    ensures ParseInt("\U{1C}" + d) == Some(DecimalValue(d))
  {
    var s := "\U{1C}" + d;
    assert s[1..] == d;
    assert !IsSpace(d[0]) && !IsSpace(d[|d| - 1]);
    assert TrimStart(d) == d;
    assert TrimStart(s) == d;
    assert TrimEnd(d) == d;
  }

  /** `extrair_parametros_nome`. */
  function ParamsFromName(name: string): NameParams
  {
    var parts := Split(Stem(name), '_');
    if |parts| == 1 && IsAllDigits(parts[0]) then NameParams(None, DecimalValue(parts[0]), Unknown, false)
    else
      var quality := if |parts| > 1 && ParseInt(parts[1]).Some? then ParseInt(parts[1]).value else 0;
      NameParams(Some(parts[0]), quality,
                 if |parts| > 2 then parts[2] else Unknown,
                 |parts| > 3 && Contains(ToLowerAscii(parts[3]), "prog"))
  }

  /** A name written in the documented layout gives back its parts. */
  lemma ParamsRoundTrip(sw: string, q: nat, sub: string, ext: string)
    requires '_' !in sw && '_' !in sub && |sw| > 0
    requires |ext| >= 2 && ext[0] == '.' && forall k :: 1 <= k < |ext| ==> ext[k] != '.'
    ensures ParamsFromName(sw + "_" + NatToDecimal(q) + "_" + sub + ext) == NameParams(Some(sw), q, sub, false)
  {
    var d := NatToDecimal(q);
    var stem := sw + "_" + d + "_" + sub;
    SuffixOf(stem, ext);
    assert '_' !in d by {
      assert forall i :: 0 <= i < |d| ==> IsDigit(d[i]);
    }
    var parts := [sw, d, sub];
    assert Join(parts, "_") == stem by {
      assert Join([sub], "_") == sub;
      assert Join([d, sub], "_") == d + "_" + sub;
    }
    SplitJoin(parts, '_');
    assert Split(stem, '_') == parts;
    DecimalRoundTrip(q);
    ParseIntDigits(d);
  }

  /** The quality-only layout `100.jpg`: no software, the number as quality. */
  lemma ParamsQualityOnly(q: nat, ext: string)
    requires |ext| >= 2 && ext[0] == '.' && forall k :: 1 <= k < |ext| ==> ext[k] != '.'
    ensures ParamsFromName(NatToDecimal(q) + ext) == NameParams(None, q, Unknown, false)
  {
    var d := NatToDecimal(q);
    SuffixOf(d, ext);
    assert '_' !in d by {
      assert forall i :: 0 <= i < |d| ==> IsDigit(d[i]);
    }
    SplitJoin([d], '_');
    assert Join([d], "_") == d;
    DecimalRoundTrip(q);
    ParseIntDigits(d);
  }

  /** Whatever the number of fields, a second field that `int` rejects gives
      quality 0; the software is still the first field, and the third and fourth
      fields still give the subsampling and the progressive flag. */
  lemma ParamsBadQuality(name: string)
    requires var parts := Split(Stem(name), '_'); |parts| >= 2 && ParseInt(parts[1]).None?
    ensures var parts := Split(Stem(name), '_');
      ParamsFromName(name) ==
        NameParams(Some(parts[0]), 0, if |parts| > 2 then parts[2] else Unknown,
                   |parts| > 3 && Contains(ToLowerAscii(parts[3]), "prog"))
  {
  }

  /** In particular `software_word.ext`, with a word that is not a number, gives
      the software, quality 0 and the defaults. */
  lemma ParamsBadQualityTwoFields(sw: string, word: string, ext: string)
    requires '_' !in sw && '_' !in word && |sw| > 0
    requires ParseInt(word).None?
    requires |ext| >= 2 && ext[0] == '.' && forall k :: 1 <= k < |ext| ==> ext[k] != '.'
    ensures ParamsFromName(sw + "_" + word + ext) == NameParams(Some(sw), 0, Unknown, false)
  {
    var stem := sw + "_" + word;
    SuffixOf(stem, ext);
    var parts := [sw, word];
    assert Join(parts, "_") == stem by {
      assert Join([word], "_") == word;
    }
    SplitJoin(parts, '_');
    ParamsBadQuality(sw + "_" + word + ext);
  }

  // ---- processar_arquivo ----

  /** What `info_adicional` supplies; the empty map stands for both None and {}. */
  type Info = map<string, string>

  function GetOr(info: Info, key: string, d: string): string
  {
    if key in info then info[key] else d
  }

  /** The software of the record: the one in the name, unless it is absent or a
      number and extra information was given. */
  function SoftwareFinal(p: NameParams, info: Info): (sw: Option<string>)
    ensures |info| == 0 ==> sw == p.software
    ensures p.software.Some? && !IsAllDigits(p.software.value) ==> sw == p.software
    ensures (p.software.None? || IsAllDigits(p.software.value)) && |info| > 0 ==>
      sw == Some(GetOr(info, "software", "desconhecido"))
  {
    if (p.software.None? || IsAllDigits(p.software.value)) && |info| > 0
    then Some(GetOr(info, "software", "desconhecido"))
    else p.software
  }

  /** Python's `str()` of an optional string, as the f-string writes it. */
  function OptionText(o: Option<string>): string
  {
    if o.Some? then o.value else "None"
  }

  /** The categorical record of `processar_arquivo`, without `metadados_tecnicos`. */
  datatype CategoricalRecord = CategoricalRecord(
    software: Option<string>, version: string, exportMode: string, quality: int,
    subsampling: string, progressive: bool, category: string,
    y: seq<seq<int>>, c: Option<seq<seq<int>>>, hashY: string, hashC: string,
    name: string, path: string, size: nat, fileSha: string)

  /** The record for a file: None when it cannot be read or has no DQT table.
      `sha` hashes text and `shaBytes` hashes bytes (both SHA-256 in hex). */
  function RecordFor(name: string, path: string, data: Option<seq<byte>>, info: Info,
                     sha: string -> string, shaBytes: seq<byte> -> string): Option<CategoricalRecord>
  {
    var p := ParamsFromName(name);
    var sw := SoftwareFinal(p, info);
    if data.None? then None
    else match DirectHeader(data.value)
      case None => None
      case Some(dqts) =>
        Some(CategoricalRecord(
          sw, GetOr(info, "versao", "desconhecida"), GetOr(info, "modo", "Export"), p.quality,
          p.subsampling, p.progressive, OptionText(sw) + "_Q" + IntToDecimal(p.quality),
          dqts.y, dqts.c, TableDigest(Some(dqts.y), sha), TableDigest(dqts.c, sha),
          name, path, |data.value|, shaBytes(data.value)))
  }

  /** A text followed by `_Q` and a rendered integer: the integer has no `_`, so
      the label splits back at its last `_Q`. */
  lemma {:induction false} LabelSplit(a: string, b: string, d: string, e: string)
    requires a + "_Q" + d == b + "_Q" + e
    requires '_' !in d && '_' !in e
    ensures a == b && d == e
  {
    var s := a + "_Q" + d;
    forall i | |a| < i < |s| ensures s[i] != '_' {
      if i > |a| + 1 { assert s[i] == d[i - |a| - 2]; }
    }
    forall i | |b| < i < |s| ensures s[i] != '_' {
      if i > |b| + 1 { assert s[i] == e[i - |b| - 2]; }
    }
    LastIndexOfUnique(s, '_', |a|);
    LastIndexOfUnique(s, '_', |b|);
    assert a == s[..|a|] == b;
    assert d == s[|a| + 2..] == e;
  }

  /** The category label `software_Qquality` determines the quality and the
      software's text (None is written "None"). */
  lemma CategoryInjective(sw1: Option<string>, q1: int, sw2: Option<string>, q2: int)
    requires OptionText(sw1) + "_Q" + IntToDecimal(q1) == OptionText(sw2) + "_Q" + IntToDecimal(q2)
    ensures q1 == q2 && OptionText(sw1) == OptionText(sw2)
  {
    var d1 := IntToDecimal(q1);
    var d2 := IntToDecimal(q2);
    assert '_' !in d1 && '_' !in d2 by {
      assert forall i :: 0 <= i < |d1| ==> d1[i] != '_';
      assert forall i :: 0 <= i < |d2| ==> d2[i] != '_';
    }
    LabelSplit(OptionText(sw1), OptionText(sw2), d1, d2);
    IntToDecimalInjective(q1, q2);
  }

  /** A file gives a record exactly when it can be read and its header holds a DQT
      table. The record carries every parameter of its name, the version and
      export mode from the extra information (with their defaults), its tables,
      the digests of exactly those tables (an empty chroma digest exactly when
      there is no chroma table, for a hash that never gives the empty text), the
      category built from its software and quality, and the file's name, path,
      size and byte digest. */
  lemma RecordForSpec(name: string, path: string, data: Option<seq<byte>>, info: Info,
                      sha: string -> string, shaBytes: seq<byte> -> string)
    requires forall x :: sha(x) != ""
    ensures var r := RecordFor(name, path, data, info, sha, shaBytes);
      r.Some? <==> data.Some? && DirectHeader(data.value).Some?
    ensures var r := RecordFor(name, path, data, info, sha, shaBytes);
      r.Some? ==>
        && r.value.y == DirectHeader(data.value).value.y
        && r.value.c == DirectHeader(data.value).value.c
        && r.value.hashY == TableDigest(Some(r.value.y), sha)
        && r.value.hashC == TableDigest(r.value.c, sha)
        && r.value.hashY != ""
        && (r.value.hashC == "" <==> r.value.c.None?)
        && r.value.quality == ParamsFromName(name).quality
        && r.value.subsampling == ParamsFromName(name).subsampling
        && r.value.progressive == ParamsFromName(name).progressive
        && r.value.software == SoftwareFinal(ParamsFromName(name), info)
        && r.value.version == GetOr(info, "versao", "desconhecida")
        && r.value.exportMode == GetOr(info, "modo", "Export")
        && r.value.category == OptionText(r.value.software) + "_Q" + IntToDecimal(r.value.quality)
        && r.value.name == name && r.value.path == path
        && r.value.size == |data.value| && r.value.fileSha == shaBytes(data.value)
  {
    var r := RecordFor(name, path, data, info, sha, shaBytes);
    if r.Some? {
      var dq := DirectHeader(data.value).value;
      DirectHeaderShape(data.value);
    }
  }

  // ---- gerar_relatorio_resumo ----

  /** The per-software entry of the summary. The unique hash lists are sets: their
      order comes from Python set iteration. */
  datatype SoftwareSummary = SoftwareSummary(total: nat, qualities: seq<int>, uniqueY: set<string>, uniqueC: set<string>)

  /** The summary entry while the records are being counted. */
  datatype Tally = Tally(total: nat, qualities: seq<int>, ys: set<string>, cs: set<string>)

  function AddRecord(t: Tally, r: CategoricalRecord): Tally
  {
    Tally(t.total + 1, t.qualities + [r.quality], t.ys + {r.hashY}, if r.hashC != "" then t.cs + {r.hashC} else t.cs)
  }

  const EmptyTally := Tally(0, [], {}, {})

  function Tallies(rs: seq<CategoricalRecord>): map<Option<string>, Tally>
    decreases |rs|
  {
    if |rs| == 0 then map[]
    else
      var m := Tallies(rs[..|rs| - 1]);
      var r := rs[|rs| - 1];
      m[r.software := AddRecord(if r.software in m then m[r.software] else EmptyTally, r)]
  }

  function Finish(t: Tally): SoftwareSummary
  {
    SoftwareSummary(t.total, SortedSet(t.qualities, IntLe), t.ys, t.cs)
  }

  /** The dictionary `gerar_relatorio_resumo` returns, keyed by software. */
  function SummaryOf(rs: seq<CategoricalRecord>): map<Option<string>, SoftwareSummary>
  {
    var m := Tallies(rs);
    map sw | sw in m :: Finish(m[sw])
  }

  /** The records of one software, in order. */
  function RecordsOf(rs: seq<CategoricalRecord>, sw: Option<string>): seq<CategoricalRecord>
    decreases |rs|
  {
    if |rs| == 0 then []
    else RecordsOf(rs[..|rs| - 1], sw) + (if rs[|rs| - 1].software == sw then [rs[|rs| - 1]] else [])
  }

  /** What a tally records about the records it has counted. */
  ghost predicate Counts(t: Tally, own: seq<CategoricalRecord>)
  {
    && t.total == |own|
    && |t.qualities| == |own|
    && (forall k :: 0 <= k < |own| ==> t.qualities[k] == own[k].quality)
    && (forall h :: h in t.ys <==> exists k :: 0 <= k < |own| && own[k].hashY == h)
    && (forall h :: h in t.cs <==> h != "" && exists k :: 0 <= k < |own| && own[k].hashC == h)
  }

  /** Counting one more record keeps the tally faithful. */
  lemma AddRecordCounts(t: Tally, prev: seq<CategoricalRecord>, r: CategoricalRecord)
    requires Counts(t, prev)
    ensures Counts(AddRecord(t, r), prev + [r])
  {
    var own := prev + [r];
    var t1 := AddRecord(t, r);
    assert own[|prev|] == r;
    forall h ensures h in t1.ys <==> exists k :: 0 <= k < |own| && own[k].hashY == h {
      if h in t.ys {
        var k :| 0 <= k < |prev| && prev[k].hashY == h;
        assert own[k] == prev[k];
      }
      if exists k :: 0 <= k < |own| && own[k].hashY == h {
        var k :| 0 <= k < |own| && own[k].hashY == h;
        if k < |prev| { assert own[k] == prev[k]; }
      }
    }
    forall h ensures h in t1.cs <==> h != "" && exists k :: 0 <= k < |own| && own[k].hashC == h {
      if h in t.cs {
        var k :| 0 <= k < |prev| && prev[k].hashC == h;
        assert own[k] == prev[k];
      }
      if h != "" && exists k :: 0 <= k < |own| && own[k].hashC == h {
        var k :| 0 <= k < |own| && own[k].hashC == h;
        if k < |prev| { assert own[k] == prev[k]; }
      }
    }
  }

  /** The tally of a software is that of its own records: their number, their
      qualities in order, their luma hashes and their non-empty chroma hashes. */
  lemma {:induction false} TalliesSpec(rs: seq<CategoricalRecord>, sw: Option<string>)
    ensures sw in Tallies(rs) <==> |RecordsOf(rs, sw)| > 0
    ensures sw in Tallies(rs) ==> Counts(Tallies(rs)[sw], RecordsOf(rs, sw))
    decreases |rs|
  {
    if |rs| > 0 {
      var init := rs[..|rs| - 1];
      var r := rs[|rs| - 1];
      TalliesSpec(init, sw);
      var prev := RecordsOf(init, sw);
      if r.software == sw {
        assert RecordsOf(rs, sw) == prev + [r];
        if sw in Tallies(init) {
          AddRecordCounts(Tallies(init)[sw], prev, r);
        } else {
          assert prev == [];
          assert Counts(EmptyTally, prev);
          AddRecordCounts(EmptyTally, prev, r);
        }
      } else {
        assert RecordsOf(rs, sw) == prev;
      }
    }
  }

  /** The summary has an entry for every software that has a record, holding their
      count, their distinct qualities in ascending order and their distinct luma
      and non-empty chroma hashes. */
  lemma SummarySpec(rs: seq<CategoricalRecord>, sw: Option<string>)
    ensures sw in SummaryOf(rs) <==> exists k :: 0 <= k < |rs| && rs[k].software == sw
    ensures sw in SummaryOf(rs) ==> var s := SummaryOf(rs)[sw]; var own := RecordsOf(rs, sw);
      && s.total == |own|
      && StrictlySortedBy(s.qualities, IntLe)
      && (forall q :: q in s.qualities <==> exists k :: 0 <= k < |own| && own[k].quality == q)
      && (forall h :: h in s.uniqueY <==> exists k :: 0 <= k < |own| && own[k].hashY == h)
      && (forall h :: h in s.uniqueC <==> h != "" && exists k :: 0 <= k < |own| && own[k].hashC == h)
  {
    TalliesSpec(rs, sw);
    RecordsOfSpec(rs, sw);
    if sw in Tallies(rs) {
      var t := Tallies(rs)[sw];
      IntLeOrder();
      SortedSetSpec(t.qualities, IntLe);
      var own := RecordsOf(rs, sw);
      forall q ensures q in t.qualities <==> exists k :: 0 <= k < |own| && own[k].quality == q {
        if q in t.qualities {
          var k :| 0 <= k < |t.qualities| && t.qualities[k] == q;
        }
      }
    }
  }

  /** A software has records exactly when some record carries it. */
  lemma {:induction false} RecordsOfSpec(rs: seq<CategoricalRecord>, sw: Option<string>)
    ensures |RecordsOf(rs, sw)| > 0 <==> exists k :: 0 <= k < |rs| && rs[k].software == sw
    ensures |RecordsOf(rs, sw)| <= |rs|
    decreases |rs|
  {
    if |rs| > 0 {
      var init := rs[..|rs| - 1];
      RecordsOfSpec(init, sw);
      if exists k :: 0 <= k < |rs| && rs[k].software == sw {
        var k :| 0 <= k < |rs| && rs[k].software == sw;
        if k < |init| { assert init[k] == rs[k]; }
      }
      if exists k :: 0 <= k < |init| && init[k].software == sw {
        var k :| 0 <= k < |init| && init[k].software == sw;
        assert rs[k] == init[k];
      }
    }
  }

  /** The extractor and its accumulated `resultados`. */
  class Extractor {
    var results: seq<CategoricalRecord>

    constructor()
      ensures results == []
    {
      results := [];
    }

    /** `processar_arquivo`: the record of one file, appended to the results when
        there is one. `data` is None when the file cannot be read. */
    method ProcessFile(name: string, path: string, data: Option<seq<byte>>, info: Info,
                       sha: string -> string, shaBytes: seq<byte> -> string)
      returns (r: Option<CategoricalRecord>)
      modifies this
      ensures r == RecordFor(name, path, data, info, sha, shaBytes)
      ensures results == old(results) + (if r.Some? then [r.value] else [])
    {
      var params := ParamsFromName(name);
      var software := SoftwareFinal(params, info);
      var quality := params.quality;
      if data.None? {
        return None;
      }
      var fileSha := shaBytes(data.value);
      var dqts := ExtractDqtDirectHeader(data.value);
      if dqts.None? {
        return None;
      }
      var hashY := TableHash(Some(dqts.value.y), sha);
      var hashC := TableHash(dqts.value.c, sha);
      var record := CategoricalRecord(
        software, GetOr(info, "versao", "desconhecida"), GetOr(info, "modo", "Export"), quality,
        params.subsampling, params.progressive, OptionText(software) + "_Q" + IntToDecimal(quality),
        dqts.value.y, dqts.value.c, hashY, hashC, name, path, |data.value|, fileSha);
      results := results + [record];
      return Some(record);
    }

    /** `gerar_relatorio_resumo`. */
    method Summary() returns (summary: map<Option<string>, SoftwareSummary>)
      ensures summary == SummaryOf(results)
    {
      var tallies := CountRecords(results);
      summary := FinishAll(tallies);
    }
  }

  /** The counting loop of `gerar_relatorio_resumo`. */
  method CountRecords(rs: seq<CategoricalRecord>) returns (tallies: map<Option<string>, Tally>)
    ensures tallies == Tallies(rs)
  {
    tallies := map[];
    for n := 0 to |rs|
      invariant tallies == Tallies(rs[..n])
    {
      assert rs[..n + 1][..n] == rs[..n];
      var r := rs[n];
      var t := if r.software in tallies then tallies[r.software] else EmptyTally;
      var cs := t.cs;
      if r.hashC != "" {
        cs := cs + {r.hashC};
      }
      tallies := tallies[r.software := Tally(t.total + 1, t.qualities + [r.quality], t.ys + {r.hashY}, cs)];
    }
    assert rs[..|rs|] == rs;
  }

  /** The final loop: qualities sorted without repeats, hash sets kept. */
  method FinishAll(tallies: map<Option<string>, Tally>) returns (summary: map<Option<string>, SoftwareSummary>)
    ensures summary == map sw | sw in tallies :: Finish(tallies[sw])
  {
    summary := map[];
    var pending := tallies.Keys;
    while pending != {}
      invariant pending <= tallies.Keys
      invariant summary.Keys == tallies.Keys - pending
      invariant forall sw :: sw in summary ==> summary[sw] == Finish(tallies[sw])
      decreases pending
    {
      var sw :| sw in pending;
      summary := summary[sw := Finish(tallies[sw])];
      pending := pending - {sw};
    }
  }
}
