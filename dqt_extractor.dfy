/** Direct reading of the quantization tables from the bytes of a JPEG file
    (`ExtratorDQTCategorico.extrair_dqt_direto_header`), and the table digest
    (`calcular_hash_tabela`). The DQT segment syntax is that of section B.2.4.1
    of ITU-T T.81. */
module DqtExtractor {
  import opened Optional
  import opened Bytes
  import opened Text
  import opened ZigZagOrder

  /** The `tipo` field of a parsed table: 'Y' for ids 0 and 1, 'C' otherwise. */
  datatype TableKind = KindY | KindC

  /** One parsed quantization table; `values` is in raster (natural) order. */
  datatype DqtTable = DqtTable(id: nat, precision: nat, values: seq<seq<int>>, kind: TableKind)

  /** The dictionary returned when at least one table was found: luma `Y` and, when
      there are two or more tables, chroma `C`. */
  datatype DqtPair = DqtPair(y: seq<seq<int>>, c: Option<seq<seq<int>>>)

  const DQT: byte := 0xDB

  /** Bytes taken by the 64 coefficients of a table of the given precision. */
  function BytesNeeded(precision: nat): (n: nat)
    ensures n == if precision == 0 then 64 else 128
  {
    64 * (if precision == 0 then 1 else 2)
  }

  /** The 64 stored coefficients that start at p: bytes for precision 0, big-endian
      16-bit words for any other precision. */
  function TableValues(d: seq<byte>, p: nat, precision: nat): (values: seq<int>)
    requires p + BytesNeeded(precision) <= |d|
    ensures |values| == 64
    ensures forall j :: 0 <= j < 64 ==> 0 <= values[j] < (if precision == 0 then 0x100 else 0x1_0000)
  {
    seq(64, j requires 0 <= j < 64 => if precision == 0 then d[p + j] else ReadBeU16(d, p + 2 * j))
  }

  function MakeTable(id: nat, precision: nat, values: seq<int>): DqtTable
    requires |values| == 64
  {
    DqtTable(id, precision, Dezigzag(values), if id == 0 || id == 1 then KindY else KindC)
  }

  /** The tables of one DQT payload, parsed from offset pos; a table with too few
      bytes left ends the payload. */
  function SubTables(d: seq<byte>, pos: nat): seq<DqtTable>
    decreases |d| - pos
  {
    if pos >= |d| then []
    else
      var info := d[pos];
      var p := pos + 1;
      var need := BytesNeeded(HighNibble(info));
      if p + need > |d| then []
      else [MakeTable(LowNibble(info), HighNibble(info), TableValues(d, p, HighNibble(info)))] + SubTables(d, p + need)
  }

  /** The slice `dados[i+4 : i+2+length]`, clamped as Python clamps slices. */
  function Payload(data: seq<byte>, i: nat, length: nat): (d: seq<byte>)
    requires i + 4 <= |data|
    ensures |d| == if i + 2 + length > |data| then |data| - (i + 4) else if length < 2 then 0 else length - 2
  {
    var hi := if i + 2 + length > |data| then |data| else if length < 2 then i + 4 else i + 2 + length;
    data[i + 4..hi]
  }

  function Prepend(ts: seq<DqtTable>, r: Option<seq<DqtTable>>): Option<seq<DqtTable>>
  {
    match r
    case None => None
    case Some(rest) => Some(ts + rest)
  }

  /** The tables found by the scan from cursor i on, or None when `struct.unpack`
      raises because a DQT length field runs past the end of the buffer. */
  function ScanDqt(data: seq<byte>, i: nat): Option<seq<DqtTable>>
    decreases |data| - i
  {
    if i + 1 >= |data| then Some([])
    else if data[i] == 0xFF && data[i + 1] == DQT then
      if i + 4 > |data| then None
      else
        var length := ReadBeU16(data, i + 2);
        Prepend(SubTables(Payload(data, i, length), 0), ScanDqt(data, i + 2 + length))
    else ScanDqt(data, i + 1)
  }

  /** The index of the first table with the given id, or |ts| when there is none. */
  function FirstWithId(ts: seq<DqtTable>, id: nat): (k: nat)
    ensures k <= |ts| && (k < |ts| ==> ts[k].id == id)
    ensures forall j :: 0 <= j < k ==> ts[j].id != id
    decreases |ts|
  {
    if |ts| == 0 then 0 else if ts[0].id == id then 0 else 1 + FirstWithId(ts[1..], id)
  }

  /** m is the values of the first table with the given id, or of ts[fallback] when
      no table has that id. */
  ghost predicate PickedById(ts: seq<DqtTable>, id: nat, fallback: nat, m: seq<seq<int>>)
    requires fallback < |ts|
  {
    if exists k :: 0 <= k < |ts| && ts[k].id == id
    then exists k :: 0 <= k < |ts| && ts[k].id == id && m == ts[k].values && forall j :: 0 <= j < k ==> ts[j].id != id
    else m == ts[fallback].values
  }

  /** The choice of luma and chroma tables among the tables found. */
  function SelectTables(ts: seq<DqtTable>): (r: Option<DqtPair>)
    ensures r.None? <==> |ts| == 0
    ensures |ts| == 1 ==> r == Some(DqtPair(ts[0].values, None))
    ensures |ts| >= 2 ==> r.Some? && r.value.c.Some?
    ensures |ts| >= 2 ==> PickedById(ts, 0, 0, r.value.y) && PickedById(ts, 1, 1, r.value.c.value)
  {
    if |ts| >= 2 then
      var yi := FirstWithId(ts, 0);
      var ci := FirstWithId(ts, 1);
      Some(DqtPair(if yi < |ts| then ts[yi].values else ts[0].values,
                   Some(if ci < |ts| then ts[ci].values else ts[1].values)))
    else if |ts| == 1 then Some(DqtPair(ts[0].values, None))
    else None
  }

  /** The luma and chroma choices are independent: when no table has id 0 and the
      first table has id 1, that one table is returned as both Y and C. */
  lemma SelectSameTable(m0: seq<seq<int>>, m1: seq<seq<int>>)
    ensures SelectTables([DqtTable(1, 0, m0, KindY), DqtTable(5, 0, m1, KindC)]) == Some(DqtPair(m0, Some(m0)))
  {
    var ts := [DqtTable(1, 0, m0, KindY), DqtTable(5, 0, m1, KindC)];
    assert ts[1..][0].id == 5;
    assert FirstWithId(ts, 0) == 2;
  }

  /** What `extrair_dqt_direto_header` returns for the file contents `data`. */
  function DirectHeader(data: seq<byte>): Option<DqtPair>
  {
    match ScanDqt(data, 0)
    case None => None
    case Some(ts) => SelectTables(ts)
  }

  /** The `for j in range(64)` loop that collects the stored coefficients. */
  method ReadTableValues(d: seq<byte>, p: nat, precision: nat) returns (values: seq<int>)
    requires p + BytesNeeded(precision) <= |d|
    ensures values == TableValues(d, p, precision)
  {
    values := [];
    for j := 0 to 64
      invariant |values| == j
      invariant forall k :: 0 <= k < j ==> values[k] == TableValues(d, p, precision)[k]
    {
      var v;
      if precision == 0 {
        v := d[p + j];
      } else {
        v := ReadBeU16(d, p + 2 * j);
      }
      values := values + [v];
    }
  }

  /** The 8x8 matrix of the coefficients in raster order. */
  method ToMatrix(values: seq<int>) returns (m: seq<seq<int>>)
    requires |values| == 64
    ensures m == Dezigzag(values)
  {
    ZigZagBounded();
    m := LayOut(values, ZigZag);
    DezigzagIs(values, m);
  }

  /** The nested loops `matriz[i][j] = table_values[order[i * 8 + j]]`, for an order
      table of 64 positions below 64. */
  method LayOut(values: seq<int>, order: seq<nat>) returns (m: seq<seq<int>>)
    requires |values| == 64 && |order| == 64
    requires forall k :: 0 <= k < 64 ==> order[k] < 64
    ensures Is8x8(m)
    ensures forall r, c :: 0 <= r < 8 && 0 <= c < 8 ==> m[r][c] == values[order[8 * r + c]]
  {
    m := [];
    for row := 0 to 8
      invariant |m| == row
      invariant forall r :: 0 <= r < row ==> |m[r]| == 8
      invariant forall r, c :: 0 <= r < row && 0 <= c < 8 ==> m[r][c] == values[order[8 * r + c]]
    {
      var line := LayOutRow(values, order, row);
      m := m + [line];
    }
  }

  /** The inner `for j in range(8)` loop: one row of the matrix. */
  method LayOutRow(values: seq<int>, order: seq<nat>, row: nat) returns (line: seq<int>)
    requires |values| == 64 && |order| == 64 && row < 8
    requires forall k :: 0 <= k < 64 ==> order[k] < 64
    ensures |line| == 8 && forall c :: 0 <= c < 8 ==> line[c] == values[order[8 * row + c]]
  {
    line := [];
    for col := 0 to 8
      invariant |line| == col
      invariant forall c :: 0 <= c < col ==> line[c] == values[order[8 * row + c]]
    {
      line := line + [values[order[8 * row + col]]];
    }
  }

  /** The inner `while pos < len(segmento)` loop over the tables of one payload. */
  method ParseSegment(segment: seq<byte>) returns (found: seq<DqtTable>)
    ensures found == SubTables(segment, 0)
  {
    found := [];
    var pos := 0;
    while pos < |segment|
      invariant pos <= |segment|
      invariant found + SubTables(segment, pos) == SubTables(segment, 0)
      decreases |segment| - pos
    {
      var info := segment[pos];
      var precision := HighNibble(info);
      var tableId := LowNibble(info);
      pos := pos + 1;
      var need := BytesNeeded(precision);
      if pos + need > |segment| {
        // truncated or malformed segment: the rest of it is dropped
        assert SubTables(segment, pos - 1) == [];
        assert found + [] == found;
        break;
      }
      var values := ReadTableValues(segment, pos, precision);
      pos := pos + need;
      var matrix := ToMatrix(values);
      var kind := if tableId == 0 || tableId == 1 then KindY else KindC;
      var t := DqtTable(tableId, precision, matrix, kind);
      assert [t] + SubTables(segment, pos) == SubTables(segment, pos - need - 1);
      assert (found + [t]) + SubTables(segment, pos) == found + ([t] + SubTables(segment, pos));
      found := found + [t];
    }
    if pos == |segment| {
      assert found + [] == found;
    }
  }

  /** The outer scan for `FF DB` markers, up to the point where the tables are
      chosen; None when the length field of a DQT marker is cut off. */
  method ScanTables(data: seq<byte>) returns (r: Option<seq<DqtTable>>)
    ensures r == ScanDqt(data, 0)
  {
    var tables: seq<DqtTable> := [];
    var i := 0;
    if ScanDqt(data, 0).Some? {
      assert [] + ScanDqt(data, 0).value == ScanDqt(data, 0).value;
    }
    while i + 1 < |data|
      invariant ScanDqt(data, 0) == Prepend(tables, ScanDqt(data, i))
      decreases |data| - i
    {
      if data[i] == 0xFF && data[i + 1] == DQT {
        if i + 4 > |data| {
          // struct.unpack raises; the exception handler returns None
          return None;
        }
        var length := ReadBeU16(data, i + 2);
        var found := ParseSegment(Payload(data, i, length));
        PrependAssoc(tables, found, ScanDqt(data, i + 2 + length));
        tables := tables + found;
        i := i + 2 + length;
      } else {
        i := i + 1;
      }
    }
    assert ScanDqt(data, i) == Some([]);
    assert tables + [] == tables;
    return Some(tables);
  }

  lemma PrependAssoc(a: seq<DqtTable>, b: seq<DqtTable>, r: Option<seq<DqtTable>>)
    ensures Prepend(a, Prepend(b, r)) == Prepend(a + b, r)
  {
    if r.Some? {
      assert a + (b + r.value) == (a + b) + r.value;
    }
  }

  /** The first table with the given id, else the table at `fallback`. */
  method PickById(tables: seq<DqtTable>, id: nat, fallback: nat) returns (m: seq<seq<int>>)
    requires fallback < |tables|
    ensures m == (if FirstWithId(tables, id) < |tables| then tables[FirstWithId(tables, id)] else tables[fallback]).values
  {
    var k := 0;
    while k < |tables|
      invariant k <= FirstWithId(tables, id)
    {
      if tables[k].id == id {
        return tables[k].values;
      }
      k := k + 1;
    }
    return tables[fallback].values;
  }

  /** `extrair_dqt_direto_header` with the file contents as input. */
  method ExtractDqtDirectHeader(data: seq<byte>) returns (r: Option<DqtPair>)
    ensures r == DirectHeader(data)
  {
    var scanned := ScanTables(data);
    if scanned.None? {
      return None;
    }
    var tables := scanned.value;
    if |tables| >= 2 {
      var y := PickById(tables, 0, 0);
      var c := PickById(tables, 1, 1);
      return Some(DqtPair(y, Some(c)));
    } else if |tables| == 1 {
      return Some(DqtPair(tables[0].values, None));
    }
    return None;
  }

  // ---- calcular_hash_tabela ----

  /** The text that is hashed: each row as comma-separated decimals followed by '|'. */
  function RowsText(t: seq<seq<int>>): string
    decreases |t|
  {
    if |t| == 0 then "" else RowsText(t[..|t| - 1]) + CommaJoin(t[|t| - 1]) + "|"
  }

  /** The hex digest of a table, "" when there is no table (None or an empty list);
      `sha` is SHA-256 of the text's UTF-8 encoding, in lower-case hex. */
  function TableDigest(t: Option<seq<seq<int>>>, sha: string -> string): string
  {
    if t.None? || t.value == [] then "" else sha(RowsText(t.value))
  }

  method TableHash(t: Option<seq<seq<int>>>, sha: string -> string) returns (h: string)
    ensures h == TableDigest(t, sha)
  {
    if t.None? || t.value == [] {
      return "";
    }
    var text := "";
    for k := 0 to |t.value|
      invariant text == RowsText(t.value[..k])
    {
      assert t.value[..k + 1][..k] == t.value[..k];
      text := text + CommaJoin(t.value[k]) + "|";
    }
    assert t.value[..|t.value|] == t.value;
    return sha(text);
  }

  lemma CommaJoinNoBar(xs: seq<int>)
    ensures '|' !in CommaJoin(xs)
  {
    var ds := Decimals(xs);
    forall i | 0 <= i < |ds| ensures '|' !in ds[i] {
      assert forall j :: 0 <= j < |ds[i]| ==> IsDigit(ds[i][j]) || ds[i][j] == '-';
    }
    JoinAvoids(ds, ",", '|');
  }

  /** The last row's text starts right after the second-to-last '|'. */
  lemma {:induction false} RowsTextLastRow(t: seq<seq<int>>)
    requires |t| > 0
    ensures var s := RowsText(t); var p := RowsText(t[..|t| - 1]);
      |s| > 0 && LastIndexOf(s[..|s| - 1], '|') == |p| - 1
  {
    var p := RowsText(t[..|t| - 1]);
    var row := CommaJoin(t[|t| - 1]);
    CommaJoinNoBar(t[|t| - 1]);
    assert RowsText(t) == p + row + "|";
    if |t| > 1 {
      var q := t[..|t| - 1];
      assert p == RowsText(q[..|q| - 1]) + CommaJoin(q[|q| - 1]) + "|";
    }
    BarredLast(p, row);
  }

  /** In `p + row + "|"` with no '|' in row and p empty or ending in '|', the last
      '|' before the final one closes p. */
  lemma BarredLast(p: string, row: string)
    requires p == "" || p[|p| - 1] == '|'
    requires '|' !in row
    ensures var s := p + row + "|"; LastIndexOf(s[..|s| - 1], '|') == |p| - 1
  {
    var s := p + row + "|";
    var u := p + row;
    assert s[..|s| - 1] == u;
    forall i | |p| - 1 < i < |u| ensures u[i] != '|' {
      assert u[i] == row[i - |p|];
    }
    LastIndexOfUnique(u, '|', |p| - 1);
  }

  /** Two texts `p + r + "|"` with prefixes of one length share prefix and row. */
  lemma BarredSplit(pa: string, ra: string, pb: string, rb: string)
    requires pa + ra + "|" == pb + rb + "|" && |pa| == |pb|
    ensures pa == pb && ra == rb
  {
    var s := pa + ra + "|";
    assert pa == s[..|pa|] && pb == s[..|pb|];
    assert ra == s[|pa|..|s| - 1] && rb == s[|pb|..|s| - 1];
  }

  /** Equal texts of two non-empty tables split into equal earlier rows and an
      equal last row. */
  lemma RowsTextSplitEqual(a: seq<seq<int>>, b: seq<seq<int>>)
    requires |a| > 0 && |b| > 0 && RowsText(a) == RowsText(b)
    ensures RowsText(a[..|a| - 1]) == RowsText(b[..|b| - 1])
    ensures a[|a| - 1] == b[|b| - 1]
  {
    RowsTextLastRow(a);
    RowsTextLastRow(b);
    var pa, pb := RowsText(a[..|a| - 1]), RowsText(b[..|b| - 1]);
    var ra, rb := CommaJoin(a[|a| - 1]), CommaJoin(b[|b| - 1]);
    assert RowsText(a) == pa + ra + "|";
    assert RowsText(b) == pb + rb + "|";
    BarredSplit(pa, ra, pb, rb);
    CommaJoinInjective(a[|a| - 1], b[|b| - 1]);
  }

  /** Different tables give different hashed texts. */
  lemma {:induction false} RowsTextInjective(a: seq<seq<int>>, b: seq<seq<int>>)
    requires RowsText(a) == RowsText(b)
    ensures a == b
    decreases |a|
  {
    if |a| > 0 && |b| > 0 {
      RowsTextSplitEqual(a, b);
      RowsTextInjective(a[..|a| - 1], b[..|b| - 1]);
      LastSplit(a);
      LastSplit(b);
    } else if |a| > 0 {
      RowsTextLastRow(a);
    } else if |b| > 0 {
      RowsTextLastRow(b);
    }
  }

  lemma LastSplit(t: seq<seq<int>>)
    requires |t| > 0
    ensures t == t[..|t| - 1] + [t[|t| - 1]]
  {
  }

  /** With a collision-free digest that never yields "", equal table hashes mean
      equal tables (absent and empty tables share the digest ""). */
  lemma TableDigestInjective(a: Option<seq<seq<int>>>, b: Option<seq<seq<int>>>, sha: string -> string)
    requires forall x, y :: sha(x) == sha(y) ==> x == y
    requires forall x :: sha(x) != ""
    requires TableDigest(a, sha) == TableDigest(b, sha)
    ensures TableDigest(a, sha) == "" <==> (a.None? || a.value == [])
    ensures a.Some? && a.value != [] ==> b == a
  {
    if a.Some? && a.value != [] {
      RowsTextInjective(a.value, b.value);
    }
  }

  // ---- properties of the scan ----

  /** What every parsed table satisfies. */
  predicate WellFormed(t: DqtTable)
  {
    && t.id < 16 && t.precision < 16
    && Is8x8(t.values)
    && (forall r, c :: 0 <= r < 8 && 0 <= c < 8 ==>
          0 <= t.values[r][c] < (if t.precision == 0 then 0x100 else 0x1_0000))
    && (t.kind == KindY <==> t.id <= 1)
  }

  lemma {:induction false} SubTablesWellFormed(d: seq<byte>, pos: nat)
    ensures forall k :: 0 <= k < |SubTables(d, pos)| ==> WellFormed(SubTables(d, pos)[k])
    ensures |SubTables(d, pos)| * 65 <= |d| - pos || |SubTables(d, pos)| == 0
    decreases |d| - pos
  {
    if pos < |d| {
      var info := d[pos];
      var need := BytesNeeded(HighNibble(info));
      if pos + 1 + need <= |d| {
        SubTablesWellFormed(d, pos + 1 + need);
        var vs := TableValues(d, pos + 1, HighNibble(info));
        ZigZagBounded();
        var t := MakeTable(LowNibble(info), HighNibble(info), vs);
        assert forall r, c :: 0 <= r < 8 && 0 <= c < 8 ==> t.values[r][c] == vs[ZigZag[8 * r + c]];
        assert WellFormed(t);
      }
    }
  }

  /** Every table of a successful scan is well formed. */
  lemma {:induction false} ScanDqtWellFormed(data: seq<byte>, i: nat)
    requires ScanDqt(data, i).Some?
    ensures forall k :: 0 <= k < |ScanDqt(data, i).value| ==> WellFormed(ScanDqt(data, i).value[k])
    decreases |data| - i
  {
    if i + 1 < |data| {
      if data[i] == 0xFF && data[i + 1] == DQT {
        var length := ReadBeU16(data, i + 2);
        SubTablesWellFormed(Payload(data, i, length), 0);
        ScanDqtWellFormed(data, i + 2 + length);
      } else {
        ScanDqtWellFormed(data, i + 1);
      }
    }
  }

  /** The tables `extrair_dqt_direto_header` returns, luma and chroma alike, are
      8x8 matrices of coefficients below 2^16. */
  lemma DirectHeaderShape(data: seq<byte>)
    requires DirectHeader(data).Some?
    ensures Is8x8(DirectHeader(data).value.y)
    ensures DirectHeader(data).value.c.Some? ==> Is8x8(DirectHeader(data).value.c.value)
    ensures forall r, c :: 0 <= r < 8 && 0 <= c < 8 ==> 0 <= DirectHeader(data).value.y[r][c] < 0x1_0000
    ensures DirectHeader(data).value.c.Some? ==>
      forall r, c :: 0 <= r < 8 && 0 <= c < 8 ==> 0 <= DirectHeader(data).value.c.value[r][c] < 0x1_0000
  {
    var ts := ScanDqt(data, 0).value;
    ScanDqtWellFormed(data, 0);
    if |ts| >= 2 {
      var yi := FirstWithId(ts, 0);
      var ci := FirstWithId(ts, 1);
      assert WellFormed(if yi < |ts| then ts[yi] else ts[0]);
      assert WellFormed(if ci < |ts| then ts[ci] else ts[1]);
    } else {
      assert WellFormed(ts[0]);
    }
  }

  predicate CutLength(data: seq<byte>, j: nat)
  {
    j + 1 < |data| && data[j] == 0xFF && data[j + 1] == DQT && j + 4 > |data|
  }

  /** The scan fails only on a DQT marker among the last three bytes, whose length
      field is cut off. */
  lemma {:induction false} ScanDqtFault(data: seq<byte>, i: nat)
    requires ScanDqt(data, i).None?
    ensures exists j :: i <= j && CutLength(data, j)
    decreases |data| - i
  {
    if data[i] == 0xFF && data[i + 1] == DQT {
      if i + 4 > |data| {
        assert CutLength(data, i);
      } else {
        var length := ReadBeU16(data, i + 2);
        ScanDqtFault(data, i + 2 + length);
      }
    } else {
      ScanDqtFault(data, i + 1);
    }
  }

  /** Without a cut DQT marker at the end the scan always succeeds. */
  lemma ScanDqtSucceeds(data: seq<byte>)
    requires forall j :: 0 <= j ==> !CutLength(data, j)
    ensures ScanDqt(data, 0).Some?
  {
    if ScanDqt(data, 0).None? {
      ScanDqtFault(data, 0);
    }
  }

  /** The payload read from a cut buffer is a prefix of the payload of the whole. */
  lemma PayloadTruncated(data: seq<byte>, m: nat, i: nat, length: nat)
    requires i + 4 <= m <= |data|
    ensures Payload(data[..m], i, length) == Payload(data, i, length)[..|Payload(data[..m], i, length)|]
  {
    var e := data[..m];
    var he := if i + 2 + length > m then m else if length < 2 then i + 4 else i + 2 + length;
    var hd := if i + 2 + length > |data| then |data| else if length < 2 then i + 4 else i + 2 + length;
    assert Payload(e, i, length) == e[i + 4..he] == data[i + 4..he];
    assert Payload(data, i, length) == data[i + 4..hd];
    assert he <= hd;
    var short, long := data[i + 4..he], data[i + 4..hd];
    assert |short| <= |long|;
    forall k | 0 <= k < |short| ensures short[k] == long[k] {
      assert short[k] == data[i + 4 + k] == long[k];
    }
    assert short == long[..|short|];
  }

  lemma {:induction false} SubTablesTruncated(d: seq<byte>, m: nat, pos: nat)
    requires m <= |d|
    ensures SubTables(d[..m], pos) <= SubTables(d, pos)
    decreases |d| - pos
  {
    var e := d[..m];
    if pos < m {
      var info := d[pos];
      assert e[pos] == info;
      var need := BytesNeeded(HighNibble(info));
      if pos + 1 + need <= m {
        assert TableValues(e, pos + 1, HighNibble(info)) == TableValues(d, pos + 1, HighNibble(info));
        SubTablesTruncated(d, m, pos + 1 + need);
      }
    }
  }

  /** Cutting a file short loses only tables at the end: when both scans succeed,
      the tables found in the prefix are a prefix of the tables found in the whole. */
  lemma {:induction false} ScanDqtTruncated(data: seq<byte>, m: nat, i: nat)
    requires m <= |data|
    requires ScanDqt(data[..m], i).Some? && ScanDqt(data, i).Some?
    ensures ScanDqt(data[..m], i).value <= ScanDqt(data, i).value
    decreases |data| - i
  {
    var e := data[..m];
    if i + 1 < m {
      assert e[i] == data[i] && e[i + 1] == data[i + 1];
      if data[i] == 0xFF && data[i + 1] == DQT {
        assert e[i + 2] == data[i + 2] && e[i + 3] == data[i + 3];
        var length := ReadBeU16(data, i + 2);
        assert ReadBeU16(e, i + 2) == length;
        var pe, pd := Payload(e, i, length), Payload(data, i, length);
        var rest := ScanDqt(data, i + 2 + length).value;
        if i + 2 + length < m {
          assert pe == pd;
          ScanDqtTruncated(data, m, i + 2 + length);
        } else {
          PayloadTruncated(data, m, i, length);
          SubTablesTruncated(pd, |pe|, 0);
          assert ScanDqt(e, i + 2 + length) == Some([]);
          assert ScanDqt(e, i).value == SubTables(pe, 0) + [];
        }
      } else {
        ScanDqtTruncated(data, m, i + 1);
      }
    }
  }
}
