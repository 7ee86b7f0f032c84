/** The marker walk of `extract_jpeg_meta`: the first baseline (SOF0) or progressive
    (SOF2) frame header of a JPEG file gives its dimensions, its scan mode and a
    guess at its chroma subsampling. Marker and frame header syntax are those of
    sections B.1.1.2 and B.2.2 of ITU-T T.81. */
module JpegMeta {
  import opened Optional
  import opened Bytes

  const SOI: byte := 0xD8
  const EOI: byte := 0xD9
  const SOF0: byte := 0xC0
  const SOF2: byte := 0xC2

  /** The chroma subsampling modes the heuristic recognises ("444", "422", "420"). */
  datatype Subsampling = S444 | S422 | S420

  function Label(s: Subsampling): string
  {
    match s
    case S444 => "444"
    case S422 => "422"
    case S420 => "420"
  }

  /** The (horizontal, vertical) sampling factors of the luma component that each
      mode stands for, the chroma component being sampled (1, 1). */
  function LumaFactors(s: Subsampling): (nat, nat)
  {
    match s
    case S444 => (1, 1)
    case S422 => (2, 1)
    case S420 => (2, 2)
  }

  /** `JPEGMeta`; every field is None when no usable frame header was found. */
  datatype Meta = Meta(progressive: Option<bool>, subsampling: Option<Subsampling>,
                       width: Option<nat>, height: Option<nat>)

  /** One frame component: its id and its sampling factors. */
  datatype Component = Component(id: nat, h: nat, v: nat)

  /** The frame header found: its marker and its segment payload. */
  datatype Sof = Sof(marker: byte, seg: seq<byte>)

  /** The index of the first byte at or after i that is not the fill byte 0xFF. */
  function SkipFill(data: seq<byte>, i: nat): (j: nat)
    requires i <= |data|
    ensures i <= j <= |data|
    ensures forall k :: i <= k < j ==> data[k] == 0xFF
    ensures j < |data| ==> data[j] != 0xFF
    decreases |data| - i
  {
    if i < |data| && data[i] == 0xFF then SkipFill(data, i + 1) else i
  }

  /** The first SOF0/SOF2 segment with at least 6 payload bytes that the walk from
      cursor i reaches; None when the walk stops first (end of data, a length
      field cut off, a length below 2 or past the end). */
  function FindSof(data: seq<byte>, i: nat): Option<Sof>
    decreases |data| - i
  {
    if i + 4 > |data| then None
    else if data[i] != 0xFF then FindSof(data, i + 1)
    else
      var j := SkipFill(data, i);
      if j >= |data| then None
      else
        var marker := data[j];
        var k := j + 1;
        if marker == SOI || marker == EOI then FindSof(data, k)
        else if k + 2 > |data| then None
        else
          var segLen := ReadBeU16(data, k);
          var s := k + 2;
          if segLen < 2 || s + (segLen - 2) > |data| then None
          else
            var seg := data[s..s + (segLen - 2)];
            if (marker == SOF0 || marker == SOF2) && |seg| >= 6 then Some(Sof(marker, seg))
            else FindSof(data, s + (segLen - 2))
  }

  /** The components listed from offset base, at most n of them; the list stops at
      the first component that does not fit. */
  function Components(seg: seq<byte>, base: nat, n: nat): (cs: seq<Component>)
    ensures |cs| <= n
    decreases n
  {
    if n == 0 || base + 3 > |seg| then []
    else [Component(seg[base], HighNibble(seg[base + 1]), LowNibble(seg[base + 1]))]
         + Components(seg, base + 3, n - 1)
  }

  /** The first component with the given id (`next(..., None)`). */
  function FindComp(cs: seq<Component>, id: nat): (r: Option<Component>)
    ensures r.Some? ==> r.value.id == id
    ensures r.Some? ==> exists k :: 0 <= k < |cs| && cs[k] == r.value && forall j :: 0 <= j < k ==> cs[j].id != id
    ensures r.None? ==> forall k :: 0 <= k < |cs| ==> cs[k].id != id
  {
    if |cs| == 0 then None
    else if cs[0].id == id then Some(cs[0])
    else
      var r := FindComp(cs[1..], id);
      if r.Some? then
        var k :| 0 <= k < |cs| - 1 && cs[1..][k] == r.value && forall j :: 0 <= j < k ==> cs[1..][j].id != id;
        assert cs[k + 1] == r.value && forall j :: 0 <= j < k + 1 ==> cs[j].id != id;
        r
      else r
  }

  /** The subsampling guess from the first luma (id 1) and first Cb (id 2) components. */
  function Classify(cs: seq<Component>): Option<Subsampling>
  {
    var y := FindComp(cs, 1);
    var cb := FindComp(cs, 2);
    if y.None? || cb.None? then None
    else if (cb.value.h, cb.value.v) != (1, 1) then None
    else if (y.value.h, y.value.v) == (1, 1) then Some(S444)
    else if (y.value.h, y.value.v) == (2, 1) then Some(S422)
    else if (y.value.h, y.value.v) == (2, 2) then Some(S420)
    else None
  }

  /** The fields decoded from a frame header segment (P, Y, X, Nf, components). */
  function Decode(f: Sof): Meta
    requires |f.seg| >= 6
  {
    Meta(Some(f.marker == SOF2), Classify(Components(f.seg, 6, f.seg[5])),
         Some(ReadBeU16(f.seg, 3)), Some(ReadBeU16(f.seg, 1)))
  }

  predicate HasSoi(data: seq<byte>)
  {
    |data| >= 4 && data[0] == 0xFF && data[1] == SOI
  }

  /** What `extract_jpeg_meta` returns for the file contents `data`. */
  function MetaOf(data: seq<byte>): Meta
  {
    if !HasSoi(data) then Meta(None, None, None, None)
    else match FindSof(data, 2)
      case None => Meta(None, None, None, None)
      case Some(f) => FindSofPayload(data, 2); Decode(f)
  }

  lemma {:induction false} FindSofPayload(data: seq<byte>, i: nat)
    requires FindSof(data, i).Some?
    ensures |FindSof(data, i).value.seg| >= 6
    ensures FindSof(data, i).value.marker in {SOF0, SOF2}
    decreases |data| - i
  {
    if data[i] != 0xFF {
      FindSofPayload(data, i + 1);
    } else {
      var j := SkipFill(data, i);
      var k := j + 1;
      if data[j] == SOI || data[j] == EOI {
        FindSofPayload(data, k);
      } else {
        var segLen := ReadBeU16(data, k);
        var s := k + 2;
        var seg := data[s..s + (segLen - 2)];
        if !((data[j] == SOF0 || data[j] == SOF2) && |seg| >= 6) {
          FindSofPayload(data, s + (segLen - 2));
        }
      }
    }
  }

  /** The `for _ in range(nf)` loop over the component specifications. */
  method ReadComponents(seg: seq<byte>, nf: nat) returns (comps: seq<Component>)
    ensures comps == Components(seg, 6, nf)
  {
    comps := [];
    var base := 6;
    var n := 0;
    while n < nf
      invariant n <= nf && base == 6 + 3 * n
      invariant comps + Components(seg, base, nf - n) == Components(seg, 6, nf)
    {
      if base + 3 > |seg| {
        assert comps + [] == comps;
        return;
      }
      var c := Component(seg[base], HighNibble(seg[base + 1]), LowNibble(seg[base + 1]));
      assert [c] + Components(seg, base + 3, nf - n - 1) == Components(seg, base, nf - n);
      assert (comps + [c]) + Components(seg, base + 3, nf - n - 1) == comps + ([c] + Components(seg, base + 3, nf - n - 1));
      comps := comps + [c];
      base := base + 3;
      n := n + 1;
    }
    assert comps + [] == comps;
  }

  /** `extract_jpeg_meta` with the file contents as input. */
  method ExtractJpegMeta(data: seq<byte>) returns (m: Meta)
    ensures m == MetaOf(data)
  {
    if |data| < 4 || data[0] != 0xFF || data[1] != SOI {
      return Meta(None, None, None, None);
    }
    var i := 2;
    while i + 4 <= |data|
      invariant FindSof(data, 2) == FindSof(data, i)
      decreases |data| - i
    {
      if data[i] != 0xFF {
        i := i + 1;
        continue;
      }
      ghost var start := i;
      while i < |data| && data[i] == 0xFF
        invariant start <= i <= |data| && SkipFill(data, start) == SkipFill(data, i)
        decreases |data| - i
      {
        i := i + 1;
      }
      if i >= |data| {
        break;
      }
      var marker := data[i];
      i := i + 1;
      if marker == SOI || marker == EOI {
        continue;
      }
      if i + 2 > |data| {
        break;
      }
      var segLen := ReadBeU16(data, i);
      i := i + 2;
      if segLen < 2 || i + (segLen - 2) > |data| {
        break;
      }
      var seg := data[i..i + (segLen - 2)];
      i := i + (segLen - 2);
      if (marker == SOF0 || marker == SOF2) && |seg| >= 6 {
        var comps := ReadComponents(seg, seg[5]);
        FindSofPayload(data, 2);
        return Meta(Some(marker == SOF2), Classify(comps), Some(ReadBeU16(seg, 3)), Some(ReadBeU16(seg, 1)));
      }
    }
    return Meta(None, None, None, None);
  }

  // ---- properties ----

  /** The fields come from one frame header: either all of progressive, width and
      height are known or none is, subsampling only alongside them, and the
      dimensions are 16-bit values. A file without the SOI marker yields nothing. */
  lemma MetaAllOrNothing(data: seq<byte>)
    ensures var m := MetaOf(data);
      && (m.progressive.Some? <==> m.width.Some?)
      && (m.width.Some? <==> m.height.Some?)
      && (m.subsampling.Some? ==> m.width.Some?)
      && (m.width.Some? ==> HasSoi(data) && m.width.value < 0x1_0000 && m.height.value < 0x1_0000)
  {
  }

  /** The scan mode is progressive exactly when the first frame header found is SOF2. */
  lemma ProgressiveIffSof2(data: seq<byte>)
    ensures MetaOf(data).progressive == Some(true) <==>
      HasSoi(data) && FindSof(data, 2).Some? && FindSof(data, 2).value.marker == SOF2
    ensures MetaOf(data).progressive == Some(false) <==>
      HasSoi(data) && FindSof(data, 2).Some? && FindSof(data, 2).value.marker == SOF0
  {
    if HasSoi(data) && FindSof(data, 2).Some? {
      FindSofPayload(data, 2);
    }
  }

  /** A mode is reported exactly when the first Cb component is sampled (1, 1) and the
      first luma component has that mode's factors. */
  lemma ClassifyIff(cs: seq<Component>, s: Subsampling)
    ensures Classify(cs) == Some(s) <==>
      var y := FindComp(cs, 1);
      var cb := FindComp(cs, 2);
      && y.Some? && cb.Some?
      && (cb.value.h, cb.value.v) == (1, 1)
      && (y.value.h, y.value.v) == LumaFactors(s)
  {
  }

  /** The component list holds min(nf, room) entries, where room is the number of
      whole 3-byte specifications left in the segment. */
  lemma {:induction false} ComponentsCount(seg: seq<byte>, base: nat, n: nat)
    requires base <= |seg|
    ensures |Components(seg, base, n)| == if n < (|seg| - base) / 3 then n else (|seg| - base) / 3
    decreases n
  {
    if n > 0 && base + 3 <= |seg| {
      ComponentsCount(seg, base + 3, n - 1);
      assert (|seg| - base) / 3 == (|seg| - (base + 3)) / 3 + 1;
    }
  }

  predicate DecodedAt(seg: seq<byte>, p: nat, c: Component)
  {
    p + 2 < |seg| && c == Component(seg[p], HighNibble(seg[p + 1]), LowNibble(seg[p + 1]))
  }

  /** The k-th component is decoded from the three bytes at base + 3k. */
  lemma {:induction false} ComponentsAt(seg: seq<byte>, base: nat, n: nat)
    ensures forall k :: 0 <= k < |Components(seg, base, n)| ==>
      DecodedAt(seg, base + 3 * k, Components(seg, base, n)[k])
    decreases n
  {
    if n > 0 && base + 3 <= |seg| {
      ComponentsAt(seg, base + 3, n - 1);
      var cs := Components(seg, base, n);
      var tail := Components(seg, base + 3, n - 1);
      assert cs == [cs[0]] + tail;
      forall k | 1 <= k < |cs| ensures DecodedAt(seg, base + 3 * k, cs[k]) {
        assert cs[k] == tail[k - 1];
        assert DecodedAt(seg, (base + 3) + 3 * (k - 1), tail[k - 1]);
        assert base + 3 * k == (base + 3) + 3 * (k - 1);
      }
    }
  }

  /** The walk never looks past the frame header it returns: bytes appended after
      the data do not change a successful result. */
  lemma {:induction false} FindSofExtend(data: seq<byte>, extra: seq<byte>, i: nat)
    requires FindSof(data, i).Some?
    ensures FindSof(data + extra, i) == FindSof(data, i)
    decreases |data| - i
  {
    var d := data + extra;
    assert d[..|data|] == data;
    assert data[i] == d[i];
    if data[i] != 0xFF {
      FindSofExtend(data, extra, i + 1);
    } else {
      var j := SkipFill(data, i);
      SkipFillExtend(data, extra, i);
      var k := j + 1;
      if data[j] == SOI || data[j] == EOI {
        FindSofExtend(data, extra, k);
      } else {
        assert d[k] == data[k] && d[k + 1] == data[k + 1];
        assert ReadBeU16(d, k) == ReadBeU16(data, k);
        var segLen := ReadBeU16(data, k);
        var s := k + 2;
        assert d[s..s + (segLen - 2)] == data[s..s + (segLen - 2)];
        var seg := data[s..s + (segLen - 2)];
        if !((data[j] == SOF0 || data[j] == SOF2) && |seg| >= 6) {
          FindSofExtend(data, extra, s + (segLen - 2));
        }
      }
    }
  }

  lemma {:induction false} SkipFillExtend(data: seq<byte>, extra: seq<byte>, i: nat)
    requires i <= |data| && SkipFill(data, i) < |data|
    ensures SkipFill(data + extra, i) == SkipFill(data, i)
    decreases |data| - i
  {
    if data[i] == 0xFF {
      SkipFillExtend(data, extra, i + 1);
    }
  }

  /** Once a frame header has been found, the rest of the file is irrelevant. */
  lemma MetaOfExtend(data: seq<byte>, extra: seq<byte>)
    requires MetaOf(data).width.Some?
    ensures MetaOf(data + extra) == MetaOf(data)
  {
    var d := data + extra;
    assert d[0] == data[0] && d[1] == data[1];
    FindSofExtend(data, extra, 2);
  }
}
