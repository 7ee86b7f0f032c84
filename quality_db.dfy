/** Building the fingerprint database (`db.py`): one record per JPEG file of each
    software directory, with the quality guessed from the file name. */
module QualityDb {
  import opened Optional
  import opened Bytes
  import opened Text
  import opened Sorting
  import opened Fingerprint
  import opened JpegMeta
  import Matcher

  const MaxQuality: nat := 1000

  /** The index of the first digit of s, or |s| when there is none. */
  function FirstDigit(s: string): (i: nat)
    ensures i <= |s| && (i < |s| ==> IsDigit(s[i]))
    ensures forall k :: 0 <= k < i ==> !IsDigit(s[k])
    decreases |s|
  {
    if |s| == 0 then 0 else if IsDigit(s[0]) then 0 else 1 + FirstDigit(s[1..])
  }

  /** The end of the run of digits that starts at i. */
  function RunEnd(s: string, i: nat): (j: nat)
    requires i <= |s|
    ensures i <= j <= |s| && (j < |s| ==> !IsDigit(s[j]))
    ensures forall k :: i <= k < j ==> IsDigit(s[k])
    decreases |s| - i
  {
    if i < |s| && IsDigit(s[i]) then RunEnd(s, i + 1) else i
  }

  /** The first maximal run of digits of s (what `(\d+)` finds first). */
  predicate FirstRun(s: string, i: nat, j: nat)
  {
    && i < j <= |s|
    && (forall k :: 0 <= k < i ==> !IsDigit(s[k]))
    && (forall k :: i <= k < j ==> IsDigit(s[k]))
    && (j < |s| ==> !IsDigit(s[j]))
  }

  /** `infer_quality_from_filename`: the value of the first run of digits when it
      is at most 1000. */
  function InferQuality(name: string): Option<int>
  {
    var i := FirstDigit(name);
    if i == |name| then None
    else
      var run := name[i..RunEnd(name, i)];
      if DecimalValue(run) <= MaxQuality then Some(DecimalValue(run)) else None
  }

  /** A name with a quality in it: the first digit run holds a value of at most 1000,
      and the result is that value. */
  lemma InferQualitySome(name: string, i: nat, j: nat)
    requires FirstRun(name, i, j)
    ensures DigitsOnly(name[i..j])
    ensures InferQuality(name) == if DecimalValue(name[i..j]) <= MaxQuality then Some(DecimalValue(name[i..j])) else None
  {
    FirstDigitIs(name, i);
    RunEndIs(name, i, j);
  }

  lemma FirstDigitIs(s: string, i: nat)
    requires i < |s| && IsDigit(s[i])
    requires forall k :: 0 <= k < i ==> !IsDigit(s[k])
    ensures FirstDigit(s) == i
  {
  }

  lemma {:induction false} RunEndIs(s: string, i: nat, j: nat)
    requires i <= j <= |s|
    requires forall k :: i <= k < j ==> IsDigit(s[k])
    requires j < |s| ==> !IsDigit(s[j])
    ensures RunEnd(s, i) == j
    decreases j - i
  {
    if i < j {
      RunEndIs(s, i + 1, j);
    }
  }

  /** No digit, no quality; and a quality found is within 0..1000. */
  lemma InferQualityRange(name: string)
    ensures (forall k :: 0 <= k < |name| ==> !IsDigit(name[k])) <==> InferQuality(name).None? && FirstDigit(name) == |name|
    ensures InferQuality(name).Some? ==> 0 <= InferQuality(name).value <= MaxQuality
  {
  }

  /** A name made of a digit-free prefix, a number and a tail not starting with a
      digit gives that number's value, when it is at most 1000. */
  lemma InferQualityOf(prefix: string, digits: string, tail: string)
    requires forall k :: 0 <= k < |prefix| ==> !IsDigit(prefix[k])
    requires IsAllDigits(digits)
    requires |tail| > 0 ==> !IsDigit(tail[0])
    ensures InferQuality(prefix + digits + tail) == if DecimalValue(digits) <= MaxQuality then Some(DecimalValue(digits)) else None
  {
    var s := prefix + digits + tail;
    var i, j := |prefix|, |prefix| + |digits|;
    forall k | 0 <= k < i ensures !IsDigit(s[k]) {
      assert s[k] == prefix[k];
    }
    forall k | i <= k < j ensures IsDigit(s[k]) {
      assert s[k] == digits[k - i];
    }
    if j < |s| {
      assert s[j] == tail[0];
    }
    assert s[i..j] == digits;
    InferQualitySome(s, i, j);
  }

  /** The first example of the docstring. */
  lemma InferQualityBare()
    ensures InferQuality("90.jpg") == Some(90)
  {
    assert "90.jpg" == "" + "90" + ".jpg";
    InferQualityOf("", "90", ".jpg");
    assert DecimalValue("9") == 9;
  }

  /** The second example of the docstring: the digits after a prefix. */
  lemma InferQualityPrefixed()
    ensures InferQuality("quality_95.jpg") == Some(95)
  {
    assert "quality_95.jpg" == "quality_" + "95" + ".jpg";
    InferQualityOf("quality_", "95", ".jpg");
    assert DecimalValue("9") == 9;
  }

  /** Leading zeros are dropped. */
  lemma InferQualityLeadingZeros()
    ensures InferQuality("q007.jpg") == Some(7)
  {
    assert "q007.jpg" == "q" + "007" + ".jpg";
    InferQualityOf("q", "007", ".jpg");
    assert DecimalValue("00") == 0;
  }

  /** Leading zeros parse normally: "0090" is 90. */
  lemma InferQualityZeroPadded()
    ensures InferQuality("0090.jpg") == Some(90)
  {
    assert "0090.jpg" == "" + "0090" + ".jpg";
    InferQualityOf("", "0090", ".jpg");
    var run := "0090";
    assert run[..3] == "009" && run[..3][..2] == "00" && run[..3][..2][..1] == "0";
    assert DecimalValue("0") == 0;
    assert DecimalValue("00") == 0;
    assert DecimalValue("009") == 9;
  }

  /** A numbered name after a word and an underscore: "score_77.jpg" gives 77. */
  lemma InferQualityScoreName()
    ensures InferQuality("score_77.jpg") == Some(77)
  {
    assert "score_77.jpg" == "score_" + "77" + ".jpg";
    InferQualityOf("score_", "77", ".jpg");
    assert DecimalValue("7") == 7;
  }

  /** A name without digits gives no quality: "x.jpg" gives none. */
  lemma InferQualityNoDigits()
    ensures InferQuality("x.jpg") == None
  {
    var s := "x.jpg";
    assert !IsDigit(s[0]) && !IsDigit(s[1]) && !IsDigit(s[2]) && !IsDigit(s[3]) && !IsDigit(s[4]);
    InferQualityRange(s);
  }

  lemma DecimalValue1500()
    ensures DecimalValue("1500") == 1500
  {
    var run := "1500";
    assert run[..3] == "150" && run[..3][..2] == "15" && run[..3][..2][..1] == "1";
    assert DecimalValue("1") == 1;
    assert DecimalValue("15") == 15;
    assert DecimalValue("150") == 150;
  }

  /** Only the first number counts: one above 1000 gives no quality even when a
      valid one follows. */
  lemma InferQualityFirstNumberOnly()
    ensures InferQuality("v1500_90.jpg") == None
  {
    assert "v1500_90.jpg" == "v" + "1500" + "_90.jpg";
    InferQualityOf("v", "1500", "_90.jpg");
    DecimalValue1500();
  }

  /** `p.suffix.lower() in {".jpg", ".jpeg"}`. */
  predicate IsJpegName(name: string)
  {
    ToLowerAscii(Suffix(name)) in {".jpg", ".jpeg"}
  }

  /** A name with a non-empty stem is a JPEG name exactly when its last suffix,
      in lower case, is `.jpg` or `.jpeg`. */
  lemma IsJpegNameOf(stem: string, ext: string)
    requires |stem| > 0 && |ext| >= 2 && ext[0] == '.'
    requires forall k :: 1 <= k < |ext| ==> ext[k] != '.'
    ensures IsJpegName(stem + ext) <==> ToLowerAscii(ext) in {".jpg", ".jpeg"}
  {
    SuffixOf(stem, ext);
  }

  /** The suffix test ignores case. */
  lemma IsJpegNameUpperCase()
    ensures IsJpegName("b.JPEG")
  {
    assert "b.JPEG" == "b" + ".JPEG";
    IsJpegNameOf("b", ".JPEG");
    var l := ToLowerAscii(".JPEG");
    assert l[0] == '.' && l[1] == 'j' && l[2] == 'p' && l[3] == 'e' && l[4] == 'g';
    assert l == ".jpeg";
  }

  /** Only the last suffix counts. */
  lemma IsJpegNameLastSuffix()
    ensures IsJpegName("c.d.Jpg")
  {
    assert "c.d.Jpg" == "c.d" + ".Jpg";
    IsJpegNameOf("c.d", ".Jpg");
    var l := ToLowerAscii(".Jpg");
    assert l[0] == '.' && l[1] == 'j' && l[2] == 'p' && l[3] == 'g';
    assert l == ".jpg";
  }

  /** Other suffixes, a name that is only a suffix and a name without a dot are
      not JPEG names. */
  lemma IsJpegNameRejects()
    ensures !IsJpegName("a.png") && !IsJpegName(".jpg") && !IsJpegName("a.jpg.png") && !IsJpegName("jpg")
  {
    assert "a.png" == "a" + ".png";
    SuffixOf("a", ".png");
    assert "a.jpg.png" == "a.jpg" + ".png";
    SuffixOf("a.jpg", ".png");
    LastIndexOfUnique(".jpg", '.', 0);
    assert Suffix(".jpg") == "";
    LastIndexOfUnique("jpg", '.', -1);
    assert Suffix("jpg") == "";
  }

  /** One directory entry of a software directory; the reads of the file (its
      bytes, its tables as Pillow gives them, its SHA-256) are inputs. */
  datatype Image = Image(name: string, isFile: bool, data: seq<byte>, qtables: QTables, fileSha: string)

  /** One entry of the dataset root. */
  datatype SoftwareDir = SoftwareDir(name: string, isDir: bool, entries: seq<Image>)

  /** The record `_process_one` returns. */
  datatype DbRecord = DbRecord(software: string, filename: string, sha256: string, quality: Option<int>,
                               qtables: QTables, qhash: map<string, string>, meta: Meta)

  function ProcessOne(sw: string, p: Image, sha: string -> string): (r: DbRecord)
    ensures r.software == sw && r.filename == p.name && r.sha256 == p.fileSha
    ensures r.quality == InferQuality(p.name) && r.qtables == p.qtables
    ensures r.qhash == QHash(p.qtables, sha) && r.meta == MetaOf(p.data)
  {
    DbRecord(sw, p.name, p.fileSha, InferQuality(p.name), p.qtables, QHash(p.qtables, sha), MetaOf(p.data))
  }

  predicate ImageLe(a: Image, b: Image)
  {
    StrLe(a.name, b.name)
  }

  lemma ImageLeTotalPreorder()
    ensures TotalPreorder(ImageLe)
  {
    forall a, b ensures ImageLe(a, b) || ImageLe(b, a) { StrLeTotal(a.name, b.name); }
    forall a, b, c | ImageLe(a, b) && ImageLe(b, c) ensures ImageLe(a, c) {
      StrLeTransitive(a.name, b.name, c.name);
    }
  }

  /** The JPEG files of a directory, in the order they are listed. */
  function JpegFiles(es: seq<Image>): (r: seq<Image>)
    ensures forall k :: 0 <= k < |r| ==> r[k] in es && r[k].isFile && IsJpegName(r[k].name)
    ensures forall p :: p in es && p.isFile && IsJpegName(p.name) ==> p in r
    decreases |es|
  {
    if |es| == 0 then []
    else (if es[0].isFile && IsJpegName(es[0].name) then [es[0]] else []) + JpegFiles(es[1..])
  }

  /** The files processed for one directory, sorted by name. */
  function SortedJpegs(es: seq<Image>): seq<Image>
  {
    SortBy(JpegFiles(es), ImageLe)
  }

  function DirRecords(sw: string, ps: seq<Image>, sha: string -> string): (rs: seq<DbRecord>)
    ensures |rs| == |ps|
    ensures forall k :: 0 <= k < |ps| ==> rs[k] == ProcessOne(sw, ps[k], sha)
  {
    seq(|ps|, k requires 0 <= k < |ps| => ProcessOne(sw, ps[k], sha))
  }

  /** The `items` of `build_database` with one worker, directories taken in the
      order the root lists them. */
  function DatabaseItems(dirs: seq<SoftwareDir>, sha: string -> string): seq<DbRecord>
    decreases |dirs|
  {
    if |dirs| == 0 then []
    else
      var prev := DatabaseItems(dirs[..|dirs| - 1], sha);
      var d := dirs[|dirs| - 1];
      if d.isDir then prev + DirRecords(d.name, SortedJpegs(d.entries), sha) else prev
  }

  /** The `for p in jpgs` loop of one software directory. */
  method AppendDirRecords(items: seq<DbRecord>, sw: string, jpgs: seq<Image>, sha: string -> string)
    returns (out: seq<DbRecord>)
    ensures out == items + DirRecords(sw, jpgs, sha)
  {
    out := items;
    for k := 0 to |jpgs|
      invariant out == items + DirRecords(sw, jpgs[..k], sha)
    {
      assert DirRecords(sw, jpgs[..k + 1], sha) == DirRecords(sw, jpgs[..k], sha) + [ProcessOne(sw, jpgs[k], sha)];
      out := out + [ProcessOne(sw, jpgs[k], sha)];
    }
    assert jpgs[..|jpgs|] == jpgs;
  }

  method BuildDatabase(dirs: seq<SoftwareDir>, sha: string -> string) returns (items: seq<DbRecord>)
    ensures items == DatabaseItems(dirs, sha)
  {
    items := [];
    for n := 0 to |dirs|
      invariant items == DatabaseItems(dirs[..n], sha)
    {
      assert dirs[..n + 1][..n] == dirs[..n];
      var swDir := dirs[n];
      if swDir.isDir {
        items := AppendDirRecords(items, swDir.name, SortedJpegs(swDir.entries), sha);
      }
    }
    assert dirs[..|dirs|] == dirs;
  }

  /** Every record comes from a JPEG file of a software directory and carries that
      directory's name. */
  lemma {:induction false} DatabaseItemsSound(dirs: seq<SoftwareDir>, sha: string -> string)
    ensures forall r :: r in DatabaseItems(dirs, sha) ==>
      exists d, p :: d in dirs && d.isDir && p in d.entries && p.isFile && IsJpegName(p.name)
        && r == ProcessOne(d.name, p, sha)
    decreases |dirs|
  {
    if |dirs| > 0 {
      var init := dirs[..|dirs| - 1];
      DatabaseItemsSound(init, sha);
      var d := dirs[|dirs| - 1];
      forall r | r in DatabaseItems(dirs, sha)
        ensures exists d, p :: (d in dirs && d.isDir && p in d.entries && p.isFile && IsJpegName(p.name)
          && r == ProcessOne(d.name, p, sha))
      {
        if r in DatabaseItems(init, sha) {
          var d0, p0 :| d0 in init && d0.isDir && p0 in d0.entries && p0.isFile && IsJpegName(p0.name)
            && r == ProcessOne(d0.name, p0, sha);
          assert d0 in dirs;
        } else {
          var ps := SortedJpegs(d.entries);
          var k :| 0 <= k < |ps| && DirRecords(d.name, ps, sha)[k] == r;
          SortByPermutes(JpegFiles(d.entries), ImageLe);
          assert ps[k] in multiset(JpegFiles(d.entries));
          assert ps[k] in JpegFiles(d.entries);
          assert d in dirs;
        }
      }
    }
  }

  /** Within one directory's records the file names are in ascending order. */
  lemma DirRecordsOrdered(d: SoftwareDir, sha: string -> string)
    ensures var rs := DirRecords(d.name, SortedJpegs(d.entries), sha);
      forall i, j :: 0 <= i < j < |rs| ==> StrLe(rs[i].filename, rs[j].filename)
  {
    ImageLeTotalPreorder();
    SortBySorted(JpegFiles(d.entries), ImageLe);
  }

  /** The record as `match_against_db` reads it back from the JSON database. */
  function AsItem(r: DbRecord): Matcher.DbItem
  {
    Matcher.DbItem(Some(r.software), r.quality, Some(r.filename), Some(r.sha256), Some(r.qhash))
  }

  /** An image matched against the database built from it finds its own record with
      the full score when it has both a luma and a Cb table, the luma score when
      it has only a luma table, the chroma score when it has only a Cb table, and
      no hit when it has neither. */
  lemma SelfMatch(sw: string, p: Image, sha: string -> string)
    ensures var r := ProcessOne(sw, p, sha);
      "Y" in p.qtables && "Cb" in p.qtables ==> Matcher.Score(AsItem(r), QHash(p.qtables, sha)) == Some(Matcher.BothScore)
    ensures var r := ProcessOne(sw, p, sha);
      "Y" in p.qtables && "Cb" !in p.qtables ==> Matcher.Score(AsItem(r), QHash(p.qtables, sha)) == Some(Matcher.LumaScore)
    ensures var r := ProcessOne(sw, p, sha);
      "Y" !in p.qtables && "Cb" in p.qtables ==> Matcher.Score(AsItem(r), QHash(p.qtables, sha)) == Some(Matcher.ChromaScore)
    ensures var r := ProcessOne(sw, p, sha);
      "Y" !in p.qtables && "Cb" !in p.qtables ==> Matcher.Score(AsItem(r), QHash(p.qtables, sha)) == None
  {
  }
}
