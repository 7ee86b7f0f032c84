# JPEG quantization-table fingerprinting, modelled in Dafny

The system tells which encoder (software and quality setting) produced a JPEG
file from the quantization tables in the file's header. This project models the
logic of that system:

- **Direct DQT reader** (`ExtratorDQTCategorico.extrair_dqt_direto_header`). It
  scans the bytes for `FF DB` markers and decodes every sub-table of each
  Define Quantization Table segment, following section B.2.4.1 of ITU-T T.81.
  The Pq/Tq nibbles select 8- or 16-bit coefficients. Zigzag order is undone
  with the 64-entry map of Figure A.6 of the standard. Luma and chroma tables
  are then chosen by id, with a positional fallback.
- **Categorical records** built around that reader. This covers the file-name
  parameters (`software_quality_subsampling_mode.jpg`), the table hash
  (`calcular_hash_tabela`), the software merge rule and the per-software
  summary over the accumulated results (`gerar_relatorio_resumo`).
- **Frame header scanner** (`extract_jpeg_meta`). It checks SOI and skips `FF`
  fill bytes, as section B.1.1.2 of ITU-T T.81 allows. It reads big-endian
  segment lengths and stops on a malformed one. It decodes the first SOF0/SOF2
  header of section B.2.2 into width, height, the progressive flag and the
  444/422/420 subsampling class.
- **Fingerprint** (`qhash_from_tables`, `flatten_8x8`): a digest of each
  row-major, comma-joined table.
- **Database build** (`build_database`, `infer_quality_from_filename`). Each
  record takes its software from the directory name and its quality from the
  first digit run of the file name.
- **Matcher** (`match_against_db`). Each item is scored by exact digest
  equality. The hits are sorted stably by (score descending, software, quality)
  and cut to the top K.
- **Comparison table** (`comparador_forense.py`). For each quality from 1 to
  100, it groups the softwares by their luma hash and prints one line.

SHA-256 is a function parameter `sha: string -> string`. The hash of file bytes
is `shaBytes: seq<byte> -> string`. Both are uninterpreted. Where a property
needs collision freedom, it is a precondition of that lemma. File contents are
a `seq<byte>` parameter, and Pillow's tables are a map parameter.

Python's `list.sort` and `sorted` are modelled by one stable insertion sort,
`Sorting.SortBy`. `Sorting.StableSortUnique` proves that every stable sort
gives the same list, so the choice of algorithm does not matter.

Files: `bytes.dfy` (byte reads), `zigzag.dfy` (Figure A.6 permutation),
`text.dfy` (Python string rules on ASCII), `sorting.dfy` (stable sort,
`sorted(set(..))`), `dqt_extractor.dfy`, `categorical.dfy`, `jpeg_meta.dfy`,
`fingerprint.dfy`, `quality_db.dfy`, `matcher.dfy`, `comparator.dfy`,
`optional.dfy`.

Scores are whole numbers of tenths: 10, 7 and 6 stand for 1.0, 0.7 and 0.6.
They are only compared, never computed, so the order is unchanged.

Behaviour of the code that the model keeps, where it differs from the design
description of the system:

- In the matcher's sort key, `quality or 10**9` sends a quality of 0 to the end
  along with a missing quality, not only the missing one (`MissingQualityLast`).
- The direct DQT reader advances one byte at a time outside DQT segments. It
  therefore takes any `FF DB` pair as a DQT, even one inside another segment's
  payload.
- If a DQT length field runs past the end of the buffer, `struct.unpack`
  raises, and every table already parsed is discarded (`ScanDqtFault`).
- Width and height are not checked to be at least 1. Only SOI and EOI are
  treated as markers without a length; RSTn and TEM are not.
- A comment in `scripts/comparador_forense.py` gives the example output
  "gimp vs photoshop e pixlr são idênticos". The code puts larger groups first
  and prints "photoshop e pixlr são idênticos vs gimp" (`RenderLineExample`).

## Model

| member | source | states |
|---|---|---|
| `Bytes.ReadBeU16` | extract.py:21-22 | the value is below 65536 and its base-256 digits are the two bytes at off, high byte first |
| `Bytes.LowNibble` | scripts/extrator_dqt_categorico.py:71-73 | Tq and Pq are below 16, and 16 * Pq + Tq rebuilds the info byte |
| `ZigZagOrder.ZigZagIsPermutation` | scripts/extrator_dqt_categorico.py:96-105 | the `zigzag` list is a permutation of 0..63 (injective and onto) |
| `ZigZagOrder.ZigZagInverse` | scripts/extrator_dqt_categorico.py:96-105 | `zigzag` and the natural-order table are inverse maps on 0..63 |
| `ZigZagOrder.DezigzagIs` | scripts/extrator_dqt_categorico.py:107-113 | a matrix with `m[r][c] == values[zigzag[8r+c]]` for all cells is exactly the de-zigzagged table |
| `ZigZagOrder.DezigzagRoundTrip` | scripts/extrator_dqt_categorico.py:96-113 | re-encoding the de-zigzagged matrix in zigzag order recovers the 64 stored values exactly |
| `ZigZagOrder.ZigzagEncodeRoundTrip` | scripts/extrator_dqt_categorico.py:107-113 | every 8x8 matrix is the de-zigzag of exactly one stored sequence |
| `DqtExtractor.BytesNeeded` | scripts/extrator_dqt_categorico.py:77 | precision 0 needs 64 bytes; any other precision needs 128 |
| `DqtExtractor.TableValues` | scripts/extrator_dqt_categorico.py:83-91 | 64 coefficients, each below 256 for 8-bit and below 65536 for 16-bit precision |
| `DqtExtractor.Payload` | scripts/extrator_dqt_categorico.py:59 | the clamped slice `dados[i+4 : i+2+length]` has length-2 bytes, or fewer when the buffer ends, or none when length < 2 |
| `DqtExtractor.ReadTableValues` | scripts/extrator_dqt_categorico.py:83-91 | the coefficient loop reads bytes or big-endian words, equal to `TableValues` |
| `DqtExtractor.LayOut` | scripts/extrator_dqt_categorico.py:107-113 | the nested loops build an 8x8 matrix with `m[r][c] == values[order[8r+c]]` |
| `DqtExtractor.LayOutRow` | scripts/extrator_dqt_categorico.py:109-113 | one pass of the inner loop builds row `row` of that matrix |
| `DqtExtractor.ToMatrix` | scripts/extrator_dqt_categorico.py:95-113 | the matrix built from the zigzag list is the de-zigzagged table |
| `DqtExtractor.ParseSegment` | scripts/extrator_dqt_categorico.py:63-120 | the sub-table loop yields every complete table of the payload in order and stops at the first truncated one |
| `DqtExtractor.ScanTables` | scripts/extrator_dqt_categorico.py:42-133 | the marker scan yields the tables of every `FF DB` segment, advancing by 2+length after one and by 1 otherwise; None when a length field is cut off |
| `DqtExtractor.FirstWithId` | scripts/extrator_dqt_categorico.py:143-146 | the index of the first table with the id, or the count when no table has it |
| `DqtExtractor.SelectTables` | scripts/extrator_dqt_categorico.py:136-163 | none for 0 tables; {Y: it, C: None} for 1; for 2 or more, Y is the first id-0 table or else the first table, and C is the first id-1 table or else the second, never None |
| `DqtExtractor.SelectSameTable` | scripts/extrator_dqt_categorico.py:142-156 | Y and C may be the same table: with ids 1 and 5, table 1 is chosen as both |
| `DqtExtractor.PickById` | scripts/extrator_dqt_categorico.py:143-156 | the search loop with a `break` returns the first table with the id, or the fallback table |
| `DqtExtractor.ExtractDqtDirectHeader` | scripts/extrator_dqt_categorico.py:32-169 | the whole reader: scan, then selection; None when the scan raised or found no table |
| `DqtExtractor.ScanDqtFault` | scripts/extrator_dqt_categorico.py:45-59 | the scan fails only on an `FF DB` among the last three bytes, whose length field is cut off |
| `DqtExtractor.ScanDqtSucceeds` | scripts/extrator_dqt_categorico.py:165-169 | without such a cut marker the scan never fails |
| `DqtExtractor.SubTablesWellFormed` | scripts/extrator_dqt_categorico.py:63-120 | every parsed sub-table has id and precision below 16, an 8x8 matrix of in-range values, and kind 'Y' iff id 0 or 1; each took 65 bytes or more |
| `DqtExtractor.ScanDqtWellFormed` | scripts/extrator_dqt_categorico.py:42-133 | every table of a successful scan is well formed |
| `DqtExtractor.DirectHeaderShape` | scripts/extrator_dqt_categorico.py:136-163 | the returned Y, and C when present, are 8x8 matrices whose values are all below 65536 |
| `DqtExtractor.ScanDqtTruncated` | scripts/extrator_dqt_categorico.py:45-133 | cutting the file short loses tables only at the end: the tables of a prefix are a prefix of the tables of the whole |
| `DqtExtractor.TableHash` | scripts/extrator_dqt_categorico.py:171-181 | the string loop builds each row's comma-joined decimals followed by '\|' and hashes it; "" for a missing or empty table |
| `DqtExtractor.RowsTextInjective` | scripts/extrator_dqt_categorico.py:176-179 | the hashed text determines the table: different tables give different texts |
| `DqtExtractor.TableDigestInjective` | scripts/extrator_dqt_categorico.py:171-181 | with a collision-free digest that never gives "", equal hashes mean equal tables, and "" means no table |
| `Categorical.ParseInt` | scripts/extrator_dqt_categorico.py:205-209 | `int()` succeeds only on text that holds a digit |
| `Categorical.ParseIntDigits` | scripts/extrator_dqt_categorico.py:207 | a plain digit string parses as its decimal value |
| `Categorical.ParseIntStripsSeparator` | scripts/extrator_dqt_categorico.py:207 | the ASCII separator 0x1C is stripped like other whitespace: `int("\x1c" + digits)` is the digits' value, e.g. 95 for `"\x1c95"` |
| `Categorical.ParamsRoundTrip` | scripts/extrator_dqt_categorico.py:183-226 | a name `sw_q_sub.ext` gives back software sw, quality q and subsampling sub |
| `Categorical.ParamsQualityOnly` | scripts/extrator_dqt_categorico.py:193-200 | a name `q.ext` gives software None and quality q |
| `Categorical.ParamsBadQuality` | scripts/extrator_dqt_categorico.py:190-226 | for any name with two or more fields whose second field `int` rejects: quality 0, software the first field, subsampling and progressive from the third and fourth fields |
| `Categorical.ParamsBadQualityTwoFields` | scripts/extrator_dqt_categorico.py:190-226 | `software_word.ext` with a non-numeric word gives the software, quality 0, "unknown" and not progressive |
| `Categorical.SoftwareFinal` | scripts/extrator_dqt_categorico.py:238-240 | a None or all-digit software is replaced by `info['software']` (default "desconhecido") when info is non-empty; otherwise it is kept |
| `Categorical.CategoryInjective` | scripts/extrator_dqt_categorico.py:274 | the label `software_Qquality` determines the quality and the software's text |
| `Categorical.RecordForSpec` | scripts/extrator_dqt_categorico.py:228-300 | a record exists iff the file is readable and holds a DQT table; it carries the selected tables and the digests of exactly those tables (Y non-empty, C "" iff there is no C table), quality, subsampling and progressive from the name, the merged software, version and mode with their defaults, the category label, and the file's name, path, size and byte digest |
| `Categorical.Extractor.constructor` | scripts/extrator_dqt_categorico.py:29-30 | the results list starts empty |
| `Categorical.Extractor.ProcessFile` | scripts/extrator_dqt_categorico.py:228-300 | returns the file's record and appends it to the results; results are unchanged when there is none |
| `Categorical.Extractor.Summary` | scripts/extrator_dqt_categorico.py:352-391 | the summary of the accumulated results |
| `Categorical.CountRecords` | scripts/extrator_dqt_categorico.py:358-383 | the counting loop leaves the per-software tallies |
| `Categorical.FinishAll` | scripts/extrator_dqt_categorico.py:386-389 | the final loop sorts and deduplicates every software's qualities and keeps the hash sets |
| `Categorical.TalliesSpec` | scripts/extrator_dqt_categorico.py:360-383 | a software's tally counts its own records, lists their qualities in order, and holds their Y hashes and non-empty C hashes |
| `Categorical.SummarySpec` | scripts/extrator_dqt_categorico.py:352-391 | an entry exists iff some result has that software; it holds the count, the distinct qualities in ascending order, the Y hashes, and the C hashes other than "" |
| `JpegMeta.SkipFill` | extract.py:45-47 | the cursor moves past a run of `FF` fill bytes and stops on the first other byte or at the end |
| `JpegMeta.FindComp` | extract.py:92-93 | a component with the id that no earlier component shares (the first one), or None when no component has it |
| `JpegMeta.FindSofPayload` | extract.py:68-70 | the frame header found is SOF0 or SOF2 with at least 6 payload bytes |
| `JpegMeta.ReadComponents` | extract.py:76-88 | the loop reads at most nf components, stopping at the first that does not fit |
| `JpegMeta.ExtractJpegMeta` | extract.py:25-107 | the marker walk returns the metadata of the first usable SOF0/SOF2, or all None without SOI or without such a header |
| `JpegMeta.MetaAllOrNothing` | extract.py:31-32 | progressive, width and height are all set or all None; subsampling only with them; none without SOI; dimensions below 65536 |
| `JpegMeta.ProgressiveIffSof2` | extract.py:69-70 | progressive is true iff the header found is SOF2, and false iff it is SOF0 |
| `JpegMeta.ClassifyIff` | extract.py:90-102 | a class is reported iff components 1 and 2 exist, component 2 is (1,1), and component 1 is (1,1), (2,1) or (2,2) for 444, 422 or 420 |
| `JpegMeta.ComponentsCount` | extract.py:78-88 | the component list has min(nf, whole 3-byte entries left) elements |
| `JpegMeta.ComponentsAt` | extract.py:80-87 | component k comes from the bytes at 6+3k: id, high nibble H, low nibble V |
| `JpegMeta.FindSofExtend` | extract.py:39-105 | the walk reads nothing past the header it returns: appending bytes keeps a found header |
| `JpegMeta.MetaOfExtend` | extract.py:104-105 | once a frame header is found, bytes after it do not change the result |
| `Fingerprint.FlattenAppend` | utils.py:20-21 | flattening a concatenation is the concatenation of the flattenings |
| `Fingerprint.Flatten8x8` | utils.py:20-21 | an 8x8 matrix flattens to 64 values with cell (r, c) at index 8r + c |
| `Fingerprint.FlattenRoundTrip` | utils.py:20-21 | regrouping the flattened 64 values by rows of 8 gives back the matrix |
| `Fingerprint.QHash` | extract.py:137-149 | key "Y" iff the tables have "Y", key "C" iff they have "Cb"; each is the digest of that table's comma-joined flattening |
| `Fingerprint.QHashIgnoresCr` | extract.py:146-148 | the Cr table never affects the fingerprint |
| `Fingerprint.FingerprintInjective` | extract.py:143-148 | with a collision-free digest, equal fingerprints of 8x8 tables mean equal tables |
| `Text.CommaJoinInjective` | extract.py:145 | the comma-joined decimal serialisation of integers is injective |
| `Text.SplitJoin` | scripts/extrator_dqt_categorico.py:191 | splitting a join of separator-free parts gives back the parts |
| `Text.JoinSplit` | scripts/extrator_dqt_categorico.py:191 | joining the parts of a split with the separator gives back the string |
| `Text.DecimalRoundTrip` | db.py:29 | `int(str(n)) == n` for every n >= 0 |
| `Text.Suffix` | db.py:76 | `stem + suffix` is the name; the suffix is empty or a dot followed by non-dot characters |
| `Text.StrLeTotalPreorder` | match.py:60 | string comparison is a total order |
| `QualityDb.InferQualitySome` | db.py:26-35 | the result is the value of the first maximal digit run when it is at most 1000, and None otherwise |
| `QualityDb.InferQualityRange` | db.py:26-33 | a name without digits gives None, and a result is always in 0..1000 |
| `QualityDb.InferQualityOf` | db.py:16 | a digit-free prefix, a number and a tail not starting with a digit give that number when it is at most 1000 |
| `QualityDb.InferQualityBare` | db.py:20-23 | "90.jpg" gives 90 |
| `QualityDb.InferQualityPrefixed` | db.py:20-24 | "quality_95.jpg" gives 95 |
| `QualityDb.InferQualityLeadingZeros` | db.py:29 | "q007.jpg" gives 7 |
| `QualityDb.InferQualityZeroPadded` | db.py:29 | "0090.jpg" gives 90 |
| `QualityDb.InferQualityScoreName` | db.py:26-33 | "score_77.jpg" gives 77 |
| `QualityDb.InferQualityNoDigits` | db.py:26-28 | "x.jpg" gives None |
| `QualityDb.InferQualityFirstNumberOnly` | db.py:16-35 | "v1500_90.jpg" gives None: only the first run counts, even when a later one is valid |
| `QualityDb.IsJpegNameOf` | db.py:76 | a name is a JPEG name iff its last suffix, lowercased, is ".jpg" or ".jpeg" |
| `QualityDb.IsJpegNameUpperCase` | db.py:76 | "b.JPEG" is accepted |
| `QualityDb.IsJpegNameLastSuffix` | db.py:76 | "c.d.Jpg" is accepted |
| `QualityDb.IsJpegNameRejects` | db.py:76 | "a.png", ".jpg", "a.jpg.png" and "jpg" are rejected |
| `QualityDb.ProcessOne` | db.py:38-54 | the record has the directory's software, the file's name and digest, the quality inferred from the name, the file's tables, the fingerprint of exactly those tables, and the frame metadata of the file's bytes |
| `QualityDb.JpegFiles` | db.py:76 | exactly the regular files with a JPEG suffix are kept |
| `QualityDb.AppendDirRecords` | db.py:78-80 | one record is appended per file, in order |
| `QualityDb.BuildDatabase` | db.py:57-87 | the items of the single-worker build, directory by directory |
| `QualityDb.DatabaseItemsSound` | db.py:73-80 | every record comes from a JPEG file of a software directory and carries that directory's name |
| `QualityDb.DirRecordsOrdered` | db.py:76 | within a directory the records are in ascending file-name order |
| `QualityDb.SelfMatch` | match.py:37-48 | a file matched against the record `_process_one` builds from it scores 10 with Y and Cb tables, 7 with only Y, 6 with only Cb, and no hit with neither |
| `Matcher.HitLeTotalPreorder` | match.py:60 | the key (-score, software, quality or 10**9) is a total preorder |
| `Matcher.MissingQualityLast` | match.py:60 | with equal score and software, a missing quality and quality 0 both rank after any quality from 1 to 10**9-1 |
| `Matcher.TakePrefix` | match.py:61 | `hits[:topk]` is a prefix of length min(topk, n) for topk >= 0, counting from the end for negative topk |
| `Matcher.MatchAgainstDb` | match.py:21-74 | the loop, sort and slice give the hits of the database ranked and cut to topk |
| `Matcher.CollectHitsSound` | match.py:35-58 | every hit comes from an item that agrees on Y or C, and carries its fields and the score 10, 7 or 6 |
| `Matcher.CollectHitsComplete` | match.py:40-58 | every agreeing item yields a hit |
| `Matcher.MatchResultRanked` | match.py:60 | the result is ordered by descending score, then software, then quality with None and 0 last |
| `Matcher.MatchResultTopOfAll` | match.py:60-61 | the result is a prefix of the sorted hits, which are a permutation of all hits, of length min(topk, number of hits) |
| `Matcher.MatchStable` | match.py:60 | hits tied on all three keys keep database order, and any stable sort gives the same list |
| `Matcher.MatchResultSound` | match.py:35-61 | each reported hit stands for an agreeing database item |
| `Matcher.MatchResultComplete` | match.py:35-61 | with topk at least the database size, no agreeing item is dropped |
| `Matcher.EmptyQueryNoHits` | match.py:37-41 | a query without Y and C keys gives no hits |
| `Comparator.ComparisonTable` | scripts/comparador_forense.py:19-78 | the index and quality loops print the header and one line per quality |
| `Comparator.QualityLine` | scripts/comparador_forense.py:47-78 | one quality's reverse map, sorted groups and strings make its line |
| `Comparator.BuildReverseMap` | scripts/comparador_forense.py:47-55 | the loop fills the reverse map in software order |
| `Comparator.IndexLastWriteWins` | scripts/comparador_forense.py:23-31 | the index has (quality, software) iff some entry has it, and holds the hash of the last such entry |
| `Comparator.IndexRows` | scripts/comparador_forense.py:31 | the index has a row for q iff some entry has quality q |
| `Comparator.SortedSoftwaresSpec` | scripts/comparador_forense.py:34 | the software list holds each software present exactly once, ascending |
| `Comparator.ReverseMapSpec` | scripts/comparador_forense.py:47-55 | the reverse map partitions the softwares by hash, with "missing" for absent ones; keys are distinct and no bucket is empty |
| `Comparator.SameGroupIff` | scripts/comparador_forense.py:47-55 | two softwares share a group iff they have the same hash, or are both missing, at that quality |
| `Comparator.OneGroupEach` | scripts/comparador_forense.py:50-55 | each software appears in exactly one group of its line |
| `Comparator.ReverseMapSorted` | scripts/comparador_forense.py:50-55 | filling in sorted order keeps every bucket sorted |
| `Comparator.GroupsAlreadySorted` | scripts/comparador_forense.py:64-69 | every group is already sorted, so its first member is its smallest and the display sort changes nothing |
| `Comparator.SortedGroupsOrdered` | scripts/comparador_forense.py:64 | groups come in descending size, and groups of equal size by first member |
| `Comparator.GroupLeTotalPreorder` | scripts/comparador_forense.py:64 | the group key (-len, first member) is a total preorder |
| `Comparator.RenderLineExample` | scripts/comparador_forense.py:66-78 | gimp, photoshop and pixlr with photoshop and pixlr sharing a table print "90%: photoshop e pixlr são idênticos vs gimp" |
| `Comparator.QualitiesBelowSpec` | scripts/comparador_forense.py:40-42 | the qualities shown are those from 1 up with a row, strictly ascending |
| `Comparator.ComparisonLinesSpec` | scripts/comparador_forense.py:40-78 | after three header lines there is one line per quality 1..100 present in the data, ascending, each rendered from that quality's row |
| `Sorting.SortByPermutes` | match.py:60 | sorting is a permutation |
| `Sorting.SortBySorted` | match.py:60 | sorting by a total preorder gives a sorted list |
| `Sorting.SortByStable` | match.py:60 | sorting keeps the order of the elements of each tie class |
| `Sorting.StableSortUnique` | match.py:60 | two sorted lists whose tie classes are in the same order are equal |
| `Sorting.SortedSetSpec` | scripts/extrator_dqt_categorico.py:389 | `sorted(set(xs))` is strictly ascending and has the same elements as xs |

## Left out

- File reads, `stat`, printing, `traceback`, JSON load and save, and the
  `main()` functions are left out. File contents, sizes and directory listings
  are parameters.
- SHA-256 (`hashlib`, `sha256_file`, `sha256_text`) is an uninterpreted
  function parameter. Collision freedom is assumed only as a lemma
  precondition.
- `extract_qtables` depends on Pillow's `quantization`. Its result is the
  `QTables` map parameter.
- `extrair_metadados_simples` also depends on Pillow. The record leaves out
  `metadados_tecnicos`.
- `ThreadPoolExecutor` and `tqdm` in `build_database` are left out. Only the
  single-worker order is modelled. The not-found check on the dataset root is
  I/O and is left out too.
- `processar_diretorio_completo` (globbing) and `salvar_resultados_json` are
  I/O drivers and are left out.
- `QualityDb.SortedJpegs`: file names are ordered by code point, case-sensitive,
  which is how `sorted` orders `Path` objects on POSIX. The case-folded order
  of Windows paths is not modelled.
- Python's `isdigit`, `int()` and `lower()` are modelled on ASCII only. `\d`
  in the quality regex is the ASCII digits 0-9. Non-ASCII digits and non-ASCII
  whitespace that `int()` strips (such as U+0085 and U+00A0) are not modelled.
  All ASCII whitespace `str.isspace` accepts is modelled, including 0x1C-0x1F.
- `info_adicional` is a string-to-string map. None and the empty dict are
  both the empty map, since the code only tests its truthiness.
- Unique hash lists in the summary are sets. Their list order comes from
  Python set iteration and is not modelled.
- `Matcher.DbItem`: a missing "items" key and missing item fields are
  modelled. Items whose fields have a JSON type other than the expected one
  are not.
- `Comparator.Entry`: the software is a string. In the extractor's records it
  can be null (a name like `100.jpg` with no extra information). With a null
  beside a text software, `sorted` in `scripts/comparador_forense.py` raises
  `TypeError`. The model cannot express that case.
- `Matcher.MatchAgainstDb`: returns only the ranked hits. The result
  dictionary's `input` entry (resolved path, file digest, query fingerprint)
  and its fixed `notes` are left out.
- `QualityDb.DbRecord`: the `path` field (the resolved absolute path) is left
  out, since path resolution is file-system I/O.
- cli.py, __init__.py, the deepfake module (ELA, DFT, frame extraction) and
  the dataset-generation and verification scripts are not part of this model.
