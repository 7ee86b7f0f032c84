/** String rules the core relies on. Python consults Unicode tables for `isdigit`,
    `int` and `lower`; the model restricts all three to ASCII. */
module Text {
  import Sorting

  predicate IsDigit(c: char)
  {
    '0' <= c <= '9'
  }

  /** Every character is an ASCII digit (the empty string included). */
  predicate DigitsOnly(s: string)
  {
    forall i :: 0 <= i < |s| ==> IsDigit(s[i])
  }

  /** `str.isdigit()` on ASCII text: non-empty and all digits. */
  predicate IsAllDigits(s: string)
  {
    |s| > 0 && DigitsOnly(s)
  }

  function DigitChar(d: nat): (c: char)
    requires d < 10
    ensures IsDigit(c)
  {
    ('0' as int + d) as char
  }

  function DigitValue(c: char): (d: nat)
    requires IsDigit(c)
    ensures d < 10 && DigitChar(d) == c
  {
    (c as int) - ('0' as int)
  }

  /** Python `str(n)` for n >= 0: decimal digits without leading zeros. */
  function NatToDecimal(n: nat): (s: string)
    ensures IsAllDigits(s)
    ensures s[0] == '0' ==> n == 0 && |s| == 1
    decreases n
  {
    if n < 10 then [DigitChar(n)] else NatToDecimal(n / 10) + [DigitChar(n % 10)]
  }

  /** Python `int(s)` for a string of ASCII digits; leading zeros are accepted. */
  function DecimalValue(s: string): nat
    requires DigitsOnly(s)
    decreases |s|
  {
    if |s| == 0 then 0 else DecimalValue(s[..|s| - 1]) * 10 + DigitValue(s[|s| - 1])
  }

  lemma {:induction false} DecimalRoundTrip(n: nat)
    ensures DecimalValue(NatToDecimal(n)) == n
    decreases n
  {
    if n >= 10 {
      var s := NatToDecimal(n);
      assert s[..|s| - 1] == NatToDecimal(n / 10);
      DecimalRoundTrip(n / 10);
    }
  }

  lemma {:induction false} DecimalValueZero(s: string)
    requires DigitsOnly(s) && DecimalValue(s) == 0
    ensures forall i :: 0 <= i < |s| ==> s[i] == '0'
    decreases |s|
  {
    if |s| > 0 {
      DecimalValueZero(s[..|s| - 1]);
      assert forall i :: 0 <= i < |s| - 1 ==> s[i] == s[..|s| - 1][i];
    }
  }

  /** A digit string without leading zeros is the decimal form of its value:
      `NatToDecimal` and `DecimalValue` are inverse on canonical digit strings. */
  lemma {:induction false} DecimalCanonical(s: string)
    requires IsAllDigits(s) && (s[0] != '0' || |s| == 1)
    ensures NatToDecimal(DecimalValue(s)) == s
    decreases |s|
  {
    if |s| > 1 {
      var p := s[..|s| - 1];
      assert p[0] == s[0];
      DecimalCanonical(p);
      if DecimalValue(p) == 0 {
        DecimalValueZero(p);
        assert false;
      }
      var v := DecimalValue(s);
      assert v / 10 == DecimalValue(p) && v % 10 == DigitValue(s[|s| - 1]);
      assert s == p + [s[|s| - 1]];
    }
  }

  /** Python `str(n)` for any int. */
  function IntToDecimal(n: int): (s: string)
    ensures |s| > 0
    ensures forall i :: 0 <= i < |s| ==> IsDigit(s[i]) || s[i] == '-'
  {
    if n < 0 then "-" + NatToDecimal(-n) else NatToDecimal(n)
  }

  lemma IntToDecimalInjective(a: int, b: int)
    requires IntToDecimal(a) == IntToDecimal(b)
    ensures a == b
  {
    if a < 0 && b < 0 {
      assert NatToDecimal(-a) == IntToDecimal(a)[1..] == IntToDecimal(b)[1..] == NatToDecimal(-b);
      DecimalRoundTrip(-a);
      DecimalRoundTrip(-b);
    } else if a >= 0 && b >= 0 {
      DecimalRoundTrip(a);
      DecimalRoundTrip(b);
    } else {
      assert false;
    }
  }

  /** Python `sep.join(parts)`. */
  function Join(parts: seq<string>, sep: string): string
    decreases |parts|
  {
    if |parts| == 0 then ""
    else if |parts| == 1 then parts[0]
    else parts[0] + sep + Join(parts[1..], sep)
  }

  /** A character that is in neither the parts nor the separator is not in the join. */
  lemma {:induction false} JoinAvoids(parts: seq<string>, sep: string, c: char)
    requires forall i :: 0 <= i < |parts| ==> c !in parts[i]
    requires c !in sep
    ensures c !in Join(parts, sep)
    decreases |parts|
  {
    if |parts| > 1 {
      JoinAvoids(parts[1..], sep, c);
      assert c !in parts[0];
    }
  }

  /** The first index of c in s, or |s| when c does not occur. */
  function IndexOf(s: string, c: char): (k: nat)
    ensures k <= |s| && (k < |s| ==> s[k] == c)
    ensures forall i :: 0 <= i < k ==> s[i] != c
    decreases |s|
  {
    if |s| == 0 then 0 else if s[0] == c then 0 else 1 + IndexOf(s[1..], c)
  }

  /** Python `s.split(c)` for a one-character separator. */
  function Split(s: string, c: char): (parts: seq<string>)
    ensures |parts| >= 1
    ensures forall i :: 0 <= i < |parts| ==> c !in parts[i]
    decreases |s|
  {
    var k := IndexOf(s, c);
    if k == |s| then [s] else [s[..k]] + Split(s[k + 1..], c)
  }

  /** Joining the pieces of a split with the separator gives back the string. */
  lemma {:induction false} JoinSplit(s: string, c: char)
    ensures Join(Split(s, c), [c]) == s
    decreases |s|
  {
    var k := IndexOf(s, c);
    if k < |s| {
      var rest := Split(s[k + 1..], c);
      JoinSplit(s[k + 1..], c);
      assert Split(s, c) == [s[..k]] + rest;
      assert s == s[..k] + [c] + s[k + 1..];
    }
  }

  /** Splitting a join of separator-free pieces gives the pieces back. */
  lemma {:induction false} SplitJoin(parts: seq<string>, c: char)
    requires |parts| >= 1
    requires forall i :: 0 <= i < |parts| ==> c !in parts[i]
    ensures Split(Join(parts, [c]), c) == parts
    decreases |parts|
  {
    if |parts| > 1 {
      var p0, rest := parts[0], Join(parts[1..], [c]);
      var s := Join(parts, [c]);
      assert s == p0 + [c] + rest;
      var k := IndexOf(s, c);
      assert s[|p0|] == c;
      assert k == |p0|;
      assert s[..k] == p0 && s[k + 1..] == rest;
      SplitJoin(parts[1..], c);
      assert parts == [p0] + parts[1..];
    }
  }

  /** The decimal forms of the elements, in order. */
  function Decimals(xs: seq<int>): (ds: seq<string>)
    ensures |ds| == |xs|
  {
    seq(|xs|, i requires 0 <= i < |xs| => IntToDecimal(xs[i]))
  }

  /** Python `",".join(map(str, xs))`. */
  function CommaJoin(xs: seq<int>): string
  {
    Join(Decimals(xs), ",")
  }

  lemma {:induction false} JoinStartsWithFirst(parts: seq<string>, sep: string)
    requires |parts| >= 1
    ensures |Join(parts, sep)| >= |parts[0]|
  {
  }

  /** The comma-joined decimal serialisation determines the integers exactly. */
  lemma CommaJoinInjective(a: seq<int>, b: seq<int>)
    requires CommaJoin(a) == CommaJoin(b)
    ensures a == b
  {
    var da, db := Decimals(a), Decimals(b);
    forall i | 0 <= i < |da| ensures ',' !in da[i] {
      assert forall k :: 0 <= k < |da[i]| ==> IsDigit(da[i][k]) || da[i][k] == '-';
    }
    forall i | 0 <= i < |db| ensures ',' !in db[i] {
      assert forall k :: 0 <= k < |db[i]| ==> IsDigit(db[i][k]) || db[i][k] == '-';
    }
    if |a| == 0 || |b| == 0 {
      if |a| > 0 {
        JoinStartsWithFirst(da, ",");
      } else if |b| > 0 {
        JoinStartsWithFirst(db, ",");
      }
    } else {
      SplitJoin(da, ',');
      SplitJoin(db, ',');
      assert da == db;
      forall i | 0 <= i < |a| ensures a[i] == b[i] {
        assert da[i] == db[i];
        IntToDecimalInjective(a[i], b[i]);
      }
    }
  }

  /** Python `<=` on str: lexicographic by code point, with a proper prefix first. */
  predicate StrLe(a: string, b: string)
    decreases |a|
  {
    |a| == 0 || (|b| > 0 && (a[0] < b[0] || (a[0] == b[0] && StrLe(a[1..], b[1..]))))
  }

  lemma {:induction false} StrLeReflexive(a: string)
    ensures StrLe(a, a)
    decreases |a|
  {
    if |a| > 0 { StrLeReflexive(a[1..]); }
  }

  lemma {:induction false} StrLeTotal(a: string, b: string)
    ensures StrLe(a, b) || StrLe(b, a)
    decreases |a|
  {
    if |a| > 0 && |b| > 0 && a[0] == b[0] { StrLeTotal(a[1..], b[1..]); }
  }

  lemma {:induction false} StrLeTransitive(a: string, b: string, c: string)
    requires StrLe(a, b) && StrLe(b, c)
    ensures StrLe(a, c)
    decreases |a|
  {
    if |a| > 0 && a[0] == b[0] && b[0] == c[0] { StrLeTransitive(a[1..], b[1..], c[1..]); }
  }

  lemma {:induction false} StrLeAntisymmetric(a: string, b: string)
    requires StrLe(a, b) && StrLe(b, a)
    ensures a == b
    decreases |a|
  {
    if |a| > 0 {
      StrLeAntisymmetric(a[1..], b[1..]);
      assert a == [a[0]] + a[1..] && b == [b[0]] + b[1..];
    }
  }

  /** String comparison is a total order, so sorting strings is well defined. */
  lemma StrLeTotalPreorder()
    ensures Sorting.TotalPreorder(StrLe)
  {
    forall a, b ensures StrLe(a, b) || StrLe(b, a) { StrLeTotal(a, b); }
    forall a, b, c | StrLe(a, b) && StrLe(b, c) ensures StrLe(a, c) { StrLeTransitive(a, b, c); }
  }

  /** Python `str.lower()` on ASCII letters. */
  function ToLowerAscii(s: string): (r: string)
    ensures |r| == |s|
  {
    seq(|s|, i requires 0 <= i < |s| => if 'A' <= s[i] <= 'Z' then (s[i] as int + 32) as char else s[i])
  }

  predicate OccursAt(s: string, sub: string, i: int)
  {
    0 <= i && i + |sub| <= |s| && s[i..i + |sub|] == sub
  }

  /** Python `sub in s` for strings. */
  function Contains(s: string, sub: string): (b: bool)
    ensures b <==> exists i :: OccursAt(s, sub, i)
    decreases |s|
  {
    if |sub| > |s| then false
    else if s[..|sub|] == sub then
      assert OccursAt(s, sub, 0);
      true
    else
      var r := Contains(s[1..], sub);
      OccursShift(s, sub);
      assert !OccursAt(s, sub, 0);
      r
  }

  /** An occurrence in the tail is an occurrence one place further in s. */
  lemma OccursShift(s: string, sub: string)
    requires |s| > 0
    ensures forall i :: OccursAt(s[1..], sub, i) ==> OccursAt(s, sub, i + 1)
    ensures forall i :: OccursAt(s, sub, i) && i != 0 ==> OccursAt(s[1..], sub, i - 1)
  {
    forall i | OccursAt(s[1..], sub, i) ensures OccursAt(s, sub, i + 1) {
      OccursShiftAt(s, sub, i);
    }
    forall i | OccursAt(s, sub, i) && i != 0 ensures OccursAt(s[1..], sub, i - 1) {
      OccursShiftAt(s, sub, i - 1);
    }
  }

  lemma OccursShiftAt(s: string, sub: string, i: int)
    requires |s| > 0 && 0 <= i
    ensures OccursAt(s[1..], sub, i) <==> OccursAt(s, sub, i + 1)
  {
    if 0 <= i && i + |sub| <= |s| - 1 {
      assert s[1..][i..i + |sub|] == s[i + 1..i + 1 + |sub|];
    }
  }

  /** rfind is characterised by its two properties: c is at the index (or the
      index is -1), and c does not occur after it. */
  lemma LastIndexOfUnique(s: string, c: char, j: int)
    requires -1 <= j < |s| && (j >= 0 ==> s[j] == c)
    requires forall i :: j < i < |s| ==> s[i] != c
    ensures LastIndexOf(s, c) == j
  {
  }

  /** Python `s.rfind(c)`: the last index of c, or -1. */
  function LastIndexOf(s: string, c: char): (k: int)
    ensures -1 <= k < |s| && (k >= 0 ==> s[k] == c)
    ensures forall i :: k < i < |s| ==> s[i] != c
    decreases |s|
  {
    if |s| == 0 then -1
    else if s[|s| - 1] == c then |s| - 1
    else LastIndexOf(s[..|s| - 1], c)
  }

  /** `PurePath.stem` of a file name: the name without its suffix. */
  function Stem(name: string): string
  {
    var i := LastIndexOf(name, '.');
    if 0 < i < |name| - 1 then name[..i] else name
  }

  /** `PurePath.suffix` of a file name: from the last dot on, when that dot is
      neither the first nor the last character; otherwise empty. */
  function Suffix(name: string): (s: string)
    ensures Stem(name) + s == name
    ensures s == "" || (s[0] == '.' && 2 <= |s| < |name|)
    ensures forall k :: 0 < k < |s| ==> s[k] != '.'
  {
    var i := LastIndexOf(name, '.');
    if 0 < i < |name| - 1 then name[i..] else ""
  }

  /** A name that ends in a dot and one or more characters other than a dot, after
      a non-empty stem, splits into that stem and that suffix. */
  lemma SuffixOf(stem: string, ext: string)
    requires |stem| > 0 && |ext| >= 2 && ext[0] == '.'
    requires forall k :: 1 <= k < |ext| ==> ext[k] != '.'
    ensures Suffix(stem + ext) == ext && Stem(stem + ext) == stem
  {
    var name := stem + ext;
    forall i | |stem| < i < |name| ensures name[i] != '.' {
      assert name[i] == ext[i - |stem|];
    }
    LastIndexOfUnique(name, '.', |stem|);
    assert name[|stem|..] == ext;
  }
}
