/** The two engagement-count policies of the TikTok extractors. They are
    kept apart on purpose: the first expands `K` into three zeros, the
    second deletes `K` and `M`; both then rely on `parseInt` stopping at the
    first character that is not a digit, so a decimal point cuts the number
    short. */
module Counts {
  import JsText
  import opened JsNumber

  /** `tiktokDownloaderV1`: each `K` becomes `000`, each `,` is deleted */
  function ExpandPiece(c: char): string {
    if c == 'K' then "000" else if c == ',' then "" else [c]
  }

  function ExpandK(s: string): (r: string)
    ensures 'K' !in r && ',' !in r
    ensures forall c :: c in r ==> c == '0' || c in s
    decreases |s|
  {
    if s == [] then [] else ExpandPiece(s[0]) + ExpandK(s[1..])
  }

  /** `parseInt(text.trim().replace(/[K,]/g, m => m === 'K' ? '000' : '')) || 0` */
  function CountV1(text: string): int {
    OrZero(ParseInt(ExpandK(JsText.Trim(text))))
  }

  /** `tiktokDownloaderV2`: each `K`, `M` and `,` is deleted */
  function StripKM(s: string): (r: string)
    ensures 'K' !in r && 'M' !in r && ',' !in r
    ensures |r| <= |s| && forall c :: c in r ==> c in s
    decreases |s|
  {
    if s == [] then []
    else (if s[0] == 'K' || s[0] == 'M' || s[0] == ',' then "" else [s[0]]) + StripKM(s[1..])
  }

  /** A counter of the v2 JSON payload: absent, a JSON number or a string */
  datatype StatValue = Absent | Number(n: int) | Text(s: string)

  /** `typeof v === 'string' ? parseInt(v.replace(/[K,M]/g, '')) || 0 : v || 0` */
  function CountV2(v: StatValue): (n: int)
    ensures v.Number? ==> n == v.n
    ensures v.Absent? ==> n == 0
  {
    match v
    case Text(s) => OrZero(ParseInt(StripKM(s)))
    case Number(n) => n
    case Absent => 0
  }

  // ---- the replacement is a homomorphism on strings ----

  lemma {:induction false} ExpandKAppend(a: string, b: string)
    ensures ExpandK(a + b) == ExpandK(a) + ExpandK(b)
    decreases |a|
  {
    if a != [] {
      assert (a + b)[0] == a[0];
      assert (a + b)[1..] == a[1..] + b;
      ExpandKAppend(a[1..], b);
    } else {
      assert a + b == b;
    }
  }

  /** Every character other than `K` and `,` is kept, in order */
  lemma {:induction false} ExpandKKeeps(s: string)
    requires 'K' !in s && ',' !in s
    ensures ExpandK(s) == s
    decreases |s|
  {
    if s != [] {
      assert s[0] in s;
      assert forall c | c in s[1..] :: c in s;
      ExpandKKeeps(s[1..]);
    }
  }

  /** Each `K` becomes `000` and each `,` disappears, wherever it stands */
  lemma ExpandKReplaces(a: string, c: char, b: string)
    requires c == 'K' || c == ','
    ensures ExpandK(a + [c] + b) == ExpandK(a) + (if c == 'K' then "000" else "") + ExpandK(b)
  {
    ExpandKAppend(a + [c], b);
    ExpandKAppend(a, [c]);
    assert [c][1..] == [];
  }

  lemma ExpandKDigits(s: string)
    requires forall i :: 0 <= i < |s| ==> IsDecimalDigit(s[i])
    ensures ExpandK(s) == s
  {
    ExpandKKeeps(s);
  }

  lemma {:induction false} StripKMAppend(a: string, b: string)
    ensures StripKM(a + b) == StripKM(a) + StripKM(b)
    decreases |a|
  {
    if a != [] {
      assert (a + b)[0] == a[0];
      assert (a + b)[1..] == a[1..] + b;
      StripKMAppend(a[1..], b);
    } else {
      assert a + b == b;
    }
  }

  /** Every character other than `K`, `M` and `,` is kept, in order */
  lemma {:induction false} StripKMKeeps(s: string)
    requires 'K' !in s && 'M' !in s && ',' !in s
    ensures StripKM(s) == s
    decreases |s|
  {
    if s != [] {
      assert s[0] in s;
      assert forall c | c in s[1..] :: c in s;
      StripKMKeeps(s[1..]);
    }
  }

  lemma StripKMMark(c: char)
    requires c == 'K' || c == 'M' || c == ','
    ensures StripKM([c]) == []
  {
    assert [c][1..] == [];
  }

  /** Each `K`, `M` and `,` disappears, wherever it stands */
  lemma StripKMDeletes(a: string, c: char, b: string)
    requires c == 'K' || c == 'M' || c == ','
    ensures StripKM(a + [c] + b) == StripKM(a) + StripKM(b)
  {
    StripKMMark(c);
    StripKMAppend(a + [c], b);
    StripKMAppend(a, [c]);
  }

  lemma StripKMDigits(s: string)
    requires forall i :: 0 <= i < |s| ==> IsDecimalDigit(s[i])
    ensures StripKM(s) == s
  {
    StripKMKeeps(s);
  }

  lemma DigitNotSpace(c: char)
    requires IsDecimalDigit(c)
    ensures !JsText.IsJsSpace(c)
  {
  }

  /** A digit run has no surrounding white space */
  lemma DigitsTrimmed(z: string, suffix: string)
    requires Digits(z)
    requires suffix == [] || !JsText.IsJsSpace(suffix[|suffix| - 1])
    ensures JsText.Trim(z + suffix) == z + suffix
  {
    var s := z + suffix;
    assert s[0] == z[0];
    DigitNotSpace(z[0]);
    if suffix == [] {
      assert s == z;
      DigitNotSpace(z[|z| - 1]);
    } else {
      assert s[|s| - 1] == suffix[|suffix| - 1];
    }
    JsText.TrimFixed(s);
  }

  /** A non-empty run of decimal digits */
  predicate Digits(z: string) {
    z != [] && forall i :: 0 <= i < |z| ==> IsDecimalDigit(z[i])
  }

  // ---- the V1 policy ----

  /** The V1 count of an already trimmed text whose expansion starts with a
      digit run that `parseInt` reads to its end */
  lemma CountV1Reads(text: string, z: string, rest: string)
    requires JsText.Trim(text) == text && ExpandK(text) == z + rest
    requires Digits(z)
    requires rest == [] || (!IsDecimalDigit(rest[0]) && rest[0] != 'x' && rest[0] != 'X')
    ensures CountV1(text) == Value(z, false)
  {
    ParseIntDigitsThen(z, rest);
  }

  lemma PlainDigits(z: string)
    requires Digits(z)
    ensures CountV1(z) == Value(z, false)
  {
    DigitsTrimmed(z, "");
    assert z + "" == z;
    ExpandKDigits(z);
    CountV1Reads(z, z, "");
  }

  /** A plain number is read as itself */
  lemma CountV1Plain(n: nat)
    ensures CountV1(Decimal(n)) == n
  {
    PlainDigits(Decimal(n));
    DecimalValue(n);
  }

  lemma ExpandThousands(z: string)
    requires Digits(z)
    ensures ExpandK(z + "K") == (z + "000") + ""
  {
    ExpandKAppend(z, "K");
    ExpandKDigits(z);
    assert ExpandK("K") == "000";
  }

  lemma ValueThousands(z: string)
    ensures Value(z + "000", false) == Value(z, false) * 1000
  {
    ValueAppend(z, "000");
    ValueZeros("000", false);
    assert Pow10(3) == 1000;
  }

  lemma ZerosAppended(z: string)
    requires Digits(z)
    ensures Digits(z + "000")
  {
    var w := z + "000";
    forall i | 0 <= i < |w| ensures IsDecimalDigit(w[i]) {
      if i < |z| { assert w[i] == z[i]; } else { assert w[i] == '0'; }
    }
  }

  lemma ThousandsOfDigits(z: string)
    requires Digits(z)
    ensures CountV1(z + "K") == Value(z, false) * 1000
  {
    DigitsTrimmed(z, "K");
    ExpandThousands(z);
    ZerosAppended(z);
    CountV1Reads(z + "K", z + "000", "");
    ValueThousands(z);
  }

  /** A whole number of thousands, `12K`, is multiplied by 1000 */
  lemma CountV1Thousands(n: nat)
    ensures CountV1(Decimal(n) + "K") == n * 1000
  {
    ThousandsOfDigits(Decimal(n));
    DecimalValue(n);
  }

  lemma ExpandGrouped(z: string, group: string)
    requires Digits(z) && Digits(group)
    ensures ExpandK(z + ("," + group)) == (z + group) + ""
  {
    ExpandKAppend(z, "," + group);
    ExpandKDigits(z);
    assert ExpandK("," + group) == group by {
      ExpandKAppend(",", group);
      assert ExpandK(",") == "";
      ExpandKDigits(group);
      assert "" + group == group;
    }
    assert (z + group) + "" == z + group;
  }

  lemma GroupedDigits(z: string, group: string)
    requires Digits(z) && |group| == 3 && Digits(group)
    ensures CountV1(z + "," + group) == Value(z, false) * 1000 + Value(group, false)
  {
    var tail := "," + group;
    assert z + "," + group == z + tail;
    DigitNotSpace(group[2]);
    assert tail[|tail| - 1] == group[2];
    DigitsTrimmed(z, tail);
    ExpandGrouped(z, group);
    assert Digits(z + group);
    CountV1Reads(z + tail, z + group, "");
    ValueAppend(z, group);
    assert Pow10(3) == 1000;
  }

  /** A thousands separator is ignored: `1,234` reads as 1234 */
  lemma CountV1Grouped(n: nat, group: string)
    requires |group| == 3 && Digits(group)
    ensures CountV1(Decimal(n) + "," + group) == n * 1000 + Value(group, false)
  {
    GroupedDigits(Decimal(n), group);
    DecimalValue(n);
  }

  /** A digit run holds none of the characters the policies rewrite */
  lemma DigitsUnmarked(z: string)
    requires Digits(z)
    ensures 'K' !in z && 'M' !in z && ',' !in z
  {
    forall c | c in z ensures IsDecimalDigit(c) {
      var i :| 0 <= i < |z| && z[i] == c;
    }
  }

  /** The digits of comma-separated digit groups, read together */
  lemma {:induction false} JoinedDigits(parts: seq<string>)
    requires |parts| > 0 && forall i :: 0 <= i < |parts| ==> Digits(parts[i])
    ensures Digits(JsText.Join(parts, ""))
    decreases |parts|
  {
    if |parts| > 1 {
      var rest := parts[1..];
      JoinedDigits(rest);
      var j := JsText.Join(rest, "");
      assert JsText.Join(parts, "") == parts[0] + "" + j;
      assert forall i :: 0 <= i < |parts[0] + "" + j| ==>
        (parts[0] + "" + j)[i] == if i < |parts[0]| then parts[0][i] else j[i - |parts[0]|];
    }
  }

  /** The V1 replacement turns comma-separated groups into their digits */
  lemma {:induction false} ExpandKJoin(parts: seq<string>)
    requires forall i :: 0 <= i < |parts| ==> Digits(parts[i])
    ensures ExpandK(JsText.Join(parts, ",")) == JsText.Join(parts, "")
    decreases |parts|
  {
    if |parts| >= 1 {
      DigitsUnmarked(parts[0]);
      ExpandKKeeps(parts[0]);
    }
    if |parts| > 1 {
      var rest := parts[1..];
      ExpandKJoin(rest);
      ExpandKReplaces(parts[0], ',', JsText.Join(rest, ","));
      assert JsText.Join(parts, ",") == parts[0] + [','] + JsText.Join(rest, ",");
      assert JsText.Join(parts, "") == parts[0] + "" + JsText.Join(rest, "");
    }
  }

  /** A text that starts and ends with a digit has no surrounding white
      space */
  lemma DigitEnds(text: string)
    requires text != [] && IsDecimalDigit(text[0]) && IsDecimalDigit(text[|text| - 1])
    ensures JsText.Trim(text) == text
  {
    DigitNotSpace(text[0]);
    DigitNotSpace(text[|text| - 1]);
    JsText.TrimFixed(text);
  }

  /** Comma-joined digit groups have no surrounding white space */
  lemma JoinedTrimmed(parts: seq<string>)
    requires |parts| > 0 && forall i :: 0 <= i < |parts| ==> Digits(parts[i])
    ensures JsText.Trim(JsText.Join(parts, ",")) == JsText.Join(parts, ",")
  {
    JoinedDigitEnds(parts);
    DigitEnds(JsText.Join(parts, ","));
  }

  /** Comma-joined digit groups start and end with a digit */
  lemma JoinedDigitEnds(parts: seq<string>)
    requires |parts| > 0 && forall i :: 0 <= i < |parts| ==> Digits(parts[i])
    ensures var text := JsText.Join(parts, ",");
      text != [] && IsDecimalDigit(text[0]) && IsDecimalDigit(text[|text| - 1])
  {
    var first, last := parts[0], parts[|parts| - 1];
    assert Digits(first) && Digits(last);
    JsText.JoinEnds(parts, ",");
  }

  /** Any number of thousands separators is ignored: `1,234,567` reads as
      1234567 */
  lemma CountV1Groups(parts: seq<string>)
    requires |parts| > 0 && forall i :: 0 <= i < |parts| ==> Digits(parts[i])
    ensures CountV1(JsText.Join(parts, ",")) == Value(JsText.Join(parts, ""), false)
  {
    var text := JsText.Join(parts, ",");
    JoinedTrimmed(parts);
    ExpandKJoin(parts);
    JoinedDigits(parts);
    var z := JsText.Join(parts, "");
    assert ExpandK(text) == z + "";
    CountV1Reads(text, z, "");
  }

  lemma ExpandFraction(z: string, rest: string)
    requires Digits(z)
    ensures ExpandK(z + ("." + rest)) == z + ("." + ExpandK(rest))
  {
    ExpandKAppend(z, "." + rest);
    ExpandKDigits(z);
    assert ExpandK("." + rest) == "." + ExpandK(rest) by {
      ExpandKAppend(".", rest);
      assert ExpandK(".") == ".";
    }
  }

  lemma FractionOfDigits(z: string, rest: string)
    requires Digits(z)
    requires rest == [] || !JsText.IsJsSpace(rest[|rest| - 1])
    ensures CountV1(z + "." + rest) == Value(z, false)
  {
    var tail := "." + rest;
    assert z + "." + rest == z + tail;
    assert tail[|tail| - 1] == if rest == [] then '.' else rest[|rest| - 1];
    DigitsTrimmed(z, tail);
    ExpandFraction(z, rest);
    CountV1Reads(z + tail, z, "." + ExpandK(rest));
  }

  /** Whatever follows a decimal point is ignored: `5.1K` expands to
      `5.1000`, and `parseInt` stops at the point */
  lemma CountV1Fraction(whole: nat, rest: string)
    requires rest == [] || !JsText.IsJsSpace(rest[|rest| - 1])
    ensures CountV1(Decimal(whole) + "." + rest) == whole
  {
    FractionOfDigits(Decimal(whole), rest);
    DecimalValue(whole);
  }

  /** The V1 count only sees the trimmed text: white space of any kind
      around a counter changes nothing, so the results above hold for padded
      texts too */
  lemma CountV1Padded(pre: string, text: string, post: string)
    requires forall i :: 0 <= i < |pre| ==> JsText.IsJsSpace(pre[i])
    requires forall i :: 0 <= i < |post| ==> JsText.IsJsSpace(post[i])
    ensures CountV1(pre + text + post) == CountV1(text)
  {
    JsText.TrimAround(pre, text, post);
  }

  // ---- text without digits ----

  lemma PiecePaired(c: char)
    requires !IsDecimalDigit(c)
    ensures ZerosPaired(ExpandPiece(c))
    ensures forall i :: 0 <= i < |ExpandPiece(c)| && IsDecimalDigit(ExpandPiece(c)[i]) ==> ExpandPiece(c)[i] == '0'
  {
    var p := ExpandPiece(c);
    forall i | StartsZeroRun(p, i) ensures i + 1 < |p| && p[i + 1] == '0' {
      assert p == "000";
    }
  }

  /** Pairing of zero runs survives concatenation */
  lemma ZerosPairedConcat(h: string, w: string)
    requires ZerosPaired(h) && ZerosPaired(w)
    ensures ZerosPaired(h + w)
  {
    var s := h + w;
    forall i | StartsZeroRun(s, i) ensures i + 1 < |s| && s[i + 1] == '0' {
      if i < |h| {
        assert StartsZeroRun(h, i);
      } else {
        assert StartsZeroRun(w, i - |h|);
      }
    }
  }

  /** Expanding `K` in a text without digits yields only zeros, in runs of
      three */
  lemma {:induction false} ExpandKNoDigits(s: string)
    requires forall i :: 0 <= i < |s| ==> !IsDecimalDigit(s[i])
    ensures ZerosPaired(ExpandK(s))
    ensures forall i :: 0 <= i < |ExpandK(s)| && IsDecimalDigit(ExpandK(s)[i]) ==> ExpandK(s)[i] == '0'
    decreases |s|
  {
    if s != [] {
      var h := ExpandPiece(s[0]);
      var w := ExpandK(s[1..]);
      PiecePaired(s[0]);
      ExpandKNoDigits(s[1..]);
      ZerosPairedConcat(h, w);
      assert forall i :: |h| <= i < |h + w| ==> (h + w)[i] == w[i - |h|];
    }
  }

  /** Text without any digit counts as 0, whatever `K`s, signs or commas it
      holds */
  lemma CountV1NonNumeric(text: string)
    requires forall i :: 0 <= i < |text| ==> !IsDecimalDigit(text[i])
    ensures CountV1(text) == 0
  {
    var t := JsText.Trim(text);
    forall i | 0 <= i < |t| ensures !IsDecimalDigit(t[i]) {
      assert t[i] == text[JsText.LeadingSpace(text) + i];
    }
    ExpandKNoDigits(t);
    ParseIntOnlyZeros(ExpandK(t));
  }

  // ---- the V2 policy ----

  /** A number with a `K` or `M` suffix is read without it: `12K` is 12 */
  lemma CountV2Suffixed(n: nat, suffix: string)
    requires suffix == "K" || suffix == "M"
    ensures CountV2(Text(Decimal(n) + suffix)) == n
  {
    StripKMAppend(Decimal(n), suffix);
    StripKMDigits(Decimal(n));
    assert StripKM(Decimal(n) + suffix) == Decimal(n);
    ParseIntDecimal(n);
  }

  /** Whatever follows a decimal point is ignored: `5.1K` and `1.2M` keep
      only the whole part */
  lemma CountV2Fraction(whole: nat, rest: string)
    ensures CountV2(Text(Decimal(whole) + "." + rest)) == whole
  {
    var d := Decimal(whole);
    var tail := "." + rest;
    assert d + "." + rest == d + tail;
    StripKMAppend(d, tail);
    StripKMDigits(d);
    StripKMAppend(".", rest);
    assert StripKM(".") == ".";
    var t' := StripKM(tail);
    assert t'[0] == '.';
    ParseIntDigitsThen(d, t');
    DecimalValue(whole);
  }

  /** The V2 deletion turns comma-separated groups into their digits */
  lemma {:induction false} StripKMJoin(parts: seq<string>)
    requires forall i :: 0 <= i < |parts| ==> Digits(parts[i])
    ensures StripKM(JsText.Join(parts, ",")) == JsText.Join(parts, "")
    decreases |parts|
  {
    if |parts| >= 1 {
      DigitsUnmarked(parts[0]);
      StripKMKeeps(parts[0]);
    }
    if |parts| > 1 {
      var rest := parts[1..];
      StripKMJoin(rest);
      StripKMDeletes(parts[0], ',', JsText.Join(rest, ","));
      assert JsText.Join(parts, ",") == parts[0] + [','] + JsText.Join(rest, ",");
      assert JsText.Join(parts, "") == parts[0] + "" + JsText.Join(rest, "");
    }
  }

  /** V2 ignores thousands separators too: `1,234,567` reads as 1234567 */
  lemma CountV2Groups(parts: seq<string>)
    requires |parts| > 0 && forall i :: 0 <= i < |parts| ==> Digits(parts[i])
    ensures CountV2(Text(JsText.Join(parts, ","))) == Value(JsText.Join(parts, ""), false)
  {
    StripKMJoin(parts);
    JoinedDigits(parts);
    var z := JsText.Join(parts, "");
    assert z + "" == z;
    ParseIntDigitsThen(z, "");
  }

  lemma {:induction false} StripKMNoDigits(s: string)
    requires forall i :: 0 <= i < |s| ==> !IsDecimalDigit(s[i])
    ensures forall i :: 0 <= i < |StripKM(s)| ==> !IsDecimalDigit(StripKM(s)[i])
    decreases |s|
  {
    if s != [] {
      StripKMNoDigits(s[1..]);
    }
  }

  /** A string without digits counts as 0 */
  lemma CountV2NonNumeric(s: string)
    requires forall i :: 0 <= i < |s| ==> !IsDecimalDigit(s[i])
    ensures CountV2(Text(s)) == 0
  {
    StripKMNoDigits(s);
    ParseIntNoDigits(StripKM(s));
  }

  /** The two policies disagree on every non-zero abbreviated count */
  lemma PoliciesDiffer(n: nat)
    requires n > 0
    ensures CountV1(Decimal(n) + "K") == 1000 * CountV2(Text(Decimal(n) + "K"))
    ensures CountV1(Decimal(n) + "K") != CountV2(Text(Decimal(n) + "K"))
  {
    CountV1Thousands(n);
    CountV2Suffixed(n, "K");
  }
}
