/** JavaScript's global `parseInt` with no radix argument, its `|| 0`
    default, and the decimal rendering of a non-negative integer. Numbers
    are unbounded integers here; `NaN` is `None`. */
module JsNumber {
  import opened Optional
  import JsText

  predicate IsDecimalDigit(c: char) {
    '0' <= c <= '9'
  }

  predicate IsHexDigit(c: char) {
    IsDecimalDigit(c) || 'a' <= c <= 'f' || 'A' <= c <= 'F'
  }

  /** A digit of `radix` (10, or 16 after a `0x` prefix) */
  predicate IsRadixDigit(c: char, hex: bool) {
    if hex then IsHexDigit(c) else IsDecimalDigit(c)
  }

  function DigitValue(c: char): nat {
    if IsDecimalDigit(c) then c as int - '0' as int
    else if 'a' <= c <= 'f' then c as int - 'a' as int + 10
    else if 'A' <= c <= 'F' then c as int - 'A' as int + 10
    else 0
  }

  function DigitChar(d: nat): (c: char)
    requires d < 10
    ensures IsDecimalDigit(c) && DigitValue(c) == d
  {
    ('0' as int + d) as char
  }

  /** The longest prefix of `s` made of digits */
  function DigitPrefix(s: string, hex: bool): (z: string)
    ensures z <= s
    ensures forall i :: 0 <= i < |z| ==> IsRadixDigit(z[i], hex)
    ensures |z| < |s| ==> !IsRadixDigit(s[|z|], hex)
  {
    if s != [] && IsRadixDigit(s[0], hex) then [s[0]] + DigitPrefix(s[1..], hex) else []
  }

  /** The value of a digit string, most significant digit first */
  function Value(z: string, hex: bool): nat
    decreases |z|
  {
    if z == [] then 0
    else Value(z[..|z| - 1], hex) * (if hex then 16 else 10) + DigitValue(z[|z| - 1])
  }

  /** What follows an optional leading sign */
  function Unsigned(t: string): (u: string)
    ensures u == t || (t != [] && u == t[1..])
  {
    if t != [] && (t[0] == '-' || t[0] == '+') then t[1..] else t
  }

  /** `0x` or `0X`: the digits that follow are read in base 16 */
  predicate HexPrefixed(u: string) {
    |u| >= 2 && u[0] == '0' && (u[1] == 'x' || u[1] == 'X')
  }

  /** The digits `parseInt` reads from `t`, its input without leading
      white space */
  function ReadDigits(t: string): string {
    var u := Unsigned(t);
    if HexPrefixed(u) then DigitPrefix(u[2..], true) else DigitPrefix(u, false)
  }

  /** `parseInt` once the leading white space is skipped: an optional sign,
      base 16 after `0x`/`0X`, then the longest digit prefix; no digit at
      all gives `NaN` */
  function ParseStart(t: string): Option<int> {
    var z := ReadDigits(t);
    var v: int := Value(z, HexPrefixed(Unsigned(t)));
    if z == [] then None
    else if t[0] == '-' then Some(-v)
    else Some(v)
  }

  /** `parseInt(s)` without a radix */
  function ParseInt(s: string): Option<int> {
    ParseStart(JsText.TrimStart(s))
  }

  /** `n || 0` on the result of `parseInt`: `NaN` (and zero) become 0 */
  function OrZero(p: Option<int>): (n: int)
    ensures p.None? ==> n == 0
    ensures p.Some? ==> n == p.value
  {
    match p
    case None => 0
    case Some(v) => v
  }

  /** `String(n)` for a non-negative integer: its decimal digits, without
      leading zeros */
  function Decimal(n: nat): (r: string)
    ensures |r| >= 1
    ensures forall i :: 0 <= i < |r| ==> IsDecimalDigit(r[i])
    ensures |r| > 1 ==> r[0] != '0'
  {
    if n < 10 then [DigitChar(n)] else Decimal(n / 10) + [DigitChar(n % 10)]
  }

  function Pow10(k: nat): (p: nat)
    ensures p >= 1
  {
    if k == 0 then 1 else 10 * Pow10(k - 1)
  }

  /** Appending a digit shifts the value one place */
  lemma ValueSnoc(z: string, c: char)
    ensures Value(z + [c], false) == Value(z, false) * 10 + DigitValue(c)
  {
    assert (z + [c])[..|z|] == z;
  }

  /** Reading a digit string is positional: the digits of `b` are the low
      `|b|` decimal places */
  lemma {:induction false} ValueAppend(a: string, b: string)
    ensures Value(a + b, false) == Value(a, false) * Pow10(|b|) + Value(b, false)
    decreases |b|
  {
    if b == [] {
      assert a + b == a;
    } else {
      var b', c := b[..|b| - 1], b[|b| - 1];
      assert a + b == (a + b') + [c];
      assert b == b' + [c];
      ValueSnoc(a + b', c);
      ValueSnoc(b', c);
      ValueAppend(a, b');
      assert Pow10(|b|) == Pow10(|b'|) * 10;
      ShiftPlace(Value(a, false), Pow10(|b'|), Value(b', false), DigitValue(c));
    }
  }

  lemma ShiftPlace(x: int, p: int, y: int, d: int)
    ensures (x * p + y) * 10 + d == x * (p * 10) + (y * 10 + d)
  {
  }

  /** A string of zeros reads as 0 */
  lemma {:induction false} ValueZeros(z: string, hex: bool)
    requires forall i :: 0 <= i < |z| ==> z[i] == '0'
    ensures Value(z, hex) == 0
    decreases |z|
  {
    if z != [] {
      ValueZeros(z[..|z| - 1], hex);
    }
  }

  /** Reading back the decimal rendering gives the number */
  lemma {:induction false} DecimalValue(n: nat)
    ensures Value(Decimal(n), false) == n
  {
    if n >= 10 {
      DecimalValue(n / 10);
      var d := Decimal(n / 10) + [DigitChar(n % 10)];
      assert d[..|d| - 1] == Decimal(n / 10);
    }
  }

  /** The digit prefix of a digit run followed by a non-digit is that run */
  lemma {:induction false} DigitPrefixOfRun(z: string, t: string)
    requires forall i :: 0 <= i < |z| ==> IsDecimalDigit(z[i])
    requires t == [] || !IsDecimalDigit(t[0])
    ensures DigitPrefix(z + t, false) == z
    decreases |z|
  {
    if z == [] {
      assert z + t == t;
    } else {
      assert (z + t)[0] == z[0];
      assert (z + t)[1..] == z[1..] + t;
      DigitPrefixOfRun(z[1..], t);
    }
  }

  /** `parseInt` reads a leading run of decimal digits up to the first
      character that cannot continue it */
  lemma ParseIntDigitsThen(z: string, t: string)
    requires z != [] && forall i :: 0 <= i < |z| ==> IsDecimalDigit(z[i])
    requires t == [] || (!IsDecimalDigit(t[0]) && t[0] != 'x' && t[0] != 'X')
    ensures ParseInt(z + t) == Some(Value(z, false))
  {
    PlainStart(z, t);
    DigitPrefixOfRun(z, t);
    ParseIntPlain(z + t, z);
  }

  /** A string that starts with a digit run not followed by `x` has no
      white space, sign or `0x` in front */
  lemma PlainStart(z: string, t: string)
    requires z != [] && forall i :: 0 <= i < |z| ==> IsDecimalDigit(z[i])
    requires t == [] || (!IsDecimalDigit(t[0]) && t[0] != 'x' && t[0] != 'X')
    ensures (z + t)[0] == z[0] && !JsText.IsJsSpace((z + t)[0])
    ensures !HexPrefixed(z + t)
  {
    var s := z + t;
    if |s| >= 2 && s[0] == '0' {
      if |z| >= 2 { assert s[1] == z[1]; } else { assert s[1] == t[0]; }
    }
  }

  /** `parseInt` of a string that starts right away with its digits */
  lemma ParseIntPlain(s: string, z: string)
    requires s != [] && IsDecimalDigit(s[0]) && !JsText.IsJsSpace(s[0])
    requires !HexPrefixed(s) && DigitPrefix(s, false) == z && z != []
    ensures ParseInt(s) == Some(Value(z, false))
  {
    assert JsText.TrimStart(s) == s;
    assert Unsigned(s) == s;
    assert ReadDigits(s) == z;
  }

  /** A leading `-` negates the digit run that follows it; a leading `+`
      leaves it as it is */
  lemma ParseIntSigned(sign: char, z: string, t: string)
    requires sign == '-' || sign == '+'
    requires z != [] && forall i :: 0 <= i < |z| ==> IsDecimalDigit(z[i])
    requires t == [] || (!IsDecimalDigit(t[0]) && t[0] != 'x' && t[0] != 'X')
    ensures ParseInt([sign] + (z + t)) == Some(if sign == '-' then -(Value(z, false) as int) else Value(z, false))
  {
    PlainStart(z, t);
    DigitPrefixOfRun(z, t);
    SignedPlain(sign, z + t, z);
  }

  /** `parseInt` of a sign followed right away by its digits */
  lemma SignedPlain(sign: char, u: string, z: string)
    requires sign == '-' || sign == '+'
    requires !HexPrefixed(u) && DigitPrefix(u, false) == z && z != []
    ensures ParseInt([sign] + u) == Some(if sign == '-' then -(Value(z, false) as int) else Value(z, false))
  {
    var s := [sign] + u;
    assert !JsText.IsJsSpace(s[0]);
    assert JsText.TrimStart(s) == s;
    assert s[1..] == u;
    assert Unsigned(s) == u;
    assert ReadDigits(s) == z;
  }

  /** `parseInt` skips any white space in front of the text */
  lemma ParseIntAfterSpace(w: string, s: string)
    requires forall i :: 0 <= i < |w| ==> JsText.IsJsSpace(w[i])
    ensures ParseInt(w + s) == ParseInt(s)
  {
    JsText.TrimStartAfterSpace(w, s);
  }

  /** Every decimal rendering is read back exactly by `parseInt` */
  lemma ParseIntDecimal(n: nat)
    ensures ParseInt(Decimal(n)) == Some(n)
  {
    ParseIntDigitsThen(Decimal(n), "");
    assert Decimal(n) + "" == Decimal(n);
    DecimalValue(n);
  }

  /** `parseInt` of a string without any decimal digit is `NaN`, unless it
      starts with `0x`, which needs a `0` */
  lemma ParseIntNoDigits(s: string)
    requires forall i :: 0 <= i < |s| ==> !IsDecimalDigit(s[i])
    ensures ParseInt(s) == None
  {
    var u := Unsigned(JsText.TrimStart(s));
    assert u == s[|s| - |u|..];
    if u != [] {
      assert u[0] == s[|s| - |u|];
    }
    assert !HexPrefixed(u);
    assert DigitPrefix(u, false) == [];
  }

  /** Zero runs of at least two: every `0` that does not follow another `0`
      is itself followed by a `0` */
  ghost predicate ZerosPaired(w: string) {
    forall i :: StartsZeroRun(w, i) ==> i + 1 < |w| && w[i + 1] == '0'
  }

  /** A `0` at `i` that does not follow another `0` */
  predicate StartsZeroRun(w: string, i: int) {
    0 <= i < |w| && w[i] == '0' && (i == 0 || w[i - 1] != '0')
  }

  /** What `parseInt` reads after white space and sign is a suffix of its
      input that follows neither nothing or a character other than `0` */
  lemma UnsignedSuffix(w: string) returns (m: nat)
    ensures m <= |w| && Unsigned(JsText.TrimStart(w)) == w[m..]
    ensures m == 0 || w[m - 1] != '0'
  {
    var t := JsText.TrimStart(w);
    var k := |w| - |t|;
    assert t == w[k..];
    if k > 0 {
      assert JsText.IsJsSpace(w[k - 1]);
    }
    if t != [] && (t[0] == '-' || t[0] == '+') {
      m := k + 1;
      assert w[k] == t[0];
    } else {
      m := k;
    }
  }

  /** The digit run read from a string whose only digits are zeros */
  lemma ZeroDigitsOnly(u: string)
    requires forall i :: 0 <= i < |u| && IsDecimalDigit(u[i]) ==> u[i] == '0'
    ensures Value(DigitPrefix(u, false), false) == 0
  {
    var z := DigitPrefix(u, false);
    forall i | 0 <= i < |z| ensures z[i] == '0' {
      assert z[i] == u[i];
    }
    ValueZeros(z, false);
  }

  /** When the only digits are zeros in runs of two or more, `parseInt`
      yields `NaN` or zero: no `0x` prefix can form */
  lemma ParseIntOnlyZeros(w: string)
    requires forall i :: 0 <= i < |w| && IsDecimalDigit(w[i]) ==> w[i] == '0'
    requires ZerosPaired(w)
    ensures OrZero(ParseInt(w)) == 0
  {
    var m := UnsignedSuffix(w);
    NoHexAfter(w, m);
    ZeroDigitsOfSuffix(w, m);
    ParseIntZeroValue(w);
  }

  /** No `0x` can start where a zero run would have to be a single `0` */
  lemma NoHexAfter(w: string, m: nat)
    requires ZerosPaired(w) && m <= |w| && (m == 0 || w[m - 1] != '0')
    ensures !HexPrefixed(w[m..])
  {
    var u := w[m..];
    if |u| >= 2 && u[0] == '0' {
      assert StartsZeroRun(w, m);
      assert u[1] == w[m + 1];
    }
  }

  /** The digits read from a suffix of a string whose only digits are
      zeros are worth zero */
  lemma ZeroDigitsOfSuffix(w: string, m: nat)
    requires forall i :: 0 <= i < |w| && IsDecimalDigit(w[i]) ==> w[i] == '0'
    requires m <= |w|
    ensures Value(DigitPrefix(w[m..], false), false) == 0
  {
    var u := w[m..];
    assert forall i :: 0 <= i < |u| ==> u[i] == w[m + i];
    ZeroDigitsOnly(u);
  }

  /** Digits worth zero, with or without a sign, give 0 after `|| 0` */
  lemma ParseIntZeroValue(w: string)
    requires Value(ReadDigits(JsText.TrimStart(w)), HexPrefixed(Unsigned(JsText.TrimStart(w)))) == 0
    ensures OrZero(ParseInt(w)) == 0
  {
  }
}
