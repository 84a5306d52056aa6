/** Hexadecimal argument parsing: C's `strtol(s, &end, 16)` on a host
    whose `long` is 64 bits wide, followed by the check `*end == 0` and the
    conversion of the `long` result to `uint32_t`.  Both host programs
    parse their addresses and lengths this way (`parse_addr` in the JTAG
    bridge, `fromhex` in the serial bridge). */
module Strtol {
  import opened Words

  datatype Option<+T> = None | Some(value: T)

  const LongMax: int := 0x7FFF_FFFF_FFFF_FFFF

  /** `isspace` in the C locale. */
  predicate IsSpace(c: char)
  {
    c == ' ' || '\t' <= c <= '\r'
  }

  predicate IsHexDigit(c: char)
  {
    '0' <= c <= '9' || 'a' <= c <= 'f' || 'A' <= c <= 'F'
  }

  function DigitValue(c: char): (d: nat)
    requires IsHexDigit(c)
    ensures d < 16
  {
    if c <= '9' then c as int - '0' as int
    else if c <= 'F' then c as int - 'A' as int + 10
    else c as int - 'a' as int + 10
  }

  predicate AllHexDigits(t: string)
  {
    forall k :: 0 <= k < |t| ==> IsHexDigit(t[k])
  }

  /** The digit values of a run of hexadecimal digits. */
  function DigitValues(t: string): (ds: seq<nat>)
    requires AllHexDigits(t)
    ensures |ds| == |t|
    ensures forall k :: 0 <= k < |t| ==> ds[k] == DigitValue(t[k])
  {
    seq(|t|, k requires 0 <= k < |t| => DigitValue(t[k]))
  }

  /** The first index at or after `i` that is not white space. */
  function SkipSpaces(s: string, i: nat): (j: nat)
    requires i <= |s|
    ensures i <= j <= |s|
    ensures forall k :: i <= k < j ==> IsSpace(s[k])
    ensures j < |s| ==> !IsSpace(s[j])
    decreases |s| - i
  {
    if i < |s| && IsSpace(s[i]) then SkipSpaces(s, i + 1) else i
  }

  /** The end of the longest run of hexadecimal digits starting at `i`. */
  function DigitRun(s: string, i: nat): (j: nat)
    requires i <= |s|
    ensures i <= j <= |s|
    ensures AllHexDigits(s[i..j])
    ensures j < |s| ==> !IsHexDigit(s[j])
    ensures j > i ==> IsHexDigit(s[j - 1])
    decreases |s| - i
  {
    if i < |s| && IsHexDigit(s[i]) then
      var j := DigitRun(s, i + 1);
      assert forall k :: 0 <= k < j - i ==> s[i..j][k] == s[i + k];
      j
    else i
  }

  /** What `strtol` returns and where it leaves its end position. */
  datatype Conversion = Conversion(value: int, end: nat)

  /** `strtol(s, &end, 16)`: optional white space, an optional sign, an
      optional `0x`/`0X` prefix (taken only when a digit follows it), then
      the longest run of digits; without any digit nothing is converted and
      the end position is the start of the string.  A magnitude that does not
      fit saturates at LONG_MAX or LONG_MIN. */
  function Strtol16(s: string): (c: Conversion)
    ensures c.end <= |s|
    ensures -(LongMax + 1) <= c.value <= LongMax
    ensures c.end == 0 ==> c.value == 0
    ensures c.end > 0 ==> IsHexDigit(s[c.end - 1]) && (c.end < |s| ==> !IsHexDigit(s[c.end]))
  {
    var i := SkipSpaces(s, 0);
    var neg := i < |s| && s[i] == '-';
    var k := if i < |s| && (s[i] == '+' || s[i] == '-') then i + 1 else i;
    var d := DigitsStart(s, k);
    var e := DigitRun(s, d);
    if e == d then Conversion(0, 0)
    else
      assert IsHexDigit(s[e - 1]);
      Conversion(Saturate(neg, DigitsValue(DigitValues(s[d..e]))), e)
  }

  /** Where the digits start after the sign: past a `0x`/`0X` prefix when
      a digit follows it, otherwise at `k`. */
  function DigitsStart(s: string, k: nat): (d: nat)
    requires k <= |s|
    ensures k <= d <= |s|
  {
    if k + 2 < |s| && s[k] == '0' && (s[k + 1] == 'x' || s[k + 1] == 'X') && IsHexDigit(s[k + 2])
    then k + 2 else k
  }

  /** The `long` for magnitude `m` and the sign: LONG_MAX or LONG_MIN when
      it does not fit. */
  function Saturate(neg: bool, m: int): (v: int)
    requires m >= 0
    ensures -(LongMax + 1) <= v <= LongMax
    ensures !neg && m <= LongMax ==> v == m
    ensures neg && m <= LongMax + 1 ==> v == 0 - m
  {
    if neg then (if m > LongMax + 1 then -(LongMax + 1) else 0 - m)
    else (if m > LongMax then LongMax else m)
  }

  /** The strings the checks of `parse_addr` and `fromhex` accept, as a
      grammar: the empty string, or optional white space, an optional sign,
      an optional `0x`/`0X`, and one or more hexadecimal digits that run to
      the end. */
  predicate HexArgument(s: string)
  {
    s == [] || Spaced(s)
  }

  /** White space, then a signed magnitude. */
  predicate Spaced(t: string)
    decreases |t|
  {
    t != [] && if IsSpace(t[0]) then Spaced(t[1..]) else Signed(t)
  }

  predicate Signed(t: string)
  {
    Magnitude(t) || (t != [] && (t[0] == '+' || t[0] == '-') && Magnitude(t[1..]))
  }

  predicate Magnitude(t: string)
  {
    Digits(t) || (|t| >= 2 && t[0] == '0' && (t[1] == 'x' || t[1] == 'X') && Digits(t[2..]))
  }

  /** One or more hexadecimal digits. */
  predicate Digits(t: string)
  {
    t != [] && AllHexDigits(t)
  }

  /** `strtol` stops exactly at the end of `s` iff `s` is in the grammar. */
  lemma ConsumesAll(s: string)
    ensures Strtol16(s).end == |s| <==> HexArgument(s)
  {
    var i := SkipSpaces(s, 0);
    var k := if i < |s| && (s[i] == '+' || s[i] == '-') then i + 1 else i;
    SpacedAt(s, 0);
    assert s[0..] == s;
    SignedAt(s, i);
    MagnitudeAt(s, k);
  }

  /** The white space skipped from `j` on. */
  lemma {:induction false} SpacedAt(s: string, j: nat)
    requires j <= |s|
    ensures Spaced(s[j..]) <==> Signed(s[SkipSpaces(s, j)..])
    decreases |s| - j
  {
    if j < |s| {
      assert s[j..][0] == s[j];
      if IsSpace(s[j]) {
        assert s[j..][1..] == s[j + 1..];
        SpacedAt(s, j + 1);
      }
    }
  }

  /** The sign taken at `i`. */
  lemma SignedAt(s: string, i: nat)
    requires i <= |s|
    ensures Signed(s[i..]) <==> Magnitude(s[if i < |s| && (s[i] == '+' || s[i] == '-') then i + 1 else i..])
  {
    if i < |s| {
      assert s[i..][0] == s[i];
      if s[i] == '+' || s[i] == '-' {
        assert s[i..][1..] == s[i + 1..];
      }
    }
  }

  /** The prefix taken at `k`, and the digits after it. */
  lemma MagnitudeAt(s: string, k: nat)
    requires k <= |s|
    ensures Magnitude(s[k..]) <==> DigitsStart(s, k) < DigitRun(s, DigitsStart(s, k)) == |s|
  {
    var u, d := s[k..], DigitsStart(s, k);
    DigitsFrom(s, d);
    if d == k + 2 {
      assert u[1] == s[k + 1];
      assert u[2..] == s[k + 2..];
    }
  }

  /** The digits from `d` on run to the end. */
  lemma DigitsFrom(s: string, d: nat)
    requires d <= |s|
    ensures Digits(s[d..]) <==> d < DigitRun(s, d) == |s|
  {
    var e := DigitRun(s, d);
    if d < e == |s| {
      assert s[d..] == s[d..e];
    }
    if Digits(s[d..]) {
      assert s[d..][0] == s[d];
    }
  }

  /** `strtol` followed by the check that the end position reached the
      terminating NUL, and the conversion of the `long` to `uint32_t`
      (arithmetic modulo 2^32). */
  function ParseHex32(s: string): (r: Option<u32>)
    ensures r.Some? <==> HexArgument(s)
    ensures r.Some? <==> Strtol16(s).end == |s|
    ensures r.Some? ==> r.value == Strtol16(s).value % WordModulus
  {
    ConsumesAll(s);
    var c := Strtol16(s);
    if c.end == |s| then Some(c.value % WordModulus) else None
  }

  /** A non-empty string made only of hexadecimal digits (either case)
      parses to its value modulo 2^32, provided the value fits a `long`. */
  lemma ParseDigits(t: string)
    requires |t| > 0 && AllHexDigits(t)
    requires DigitsValue(DigitValues(t)) <= LongMax
    ensures ParseHex32(t) == Some(DigitsValue(DigitValues(t)) % WordModulus)
  {
    assert !IsSpace(t[0]);
    assert SkipSpaces(t, 0) == 0;
    assert t[0] != '+' && t[0] != '-';
    assert |t| > 2 && t[0] == '0' ==> !(t[1] == 'x' || t[1] == 'X');
    DigitRunAll(t, 0);
    assert t[0..|t|] == t;
  }

  lemma {:induction false} DigitRunAll(t: string, i: nat)
    requires i <= |t| && AllHexDigits(t)
    ensures DigitRun(t, i) == |t|
    decreases |t| - i
  {
    if i < |t| {
      DigitRunAll(t, i + 1);
    }
  }

  /** The empty string is accepted as 0: `strtol` converts nothing and
      leaves the end position on the terminating NUL. */
  lemma EmptyIsZero()
    ensures ParseHex32("") == Some(0)
  {
  }

  /** A digit run followed by anything that is not a digit is refused. */
  lemma TrailingJunkRefused(t: string, c: char)
    requires |t| > 0 && AllHexDigits(t) && !IsHexDigit(c)
    ensures ParseHex32(t + [c]).None?
  {
    var s := t + [c];
    assert !IsSpace(s[0]) && s[0] != '+' && s[0] != '-';
    assert SkipSpaces(s, 0) == 0;
    assert |s| > 2 ==> IsHexDigit(s[1]);
    DigitRunPrefix(t, c, 0);
  }

  lemma {:induction false} DigitRunPrefix(t: string, c: char, i: nat)
    requires i <= |t| && AllHexDigits(t) && !IsHexDigit(c)
    ensures DigitRun(t + [c], i) == |t|
    decreases |t| - i
  {
    var s := t + [c];
    if i < |t| {
      assert s[i] == t[i];
      DigitRunPrefix(t, c, i + 1);
    } else {
      assert s[i] == c;
    }
  }

  /** The character for digit `d`, looked up in the digit table of the
      requested case. */
  function HexDigitChar(d: nat, upper: bool): (c: char)
    requires d < 16
    ensures IsHexDigit(c) && DigitValue(c) == d
    ensures upper ==> '0' <= c <= '9' || 'A' <= c <= 'F'
    ensures !upper ==> '0' <= c <= '9' || 'a' <= c <= 'f'
  {
    if upper then "0123456789ABCDEF"[d] else "0123456789abcdef"[d]
  }

  /** `v` written as eight lower-case hexadecimal digits. */
  function HexString(v: u32): (s: string)
    ensures |s| == 8
  {
    seq(8, i requires 0 <= i < 8 => HexDigitChar(Digit(v, 7 - i), false))
  }

  lemma Pow16Eight()
    ensures Pow16(8) == WordModulus
  {
    assert Pow16(2) == 256;
    assert Pow16(4) == 16 * (16 * Pow16(2));
    assert Pow16(6) == 16 * (16 * Pow16(4));
    assert Pow16(8) == 16 * (16 * Pow16(6));
  }

  /** Eight hexadecimal digits are parsed back to the word they spell. */
  lemma HexStringParses(v: u32)
    ensures ParseHex32(HexString(v)) == Some(v)
  {
    HexStringValue(v);
    ParseWord(HexString(v), v);
  }

  lemma ParseWord(t: string, v: u32)
    requires |t| > 0 && AllHexDigits(t) && DigitsValue(DigitValues(t)) == v
    ensures ParseHex32(t) == Some(v)
  {
    ParseDigits(t);
  }

  lemma HexStringValue(v: u32)
    ensures AllHexDigits(HexString(v))
    ensures DigitsValue(DigitValues(HexString(v))) == v
  {
    var s := HexString(v);
    assert DigitValues(s) == LowDigits(v, 8) by {
      forall i | 0 <= i < 8 ensures DigitValues(s)[i] == LowDigits(v, 8)[i] {
        assert s[i] == HexDigitChar(Digit(v, 7 - i), false);
      }
    }
    LowDigitsValue(v, 8);
    Pow16Eight();
  }
}
