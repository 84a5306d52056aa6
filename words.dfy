/** Bytes, 32-bit words and hexadecimal digits as the bridge and the
    firmware use them.

    Both host programs move a 32-bit value by reinterpreting it as four
    bytes (a `memcpy` of `&addr`, or a union of `uint32_t` and
    `uint8_t[4]`).  The hosts the bridge runs on are little-endian, so the
    "native order" is modelled as least significant byte first. */
module Words {

  type byte = x: int | 0 <= x < 256
  type u32 = x: int | 0 <= x < 0x1_0000_0000

  const WordModulus: int := 0x1_0000_0000

  /** The four bytes of `w` in memory order. */
  function WordBytes(w: u32): (b: seq<byte>)
    ensures |b| == 4
  {
    [w % 256, w / 256 % 256, w / 0x1_0000 % 256, w / 0x100_0000]
  }

  /** The word whose memory image is `b`. */
  function WordOf(b: seq<byte>): (w: u32)
    requires |b| == 4
  {
    var b0: int, b1: int, b2: int, b3: int := b[0], b[1], b[2], b[3];
    b0 + 256 * b1 + 0x1_0000 * b2 + 0x100_0000 * b3
  }

  /** Reinterpreting the bytes of a word gives the word back (`read4`
      after `write4`). */
  lemma WordRoundTrip(w: u32)
    ensures WordOf(WordBytes(w)) == w
  {
    var b := WordBytes(w);
    assert w == w % 256 + 256 * (w / 256);
    assert w / 256 == w / 256 % 256 + 256 * (w / 0x1_0000);
    assert w / 0x1_0000 == w / 0x1_0000 % 256 + 256 * (w / 0x100_0000);
  }

  /** Storing a received word and looking at its bytes gives the received
      bytes back (`*wp++ = read4(fd)`). */
  lemma BytesRoundTrip(b: seq<byte>)
    requires |b| == 4
    ensures WordBytes(WordOf(b)) == b
  {
    var w := WordOf(b);
    var b0: int, b1: int, b2: int, b3: int := b[0], b[1], b[2], b[3];
    assert w == b0 + 256 * (b1 + 256 * b2 + 0x1_0000 * b3);
    DivUnique(w, 256, b1 + 256 * b2 + 0x1_0000 * b3, b0);
    assert w / 256 == b1 + 256 * (b2 + 256 * b3);
    DivUnique(w / 256, 256, b2 + 256 * b3, b1);
    assert w == b0 + 256 * b1 + 0x1_0000 * (b2 + 256 * b3);
    DivUnique(w, 0x1_0000, b2 + 256 * b3, b0 + 256 * b1);
    DivUnique(w / 0x1_0000, 256, b3, b2);
    DivUnique(w, 0x100_0000, b3, b0 + 256 * b1 + 0x1_0000 * b2);
  }

  function Min(a: nat, b: nat): nat
  {
    if a < b then a else b
  }

  /** The number of bytes a `read`/`write`-style result says were moved:
      the result itself when positive, otherwise none. */
  function Got(result: int): nat
  {
    if result > 0 then result else 0
  }

  /** A script of answers with its first answer used up. */
  function Rest<T>(script: seq<T>): seq<T>
  {
    if script == [] then [] else script[1..]
  }

  /** 2 to the power `k`: the divisor that models an unsigned `>> k`. */
  function Pow2(k: nat): (p: nat)
    ensures p >= 1
  {
    if k == 0 then 1 else 2 * Pow2(k - 1)
  }

  /** 16 to the power `k`. */
  function Pow16(k: nat): (p: nat)
    ensures p >= 1
  {
    if k == 0 then 1 else 16 * Pow16(k - 1)
  }

  lemma {:induction false} Pow2Nibbles(k: nat)
    ensures Pow2(4 * k) == Pow16(k)
    ensures Pow2(4 * k + 4) == 16 * Pow2(4 * k)
  {
    assert Pow2(4 * k + 4) == 16 * Pow2(4 * k) by {
      assert Pow2(4 * k + 4) == 2 * Pow2(4 * k + 3);
      assert Pow2(4 * k + 3) == 2 * Pow2(4 * k + 2);
      assert Pow2(4 * k + 2) == 2 * Pow2(4 * k + 1);
      assert Pow2(4 * k + 1) == 2 * Pow2(4 * k);
    }
    if k > 0 {
      Pow2Nibbles(k - 1);
      assert 4 * k == 4 * (k - 1) + 4;
    }
  }

  /** Hexadecimal digit `k` of `v` (digit 0 is the least significant),
      computed as the firmware does: `v >> 4*k & 15`. */
  function Digit(v: nat, k: nat): (d: nat)
    ensures d < 16
  {
    v / Pow2(4 * k) % 16
  }

  /** The value of a digit sequence written most significant first. */
  function DigitsValue(ds: seq<nat>): nat
  {
    if ds == [] then 0 else 16 * DigitsValue(ds[..|ds| - 1]) + ds[|ds| - 1]
  }

  /** The low `n` hexadecimal digits of `v`, most significant first. */
  function LowDigits(v: nat, n: nat): (ds: seq<nat>)
    ensures |ds| == n
    ensures forall i :: 0 <= i < n ==> ds[i] == Digit(v, n - 1 - i)
  {
    seq(n, i requires 0 <= i < n => Digit(v, n - 1 - i))
  }

  /** Division is determined by its quotient-remainder decomposition. */
  lemma DivUnique(v: int, d: int, q: int, r: int)
    requires d > 0 && 0 <= r < d && v == d * q + r
    ensures v / d == q && v % d == r
  {
    var q0, r0 := v / d, v % d;
    assert d * (q - q0) == r0 - r by {
      assert d * q0 + r0 == d * q + r;
      MulSub(d, q, q0);
    }
    if q > q0 {
      MulAtLeast(d, q - q0);
    } else if q < q0 {
      MulAtLeast(d, q0 - q);
      MulSub(d, q0, q);
    }
  }

  lemma MulSub(d: int, a: int, b: int)
    ensures d * (a - b) == d * a - d * b
  {
  }

  lemma MulAtLeast(d: int, k: int)
    requires d > 0 && k >= 1
    ensures d * k >= d
  {
  }

  lemma DivDiv(v: nat, a: nat, b: nat)
    requires a >= 1 && b >= 1
    ensures v / a / b == v / (a * b)
  {
    var q, r := v / a, v % a;
    var q2, r2 := q / b, q % b;
    MulSplit(a, b, q2, r2);
    MulBelow(a, b, r2);
    DivUnique(v, a * b, q2, a * r2 + r);
  }

  lemma MulSplit(a: int, b: int, q: int, r: int)
    ensures a * (b * q + r) == (a * b) * q + a * r
  {
  }

  lemma MulBelow(a: nat, b: nat, r: nat)
    requires r < b
    ensures a * r <= a * b - a
  {
    if a > 0 {
      MulSub(a, b, r);
      MulAtLeast(a, b - r);
    }
  }

  lemma ModSplit(v: nat, m: nat)
    requires m >= 1
    ensures v % (16 * m) == 16 * (v / 16 % m) + v % 16
  {
    var q, r := v / 16, v % 16;
    var q2, r2 := q / m, q % m;
    assert 16 * q == 16 * (m * q2 + r2) == (16 * m) * q2 + 16 * r2;
    DivUnique(v, 16 * m, q2, 16 * r2 + r);
  }

  /** Digit k + 1 of v is digit k of v / 16. */
  lemma DigitShift(v: nat, k: nat)
    ensures Digit(v, k + 1) == Digit(v / 16, k)
  {
    Pow2Nibbles(k);
    assert 4 * (k + 1) == 4 * k + 4;
    DivDiv(v, 16, Pow2(4 * k));
  }

  /** Reading back the low `n` digits of `v` gives `v` modulo 16^n. */
  lemma {:induction false} LowDigitsValue(v: nat, n: nat)
    ensures DigitsValue(LowDigits(v, n)) == v % Pow16(n)
  {
    if n > 0 {
      var ds := LowDigits(v, n);
      LowDigitsValue(v / 16, n - 1);
      assert ds[..n - 1] == LowDigits(v / 16, n - 1) by {
        forall i | 0 <= i < n - 1
          ensures ds[i] == LowDigits(v / 16, n - 1)[i]
        {
          DigitShift(v, n - 2 - i);
        }
      }
      assert ds[n - 1] == v % 16;
      ModSplit(v, Pow16(n - 1));
    }
  }

  /** Regrouping concatenations, stated once so that long chains of
      appended log segments need not be rediscovered by the solver. */
  lemma Regroup<T>(a: seq<T>, b: seq<T>, c: seq<T>)
    ensures (a + b) + c == a + (b + c)
  {
  }

  lemma Chain<T>(a: seq<T>, b: seq<T>, c: seq<T>, d: seq<T>)
    ensures a + b + c + d == a + (b + c + d)
  {
  }
  lemma Split5<T>(v: seq<T>, w: seq<T>, x: seq<T>, y: seq<T>, z: seq<T>)
    ensures v + (w + (x + y) + z) == (v + w + x) + (y + z)
  {
  }

  lemma Prefix<T>(p: seq<T>, r: seq<T>)
    ensures p <= p + r
  {
  }

  /** A prefix of a concatenation that reaches into its second part. */
  lemma TakeRight<T>(a: seq<T>, b: seq<T>, k: nat)
    requires |a| <= k <= |a| + |b|
    ensures (a + b)[..k] == a + b[..k - |a|]
  {
  }

  /** A prefix of a concatenation that stays inside its first part. */
  lemma TakeLeft<T>(a: seq<T>, b: seq<T>, k: nat)
    requires k <= |a|
    ensures (a + b)[..k] == a[..k]
  {
  }

  /** Taking `a` elements and then `b` more is taking `a + b`. */
  lemma Slices<T>(s: seq<T>, a: nat, b: nat)
    requires a + b <= |s|
    ensures s[..a] + s[a..][..b] == s[..a + b]
  {
    assert s[a..][..b] == s[a..a + b];
  }
}
