/**
 * Bit strings and big-endian numbers.
 *
 * The codec turns bytes into a string of '0'/'1' characters with
 * `format(byte, '08b')` (most significant bit first), and turns groups of
 * such characters back into numbers with `int(bits, 2)`; the length header
 * is written with `n.to_bytes(4, byteorder='big')`. All three are positional
 * notation in a base (2 or 256), so they share one pair of definitions:
 * `Digits` (a number written with a fixed number of digits) and `Value`
 * (the number a digit string denotes). A bit is modelled as the number 0 or 1
 * rather than as the character '0' or '1'.
 */
module Bits {

  type Byte = b: int | 0 <= b < 256
  type Bit = b: int | 0 <= b < 2

  function Pow(base: nat, e: nat): (r: nat)
    ensures base >= 1 ==> r >= 1
  {
    if e == 0 then 1 else base * Pow(base, e - 1)
  }

  lemma {:induction false} PowMonotone(base: nat, e: nat, e': nat)
    requires base >= 1 && e <= e'
    ensures Pow(base, e) <= Pow(base, e')
  {
    if e < e' {
      PowMonotone(base, e, e' - 1);
      MulLe(1, base, Pow(base, e' - 1));
    }
  }

  function Min(a: int, b: int): int { if a <= b then a else b }

  /** Python's `s[lo:hi]` for `0 <= lo <= hi`: both ends are clamped to the length. */
  function Slice<T>(s: seq<T>, lo: nat, hi: nat): (r: seq<T>)
    requires lo <= hi
    ensures |r| == Min(hi, |s|) - Min(lo, |s|)
    ensures hi <= |s| ==> r == s[lo..hi]
  {
    s[Min(lo, |s|)..Min(hi, |s|)]
  }

  /** True when every element of `ds` is a digit of `base`. */
  predicate IsDigits(ds: seq<int>, base: nat) {
    forall i :: 0 <= i < |ds| ==> 0 <= ds[i] < base
  }

  /** `n` written with exactly `width` digits of `base`, most significant first. */
  function Digits(n: nat, base: nat, width: nat): (ds: seq<int>)
    requires base >= 2
    ensures |ds| == width && IsDigits(ds, base)
  {
    if width == 0 then [] else Digits(n / base, base, width - 1) + [n % base]
  }

  /** The number a most-significant-first digit string denotes (`int(s, base)`). */
  function Value(ds: seq<int>, base: nat): (v: nat)
    requires IsDigits(ds, base)
    ensures v < Pow(base, |ds|)
  {
    if ds == [] then 0
    else
      var front := Value(ds[..|ds| - 1], base);
      DigitStep(front, ds[|ds| - 1], base, |ds| - 1);
      front * base + ds[|ds| - 1]
  }

  lemma DigitStep(front: nat, d: nat, base: nat, k: nat)
    requires front < Pow(base, k) && d < base
    ensures front * base + d < Pow(base, k + 1)
  {
    calc {
      front * base + d;
    <  front * base + base;
    == (front + 1) * base;
    <= { MulLe(front + 1, Pow(base, k), base); }
       Pow(base, k) * base;
    == base * Pow(base, k);
    }
  }

  lemma MulLe(a: nat, b: nat, c: nat)
    requires a <= b
    ensures a * c <= b * c && c * a <= c * b
  {
  }

  /** Dropping the last digit of a number that fits `width` digits leaves one that fits `width - 1`. */
  lemma QuotientFits(n: nat, base: nat, width: nat)
    requires base >= 2 && width > 0 && n < Pow(base, width)
    ensures n / base < Pow(base, width - 1)
  {
    var p := Pow(base, width - 1);
    if n / base >= p {
      MulLe(p, n / base, base);
      assert false;
    }
  }

  lemma DivMod(a: nat, d: nat)
    requires d > 0
    ensures a == (a / d) * d + a % d && 0 <= a % d < d
  {
  }

  /** Writing a number that fits and reading it back gives the number again. */
  lemma {:induction false} ValueOfDigits(n: nat, base: nat, width: nat)
    requires base >= 2 && n < Pow(base, width)
    ensures Value(Digits(n, base, width), base) == n
  {
    if width > 0 {
      QuotientFits(n, base, width);
      ValueOfDigits(n / base, base, width - 1);
      LastDigit(n, base, width);
    }
  }

  /** The last digit written is `n % base`, after the digits of `n / base`. */
  lemma LastDigit(n: nat, base: nat, width: nat)
    requires base >= 2 && width > 0
    requires Value(Digits(n / base, base, width - 1), base) == n / base
    ensures Value(Digits(n, base, width), base) == n
  {
    var front := Digits(n / base, base, width - 1);
    ValueSnoc(front, n % base, base);
    DivMod(n, base);
  }

  /** Appending one digit multiplies by the base and adds the digit. */
  lemma ValueSnoc(front: seq<int>, d: int, base: nat)
    requires IsDigits(front, base) && 0 <= d < base
    ensures IsDigits(front + [d], base)
    ensures Value(front + [d], base) == Value(front, base) * base + d
  {
    assert (front + [d])[..|front|] == front;
  }

  /** A sequence that starts with `prefix` agrees with it on every slice inside it. */
  lemma PrefixSlice<T>(s: seq<T>, prefix: seq<T>, lo: nat, hi: nat)
    requires |prefix| <= |s| && s[..|prefix|] == prefix
    requires lo <= hi <= |prefix|
    ensures s[lo..hi] == prefix[lo..hi]
  {
    forall i | lo <= i < hi
      ensures s[i] == prefix[i]
    {
      assert s[..|prefix|][i] == s[i];
    }
  }

  /** Reading a digit string written in two parts. */
  lemma {:induction false} ValueAppend(a: seq<int>, c: seq<int>, base: nat)
    requires IsDigits(a, base) && IsDigits(c, base)
    ensures IsDigits(a + c, base)
    ensures Value(a + c, base) == Value(a, base) * Pow(base, |c|) + Value(c, base)
  {
    if c != [] {
      var cf, last := c[..|c| - 1], c[|c| - 1];
      assert (a + c)[..|a + c| - 1] == a + cf;
      ValueAppend(a, cf, base);
      var va, p, vf := Value(a, base), Pow(base, |cf|), Value(cf, base);
      calc {
        Value(a + c, base);
        Value(a + cf, base) * base + last;
        (va * p + vf) * base + last;
        { Distribute(va * p, vf, base); }
        va * p * base + (vf * base + last);
        { assert Value(c, base) == vf * base + last; }
        va * p * base + Value(c, base);
        { assert Pow(base, |c|) == base * p; Associate(va, p, base); }
        va * Pow(base, |c|) + Value(c, base);
      }
    } else {
      assert a + c == a;
    }
  }

  lemma Distribute(x: int, y: int, z: int)
    ensures (x + y) * z == x * z + y * z
  {
  }

  lemma Associate(x: int, y: int, z: int)
    ensures x * y * z == x * (z * y)
  {
  }

  /** The eight bits of a byte, most significant first (`format(b, '08b')`). */
  function ByteBits(b: Byte): (bits: seq<Bit>)
    ensures |bits| == 8
  {
    Digits(b, 2, 8)
  }

  /** The bit string of a byte string: each byte's eight bits, in stream order. */
  function ToBits(bytes: seq<Byte>): (bits: seq<Bit>)
    ensures |bits| == 8 * |bytes|
  {
    if bytes == [] then [] else ByteBits(bytes[0]) + ToBits(bytes[1..])
  }

  /**
   * Bits to bytes, eight at a time, each group read as a base-2 number;
   * an incomplete trailing group (fewer than eight bits) is dropped.
   */
  function Group(bits: seq<Bit>): (bytes: seq<Byte>)
    ensures |bytes| == |bits| / 8
    decreases |bits|
  {
    if |bits| < 8 then [] else [Value(bits[..8], 2)] + Group(bits[8..])
  }

  lemma {:induction false} ToBitsAppend(a: seq<Byte>, c: seq<Byte>)
    ensures ToBits(a + c) == ToBits(a) + ToBits(c)
  {
    if a != [] {
      assert (a + c)[1..] == a[1..] + c;
      ToBitsAppend(a[1..], c);
    } else {
      assert a + c == c;
    }
  }

  /** Bit `j` of byte `k` is the `7 - j`-th power-of-two digit of that byte. */
  lemma {:induction false} ToBitsAt(bytes: seq<Byte>, k: nat, j: nat)
    requires k < |bytes| && j < 8
    ensures |ToBits(bytes)| == 8 * |bytes|
    ensures ToBits(bytes)[8 * k + j] == ByteBits(bytes[k])[j]
  {
    if k > 0 {
      ToBitsAt(bytes[1..], k - 1, j);
    }
  }

  /** Grouping the bits of a byte string gives the byte string back. */
  lemma {:induction false} GroupToBits(bytes: seq<Byte>)
    ensures Group(ToBits(bytes)) == bytes
  {
    if bytes != [] {
      var bits := ToBits(bytes);
      assert bits[..8] == ByteBits(bytes[0]);
      assert bits[8..] == ToBits(bytes[1..]);
      ValueOfDigits(bytes[0], 2, 8);
      GroupToBits(bytes[1..]);
    }
  }

  /** Only whole groups become bytes: the output length is the bit count divided by eight. */
  /** Byte `k` of the output is bits `8k .. 8k+8` read most significant first. */
  lemma {:induction false} GroupAt(bits: seq<Bit>, k: nat)
    requires k < |bits| / 8
    ensures |Group(bits)| == |bits| / 8
    ensures Group(bits)[k] == Value(bits[8 * k .. 8 * k + 8], 2)
  {
    if k > 0 {
      GroupAt(bits[8..], k - 1);
      assert bits[8..][8 * (k - 1) .. 8 * (k - 1) + 8] == bits[8 * k .. 8 * k + 8];
    }
  }

  /** Reading the bit string of a byte string in base 2 is reading the bytes in base 256. */
  lemma {:induction false} ValueOfBits(bytes: seq<Byte>)
    ensures Value(ToBits(bytes), 2) == Value(bytes, 256)
  {
    if bytes != [] {
      var front := bytes[..|bytes| - 1];
      var last := bytes[|bytes| - 1];
      assert bytes == front + [last];
      ToBitsAppend(front, [last]);
      assert ToBits([last]) == ByteBits(last);
      ValueAppend(ToBits(front), ByteBits(last), 2);
      ValueOfBits(front);
      ValueOfDigits(last, 2, 8);
      assert Pow(2, 8) == 256;
    }
  }

  /** `n.to_bytes(4, byteorder='big')`; Python raises OverflowError when n >= 2^32. */
  function BigEndian32(n: nat): (bs: seq<Byte>)
    requires n < 0x1_0000_0000
    ensures |bs| == 4 && Value(bs, 256) == n
  {
    assert Pow(256, 4) == 0x1_0000_0000 by {
      assert Pow(256, 2) == 0x1_0000;
    }
    ValueOfDigits(n, 256, 4);
    Digits(n, 256, 4)
  }

  /** The 32-bit header: its bits read in base 2 give the length it encodes. */
  lemma HeaderBits(n: nat)
    requires n < 0x1_0000_0000
    ensures |ToBits(BigEndian32(n))| == 32
    ensures Value(ToBits(BigEndian32(n)), 2) == n
  {
    ValueOfBits(BigEndian32(n));
  }
}
