/** Bit-level helpers: bit extraction, bit sequences, bit reversal (`reverse8`, `reverse16`, `rbit`). */
module Bits {
  import opened Types

  function Pow2(n: nat): (r: nat)
    ensures r >= 1
  {
    if n == 0 then 1 else 2 * Pow2(n - 1)
  }

  /** `x >> i`: i halvings of a non-negative x. */
  function Shr(x: nat, i: nat): nat
  {
    if i == 0 then x else Shr(x / 2, i - 1)
  }

  /** `(x >> i) & 1`, as a truth value. */
  function BitAt(x: nat, i: nat): bool
  {
    Shr(x, i) % 2 == 1
  }

  /** The n low bits of x, least significant first. */
  function BitsOf(x: nat, n: nat): (bs: seq<bool>)
    ensures |bs| == n
  {
    if n == 0 then [] else [x % 2 == 1] + BitsOf(x / 2, n - 1)
  }

  /** The number whose bits, least significant first, are bs. */
  function ValueOf(bs: seq<bool>): (v: nat)
    ensures v < Pow2(|bs|)
  {
    if bs == [] then 0 else (if bs[0] then 1 else 0) + 2 * ValueOf(bs[1..])
  }

  function Reversed<T>(s: seq<T>): (r: seq<T>)
    ensures |r| == |s|
    ensures forall i :: 0 <= i < |s| ==> r[i] == s[|s| - 1 - i]
  {
    if s == [] then [] else Reversed(s[1..]) + [s[0]]
  }

  /** The n low bits of x in the opposite order: bit i moves to bit n-1-i. */
  function RevBits(x: nat, n: nat): nat
  {
    ValueOf(Reversed(BitsOf(x, n)))
  }

  /** ARM `rbit`: the 32 bits of x in the opposite order. */
  function Rbit(x: u32): (r: u32)
  {
    Pow2Values();
    RevBits(x, 32)
  }

  lemma Pow2Byte()
    ensures Pow2(8) == 0x100
  {
  }

  lemma Pow2Values()
    ensures Pow2(8) == 0x100 && Pow2(16) == 0x1_0000 && Pow2(24) == 0x100_0000 && Pow2(32) == 0x1_0000_0000
  {
  }

  lemma {:induction false} BitsOfAt(x: nat, n: nat, i: nat)
    requires i < n
    ensures BitsOf(x, n)[i] == BitAt(x, i)
  {
    if i > 0 {
      BitsOfAt(x / 2, n - 1, i - 1);
    }
  }

  /** Reading back the bits of a bit sequence's value gives the sequence. */
  lemma {:induction false} BitsOfValueOf(bs: seq<bool>)
    ensures BitsOf(ValueOf(bs), |bs|) == bs
  {
    if bs != [] {
      BitsOfValueOf(bs[1..]);
      var v := ValueOf(bs);
      assert v % 2 == (if bs[0] then 1 else 0);
      assert v / 2 == ValueOf(bs[1..]);
    }
  }

  /** A number below 2^n is the value of its n low bits. */
  lemma {:induction false} ValueOfBitsOf(x: nat, n: nat)
    requires x < Pow2(n)
    ensures ValueOf(BitsOf(x, n)) == x
  {
    if n > 0 {
      ValueOfBitsOf(x / 2, n - 1);
      assert BitsOf(x, n)[1..] == BitsOf(x / 2, n - 1);
    }
  }

  /** Reversing the n low bits twice gives the number back. */
  lemma RevBitsInvolutive(x: nat, n: nat)
    requires x < Pow2(n)
    ensures RevBits(x, n) < Pow2(n)
    ensures RevBits(RevBits(x, n), n) == x
  {
    var b := BitsOf(x, n);
    var rb := Reversed(b);
    BitsOfValueOf(rb);
    assert Reversed(rb) == b;
    ValueOfBitsOf(x, n);
  }

  /** Bit i of the reversal is bit n-1-i of the input. */
  lemma RevBitsMovesBits(x: nat, n: nat, i: nat)
    requires i < n
    ensures BitAt(RevBits(x, n), i) == BitAt(x, n - 1 - i)
  {
    ValueOfBitAt(Reversed(BitsOf(x, n)), i);
    BitsOfAt(x, n, n - 1 - i);
  }

  /** Bit i of the value of a bit sequence is its i-th element. */
  lemma {:induction false} ValueOfBitAt(bs: seq<bool>, i: nat)
    requires i < |bs|
    ensures BitAt(ValueOf(bs), i) == bs[i]
  {
    if i > 0 {
      ValueOfBitAt(bs[1..], i - 1);
      assert ValueOf(bs) / 2 == ValueOf(bs[1..]);
    }
  }

  lemma ValueOfCons(bs: seq<bool>, k: nat)
    requires k < |bs|
    ensures Pow2(k) * ValueOf(bs[k..]) == (if bs[k] then Pow2(k) else 0) + Pow2(k + 1) * ValueOf(bs[k + 1..])
  {
    assert bs[k..][1..] == bs[k + 1..];
    ConsStep(Pow2(k), if bs[k] then 1 else 0, ValueOf(bs[k..]), ValueOf(bs[k + 1..]), Pow2(k + 1));
  }

  lemma ConsStep(p: int, b: int, vk: int, v: int, p2: int)
    requires vk == b + 2 * v && p2 == 2 * p
    ensures p * vk == p * b + p2 * v
  {
  }

  /** The low m+n bits of x are its low m bits followed by the n bits above them. */
  lemma {:induction false} BitsOfSplit(x: nat, m: nat, n: nat)
    ensures BitsOf(x, m + n) == BitsOf(x, m) + BitsOf(Shr(x, m), n)
  {
    if m > 0 {
      BitsOfSplit(x / 2, m - 1, n);
      var h, lo, hi := [x % 2 == 1], BitsOf(x / 2, m - 1), BitsOf(Shr(x, m), n);
      assert BitsOf(x, m + n) == h + (lo + hi);
      assert h + (lo + hi) == (h + lo) + hi;
    }
  }

  /** The arithmetic step of `ValueOfAppend`, kept apart from the sequence reasoning. */
  lemma AppendStep(vab: int, a0: int, w: int, p: int, v: int, va: int, pa: int)
    requires vab == a0 + 2 * (w + p * v) && va == a0 + 2 * w && pa == 2 * p
    ensures vab == va + pa * v
  {
  }

  /** The value of a concatenation: the second part's bits sit above the first's. */
  lemma {:induction false} ValueOfAppend(a: seq<bool>, b: seq<bool>)
    ensures ValueOf(a + b) == ValueOf(a) + Pow2(|a|) * ValueOf(b)
  {
    if a != [] {
      ValueOfAppend(a[1..], b);
      assert (a + b)[1..] == a[1..] + b;
      AppendStep(ValueOf(a + b), if a[0] then 1 else 0, ValueOf(a[1..]), Pow2(|a| - 1), ValueOf(b),
                 ValueOf(a), Pow2(|a|));
    } else {
      assert a + b == b;
    }
  }

  lemma ReversedAppend<T>(a: seq<T>, b: seq<T>)
    ensures Reversed(a + b) == Reversed(b) + Reversed(a)
  {
  }

  /**
   * The bit-reversal loop shared by `reverse8`, `reverse16` and the 24-bit CRC-init
   * reversal: bit i of `data` is OR-ed into bit width-1-i of the result. The invariant
   * keeps the bits below width-i clear, so each OR adds the bit's weight.
   */
  method ReverseLowBits(data: nat, width: nat) returns (reversed: nat)
    ensures reversed == RevBits(data, width)
  {
    ghost var rb := Reversed(BitsOf(data, width));
    reversed := 0;
    var i := 0;
    while i < width
      invariant 0 <= i <= width
      invariant reversed == Pow2(width - i) * ValueOf(rb[width - i..])
    {
      BitsOfAt(data, width, i);
      ValueOfCons(rb, width - 1 - i);
      reversed := reversed + (if BitAt(data, i) then Pow2(width - 1 - i) else 0);
      i := i + 1;
    }
  }

  /** Everything the reversal of n low bits promises, in one place. */
  lemma RevBitsFacts(x: nat, n: nat)
    requires x < Pow2(n)
    ensures RevBits(x, n) < Pow2(n)
    ensures RevBits(RevBits(x, n), n) == x
    ensures forall i :: 0 <= i < n ==> BitAt(RevBits(x, n), i) == BitAt(x, n - 1 - i)
  {
    RevBitsInvolutive(x, n);
    forall i | 0 <= i < n ensures BitAt(RevBits(x, n), i) == BitAt(x, n - 1 - i) {
      RevBitsMovesBits(x, n, i);
    }
  }

  /** `reverse8`: the bits of a byte in the opposite order. */
  method Reverse8(data: u8) returns (r: u8)
    ensures forall i :: 0 <= i < 8 ==> BitAt(r, i) == BitAt(data, 7 - i)
    ensures RevBits(r, 8) == data
  {
    var v := ReverseLowBits(data, 8);
    RevBitsFacts(data, 8);
    Pow2Byte();
    r := v;
  }

  /** `reverse16`: the bits of a 16-bit word in the opposite order. */
  method Reverse16(data: u16) returns (r: u16)
    ensures forall i :: 0 <= i < 16 ==> BitAt(r, i) == BitAt(data, 15 - i)
    ensures RevBits(r, 16) == data
  {
    var width := 16;
    Pow2Values();
    var v := ReverseLowBits(data, width);
    RevBitsFacts(data, width);
    r := v;
  }

  /** Euclidean division: quotient and remainder recompose the dividend. */
  lemma DivMod(a: int, n: int)
    requires n > 0
    ensures a == n * (a / n) + a % n && 0 <= a % n < n
  {
  }

  /** Euclidean division has one quotient: a q and r with x == d*q + r and 0 <= r < d are x/d and x%d. */
  lemma DivUnique(x: int, d: int, q: int, r: int)
    requires d > 0 && 0 <= r < d && x == d * q + r
    ensures x / d == q && x % d == r
  {
    var a := x / d - q;
    assert d * a == r - x % d by {
      assert x == d * (x / d) + x % d;
    }
    MulSmall(d, a);
  }

  lemma MulSmall(d: int, a: int)
    requires d > 0 && -d < d * a < d
    ensures a == 0
  {
  }

  /** `x >> n` is division by 2^n. */
  lemma {:induction false} ShrDiv(x: nat, n: nat)
    ensures Shr(x, n) == x / Pow2(n)
  {
    if n > 0 {
      ShrDiv(x / 2, n - 1);
      HalfDiv(x, Pow2(n - 1));
    }
  }

  lemma HalfDiv(x: nat, p: int)
    requires p > 0
    ensures (x / 2) / p == x / (2 * p)
  {
    var q, r2 := (x / 2) / p, (x / 2) % p;
    assert x == (2 * p) * q + (2 * r2 + x % 2) by {
      assert x == 2 * (x / 2) + x % 2;
      assert x / 2 == p * q + r2;
    }
    DivUnique(x, 2 * p, q, 2 * r2 + x % 2);
  }

  /** A bit sequence with no bit set has value 0. */
  lemma {:induction false} NoBitsSet(bs: seq<bool>)
    requires forall i :: 0 <= i < |bs| ==> !bs[i]
    ensures ValueOf(bs) == 0
  {
    if bs != [] {
      NoBitsSet(bs[1..]);
    }
  }

  /** Reversing the bits of 0 gives 0, whatever the width. */
  lemma RevBitsZero(n: nat)
    ensures RevBits(0, n) == 0
  {
    var b := BitsOf(0, n);
    forall i | 0 <= i < n
      ensures !b[i]
    {
      BitsOfAt(0, n, i);
      ShrDiv(0, i);
    }
    NoBitsSet(Reversed(b));
  }

  /** Reversing m+n low bits: the reversed high part lands low, the reversed low part lands high. */
  lemma RevBitsSplit(x: nat, m: nat, n: nat)
    ensures RevBits(x, m + n) == RevBits(Shr(x, m), n) + Pow2(n) * RevBits(x, m)
  {
    var lo, hi := BitsOf(x, m), BitsOf(Shr(x, m), n);
    BitsOfSplit(x, m, n);
    ReversedAppend(lo, hi);
    ValueOfAppend(Reversed(hi), Reversed(lo));
  }

  /** Byte k (0 = least significant) of x. */
  function ByteAt(x: nat, k: nat): (b: u8)
  {
    Shr(x, 8 * k) % 0x100
  }

  /** `rbit` reverses the byte order and the bits within each byte. */
  lemma RbitBytes(x: u32)
    ensures Rbit(x) == RevBits(ByteAt(x, 3), 8) + 0x100 * RevBits(ByteAt(x, 2), 8)
                      + 0x1_0000 * RevBits(ByteAt(x, 1), 8) + 0x100_0000 * RevBits(ByteAt(x, 0), 8)
  {
    Pow2Values();
    forall k: nat ensures RevBits(Shr(x, 8 * k), 8) == RevBits(ByteAt(x, k), 8) {
      BitsOfLow(Shr(x, 8 * k), 8);
    }
    RevBitsSplit(x, 8, 24);
    RevBitsSplit(Shr(x, 8), 8, 16);
    RevBitsSplit(Shr(Shr(x, 8), 8), 8, 8);
    ShrAdd(x, 8, 8);
    ShrAdd(x, 16, 8);
    assert Shr(x, 0) == x;
  }

  lemma ModDouble(y: nat, p: nat)
    requires p > 0
    ensures (y % (2 * p)) % 2 == y % 2 && (y % (2 * p)) / 2 == (y / 2) % p
  {
    var q, r := y / (2 * p), y % (2 * p);
    var r2 := r / 2;
    assert y == 2 * (p * q + r2) + r % 2 by {
      assert y == (2 * p) * q + r;
      assert r == 2 * r2 + r % 2;
    }
    DivUnique(y, 2, p * q + r2, r % 2);
    DivUnique(y / 2, p, q, r2);
  }

  /** Only the n low bits of x take part in `BitsOf(x, n)`. */
  lemma {:induction false} BitsOfLow(x: nat, n: nat)
    ensures BitsOf(x, n) == BitsOf(x % Pow2(n), n)
  {
    if n > 0 {
      ModDouble(x, Pow2(n - 1));
      BitsOfLow(x / 2, n - 1);
    }
  }

  lemma {:induction false} ShrAdd(x: nat, a: nat, b: nat)
    ensures Shr(x, a + b) == Shr(Shr(x, a), b)
  {
    if a > 0 {
      ShrAdd(x / 2, a - 1, b);
    }
  }

  /** Bits 8k..8k+7 of x are the bits of its byte k. */
  lemma BitsOfByte(x: nat, n: nat, k: nat)
    requires 8 * k + 8 <= n
    ensures BitsOf(x, n)[8 * k..8 * k + 8] == BitsOf(ByteAt(x, k), 8)
  {
    var y := Shr(x, 8 * k);
    Pow2Byte();
    BitsOfLow(y, 8);
    forall j | 0 <= j < 8 ensures BitsOf(x, n)[8 * k + j] == BitsOf(y, 8)[j] {
      BitsOfAt(x, n, 8 * k + j);
      BitsOfAt(y, 8, j);
      ShrAdd(x, 8 * k, j);
    }
  }

  /** Groups of eight bits, least significant first, as bytes. */
  function BytesOf(bits: seq<bool>): (bytes: seq<u8>)
    requires |bits| % 8 == 0
    ensures |bytes| == |bits| / 8
    ensures forall k :: 0 <= k < |bytes| ==> bytes[k] == ValueOf(bits[8 * k..8 * k + 8])
  {
    Pow2Byte();
    if bits == [] then []
    else
      var rest := BytesOf(bits[8..]);
      assert forall k :: 0 < k <= |rest| ==> bits[8 * k..8 * k + 8] == bits[8..][8 * (k - 1)..8 * (k - 1) + 8];
      [ValueOf(bits[..8]) as u8] + rest
  }

  /** The number a little-endian byte sequence stands for (`b[0] | b[1] << 8 | ...`). */
  function LeValue(bytes: seq<u8>): nat
  {
    if bytes == [] then 0 else bytes[0] + 0x100 * LeValue(bytes[1..])
  }

  /** Packing bits into bytes and reading the bytes little-endian gives the bits' value. */
  lemma {:induction false} LeValueBytesOf(bits: seq<bool>)
    requires |bits| % 8 == 0
    ensures LeValue(BytesOf(bits)) == ValueOf(bits)
  {
    if bits != [] {
      Pow2Byte();
      LeValueBytesOf(bits[8..]);
      assert bits == bits[..8] + bits[8..];
      ValueOfAppend(bits[..8], bits[8..]);
      assert BytesOf(bits)[1..] == BytesOf(bits[8..]);
    }
  }

  /** The n little-endian bytes of x: `(x >> 8*k) & 0xff` for k below n. */
  function LeBytes(x: nat, n: nat): (bytes: seq<u8>)
    ensures |bytes| == n
    ensures forall k :: 0 <= k < n ==> bytes[k] == ByteAt(x, k)
  {
    seq(n, k requires 0 <= k => ByteAt(x, k))
  }

  /** The little-endian bytes of x are the bytes of its bits. */
  lemma LeBytesBits(x: nat, n: nat)
    ensures LeBytes(x, n) == BytesOf(BitsOf(x, 8 * n))
  {
    var bs := BytesOf(BitsOf(x, 8 * n));
    forall k | 0 <= k < n ensures bs[k] == ByteAt(x, k) {
      BitsOfByte(x, 8 * n, k);
      Pow2Byte();
      ValueOfBitsOf(ByteAt(x, k), 8);
    }
  }

  /** Splitting a number below 2^(8n) into n little-endian bytes and joining them again gives it back. */
  lemma LeValueLeBytes(x: nat, n: nat)
    requires x < Pow2(8 * n)
    ensures LeValue(LeBytes(x, n)) == x
  {
    LeBytesBits(x, n);
    LeValueBytesOf(BitsOf(x, 8 * n));
    ValueOfBitsOf(x, 8 * n);
  }

  /** The bytes of `b0 + 0x100 * w`: b0, then the bytes of w. */
  lemma ByteAtCons(b0: u8, w: nat, k: nat)
    ensures ByteAt(b0 + 0x100 * w, 0) == b0
    ensures ByteAt(b0 + 0x100 * w, k + 1) == ByteAt(w, k)
  {
    var x := b0 + 0x100 * w;
    Pow2Byte();
    ShrAdd(x, 8, 8 * k);
    ShrDiv(x, 8);
    DivUnique(x, 0x100, w, b0);
  }

  /** Writing the little-endian value of a byte string back out byte by byte gives the string. */
  lemma {:induction false} LeBytesLeValue(bytes: seq<u8>)
    ensures LeValue(bytes) < Pow2(8 * |bytes|)
    ensures LeBytes(LeValue(bytes), |bytes|) == bytes
  {
    if bytes != [] {
      var w := LeValue(bytes[1..]);
      LeBytesLeValue(bytes[1..]);
      assert Pow2(8 * |bytes|) == 0x100 * Pow2(8 * |bytes[1..]|) by {
        Pow2Add(8, 8 * |bytes[1..]|);
        Pow2Byte();
      }
      forall k | 0 <= k < |bytes| ensures LeBytes(LeValue(bytes), |bytes|)[k] == bytes[k] {
        if k == 0 {
          ByteAtCons(bytes[0], w, 0);
        } else {
          ByteAtCons(bytes[0], w, k - 1);
          assert LeBytes(w, |bytes[1..]|)[k - 1] == bytes[k];
        }
      }
    }
  }

  lemma {:induction false} Pow2Add(a: nat, b: nat)
    ensures Pow2(a + b) == Pow2(a) * Pow2(b)
  {
    if a > 0 {
      Pow2Add(a - 1, b);
    }
  }

  /** A prefix one byte longer adds that byte at its place value. */
  lemma {:induction false} LeValuePrefix(bytes: seq<u8>, i: nat)
    requires i < |bytes|
    ensures LeValue(bytes[..i + 1]) == LeValue(bytes[..i]) + bytes[i] * Pow2(8 * i)
  {
    if i > 0 {
      var tail := bytes[1..];
      LeValuePrefix(tail, i - 1);
      assert bytes[..i + 1][1..] == tail[..i];
      assert bytes[..i][1..] == tail[..i - 1];
      Pow2Add(8, 8 * (i - 1));
      Pow2Byte();
      PlaceValue(bytes[0], LeValue(tail[..i]), LeValue(tail[..i - 1]), bytes[i], Pow2(8 * (i - 1)));
    }
  }

  lemma PlaceValue(b0: int, a: int, b: int, x: int, p: int)
    requires a == b + x * p
    ensures b0 + 0x100 * a == (b0 + 0x100 * b) + x * (0x100 * p)
  {
  }

  /**
   * `for (i = 0; i < n; ++i) v |= bytes[i] << (i*8)`: reads bytes little-endian. The
   * shifted bytes do not overlap, so the OR is a sum.
   */
  method UnpackLe(bytes: seq<u8>) returns (v: nat)
    ensures v == LeValue(bytes) < Pow2(8 * |bytes|)
  {
    v := 0;
    var i := 0;
    while i < |bytes|
      invariant 0 <= i <= |bytes|
      invariant v == LeValue(bytes[..i])
    {
      LeValuePrefix(bytes, i);
      v := v + bytes[i] * Pow2(8 * i);
      i := i + 1;
    }
    assert bytes[..i] == bytes;
    LeBytesLeValue(bytes);
  }

  /** `for (i = 0; i < n; i++) data[i] = (x >> (8*i)) & 0xff`: writes x out little-endian. */
  method PackLe(x: nat, n: nat) returns (data: seq<u8>)
    requires x < Pow2(8 * n)
    ensures data == LeBytes(x, n) && LeValue(data) == x
  {
    data := [];
    var i := 0;
    while i < n
      invariant 0 <= i <= n
      invariant |data| == i
      invariant forall k :: 0 <= k < i ==> data[k] == ByteAt(x, k)
    {
      data := data + [Shr(x, 8 * i) % 0x100];
      i := i + 1;
    }
    LeValueLeBytes(x, n);
  }

  /** Three and four bytes read little-endian, as the firmware's shift-and-OR expressions spell it out. */
  lemma LeValueShort(s: seq<u8>)
    requires 3 <= |s| <= 4
    ensures |s| == 3 ==> LeValue(s) == s[0] as int + 0x100 * s[1] as int + 0x1_0000 * s[2] as int
    ensures |s| == 4 ==> LeValue(s) == s[0] as int + 0x100 * s[1] as int + 0x1_0000 * s[2] as int + 0x100_0000 * s[3] as int
  {
    assert LeValue(s[|s|..]) == 0;
    assert LeValue(s[2..]) == s[2] + 0x100 * LeValue(s[3..]);
    assert LeValue(s[1..]) == s[1] + 0x100 * LeValue(s[2..]);
  }

  /** Literal facts about the advertising-channel access address, one evaluation each. */
  lemma AdvShift0()
    ensures Shr(0x8e89bed6, 8) == 0x8e89be
  {
  }

  lemma AdvShift1()
    ensures Shr(0x8e89be, 8) == 0x8e89
  {
  }

  lemma AdvShift2()
    ensures Shr(0x8e89, 8) == 0x8e
  {
  }

  lemma AdvBytes(x: u32)
    requires x == 0x8e89bed6
    ensures ByteAt(x, 0) == 0xd6 && ByteAt(x, 1) == 0xbe && ByteAt(x, 2) == 0x89 && ByteAt(x, 3) == 0x8e
  {
    ShrAdd(x, 8, 8);
    ShrAdd(x, 16, 8);
    AdvShift0();
    AdvShift1();
    AdvShift2();
  }

  /** Bit i of y is bit 7-i of x, for each of the eight bits, spelled out so that literals evaluate. */
  predicate MirroredByte(x: nat, y: nat)
  {
    BitAt(y, 0) == BitAt(x, 7) && BitAt(y, 1) == BitAt(x, 6) && BitAt(y, 2) == BitAt(x, 5) && BitAt(y, 3) == BitAt(x, 4) &&
    BitAt(y, 4) == BitAt(x, 3) && BitAt(y, 5) == BitAt(x, 2) && BitAt(y, 6) == BitAt(x, 1) && BitAt(y, 7) == BitAt(x, 0)
  }

  lemma MirroredByteBits(x: nat, y: nat)
    requires MirroredByte(x, y)
    ensures forall i :: 0 <= i < 8 ==> BitAt(y, i) == BitAt(x, 7 - i)
  {
    forall i | 0 <= i < 8 ensures BitAt(y, i) == BitAt(x, 7 - i) {
      if i == 0 { } else if i == 1 { } else if i == 2 { } else if i == 3 { }
      else if i == 4 { } else if i == 5 { } else if i == 6 { } else { }
    }
  }

  /** Two numbers below 2^n with the same n low bits are equal. */
  lemma {:induction false} SameBits(v: nat, y: nat, n: nat)
    requires v < Pow2(n) && y < Pow2(n)
    requires forall i :: 0 <= i < n ==> BitAt(v, i) == BitAt(y, i)
    ensures v == y
  {
    if n > 0 {
      assert BitAt(v, 0) == BitAt(y, 0);
      forall i | 0 <= i < n - 1 ensures BitAt(v / 2, i) == BitAt(y / 2, i) {
        assert BitAt(v, i + 1) == BitAt(y, i + 1);
      }
      SameBits(v / 2, y / 2, n - 1);
    }
  }

  /** A number below 2^n whose bit i is bit n-1-i of x is the reversal of x's n low bits. */
  lemma RevBitsByBits(x: nat, y: nat, n: nat)
    requires y < Pow2(n)
    requires forall i :: 0 <= i < n ==> BitAt(y, i) == BitAt(x, n - 1 - i)
    ensures RevBits(x, n) == y
  {
    forall i | 0 <= i < n ensures BitAt(RevBits(x, n), i) == BitAt(y, i) {
      RevBitsMovesBits(x, n, i);
    }
    SameBits(RevBits(x, n), y, n);
  }

  /** A byte mirroring the bits of x is the reversal of x's low byte. */
  lemma RevByte(x: nat, y: nat)
    requires y < 0x100 && MirroredByte(x, y)
    ensures RevBits(x, 8) == y
  {
    MirroredByteBits(x, y);
    Pow2Byte();
    RevBitsByBits(x, y, 8);
  }

  /** The bytes of 0x8E89BED6 and of 0x6B7D9171 mirror each other. */
  lemma AdvMirror0()
    ensures MirroredByte(0xd6, 0x6b)
  {
  }

  lemma AdvMirror1()
    ensures MirroredByte(0xbe, 0x7d)
  {
  }

  lemma AdvMirror2()
    ensures MirroredByte(0x89, 0x91)
  {
  }

  lemma AdvMirror3()
    ensures MirroredByte(0x8e, 0x71)
  {
  }

  /** The advertising-channel access address 0x8E89BED6 reads 0x6B7D9171 bit-reversed. */
  lemma RbitAdvertisingAa(x: u32)
    requires x == 0x8e89bed6
    ensures Rbit(x) == 0x6b7d9171
  {
    AdvRev0(x);
    AdvRev1(x);
    AdvRev2(x);
    AdvRev3(x);
    RbitOfReversedBytes(x, 0x6b, 0x7d, 0x91, 0x71);
  }

  lemma RbitOfReversedBytes(x: u32, r0: nat, r1: nat, r2: nat, r3: nat)
    requires RevBits(ByteAt(x, 0), 8) == r0 && RevBits(ByteAt(x, 1), 8) == r1
    requires RevBits(ByteAt(x, 2), 8) == r2 && RevBits(ByteAt(x, 3), 8) == r3
    ensures Rbit(x) == r3 + 0x100 * r2 + 0x10000 * r1 + 0x1000000 * r0
  {
    RbitBytes(x);
  }

  lemma AdvRev0(x: u32)
    requires x == 0x8e89bed6
    ensures RevBits(ByteAt(x, 0), 8) == 0x6b
  {
    AdvBytes(x);
    AdvMirror0();
    RevByte(ByteAt(x, 0), 0x6b);
  }

  lemma AdvRev1(x: u32)
    requires x == 0x8e89bed6
    ensures RevBits(ByteAt(x, 1), 8) == 0x7d
  {
    AdvBytes(x);
    AdvMirror1();
    RevByte(ByteAt(x, 1), 0x7d);
  }

  lemma AdvRev2(x: u32)
    requires x == 0x8e89bed6
    ensures RevBits(ByteAt(x, 2), 8) == 0x91
  {
    AdvBytes(x);
    AdvMirror2();
    RevByte(ByteAt(x, 2), 0x91);
  }

  lemma AdvRev3(x: u32)
    requires x == 0x8e89bed6
    ensures RevBits(ByteAt(x, 3), 8) == 0x71
  {
    AdvBytes(x);
    AdvMirror3();
    RevByte(ByteAt(x, 3), 0x71);
  }
}
