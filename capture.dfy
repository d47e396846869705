/**
 * Scans over the unpacked symbol buffer (one received bit per byte, two capture
 * buffers long): the sliding 32-bit access-address register of `cb_follow_le`, and
 * the empty-PDU search and PDU extraction of `cb_le_promisc`.
 */
module Capture {
  import opened Types
  import opened Bits
  import opened Whitening

  /** `DMA_SIZE*8*2`: symbols in the unpacked buffer. */
  const UNPACKED_LEN: int := 800

  /** One past the last symbol index `cb_follow_le` shifts in: `DMA_SIZE * 8 + 32`. */
  const FOLLOW_SCAN_END: int := 432

  /** One past the last match position `cb_le_promisc` tries: `DMA_SIZE*8*2 - 32 - 16`. */
  const PROMISC_SCAN_END: int := 752

  function Zeros(n: nat): (z: seq<bool>)
    ensures |z| == n && forall k :: 0 <= k < n ==> !z[k]
  {
    seq(n, _ => false)
  }

  /**
   * The 32 bits held by the `cb_follow_le` shift register after symbols 0..k-1 were
   * shifted in at the top, oldest in bit 0: each symbol drops bit 0 and enters at bit 31.
   */
  function Window(u: seq<bool>, k: nat): (w: seq<bool>)
    requires k <= |u|
    ensures |w| == 32
  {
    if k == 0 then Zeros(32) else Window(u, k - 1)[1..] + [u[k - 1]]
  }

  /** Once 32 symbols are in, the register holds exactly the last 32 of them; before that, zeros pad it. */
  lemma {:induction false} WindowRecent(u: seq<bool>, k: nat)
    requires k <= |u|
    ensures k >= 32 ==> Window(u, k) == u[k - 32..k]
    ensures k < 32 ==> Window(u, k) == Zeros(32 - k) + u[..k]
  {
    if k > 0 {
      WindowRecent(u, k - 1);
      if k - 1 < 32 {
        assert Zeros(33 - k)[1..] == Zeros(32 - k);
        assert u[..k] == u[..k - 1] + [u[k - 1]];
      }
    }
  }

  lemma Pow2Top()
    ensures Pow2(31) == 0x8000_0000 && Pow2(32) == 0x1_0000_0000
  {
    Pow2Values();
  }

  /** `aa >>= 1; aa |= bit << 31` on the value of a 32-bit window shifts one symbol in. */
  lemma ShiftIn(s: seq<bool>, b: bool)
    requires |s| == 32
    ensures ValueOf(s[1..] + [b]) == ValueOf(s) / 2 + (if b then 0x8000_0000 else 0)
  {
    ValueOfAppend(s[1..], [b]);
    ValueOfSingle(b);
    Pow2Top();
    SingleScale(Pow2(31), ValueOf([b]), b);
    HalfValue(s);
  }

  lemma HalfValue(s: seq<bool>)
    requires |s| > 0
    ensures ValueOf(s) / 2 == ValueOf(s[1..])
  {
    DivUnique(ValueOf(s), 2, ValueOf(s[1..]), if s[0] then 1 else 0);
  }

  /** The shift register's value once symbol j is in: symbols j-31..j, oldest in bit 0. */
  function RegisterAt(u: seq<bool>, j: nat): nat
    requires 31 <= j < |u|
  {
    ValueOf(u[j - 31..j + 1])
  }

  /** One iteration of the shift register: the window moves on by symbol k. */
  lemma RegisterStep(u: seq<bool>, k: nat, aa: int)
    requires k < |u| && aa == ValueOf(Window(u, k))
    ensures aa / 2 + (if u[k] then 0x8000_0000 else 0) == ValueOf(Window(u, k + 1)) < 0x1_0000_0000
    ensures k >= 31 ==> ValueOf(Window(u, k + 1)) == RegisterAt(u, k)
  {
    ShiftIn(Window(u, k), u[k]);
    Pow2Top();
    WindowRecent(u, k + 1);
  }

  lemma WindowStart(u: seq<bool>)
    ensures ValueOf(Window(u, 0)) == 0
  {
    ZerosValue(32);
  }

  /** The first loop of `cb_follow_le`: shift symbols 0..30 into an empty register. */
  method PrimeRegister(u: seq<bool>) returns (aa: u32)
    requires 31 <= |u|
    ensures aa == ValueOf(Window(u, 31))
  {
    aa := 0;
    WindowStart(u);
    var i := 0;
    while i < 31
      invariant 0 <= i <= 31
      invariant aa == ValueOf(Window(u, i))
    {
      RegisterStep(u, i, aa);
      aa := aa / 2 + (if u[i] then 0x8000_0000 else 0);
      i := i + 1;
    }
  }

  /**
   * The access-address search of `cb_follow_le`: prime the shift register with 31
   * symbols, then shift in one symbol per step and stop at the first position where
   * the register equals the followed access address.
   */
  method FindAccessAddress(u: seq<bool>, target: u32) returns (found: bool, pos: int)
    requires |u| == UNPACKED_LEN
    ensures !found ==> forall j :: 31 <= j < FOLLOW_SCAN_END ==> RegisterAt(u, j) != target
    ensures found ==> 31 <= pos < FOLLOW_SCAN_END && RegisterAt(u, pos) == target
    ensures found ==> forall j :: 31 <= j < pos ==> RegisterAt(u, j) != target
  {
    assert FOLLOW_SCAN_END < |u| == 800;
    var aa := PrimeRegister(u);
    var i := 31;
    while i < FOLLOW_SCAN_END
      invariant 31 <= i <= FOLLOW_SCAN_END && i < |u|
      invariant aa == ValueOf(Window(u, i))
      invariant forall j :: 31 <= j < i ==> RegisterAt(u, j) != target
    {
      RegisterStep(u, i, aa);
      aa := aa / 2 + (if u[i] then 0x8000_0000 else 0);
      if aa == target {
        return true, i;
      }
      i := i + 1;
    }
    return false, -1;
  }

  /**
   * The plaintext bits `cb_le_promisc` looks for, least significant bit first: an LL
   * data PDU header with LLID 01 and MD 0 under each of the four NESN/SN combinations
   * (0x01, 0x09, 0x05, 0x0D), followed by a zero length byte: the empty PDU.
   */
  const DESIRED: seq<seq<bool>> := [
    [true, false, false, false, false, false, false, false, false, false, false, false, false, false, false, false],
    [true, false, false, true, false, false, false, false, false, false, false, false, false, false, false, false],
    [true, false, true, false, false, false, false, false, false, false, false, false, false, false, false, false],
    [true, false, true, true, false, false, false, false, false, false, false, false, false, false, false, false]
  ]

  /** The header bytes of the empty PDUs in `DESIRED`. */
  const EMPTY_PDU_HEADERS: seq<u8> := [0x01, 0x09, 0x05, 0x0D]

  lemma Desired0() ensures SumBits(DESIRED[0], 0, 8) == 0x01 && SumBits(DESIRED[0], 8, 8) == 0 {}
  lemma Desired1() ensures SumBits(DESIRED[1], 0, 8) == 0x09 && SumBits(DESIRED[1], 8, 8) == 0 {}
  lemma Desired2() ensures SumBits(DESIRED[2], 0, 8) == 0x05 && SumBits(DESIRED[2], 8, 8) == 0 {}
  lemma Desired3() ensures SumBits(DESIRED[3], 0, 8) == 0x0D && SumBits(DESIRED[3], 8, 8) == 0 {}

  /** Each pattern is the header byte's bits followed by a zero length byte. */
  lemma DesiredAreEmptyPdus(j: nat)
    requires j < 4
    ensures |DESIRED[j]| == 16
    ensures ValueOf(DESIRED[j][0..8]) == EMPTY_PDU_HEADERS[j] && ValueOf(DESIRED[j][8..16]) == 0
  {
    var d := DESIRED[j];
    assert |d| == 16 && SumBits(d, 0, 8) == EMPTY_PDU_HEADERS[j] && SumBits(d, 8, 8) == 0 by {
      if j == 0 { Desired0(); } else if j == 1 { Desired1(); }
      else if j == 2 { Desired2(); } else { Desired3(); }
    }
    SumBitsValue(d, 0, 8);
    SumBitsValue(d, 8, 8);
  }

  lemma {:induction false} ZerosValue(n: nat)
    ensures ValueOf(Zeros(n)) == 0
  {
    if n > 0 {
      assert Zeros(n)[1..] == Zeros(n - 1);
      ZerosValue(n - 1);
    }
  }

  /** The symbols from i on spell out pattern p. */
  predicate MatchesAt(u: seq<bool>, i: nat, p: seq<bool>)
  {
    i + |p| <= |u| && forall k :: 0 <= k < |p| ==> u[i + k] == p[k]
  }

  /**
   * The pattern test of `cb_le_promisc` at position i: `ok[j]` is cleared at the first
   * differing symbol of pattern j, and the first pattern still `ok` is the match.
   */
  method MatchPattern(u: seq<bool>, i: nat, desired: seq<seq<bool>>) returns (matching: int)
    requires |desired| == 4 && forall j :: 0 <= j < 4 ==> |desired[j]| == 16
    requires i + 16 <= |u|
    ensures -1 <= matching < 4
    ensures matching == -1 <==> forall j :: 0 <= j < 4 ==> !MatchesAt(u, i, desired[j])
    ensures matching >= 0 ==> MatchesAt(u, i, desired[matching])
    ensures matching >= 0 ==> forall j :: 0 <= j < matching ==> !MatchesAt(u, i, desired[j])
  {
    var ok := [true, true, true, true];
    var j := 0;
    while j < 4
      invariant 0 <= j <= 4 && |ok| == 4
      invariant forall jj :: 0 <= jj < j ==> (ok[jj] <==> MatchesAt(u, i, desired[jj]))
      invariant forall jj :: j <= jj < 4 ==> ok[jj]
    {
      var k := 0;
      while k < 16 && ok[j]
        invariant 0 <= k <= 16 && |ok| == 4
        invariant forall jj :: 0 <= jj < j ==> (ok[jj] <==> MatchesAt(u, i, desired[jj]))
        invariant forall jj :: j < jj < 4 ==> ok[jj]
        invariant ok[j] ==> forall kk :: 0 <= kk < k ==> u[i + kk] == desired[j][kk]
        invariant !ok[j] ==> !MatchesAt(u, i, desired[j])
      {
        if u[i + k] != desired[j][k] {
          ok := ok[j := false];
        }
        k := k + 1;
      }
      j := j + 1;
    }
    matching := -1;
    j := 0;
    while j < 4
      invariant 0 <= j <= 4
      invariant forall jj :: 0 <= jj < j ==> !ok[jj]
    {
      if ok[j] {
        matching := j;
        break;
      }
      j := j + 1;
    }
  }

  /**
   * The bits `cb_le_promisc` copies out around a match at i: the 32 symbols before i
   * as received (the access address), then 48 symbols from i dewhitened (header,
   * length and the first four payload bytes).
   */
  function PduBits(u: seq<bool>, i: nat, table: seq<bool>, start: nat): (bits: seq<bool>)
    requires 32 <= i && i + 48 <= |u| && |table| > 0
    ensures |bits| == 80
  {
    seq(80, n requires 0 <= n < 80 => PduBit(u, i, table, start, n))
  }

  /** Symbol n of the PDU bits: raw for the access address, XOR-ed with the table after it. */
  function PduBit(u: seq<bool>, i: nat, table: seq<bool>, start: nat, n: nat): bool
    requires 32 <= i && i + 48 <= |u| && |table| > 0 && n < 80
  {
    if n < 32 then u[n + i - 32] else u[n + i - 32] != table[(start + n - 32) % |table|]
  }

  /** The PDU bits are the raw access address followed by the dewhitened header and payload. */
  lemma PduBitsSplit(u: seq<bool>, i: nat, table: seq<bool>, start: nat)
    requires 32 <= i && i + 48 <= |u| && |table| > 0
    ensures PduBits(u, i, table, start) == u[i - 32..i] + Whiten(u[i..i + 48], table, start)
  {
    var w := u[i - 32..i] + Whiten(u[i..i + 48], table, start);
    forall n | 0 <= n < 80 ensures PduBits(u, i, table, start)[n] == w[n] {
      if n >= 32 {
        assert w[n] == Whiten(u[i..i + 48], table, start)[n - 32];
      }
    }
  }

  /**
   * The extraction loop of `cb_le_promisc`: byte j collects symbols 8j..8j+7 from i-32
   * on, bit k at `1 << k`; bytes 4 and up are dewhitened with idx running on from
   * `start`.
   */
  method ExtractPdu(u: seq<bool>, i: nat, table: seq<bool>, start: nat) returns (bytes: seq<u8>)
    requires 32 <= i && i + 48 <= |u| && start < |table|
    ensures bytes == BytesOf(PduBits(u, i, table, start))
  {
    bytes := [];
    var idx := start;
    var j := 0;
    while j < 4 + 3 + 3
      invariant 0 <= j <= 10 && |bytes| == j
      invariant forall jj :: 0 <= jj < j ==> bytes[jj] == ValueOf(PduBits(u, i, table, start)[8 * jj..8 * jj + 8])
      invariant idx == Cursor(start, 8 * j, |table|)
    {
      var byte;
      byte, idx := ExtractByte(u, i, table, start, j, idx);
      bytes := bytes + [byte];
      j := j + 1;
    }
  }

  /** One pass of the inner loop of `cb_le_promisc`'s extraction: byte j of the PDU bits. */
  method ExtractByte(u: seq<bool>, i: nat, table: seq<bool>, start: nat, j: nat, idx0: nat)
      returns (byte: u8, idx: nat)
    requires 32 <= i && i + 48 <= |u| && start < |table| && j < 10
    requires idx0 == Cursor(start, 8 * j, |table|)
    ensures byte == ValueOf(PduBits(u, i, table, start)[8 * j..8 * j + 8])
    ensures idx == Cursor(start, 8 * j + 8, |table|)
  {
    ghost var bits := PduBits(u, i, table, start);
    var value := 0;
    idx := idx0;
    var k := 0;
    while k < 8
      invariant 0 <= k <= 8
      invariant value == SumBits(bits, 8 * j, k)
      invariant idx == Cursor(start, 8 * j + k, |table|)
    {
      var bit := u[8 * j + k + i - 32];
      if j >= 4 {
        PayloadBitStep(u, i, table, start, 8 * j + k, idx);
        bit := bit != table[idx];
        idx := (idx + 1) % |table|;
      } else {
        AccessAddressBitStep(u, i, table, start, 8 * j + k, idx);
      }
      SumBitsStep(bits, 8 * j, k);
      value := value + (if bit then Pow2(k) else 0);
      k := k + 1;
    }
    SumBitsValue(bits, 8 * j, 8);
    Pow2Byte();
    byte := value;
  }

  /** Bits o..o+k-1 of bits, bit o+m weighted `1 << m`: what the inner loop accumulates. */
  function SumBits(bits: seq<bool>, o: nat, k: nat): nat
    requires o + k <= |bits|
  {
    if k == 0 then 0 else SumBits(bits, o, k - 1) + (if bits[o + k - 1] then Pow2(k - 1) else 0)
  }

  lemma SumBitsStep(bits: seq<bool>, o: nat, k: nat)
    requires o + k < |bits|
    ensures SumBits(bits, o, k + 1) == SumBits(bits, o, k) + (if bits[o + k] then Pow2(k) else 0)
  {
  }

  lemma {:induction false} SumBitsValue(bits: seq<bool>, o: nat, k: nat)
    requires o + k <= |bits|
    ensures SumBits(bits, o, k) == ValueOf(bits[o..o + k])
  {
    if k > 0 {
      var m := k - 1;
      SumBitsValue(bits, o, m);
      SumBitsStep(bits, o, m);
      ByteStep(bits, o, m);
    }
  }

  /** The whitening index after n extracted symbols: it starts moving at the header. */
  function Cursor(start: nat, n: nat, size: nat): nat
    requires start < size
  {
    if n <= 32 then start else (start + n - 32) % size
  }

  /** An access-address symbol is copied as received and leaves the whitening index alone. */
  lemma AccessAddressBitStep(u: seq<bool>, i: nat, table: seq<bool>, start: nat, n: nat, idx: nat)
    requires 32 <= i && i + 48 <= |u| && start < |table| && n < 32
    requires idx == Cursor(start, n, |table|)
    ensures PduBits(u, i, table, start)[n] == u[n + i - 32]
    ensures idx == Cursor(start, n + 1, |table|)
  {
    PduBitAt(u, i, table, start, n);
  }

  /** A header or payload symbol meets `whitening[idx]`, and idx moves on cyclically. */
  lemma PayloadBitStep(u: seq<bool>, i: nat, table: seq<bool>, start: nat, n: nat, idx: nat)
    requires 32 <= i && i + 48 <= |u| && start < |table| && 32 <= n < 80
    requires idx == Cursor(start, n, |table|)
    ensures idx < |table|
    ensures PduBits(u, i, table, start)[n] == (u[n + i - 32] != table[idx])
    ensures (idx + 1) % |table| == Cursor(start, n + 1, |table|)
  {
    CursorStep(start, n, idx, |table|);
    PduBitAt(u, i, table, start, n);
  }

  /** Where the whitening index goes after symbol n. */
  lemma CursorStep(start: nat, n: nat, idx: nat, size: nat)
    requires start < size && idx == Cursor(start, n, size)
    ensures idx < size
    ensures n < 32 ==> idx == Cursor(start, n + 1, size)
    ensures n >= 32 ==> idx == (start + n - 32) % size
    ensures n >= 32 ==> (idx + 1) % size == Cursor(start, n + 1, size)
  {
    if n == 32 {
      DivUnique(start, size, 0, start);
      ModSucc(start, size);
      assert Cursor(start, n + 1, size) == (start + 1) % size;
    } else if n > 32 {
      var m := start + n - 32;
      ModSucc(m, size);
      assert Cursor(start, n + 1, size) == (m + 1) % size;
    }
  }

  lemma PduBitAt(u: seq<bool>, i: nat, table: seq<bool>, start: nat, n: nat)
    requires 32 <= i && i + 48 <= |u| && 0 < |table| && n < 80
    ensures n < 32 ==> PduBits(u, i, table, start)[n] == u[n + i - 32]
    ensures n >= 32 ==> PduBits(u, i, table, start)[n] == (u[n + i - 32] != table[(start + n - 32) % |table|])
  {
  }

  /** Appending bit k of a byte adds `1 << k` to it. */
  lemma ByteStep(bits: seq<bool>, o: nat, k: nat)
    requires o + k < |bits|
    ensures ValueOf(bits[o..o + k + 1]) == ValueOf(bits[o..o + k]) + (if bits[o + k] then Pow2(k) else 0)
  {
    var low, b := bits[o..o + k], bits[o + k];
    assert bits[o..o + k + 1] == low + [b];
    ValueOfAppend(low, [b]);
    ValueOfSingle(b);
    SingleScale(Pow2(k), ValueOf([b]), b);
  }

  lemma ValueOfSingle(b: bool)
    ensures ValueOf([b]) == if b then 1 else 0
  {
    assert [b][1..] == [];
  }

  lemma SingleScale(p: nat, v: nat, b: bool)
    requires v == if b then 1 else 0
    ensures p * v == if b then p else 0
  {
  }

  /** The access address `cb_le_promisc` reassembles from bytes 0..3 is the 32 symbols before the match. */
  lemma ExtractedAccessAddress(u: seq<bool>, i: nat, table: seq<bool>, start: nat)
    requires 32 <= i && i + 48 <= |u| && 0 < |table|
    ensures LeValue(BytesOf(PduBits(u, i, table, start))[..4]) == ValueOf(u[i - 32..i])
  {
    PduBitsSplit(u, i, table, start);
    var bits := PduBits(u, i, table, start);
    var head := bits[..32];
    assert head == u[i - 32..i];
    assert BytesOf(bits)[..4] == BytesOf(head) by {
      forall k | 0 <= k < 4 ensures BytesOf(bits)[k] == BytesOf(head)[k] {
        assert head[8 * k..8 * k + 8] == bits[8 * k..8 * k + 8];
      }
    }
    LeValueBytesOf(head);
  }

  /** The bytes after the access address, whitened again from `start`, give back the received symbols. */
  lemma ExtractedPayloadRewhitens(u: seq<bool>, i: nat, table: seq<bool>, start: nat)
    requires 32 <= i && i + 48 <= |u| && 0 < |table|
    ensures Whiten(PduBits(u, i, table, start)[32..], table, start) == u[i..i + 48]
  {
    PduBitsSplit(u, i, table, start);
    assert PduBits(u, i, table, start)[32..] == Whiten(u[i..i + 48], table, start);
    WhitenInvolutive(u[i..i + 48], table, start);
  }
}
