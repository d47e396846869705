/**
 * The transmit-buffer construction of `le_transmit`. The radio shifts each FIFO byte
 * out most significant bit first, while BTLE puts bits on the air least significant
 * bit first, so every byte is stored bit-reversed: the four access-address bytes as
 * they are, the data bytes after whitening. The sync word written to SYNCH is chosen
 * from the first access-address bit.
 */
module Transmit {
  import opened Types
  import opened Bits
  import opened Whitening

  /** Size of the local `txbuf`: four access-address bytes and at most 60 data bytes. */
  const TXBUF_SIZE: int := 64

  /** The bits the radio puts on the air for one FIFO byte: most significant first. */
  function AirBits(t: nat): (bits: seq<bool>)
    ensures |bits| == 8
  {
    Reversed(BitsOf(t, 8))
  }

  /**
   * `t |= bit << (7 - j)` for j = 0..k-1 on an eight-bit w: bit j of the LSB-first
   * string w lands at position |w| - 1 - j.
   */
  function MsbAcc(w: seq<bool>, k: nat): nat
    requires k <= |w|
  {
    if k == 0 then 0 else MsbAcc(w, k - 1) + (if w[k - 1] then Pow2(|w| - k) else 0)
  }

  lemma MsbAccStep(w: seq<bool>, j: nat)
    requires j < |w| == 8
    ensures MsbAcc(w, j + 1) == MsbAcc(w, j) + (if w[j] then Pow2(7 - j) else 0)
  {
  }

  lemma {:induction false} MsbAccSuffix(w: seq<bool>, k: nat)
    requires k <= |w|
    ensures MsbAcc(w, k) == Pow2(|w| - k) * ValueOf(Reversed(w)[|w| - k..])
  {
    if k == 0 {
      assert Reversed(w)[|w|..] == [];
    } else {
      MsbAccSuffix(w, k - 1);
      ValueOfCons(Reversed(w), |w| - k);
    }
  }

  /** After all the steps the accumulated value is the bit-reversed string's value. */
  lemma MsbAccValue(w: seq<bool>)
    ensures MsbAcc(w, |w|) == ValueOf(Reversed(w)) < Pow2(|w|)
  {
    MsbAccSuffix(w, |w|);
    assert |w| - |w| == 0 && Pow2(0) == 1;
    assert Reversed(w)[0..] == Reversed(w);
  }

  /** A byte built from w and shifted out MSB first puts w on the air in order. */
  lemma AirBitsOfReversed(w: seq<bool>)
    requires |w| == 8
    ensures AirBits(ValueOf(Reversed(w))) == w
  {
    BitsOfValueOf(Reversed(w));
    assert Reversed(Reversed(w)) == w;
  }

  /**
   * The access-address inner loop of `le_transmit`: `txbuf[i] |= (byte & 1) << (7 - j);
   * byte >>= 1`.
   */
  method MirrorByte(b: u8) returns (t: u8)
    ensures t == RevBits(b, 8)
  {
    ghost var w := BitsOf(b, 8);
    var byte: nat := b;
    var acc := 0;
    var j := 0;
    while j < 8
      invariant 0 <= j <= 8
      invariant byte == Shr(b, j)
      invariant acc == MsbAcc(w, j)
    {
      BitsOfAt(b, 8, j);
      ShrAdd(b, j, 1);
      MsbAccStep(w, j);
      acc := acc + (if byte % 2 == 1 then Pow2(7 - j) else 0);
      byte := byte / 2;
      j := j + 1;
    }
    MsbAccValue(w);
    Pow2Byte();
    t := acc;
  }

  /** A mirrored byte goes on the air least significant bit first. */
  lemma AirBitsOfRevBits(b: nat)
    ensures AirBits(RevBits(b, 8)) == BitsOf(b, 8)
  {
    AirBitsOfReversed(BitsOf(b, 8));
  }

  /** The whitened LSB-first bits of a data byte whose first bit meets table entry s. */
  function WhitenedByte(b: u8, table: seq<bool>, s: nat): (w: seq<bool>)
    requires |table| > 0
    ensures |w| == 8
  {
    Whiten(BitsOf(b, 8), table, s)
  }

  /**
   * The data inner loop of `le_transmit`: `bit = (byte & 1) ^ whitening[idx]`, idx
   * moves on cyclically, and the bit is stored at position 7 - j.
   */
  method WhitenByte(b: u8, table: seq<bool>, idx0: nat, ghost s: nat) returns (t: u8, idx: nat)
    requires |table| > 0 && idx0 == s % |table|
    ensures t == ValueOf(Reversed(WhitenedByte(b, table, s)))
    ensures idx == (s + 8) % |table|
  {
    ghost var w := WhitenedByte(b, table, s);
    var byte: nat := b;
    var acc := 0;
    idx := idx0;
    var j := 0;
    while j < 8
      invariant 0 <= j <= 8
      invariant byte == Shr(b, j)
      invariant idx == (s + j) % |table|
      invariant acc == MsbAcc(w, j)
    {
      BitsOfAt(b, 8, j);
      ShrAdd(b, j, 1);
      MsbAccStep(w, j);
      var bit := (byte % 2 == 1) != table[idx];
      ModSucc(s + j, |table|);
      idx := (idx + 1) % |table|;
      byte := byte / 2;
      acc := acc + (if bit then Pow2(7 - j) else 0);
      j := j + 1;
    }
    MsbAccValue(w);
    Pow2Byte();
    t := acc;
  }

  /**
   * The access-address loop of `le_transmit`: the four bytes of `aa` from its low end
   * (`aa & 0xff; aa >>= 8`), each mirrored. Also returns what is left of `aa` after
   * the shifts.
   */
  method MirrorAccessAddress(aa: u32) returns (head: seq<u8>, rest: u32)
    ensures |head| == 4
    ensures forall i :: 0 <= i < 4 ==> AirBits(head[i]) == BitsOf(ByteAt(aa, i), 8)
    ensures rest == 0
  {
    var a: nat := aa;
    head := [];
    var i := 0;
    while i < 4
      invariant 0 <= i <= 4 && |head| == i
      invariant a == Shr(aa, 8 * i)
      invariant forall k :: 0 <= k < i ==> head[k] == RevBits(ByteAt(aa, k), 8)
    {
      AccessAddressByteStep(aa, i, a);
      var byte := a % 0x100;
      a := a / 0x100;
      var t := MirrorByte(byte);
      head := head + [t];
      i := i + 1;
    }
    ShiftedOut(aa);
    rest := a;
    forall k | 0 <= k < 4
      ensures AirBits(head[k]) == BitsOf(ByteAt(aa, k), 8)
    {
      AirBitsOfRevBits(ByteAt(aa, k));
    }
  }

  /** One `byte = aa & 0xff; aa >>= 8` step: the byte is the next one of the original `aa`. */
  lemma AccessAddressByteStep(aa: u32, i: nat, a: nat)
    requires a == Shr(aa, 8 * i)
    ensures a % 0x100 == ByteAt(aa, i) && a / 0x100 == Shr(aa, 8 * (i + 1))
  {
    ShrAdd(aa, 8 * i, 8);
    ShrDiv(a, 8);
    Pow2Byte();
  }

  /** Four shifts by eight leave nothing of a 32-bit value. */
  lemma ShiftedOut(aa: u32)
    ensures Shr(aa, 32) == 0
  {
    ShrDiv(aa, 32);
    Pow2Values();
  }

  /**
   * The data loop of `le_transmit`: `len` bytes of `data`, whitened from the channel's
   * whitening index `start` onwards and mirrored.
   */
  method WhitenData(len: u8, data: seq<u8>, table: seq<bool>, start: nat) returns (body: seq<u8>)
    requires len <= |data| && start < |table|
    ensures |body| == len
    ensures forall i :: 0 <= i < len ==> AirBits(body[i]) == WhitenedByte(data[i], table, start + 8 * i)
  {
    var idx := start;
    DivUnique(start, |table|, 0, start);
    body := [];
    var i := 0;
    while i < len
      invariant 0 <= i <= len && |body| == i
      invariant idx == (start + 8 * i) % |table|
      invariant forall k :: 0 <= k < i ==> body[k] == ValueOf(Reversed(WhitenedByte(data[k], table, start + 8 * k)))
    {
      var t;
      t, idx := WhitenByte(data[i], table, idx, start + 8 * i);
      body := body + [t];
      i := i + 1;
    }
    forall k | 0 <= k < len
      ensures AirBits(body[k]) == WhitenedByte(data[k], table, start + 8 * k)
    {
      AirBitsOfReversed(WhitenedByte(data[k], table, start + 8 * k));
    }
  }

  /**
   * The two loops of `le_transmit` that fill `txbuf`: the mirrored access address,
   * then the whitened data; `len + 4` bytes in all.
   */
  method BuildTxBuffer(aa: u32, len: u8, data: seq<u8>, table: seq<bool>, start: nat)
      returns (txbuf: seq<u8>, rest: u32)
    requires 4 + len <= TXBUF_SIZE && len <= |data| && start < |table|
    ensures |txbuf| == 4 + len
    ensures forall i :: 0 <= i < 4 ==> AirBits(txbuf[i]) == BitsOf(ByteAt(aa, i), 8)
    ensures forall i :: 0 <= i < len ==> AirBits(txbuf[4 + i]) == WhitenedByte(data[i], table, start + 8 * i)
    ensures rest == 0
  {
    var head;
    head, rest := MirrorAccessAddress(aa);
    var body := WhitenData(len, data, table, start);
    txbuf := head + body;
  }

  /** The SYNCH value `le_transmit` picks from a bit: 0xaaaa when it is set, 0x5555 otherwise. */
  function SyncWord(firstBitSet: bool): (s: u16)
  {
    if firstBitSet then 0xaaaa else 0x5555
  }

  /**
   * `le_transmit` as written: the sync word is chosen from `aa & 1` after the access
   * address loop has shifted `aa` right 32 times, so it is always 0x5555.
   */
  method LeTransmitAsWritten(aa: u32, len: u8, data: seq<u8>, table: seq<bool>, start: nat)
      returns (txbuf: seq<u8>, synch: u16)
    requires 4 + len <= TXBUF_SIZE && len <= |data| && start < |table|
    ensures |txbuf| == 4 + len
    ensures forall i :: 0 <= i < 4 ==> AirBits(txbuf[i]) == BitsOf(ByteAt(aa, i), 8)
    ensures forall i :: 0 <= i < len ==> AirBits(txbuf[4 + i]) == WhitenedByte(data[i], table, start + 8 * i)
    ensures synch == 0x5555
  {
    var rest;
    txbuf, rest := BuildTxBuffer(aa, len, data, table, start);
    synch := SyncWord(rest % 2 == 1);
  }

  /** The sync word chosen from the first access-address bit, as the comment beside it intends. */
  function PreambleSync(aa: u32): (s: u16)
  {
    SyncWord(aa % 2 == 1)
  }

  /**
   * The radio sends the high byte of SYNCH, most significant bit first, right before
   * the access address. With the intended choice those eight bits alternate and the
   * last of them differs from the first access-address bit b (bit 0), so the
   * alternation runs on into the access address, as a BTLE preamble must.
   */
  lemma PreambleSyncAlternates(aa: u32)
    ensures var b := BitAt(aa, 0);
      AirBits(PreambleSync(aa) / 0x100) == [b, !b, b, !b, b, !b, b, !b]
  {
    assert BitAt(aa, 0) == (aa % 2 == 1);
    if aa % 2 == 1 {
      assert PreambleSync(aa) == 0xaaaa;
      AirBitsOfAa();
    } else {
      assert PreambleSync(aa) == 0x5555;
      AirBits55();
    }
  }

  /** The on-air bits of the high byte of 0xaaaa. */
  lemma AirBitsOfAa()
    ensures 0xaaaa / 0x100 == 0xaa && AirBits(0xaa) == [true, false, true, false, true, false, true, false]
  {
    var bits := BitsOf(0xaa, 8);
    assert bits == [false, true, false, true, false, true, false, true];
    ReversedByte(bits);
  }

  /** The on-air bits of the high byte of 0x5555. */
  lemma AirBits55()
    ensures 0x5555 / 0x100 == 0x55 && AirBits(0x55) == [false, true, false, true, false, true, false, true]
  {
    var bits := BitsOf(0x55, 8);
    assert bits == [true, false, true, false, true, false, true, false];
    ReversedByte(bits);
  }

  lemma ReversedByte(bits: seq<bool>)
    requires |bits| == 8
    ensures Reversed(bits) == [bits[7], bits[6], bits[5], bits[4], bits[3], bits[2], bits[1], bits[0]]
  {
  }

  /**
   * For every access address whose first transmitted bit (bit 0) is set, the
   * as-written choice (made from `aa` shifted right 32 times) is 0x5555, which ends
   * with the very bit the access address starts with: the alternation into the
   * access address breaks.
   */
  lemma AsWrittenSyncRepeatsBit(aa: u32)
    requires aa % 2 == 1
    ensures var rest := Shr(aa, 32);
      SyncWord(rest % 2 == 1) == 0x5555 && AirBits(SyncWord(rest % 2 == 1) / 0x100)[7] == BitAt(aa, 0)
  {
    ShrDiv(aa, 32);
    Pow2Values();
    AirBits55();
  }

  /**
   * `le_transmit` with the sync word chosen from the access address before it is
   * shifted away.
   */
  method LeTransmit(aa: u32, len: u8, data: seq<u8>, table: seq<bool>, start: nat)
      returns (txbuf: seq<u8>, synch: u16)
    requires 4 + len <= TXBUF_SIZE && len <= |data| && start < |table|
    ensures |txbuf| == 4 + len
    ensures forall i :: 0 <= i < 4 ==> AirBits(txbuf[i]) == BitsOf(ByteAt(aa, i), 8)
    ensures forall i :: 0 <= i < len ==> AirBits(txbuf[4 + i]) == WhitenedByte(data[i], table, start + 8 * i)
    ensures synch == PreambleSync(aa)
  {
    var rest;
    txbuf, rest := BuildTxBuffer(aa, len, data, table, start);
    synch := PreambleSync(aa);
  }
}
