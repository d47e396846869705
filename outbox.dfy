/**
 * The packets the firmware hands to the USB side: `enqueue` stamps a buffer with its
 * type, the clock and channel it was received at and the accumulated `status` flags,
 * and puts it in a bounded queue (`usb_enqueue`), which may be full.
 * `le_promisc_state` wraps a progress report of promiscuous discovery in such a packet.
 */
module Outbox {
  import opened Types
  import opened Bits

  /** The `pkt_type` values the modelled code enqueues. */
  datatype PacketType = LePacket | LePromisc | Specan

  /**
   * The `status` flags. Their values come from a header that is not part of this
   * model; only FIFO_OVERFLOW is raised by the modelled code.
   */
  const DMA_OVERFLOW: bv8 := 0x01
  const DMA_ERROR: bv8 := 0x02
  const FIFO_OVERFLOW: bv8 := 0x04
  const CS_TRIGGER: bv8 := 0x08
  const RSSI_TRIGGER: bv8 := 0x10

  /** A `usb_pkt_rx` without its RSSI fields. */
  datatype UsbPacket = UsbPacket(
    pktType: PacketType,
    status: bv8,
    clknHigh: u8,
    clk100ns: u32,
    channel: u8,
    data: seq<u8>)

  /**
   * When and where the buffer being handed over was received: `idle_buf_clkn_high`,
   * `idle_buf_clk100ns`, and `idle_buf_channel` as an offset from 2402 MHz.
   */
  datatype Stamp = Stamp(clknHigh: u8, clk100ns: u32, channel: u8)

  /** A received buffer, stamped, before `enqueue` adds the status flags. */
  function Received(pktType: PacketType, stamp: Stamp, data: seq<u8>): (p: UsbPacket)
  {
    UsbPacket(pktType, 0, stamp.clknHigh, stamp.clk100ns, stamp.channel, data)
  }

  /** The USB queue, its capacity, and the flags raised since the last queued packet. */
  datatype Outbox = Outbox(queue: seq<UsbPacket>, capacity: nat, status: bv8)

  predicate Full(o: Outbox)
  {
    |o.queue| >= o.capacity
  }

  /**
   * `enqueue` after the packet is stamped: a full queue drops it and raises
   * FIFO_OVERFLOW; otherwise the packet goes in carrying every flag raised so far,
   * and the flags are cleared.
   */
  function Offer(o: Outbox, p: UsbPacket): (r: Outbox)
    ensures r.capacity == o.capacity
  {
    if Full(o) then o.(status := o.status | FIFO_OVERFLOW)
    else o.(queue := o.queue + [p.(status := o.status)], status := 0)
  }

  /** The host taking the oldest packet out (`usb_dequeue`). */
  function Take(o: Outbox): (r: Outbox)
    requires |o.queue| > 0
    ensures |r.queue| == |o.queue| - 1 && r.capacity == o.capacity
  {
    o.(queue := o.queue[1..])
  }

  /**
   * A refused packet leaves the queue as it was and keeps every earlier flag; an
   * accepted one is appended, and it carries exactly the flags raised before it.
   */
  lemma OfferOutcome(o: Outbox, p: UsbPacket)
    ensures Full(o) ==> Offer(o, p).queue == o.queue
    ensures Full(o) ==> Offer(o, p).status & FIFO_OVERFLOW == FIFO_OVERFLOW
    ensures Full(o) ==> Offer(o, p).status & o.status == o.status
    ensures !Full(o) ==> Offer(o, p).queue == o.queue + [p.(status := o.status)]
    ensures !Full(o) ==> Offer(o, p).status == 0
  {
  }

  /**
   * A packet dropped on a full queue is reported: once the host has taken a packet
   * out, the next packet queued carries FIFO_OVERFLOW, and the flags raised before
   * the drop as well.
   */
  lemma DropIsReported(o: Outbox, dropped: UsbPacket, next: UsbPacket)
    requires Full(o) && |o.queue| > 0 && |o.queue| <= o.capacity
    ensures var r := Offer(Take(Offer(o, dropped)), next);
      |r.queue| == |o.queue| && r.queue[|r.queue| - 1].data == next.data &&
      r.queue[|r.queue| - 1].status & (o.status | FIFO_OVERFLOW) == o.status | FIFO_OVERFLOW
  {
    var o1 := Offer(o, dropped);
    assert o1.queue == o.queue;
    var o2 := Take(o1);
    assert !Full(o2);
    assert (o.status | FIFO_OVERFLOW) & (o.status | FIFO_OVERFLOW) == o.status | FIFO_OVERFLOW;
  }

  /** Bytes of the `data` field of a packet (`DMA_SIZE`). */
  const PACKET_DATA: int := 50

  /** Bytes after the kind byte of a promiscuous-mode report. */
  const REPORT_PAYLOAD: int := 49

  /**
   * The 50-byte buffer `le_promisc_state` enqueues: the report kind, then the first
   * (at most 49) bytes of the reported field, then zeros.
   */
  function PromiscReport(kind: u8, field: seq<u8>): (buf: seq<u8>)
    ensures |buf| == PACKET_DATA && buf[0] == kind
    ensures var m := if |field| > REPORT_PAYLOAD then REPORT_PAYLOAD else |field|;
      buf[1..1 + m] == field[..m] && forall k :: 1 + m <= k < PACKET_DATA ==> buf[k] == 0
  {
    var m := if |field| > REPORT_PAYLOAD then REPORT_PAYLOAD else |field|;
    [kind] + field[..m] + seq(REPORT_PAYLOAD - m, _ => 0)
  }

  /**
   * A report of an n-byte field, read by the host little-endian from byte 1 on, gives
   * the field's value back.
   */
  lemma PromiscReportCarries(kind: u8, x: nat, n: nat)
    requires 1 <= n <= 4 && x < Pow2(8 * n)
    ensures PromiscReport(kind, LeBytes(x, n))[0] == kind
    ensures LeValue(PromiscReport(kind, LeBytes(x, n))[1..1 + n]) == x
  {
    var buf := PromiscReport(kind, LeBytes(x, n));
    assert buf[1..1 + n] == LeBytes(x, n)[..n];
    assert LeBytes(x, n)[..n] == LeBytes(x, n);
    LeValueLeBytes(x, n);
  }
}
