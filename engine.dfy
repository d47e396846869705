/**
 * The BTLE tracking and discovery state of the firmware as one object: the globals
 * `le`, `le_promisc`, `channel`, `hop_mode`, `do_hop`, `hop_direct_channel`,
 * `status` and the USB queue, with the clock, AFH and mode globals they depend on,
 * and the `static` locals of the handlers. Each method is one handler or request and
 * changes only the fields it names.
 */
module Rxtx {
  import opened Types
  import opened Bits
  import opened Whitening
  import opened Capture
  import opened HopWalk
  import opened LinkLayer
  import opened AaCache
  import opened Outbox
  import opened Discovery
  import opened Host
  import opened Recovery

  /** `clk100ns_offset` above which TIMER0 adds two extra ticks. */
  const TRIM_THRESHOLD: int := 3124

  /** `(clkn - le.conn_epoch) & 0x03`: where clkn falls in the 1.25 ms connection clock. */
  function LeClk(clkn: u32, epoch: u32): (k: int)
    ensures 0 <= k < 4
  {
    ((clkn - epoch) % TWO_32) % 4
  }

  /**
   * Whether the TIMER0 tick that brought the clock to clkn makes a hop due: every 128
   * ticks without hopping or in the sweep, every other tick for classic Bluetooth, at
   * the end of the connection interval for BTLE, and hop_timeout ticks after the last
   * hop for AFH detection.
   */
  predicate TickHops(mode: HopMode, le: LeState, clkn: u32, lastHop: u32, hopTimeout: u16)
  {
    match mode
    case HopNone => clkn % 128 == 0
    case HopSweep => clkn % 128 == 0
    case HopBluetooth => clkn % 2 == 0
    case HopBtle => le.linkState == LinkConnected && LeClk(clkn, le.connEpoch) == 0 && HopDue(le)
    case HopAfh => (lastHop + hopTimeout) % TWO_32 == clkn
    case HopDirect => false
  }

  /** The tick's effect on `le`: only a connected BTLE link at a connection-clock boundary counts down. */
  function TickLe(mode: HopMode, le: LeState, clkn: u32): (r: LeState)
  {
    if mode == HopBtle && le.linkState == LinkConnected && LeClk(clkn, le.connEpoch) == 0 then CountDown(le) else le
  }

  /**
   * A BTLE tick does nothing unless the link is connected and the tick is at a
   * connection-clock boundary; then it hops exactly when the interval timer was at 1,
   * and a hop counts a connection event and reloads the timer with the interval.
   */
  lemma BtleTick(le: LeState, clkn: u32, lastHop: u32, hopTimeout: u16)
    ensures !(le.linkState == LinkConnected && LeClk(clkn, le.connEpoch) == 0) ==>
      TickLe(HopBtle, le, clkn) == le && !TickHops(HopBtle, le, clkn, lastHop, hopTimeout)
    ensures le.linkState == LinkConnected && LeClk(clkn, le.connEpoch) == 0 ==>
      && (TickHops(HopBtle, le, clkn, lastHop, hopTimeout) <==> le.intervalTimer == 1)
      && (le.intervalTimer == 1 ==>
            TickLe(HopBtle, le, clkn) == le.(intervalTimer := le.connInterval, connCount := (le.connCount + 1) % TWO_16))
      && (le.intervalTimer != 1 ==>
            TickLe(HopBtle, le, clkn) == le.(intervalTimer := (le.intervalTimer - 1) % TWO_16))
  {
    var t: int := le.intervalTimer;
    if t == 0 {
      DivUnique(t - 1, TWO_16, -1, TWO_16 - 1);
    } else {
      DivUnique(t - 1, TWO_16, 0, t - 1);
    }
  }

  class Engine {
    /** The followed link. */
    var le: LeState
    /** `le_promisc`. */
    const promisc: PromiscState
    /** Radio channel in MHz. */
    var channel: u16
    var hopMode: HopMode
    /** A hop is due. */
    var doHop: bool
    /** Where a HOP_DIRECT hop goes. */
    var hopDirectChannel: u16
    /** The USB queue and the `status` flags. */
    var out: Outbox
    /** The native Bluetooth clock, in 312.5 us ticks, and its pending adjustments. */
    var clkn: u32
    var clknOffset: u32
    var clk100nsOffset: u16
    /** `clkn` at the last hop, and the AFH hop period. */
    var lastHop: u32
    var hopTimeout: u16
    /** AFH channel map and its use. */
    var usedChannels: u8
    var afhEnabled: bool
    var afhMap: seq<u8>
    var requestedChannel: u16
    var savedRequest: u16
    var mode: Mode
    var requestedMode: Mode
    var jamMode: JamMode
    var leJamCount: int
    /** The active stage: what `packet_cb` and `data_cb` point to. */
    var packetCb: PacketHandler
    var dataCb: DataHandler
    /** `static` locals: the first probe's time, the previous packet's time, and a pending jam restart. */
    var firstTs: u32
    var prevClk: u32
    var restartJamming: bool
    /** The spectrum analyser's range. */
    var lowFreq: u16
    var highFreq: u16
    /** When and where the buffer being handed over was received, and the buffer itself. */
    var idleBufClknHigh: u8
    var idleBufClk100ns: u32
    var idleBufChannel: u16
    var idleRxbuf: seq<u8>

    /**
     * What every handler keeps: the address cache's shape (`AaCache.CacheInv`), the
     * ten-byte AFH map and the DMA_SIZE-byte buffer handed to `enqueue`.
     */
    ghost predicate Valid()
      reads this`afhMap, this`idleRxbuf, promisc.activeAa
    {
      promisc.Valid() && |afhMap| == AFH_MAP_LEN && |idleRxbuf| == PACKET_DATA
    }

    /** The statically initialised globals, with a USB queue of the given capacity. */
    constructor (capacity: nat)
      ensures Valid() && fresh(promisc) && fresh(promisc.activeAa)
      ensures le == InitialLe() && channel == 2441 && hopMode == HopNone && !doHop && hopDirectChannel == 0
      ensures out == Outbox([], capacity, 0)
      ensures clkn == 0 && clknOffset == 0 && clk100nsOffset == 0 && lastHop == 0 && hopTimeout == 158
      ensures usedChannels == 0 && !afhEnabled && afhMap == [0, 0, 0, 0, 0, 0, 0, 0, 0, 0]
      ensures requestedChannel == 0 && savedRequest == 0 && mode == ModeIdle && requestedMode == ModeIdle
      ensures jamMode == JamNone && leJamCount == 0 && packetCb == NoPacketHandler && dataCb == NoDataHandler
      ensures firstTs == 0 && prevClk == 0 && !restartJamming && lowFreq == 2400 && highFreq == 2483
      ensures idleBufClknHigh == 0 && idleBufClk100ns == 0 && idleBufChannel == 0 && idleRxbuf == seq(PACKET_DATA, _ => 0)
      ensures forall i :: 0 <= i < AA_LIST_SIZE ==> promisc.activeAa[i] == ActiveAa(0, 0)
    {
      le := InitialLe();
      promisc := new PromiscState();
      channel := 2441;
      hopMode := HopNone;
      doHop := false;
      hopDirectChannel := 0;
      out := Outbox([], capacity, 0);
      clkn := 0;
      clknOffset := 0;
      clk100nsOffset := 0;
      lastHop := 0;
      hopTimeout := 158;
      usedChannels := 0;
      afhEnabled := false;
      afhMap := [0, 0, 0, 0, 0, 0, 0, 0, 0, 0];
      requestedChannel := 0;
      savedRequest := 0;
      mode := ModeIdle;
      requestedMode := ModeIdle;
      jamMode := JamNone;
      leJamCount := 0;
      packetCb := NoPacketHandler;
      dataCb := NoDataHandler;
      firstTs := 0;
      prevClk := 0;
      restartJamming := false;
      lowFreq := 2400;
      highFreq := 2483;
      idleBufClknHigh := 0;
      idleBufClk100ns := 0;
      idleBufChannel := 0;
      idleRxbuf := seq(PACKET_DATA, _ => 0);
    }

    /** The time and channel `enqueue` stamps a received buffer with: the channel as `(idle_buf_channel - 2402) & 0xff`. */
    function IdleStamp(): (s: Stamp)
      reads this`idleBufClknHigh, this`idleBufClk100ns, this`idleBufChannel
    {
      Stamp(idleBufClknHigh, idleBufClk100ns, (idleBufChannel - BAND_LOW) % 0x100)
    }

    /**
     * The packet `enqueue` builds before adding the flags: SPECAN packets carry the
     * high bits of `clkn` and the current time, the others the stamp of the buffer.
     */
    function Stamped(pktType: PacketType, buf: seq<u8>, now: u32): (p: UsbPacket)
      requires |buf| == PACKET_DATA
      reads this`clkn, this`idleBufClknHigh, this`idleBufClk100ns, this`idleBufChannel
    {
      if pktType == Specan then UsbPacket(Specan, 0, Shr(clkn, 20) % 0x100, now, 0, buf)
      else Received(pktType, IdleStamp(), buf)
    }

    /**
     * `enqueue`: on a full queue only FIFO_OVERFLOW is raised; otherwise the
     * DMA_SIZE-byte buffer goes out stamped, with the flags raised so far, which are
     * then cleared.
     */
    method Enqueue(pktType: PacketType, buf: seq<u8>, now: u32) returns (queued: bool)
      requires |buf| == PACKET_DATA
      modifies this`out
      ensures old(Valid()) ==> Valid()
      ensures queued == !Full(old(out))
      ensures out == Offer(old(out), Stamped(pktType, buf, now))
    {
      if |out.queue| >= out.capacity {
        out := out.(status := out.status | FIFO_OVERFLOW);
        return false;
      }
      var f: UsbPacket;
      if pktType == Specan {
        f := UsbPacket(Specan, 0, Shr(clkn, 20) % 0x100, now, 0, buf);
      } else {
        f := UsbPacket(pktType, 0, idleBufClknHigh, idleBufClk100ns, (idleBufChannel - BAND_LOW) % 0x100, buf);
      }
      f := f.(status := out.status);
      out := out.(queue := out.queue + [f], status := 0);
      queued := true;
    }

    /** `le_promisc_state`: report a discovery step, kind first, then the field's bytes. */
    method LePromiscState(kind: u8, field: seq<u8>, now: u32)
      modifies this`out
      ensures old(Valid()) ==> Valid()
      ensures out == Offer(old(out), Received(LePromisc, IdleStamp(), PromiscReport(kind, field)))
    {
      var buf := PromiscReport(kind, field);
      var queued := Enqueue(LePromisc, buf, now);
    }

    /** `le_set_access_address`: the address, and its bit reversal split into the sync registers. */
    method SetAccessAddress(aa: u32)
      modifies this`le
      ensures old(Valid()) ==> Valid()
      ensures le == WithAccessAddress(old(le), aa)
    {
      var aaRev := Rbit(aa);
      le := le.(accessAddress := aa, syncl := aaRev % 0x1_0000, synch := aaRev / 0x1_0000);
    }

    /**
     * `TIMER0_IRQHandler`: advance the clock by one tick plus any pending offset, raise
     * `do_hop` when the mode's cadence says so, and add two ticks when the 100 ns
     * trim offset is above 3124.
     */
    method Tick()
      modifies this`clkn, this`clknOffset, this`clk100nsOffset, this`doHop, this`le
      ensures old(Valid()) ==> Valid()
      ensures var c := (old(clkn) + old(clknOffset) + 1) % TWO_32;
        && doHop == (old(doHop) || TickHops(hopMode, old(le), c, lastHop, hopTimeout))
        && le == TickLe(hopMode, old(le), c)
        && clkn == (if old(clk100nsOffset) > TRIM_THRESHOLD then (c + 2) % TWO_32 else c)
        && clknOffset == 0 && clk100nsOffset == 0
    {
      var c := (clkn + clknOffset + 1) % TWO_32;
      var leClk := LeClk(c, le.connEpoch);
      match hopMode {
        case HopNone =>
          if c % 128 == 0 {
            doHop := true;
          }
        case HopSweep =>
          if c % 128 == 0 {
            doHop := true;
          }
        case HopBluetooth =>
          if c % 2 == 0 {
            doHop := true;
          }
        case HopBtle =>
          if le.linkState == LinkConnected && leClk == 0 {
            if HopDue(le) {
              doHop := true;
            }
            le := CountDown(le);
          }
        case HopAfh =>
          if (lastHop + hopTimeout) % TWO_32 == c {
            doHop := true;
          }
        case HopDirect =>
      }
      if clk100nsOffset > TRIM_THRESHOLD {
        c := (c + 2) % TWO_32;
      }
      clkn := c;
      clknOffset := 0;
      clk100nsOffset := 0;
    }

    /**
     * The channel choice of `hop`: clear `do_hop`, note the time, then stay (NONE),
     * walk the band (SWEEP, AFH), ask the classic or BTLE hop sequence, or jump to the
     * direct channel. A walk that filters channels needs a start in the band and some
     * channel that ends it; `steps` counts the walk's steps. `btle_next_hop` is external: it is given
     * as the channel index it moves `le` to and the channel it answers.
     */
    method Hop(nextHop: u32 -> u16, btleNextHop: LeState -> (u8, u16)) returns (ghost steps: nat)
      requires |afhMap| == AFH_MAP_LEN
      requires (hopMode == HopSweep || hopMode == HopAfh) && WalkFiltered(hopMode, usedChannels, afhEnabled) ==>
        InBand(channel) && exists t :: InBand(t) && !KeepWalking(hopMode, usedChannels, afhEnabled, afhMap, t)
      modifies this`doHop, this`lastHop, this`channel, this`le
      ensures old(Valid()) ==> Valid()
      ensures !doHop && lastHop == clkn
      ensures hopMode == HopSweep || hopMode == HopAfh ==>
        && (!WalkFiltered(hopMode, usedChannels, afhEnabled) ==> steps == 1 && channel == Step(old(channel)))
        && (WalkFiltered(hopMode, usedChannels, afhEnabled) ==> InBand(channel))
        && !KeepWalking(hopMode, usedChannels, afhEnabled, afhMap, channel)
        && 1 <= steps <= BAND_CHANNELS && channel == Walk(old(channel), steps)
        && forall k :: 1 <= k < steps ==> KeepWalking(hopMode, usedChannels, afhEnabled, afhMap, Walk(old(channel), k))
      ensures hopMode == HopNone ==> channel == old(channel)
      ensures hopMode == HopBluetooth ==> channel == nextHop(clkn)
      ensures hopMode == HopBtle ==> le == old(le).(channelIdx := btleNextHop(old(le)).0) && channel == btleNextHop(old(le)).1
      ensures hopMode == HopDirect ==> channel == hopDirectChannel
      ensures hopMode != HopBtle ==> le == old(le)
    {
      doHop := false;
      lastHop := clkn;
      steps := 0;
      if hopMode == HopSweep || hopMode == HopAfh {
        channel, steps := NextChannel(hopMode, channel, usedChannels, afhEnabled, afhMap);
      } else if hopMode == HopBluetooth {
        channel := nextHop(clkn);
      } else if hopMode == HopBtle {
        var next := btleNextHop(le);
        le := le.(channelIdx := next.0);
        channel := next.1;
      } else if hopMode == HopDirect {
        channel := hopDirectChannel;
      }
    }

    /**
     * `connection_follow_cb`: a packet in the pending state completes the connection
     * (and arms the jammer when one is configured); in the connected state a due
     * parameter update is applied and an LL_CONNECTION_UPDATE_REQ recorded; while
     * listening, a CONNECT_REQ that passes the target filter is taken up and the radio
     * hops to the connection's first channel at once.
     */
    method ConnectionFollowCb(packet: seq<u8>)
      requires |packet| == PACKET_BYTES
      modifies this`le, this`leJamCount, this`doHop
      ensures old(Valid()) ==> Valid()
      ensures le == FollowConnection(old(le), packet, clkn)
      ensures doHop == (old(doHop) ||
        (old(le).linkState == LinkListening && IsConnectReq(packet) && TargetAccepts(old(le), packet)))
      ensures leJamCount ==
        if old(le).linkState == LinkConnPending && jamMode != JamNone then JAM_COUNT_DEFAULT else old(leJamCount)
    {
      if le.linkState == LinkConnPending {
        le := EnterConnected(le, clkn);
        if jamMode != JamNone {
          leJamCount := JAM_COUNT_DEFAULT;
        }
      } else if le.linkState == LinkConnected {
        FollowConnected(packet);
      } else if le.linkState == LinkListening {
        FollowListening(packet);
      }
    }

    /** The listening branch of `connection_follow_cb`: only a CONNECT_REQ for the target is taken up. */
    method FollowListening(packet: seq<u8>)
      requires |packet| == PACKET_BYTES && le.linkState == LinkListening
      modifies this`le, this`doHop
      ensures old(Valid()) ==> Valid()
      ensures le == FollowConnection(old(le), packet, clkn)
      ensures doHop == (old(doHop) || (IsConnectReq(packet) && TargetAccepts(old(le), packet)))
    {
      if IsConnectReq(packet) {
        if !TargetAccepts(le, packet) {
          return;
        }
        TakeConnectReq(packet);
        doHop := true;
      }
    }

    /** The connected branch of `connection_follow_cb`. */
    method FollowConnected(packet: seq<u8>)
      requires |packet| == PACKET_BYTES
      modifies this`le
      ensures old(Valid()) ==> Valid()
      ensures le == var applied := ApplyPendingUpdate(old(le), clkn);
        if IsUpdateReq(packet) then RecordUpdateReq(applied, packet) else applied
    {
      le := ApplyPendingUpdate(le, clkn);
      if IsUpdateReq(packet) {
        le := RecordUpdateReq(le, packet);
      }
    }

    /** The CONNECT_REQ branch of `connection_follow_cb`, once the target filter has passed. */
    method TakeConnectReq(packet: seq<u8>)
      requires |packet| == PACKET_BYTES
      modifies this`le
      ensures old(Valid()) ==> Valid()
      ensures le == AcceptConnectReq(old(le), packet)
    {
      ghost var before := le;
      le := le.(linkState := LinkConnPending, crcVerify := false);
      var aa := UnpackLe(packet[LL_AA..LL_AA + 4]);
      Pow2Values();
      SetAccessAddress(aa);
      LeValueShort(packet[CRC_INIT..CRC_INIT + 3]);
      var crcInit := packet[CRC_INIT + 2] as int * 0x1_0000 + packet[CRC_INIT + 1] as int * 0x100 + packet[CRC_INIT] as int;
      le := le.(crcInit := crcInit, crcInitReversed := Rbit(crcInit));
      le := le.(winSize := packet[WIN_SIZE], winOffset := packet[WIN_OFFSET], connInterval := packet[CONN_INTERVAL]);
      le := le.(channelIncrement := packet[CHANNEL_INC] % 32);
      le := le.(channelIdx := le.channelIncrement);
      assert le == AcceptConnectReq(before, packet);
    }

    /**
     * The teardown at the end of each `bt_le_sync` round: when a connection went
     * silent for more than 5 s (`now` read across the clock's rollover) or a jam
     * session reached its last count, reset the link and stop jamming. A one-shot jam
     * then also asks for the idle mode and leaves `bt_le_sync`. A link followed from
     * promiscuous mode leaves `bt_le_sync` too. The loop of `bt_promisc_le`
     * (2170-2192) then starts discovery again when no target is set; with a target set
     * it re-enters `bt_le_sync` on the advertising address the reset put in place.
     * Otherwise the link listens again on the saved channel (2402 by default) and
     * jamming may restart. `leave` says `bt_le_sync` returns.
     */
    method LeSyncTimeout(now: u32, activeMode: Mode) returns (leave: bool)
      modifies this`le, this`doHop, this`leJamCount, this`jamMode, this`requestedMode, this`channel,
        this`restartJamming
      ensures old(Valid()) ==> Valid()
      ensures !TimedOut(old(le), now, old(leJamCount)) ==>
        && !leave && le == old(le) && doHop == old(doHop) && leJamCount == old(leJamCount)
        && jamMode == old(jamMode) && requestedMode == old(requestedMode) && channel == old(channel)
        && restartJamming == old(restartJamming)
      ensures TimedOut(old(le), now, old(leJamCount)) ==>
        && leJamCount == 0 && !doHop
        && (leave <==> old(jamMode) == JamOnce || activeMode == ModeBtPromiscLe)
        && (jamMode == JamNone <==> old(jamMode) == JamOnce || old(jamMode) == JamNone)
        && (old(jamMode) != JamOnce ==> jamMode == old(jamMode))
        && requestedMode == (if old(jamMode) == JamOnce then ModeIdle else old(requestedMode))
        && (leave ==> le == LinkLayer.ResetLe(old(le)) && channel == old(channel) && restartJamming == old(restartJamming))
        && (!leave ==>
              && le == LinkLayer.ResetLe(old(le)).(linkState := LinkListening) && restartJamming
              && channel == if savedRequest != 0 then savedRequest else BAND_LOW)
    {
      leave := false;
      var over := SessionOver(now);
      if over {
        ResetLe();
        leJamCount := 0;
        if jamMode == JamOnce {
          jamMode := JamNone;
          requestedMode := ModeIdle;
          return true;
        }
        if activeMode == ModeBtPromiscLe {
          return true;
        }
        le := le.(linkState := LinkListening);
        channel := if savedRequest != 0 then savedRequest else BAND_LOW;
        restartJamming := true;
      }
    }

    /** The teardown test of `bt_le_sync`: the link timed out or the jam session is on its last count. */
    method SessionOver(now: u32) returns (over: bool)
      ensures over == TimedOut(le, now, leJamCount)
    {
      var current := now;
      if current < le.lastPacket {
        current := (current + CLK100NS_PERIOD) % TWO_32;
      }
      over := ((le.linkState == LinkConnected || le.linkState == LinkConnPending)
          && (current - le.lastPacket) % TWO_32 > LINK_TIMEOUT)
        || leJamCount == 1;
    }

    /**
     * The end of a `bt_le_sync` round: while a jam session lasts, jam once more and
     * count it; otherwise the radio goes back to receiving, resynchronising on the
     * access address when jamming was asked to restart. `jam` says the round jams,
     * `resync` that the receiver is re-armed on the sync word.
     */
    method RearmRadio() returns (jam: bool, resync: bool)
      modifies this`leJamCount, this`restartJamming
      ensures old(Valid()) ==> Valid()
      ensures jam <==> old(leJamCount) > 0
      ensures jam ==> leJamCount == old(leJamCount) - 1 && !resync && restartJamming == old(restartJamming)
      ensures !jam ==> leJamCount == old(leJamCount) && resync == old(restartJamming) && !restartJamming
    {
      jam, resync := false, false;
      if leJamCount > 0 {
        jam := true;
        leJamCount := leJamCount - 1;
      } else {
        if restartJamming {
          resync := true;
          restartJamming := false;
        }
      }
    }

    /**
     * `promisc_follow_cb`: the first empty data PDU received while the CRC is not
     * checked gives the CRC initial value, computed backwards from its CRC by the
     * external `btle_reverse_crc`; it is stored with its 24-bit mirror image, CRC
     * checking is switched on, the hop interval is recovered next, and the value is
     * reported to the host.
     */
    method PromiscFollowCb(packet: seq<u8>, reverseCrc: (u32, seq<u8>) -> u32, now: u32)
      requires |packet| == PACKET_BYTES
      modifies this`le, this`packetCb, this`out
      ensures old(Valid()) ==> Valid()
      ensures CrcRecoverable(old(le), packet) ==>
        var crcInit := reverseCrc(ReceivedCrc(packet), packet[4..6]);
        && le == WithCrcInit(old(le), crcInit)
        && packetCb == RecoverHopInterval
        && out == Offer(old(out), Received(LePromisc, IdleStamp(), PromiscReport(1, LeBytes(crcInit, 3))))
      ensures !CrcRecoverable(old(le), packet) ==> le == old(le) && packetCb == old(packetCb) && out == old(out)
    {
      if !le.crcVerify && packet[4] == 0x01 && packet[5] == 0x00 {
        LeValueShort(packet[6..9]);
        var crc: u32 := packet[8] as int * 0x1_0000 + packet[7] as int * 0x100 + packet[6] as int;
        le := le.(crcInit := reverseCrc(crc, packet[4..6]));
        var reversed := ReverseLowBits(le.crcInit, 24);
        Pow2Values();
        le := le.(crcInitReversed := reversed);
        le := le.(crcVerify := true);
        packetCb := RecoverHopInterval;
        LePromiscState(1, LeBytes(le.crcInit, 3), now);
      }
    }

    /**
     * `promisc_recover_hop_interval`: measure the gap since the previous packet (the
     * clock unrolled by 3267800000 ticks), fold it into the search, and after the
     * fifth agreeing estimate move on to recovering the hop increment, probing 2404 MHz
     * first, and report the interval.
     */
    method PromiscRecoverHopInterval(now: u32)
      modifies this`le, this`prevClk, promisc`smallestHopInterval, promisc`consecIntervals,
        this`packetCb, this`hopDirectChannel, this`hopMode, this`doHop, this`out
      ensures old(Valid()) ==> Valid()
      ensures var gap := Elapsed(now, old(prevClk), RECOVER_ROLLOVER);
        var before := IntervalSearch(old(promisc.smallestHopInterval), old(le.connInterval), old(promisc.consecIntervals));
        && IntervalSearch(promisc.smallestHopInterval, le.connInterval, promisc.consecIntervals) == ObserveGap(gap, before)
        && le == old(le).(connInterval := le.connInterval)
        && prevClk == (if gap < MIN_GAP then old(prevClk) else Unrolled(now, old(prevClk), RECOVER_ROLLOVER))
        && (IntervalRecovered(gap, before) ==>
              && packetCb == RecoverHopIncrement && hopDirectChannel == PROBE_FIRST && hopMode == HopDirect && doHop
              && out == Offer(old(out), Received(LePromisc, IdleStamp(), PromiscReport(2, LeBytes(le.connInterval, 2)))))
        && (!IntervalRecovered(gap, before) ==>
              && packetCb == old(packetCb) && hopDirectChannel == old(hopDirectChannel) && hopMode == old(hopMode)
              && doHop == old(doHop) && out == old(out))
    {
      var cur := now;
      if cur < prevClk {
        cur := (cur + RECOVER_ROLLOVER) % TWO_32;
      }
      var gap := (cur - prevClk) % TWO_32;
      if gap < MIN_GAP {
        return;
      }
      FoldGap(gap, now);
      prevClk := cur;
    }

    /** The part of `promisc_recover_hop_interval` after a gap of at least MIN_GAP was measured. */
    method FoldGap(gap: u32, now: u32)
      requires gap >= MIN_GAP
      modifies this`le, promisc`smallestHopInterval, promisc`consecIntervals,
        this`packetCb, this`hopDirectChannel, this`hopMode, this`doHop, this`out
      ensures old(Valid()) ==> Valid()
      ensures var before := IntervalSearch(old(promisc.smallestHopInterval), old(le.connInterval), old(promisc.consecIntervals));
        && IntervalSearch(promisc.smallestHopInterval, le.connInterval, promisc.consecIntervals) == ObserveGap(gap, before)
        && le == old(le).(connInterval := le.connInterval)
        && (IntervalRecovered(gap, before) ==>
              && packetCb == RecoverHopIncrement && hopDirectChannel == PROBE_FIRST && hopMode == HopDirect && doHop
              && out == Offer(old(out), Received(LePromisc, IdleStamp(), PromiscReport(2, LeBytes(le.connInterval, 2)))))
        && (!IntervalRecovered(gap, before) ==>
              && packetCb == old(packetCb) && hopDirectChannel == old(hopDirectChannel) && hopMode == old(hopMode)
              && doHop == old(doHop) && out == old(out))
    {
      if gap < promisc.smallestHopInterval {
        promisc.smallestHopInterval := gap;
      }
      var estimate := DivideRound(promisc.smallestHopInterval, 37 * LE_BASECLK) % TWO_16;
      if le.connInterval == estimate {
        promisc.consecIntervals := promisc.consecIntervals + 1;
        if promisc.consecIntervals == AGREEING_ESTIMATES {
          packetCb := RecoverHopIncrement;
          hopDirectChannel := PROBE_FIRST;
          hopMode := HopDirect;
          doHop := true;
          LePromiscState(2, LeBytes(le.connInterval, 2), now);
        }
      } else {
        le := le.(connInterval := estimate);
        promisc.consecIntervals := 0;
      }
    }

    /**
     * `promisc_recover_hop_increment`: a packet on 2404 MHz starts the clock and
     * sends the radio to 2406 MHz; a packet there counts the channels hopped since,
     * and fewer than 37 give the hop increment from `hop_interval_lut`, after which the
     * connection is followed normally; on any other channel, or with 37 or more
     * channels counted, the probe starts again at 2404 MHz.
     */
    method PromiscRecoverHopIncrement(now: u32, lut: seq<u8>)
      requires |lut| == DATA_CHANNELS
      modifies this`le, this`firstTs, this`hopDirectChannel, this`doHop, this`hopMode, this`packetCb,
        this`out, this`leJamCount
      ensures old(Valid()) ==> Valid()
      ensures old(channel) == PROBE_FIRST ==>
        && firstTs == now && hopDirectChannel == PROBE_SECOND && doHop
        && le == old(le) && hopMode == old(hopMode) && packetCb == old(packetCb) && out == old(out)
        && leJamCount == old(leJamCount)
      ensures old(channel) == PROBE_SECOND && ProbeCommits(old(firstTs), now, old(le).connInterval) ==>
        && le == CommitIncrement(old(le), lut[ChannelsHopped(old(firstTs), now, old(le).connInterval)])
        && !doHop && hopMode == HopBtle && packetCb == ConnectionFollow
        && out == Offer(old(out), Received(LePromisc, IdleStamp(), PromiscReport(3, [le.channelIncrement])))
        && leJamCount == (if jamMode != JamNone then JAM_COUNT_DEFAULT else old(leJamCount))
        && firstTs == old(firstTs) && hopDirectChannel == old(hopDirectChannel)
      ensures old(channel) != PROBE_FIRST && !(old(channel) == PROBE_SECOND && ProbeCommits(old(firstTs), now, old(le).connInterval)) ==>
        && hopDirectChannel == PROBE_FIRST && doHop
        && le == old(le) && hopMode == old(hopMode) && packetCb == old(packetCb) && out == old(out)
        && leJamCount == old(leJamCount) && firstTs == old(firstTs)
    {
      if channel == PROBE_FIRST {
        firstTs := now;
        hopDirectChannel := PROBE_SECOND;
        doHop := true;
      } else if channel == PROBE_SECOND {
        var secondTs := now;
        if secondTs < firstTs {
          secondTs := (secondTs + CLK100NS_PERIOD) % TWO_32;
        }
        var channelsHopped := DivideRound((secondTs - firstTs) % TWO_32, le.connInterval * LE_BASECLK);
        if channelsHopped < DATA_CHANNELS {
          CommitHopIncrement(lut[channelsHopped], now);
          return;
        }
        hopDirectChannel := PROBE_FIRST;
        doHop := true;
      } else {
        hopDirectChannel := PROBE_FIRST;
        doHop := true;
      }
    }

    /** The commit branch of `promisc_recover_hop_increment`, given the looked-up increment. */
    method CommitHopIncrement(increment: u8, now: u32)
      modifies this`le, this`doHop, this`hopMode, this`packetCb, this`out, this`leJamCount
      ensures old(Valid()) ==> Valid()
      ensures le == CommitIncrement(old(le), increment)
      ensures !doHop && hopMode == HopBtle && packetCb == ConnectionFollow
      ensures out == Offer(old(out), Received(LePromisc, IdleStamp(), PromiscReport(3, [increment])))
      ensures leJamCount == if jamMode != JamNone then JAM_COUNT_DEFAULT else old(leJamCount)
    {
      le := le.(channelIncrement := increment, intervalTimer := le.connInterval / 2, connCount := 0, connEpoch := 0);
      doHop := false;
      le := le.(channelIdx := (1 + le.channelIncrement) % DATA_CHANNELS, linkState := LinkConnected, crcVerify := false);
      hopMode := HopBtle;
      packetCb := ConnectionFollow;
      LePromiscState(3, [le.channelIncrement], now);
      if jamMode != JamNone {
        leJamCount := JAM_COUNT_DEFAULT;
      }
    }

    /** `reset_le`. */
    method ResetLe()
      modifies this`le, this`doHop
      ensures old(Valid()) ==> Valid()
      ensures le == LinkLayer.ResetLe(old(le)) && !doHop
    {
      // le_set_access_address(0x8e89bed6), with the register halves it computes (see ResetIsInitial)
      le := le.(accessAddress := ADV_ACCESS_ADDRESS, syncl := ADV_SYNCL, synch := ADV_SYNCH);
      le := le.(crcInit := ADV_CRC_INIT, crcInitReversed := ADV_CRC_INIT_REVERSED, crcVerify := false, lastPacket := 0);
      le := le.(linkState := LinkInactive);
      le := le.(channelIdx := 0, channelIncrement := 0);
      le := le.(connEpoch := 0, intervalTimer := 0, connInterval := 0, connCount := 0);
      le := le.(winSize := 0, winOffset := 0);
      le := le.(updatePending := false, updateInstant := 0, intervalUpdate := 0, winSizeUpdate := 0);
      doHop := false;
    }

    /** The state the scan of `cb_le_promisc` works on. */
    ghost function ScanView(): Scan
      reads this`idleRxbuf, this`out, promisc.activeAa
    {
      Scan(promisc.activeAa[..], idleRxbuf, out)
    }

    /**
     * `cb_le_promisc`: whiten the four empty-PDU patterns for the channel, scan the
     * buffer for them, count and queue every hit, then follow the first cached address
     * seen more than three times (answering false), or keep scanning (answering true).
     */
    method CbLePromisc(u: seq<bool>, table: seq<bool>, start: nat, now: u32) returns (keepScanning: bool)
      requires promisc.activeAa.Length == AA_LIST_SIZE && |idleRxbuf| == PACKET_DATA
      requires |u| == UNPACKED_LEN && start < |table|
      modifies promisc.activeAa, this`idleRxbuf, this`out, this`le, this`dataCb, this`packetCb
      ensures old(Valid()) ==> Valid()
      ensures var sc := ScanUpTo(old(ScanView()), u, WhitenedPatterns(table, start), table, start, IdleStamp(), PROMISC_SCAN_END);
        var k := PromotedSlot(sc.cache);
        && promisc.activeAa[..] == sc.cache && idleRxbuf == sc.rxbuf
        && (k < 0 ==> keepScanning && out == sc.out && le == old(le) && dataCb == old(dataCb) && packetCb == old(packetCb))
        && (k >= 0 ==>
              && !keepScanning && le == WithAccessAddress(old(le), sc.cache[k].aa).(crcVerify := false)
              && dataCb == FollowLeScan && packetCb == PromiscFollow
              && out == Offer(sc.out, Received(LePromisc, IdleStamp(), PromiscReport(0, LeBytes(sc.cache[k].aa, 4)))))
    {
      var desired := WhitenPatterns(table, start);
      ScanBuffer(u, desired, table, start, now);
      keepScanning := Promote(now);
    }

    /**
     * The end of `cb_le_promisc`: switch to following the first cached address seen
     * more than three times, reporting it, or stay in discovery.
     */
    method Promote(now: u32) returns (keepScanning: bool)
      requires promisc.activeAa.Length == AA_LIST_SIZE
      modifies this`out, this`le, this`dataCb, this`packetCb
      ensures old(Valid()) ==> Valid()
      ensures promisc.activeAa[..] == old(promisc.activeAa[..]) && idleRxbuf == old(idleRxbuf) && IdleStamp() == old(IdleStamp())
      ensures var k := PromotedSlot(promisc.activeAa[..]);
        && (k < 0 ==> keepScanning && out == old(out) && le == old(le) && dataCb == old(dataCb) && packetCb == old(packetCb))
        && (k >= 0 ==>
              && !keepScanning && le == WithAccessAddress(old(le), promisc.activeAa[k].aa).(crcVerify := false)
              && dataCb == FollowLeScan && packetCb == PromiscFollow
              && out == Offer(old(out), Received(LePromisc, IdleStamp(), PromiscReport(0, LeBytes(promisc.activeAa[k].aa, 4)))))
    {
      var k := promisc.FirstPromotable();
      if k < 0 {
        return true;
      }
      FollowAddress(promisc.activeAa[k].aa, now);
      return false;
    }

    /** Leave discovery for the promoted address: follow it with the CRC check off, and report it. */
    method FollowAddress(aa: u32, now: u32)
      modifies this`out, this`le, this`dataCb, this`packetCb
      ensures old(Valid()) ==> Valid()
      ensures le == WithAccessAddress(old(le), aa).(crcVerify := false)
      ensures dataCb == FollowLeScan && packetCb == PromiscFollow
      ensures out == Offer(old(out), Received(LePromisc, IdleStamp(), PromiscReport(0, LeBytes(aa, 4))))
    {
      SetAccessAddress(aa);
      dataCb := FollowLeScan;
      packetCb := PromiscFollow;
      le := le.(crcVerify := false);
      LePromiscState(0, LeBytes(le.accessAddress, 4), now);
    }

    /** The scan of `cb_le_promisc` over positions 32..751. */
    method ScanBuffer(u: seq<bool>, desired: seq<seq<bool>>, table: seq<bool>, start: nat, now: u32)
      requires promisc.activeAa.Length == AA_LIST_SIZE && |idleRxbuf| == PACKET_DATA
      requires |u| == UNPACKED_LEN && start < |table|
      requires |desired| == 4 && forall j :: 0 <= j < 4 ==> |desired[j]| == 16
      modifies promisc.activeAa, this`idleRxbuf, this`out
      ensures old(Valid()) ==> Valid()
      ensures ScanView() == ScanUpTo(old(ScanView()), u, desired, table, start, IdleStamp(), PROMISC_SCAN_END)
    {
      ghost var sc0 := ScanView();
      var i := 32;
      while i < PROMISC_SCAN_END
        invariant 32 <= i <= PROMISC_SCAN_END
        invariant ScanView() == ScanUpTo(sc0, u, desired, table, start, IdleStamp(), i)
      {
        ScanPosition(u, i, desired, table, start, now);
        i := i + 1;
      }
      ScanKeepsInv(sc0, u, desired, table, start, IdleStamp(), PROMISC_SCAN_END);
    }

    /** One position of the scan: nothing happens unless one of the patterns matches there. */
    method ScanPosition(u: seq<bool>, i: nat, desired: seq<seq<bool>>, table: seq<bool>, start: nat, now: u32)
      requires promisc.activeAa.Length == AA_LIST_SIZE && |idleRxbuf| == PACKET_DATA
      requires |u| == UNPACKED_LEN && 32 <= i < PROMISC_SCAN_END && start < |table|
      requires |desired| == 4 && forall j :: 0 <= j < 4 ==> |desired[j]| == 16
      modifies promisc.activeAa, this`idleRxbuf, this`out
      ensures old(Valid()) ==> Valid()
      ensures ScanView() == ScanAt(old(ScanView()), u, desired, table, start, IdleStamp(), i)
    {
      var matching := MatchPattern(u, i, desired);
      if matching >= 0 {
        assert AnyMatch(u, i, desired) by {
          assert MatchesAt(u, i, desired[matching]);
        }
        TakeHit(u, i, table, start, now);
      }
    }

    /**
     * A match at i: the ten bytes from 32 symbols back are extracted (the last six
     * dewhitened) into `idle_rxbuf`, their address counted with `see_aa`, and the
     * buffer queued.
     */
    method TakeHit(u: seq<bool>, i: nat, table: seq<bool>, start: nat, now: u32)
      requires promisc.activeAa.Length == AA_LIST_SIZE && |idleRxbuf| == PACKET_DATA
      requires |u| == UNPACKED_LEN && 32 <= i < PROMISC_SCAN_END && start < |table|
      modifies promisc.activeAa, this`idleRxbuf, this`out
      ensures old(Valid()) ==> Valid()
      ensures promisc.activeAa[..] == SeenAa(old(promisc.activeAa[..]), SeenAddress(u, i))
      ensures idleRxbuf == HitBuffer(u, i, table, start, old(idleRxbuf))
      ensures out == Offer(old(out), Received(LePacket, IdleStamp(), idleRxbuf))
    {
      var aa := ExtractHit(u, i, table, start);
      promisc.SeeAa(aa);
      var queued := Enqueue(LePacket, idleRxbuf, now);
    }

    /** The extraction of a hit into `idle_rxbuf`, and the address read back from its first four bytes. */
    method ExtractHit(u: seq<bool>, i: nat, table: seq<bool>, start: nat) returns (aa: u32)
      requires |idleRxbuf| == PACKET_DATA && |u| == UNPACKED_LEN && 32 <= i < PROMISC_SCAN_END && start < |table|
      modifies this`idleRxbuf
      ensures old(Valid()) ==> Valid()
      ensures idleRxbuf == HitBuffer(u, i, table, start, old(idleRxbuf))
      ensures aa == SeenAddress(u, i)
    {
      ghost var buf := idleRxbuf;
      var bytes := ExtractPdu(u, i, table, start);
      idleRxbuf := bytes + idleRxbuf[10..];
      var v := UnpackLe(idleRxbuf[..4]);
      assert v == SeenAddress(u, i) by {
        HitBufferContents(u, i, table, start, buf);
      }
      aa := v;
    }

    // ----- vendor requests -----

    /**
     * UBERTOOTH_SET_CHANNEL: choose the sweep or a clamped fixed channel. Outside BTLE
     * following the channel changes at once; while following, it waits in
     * `requested_channel` for the next hop.
     */
    method SetChannel(param: u16)
      modifies this`hopMode, this`channel, this`requestedChannel
      ensures old(Valid()) ==> Valid()
      ensures var r := RequestChannel(param);
        && hopMode == r.hopMode
        && (mode != ModeBtFollowLe ==> channel == r.channel && requestedChannel == 0)
        && (mode == ModeBtFollowLe ==> channel == old(channel) && requestedChannel == r.channel)
    {
      requestedChannel := param;
      if requestedChannel > MAX_FREQ {
        hopMode := HopSweep;
        requestedChannel := SWEEP_START;
      } else {
        hopMode := HopNone;
        requestedChannel := if requestedChannel > MIN_FREQ then requestedChannel else MIN_FREQ;
        requestedChannel := if requestedChannel < MAX_FREQ then requestedChannel else MAX_FREQ;
      }
      if mode != ModeBtFollowLe {
        channel := requestedChannel;
        requestedChannel := 0;
      }
    }

    /**
     * UBERTOOTH_SPECAN: a range outside 2049..3072 MHz, or one that ends before it
     * starts, is refused and changes nothing; otherwise it is stored and the
     * spectrum analyser is requested.
     */
    method SpecanRequest(low: u16, high: u16) returns (accepted: bool)
      modifies this`lowFreq, this`highFreq, this`requestedMode
      ensures old(Valid()) ==> Valid()
      ensures accepted == SpecanRangeOk(low, high)
      ensures accepted ==> lowFreq == low && highFreq == high && requestedMode == ModeSpecan
      ensures !accepted ==> lowFreq == old(lowFreq) && highFreq == old(highFreq) && requestedMode == old(requestedMode)
    {
      if low < SPECAN_LOW || low > SPECAN_HIGH || high < SPECAN_LOW || high > SPECAN_HIGH || high < low {
        return false;
      }
      lowFreq := low;
      highFreq := high;
      requestedMode := ModeSpecan;
      return true;
    }

    /** UBERTOOTH_BTLE_SET_TARGET: store the address octet-reversed, and turn the filter on. */
    method SetTarget(data: seq<u8>)
      requires |data| >= 6
      modifies this`le
      ensures old(Valid()) ==> Valid()
      ensures le == old(le).(target := TargetOrder(data), targetSet := true)
    {
      var t := le.target;
      var k := 0;
      while k < 6
        invariant 0 <= k <= 6 && |t| == 6
        invariant forall j :: 0 <= j < k ==> t[j] == data[5 - j]
      {
        t := t[k := data[5 - k]];
        k := k + 1;
      }
      le := le.(target := t, targetSet := true);
    }

    /** UBERTOOTH_GET_CLOCK: the four bytes of `clkn`, least significant first. */
    method GetClock() returns (data: seq<u8>)
      ensures |data| == 4 && LeValue(data) == clkn
      ensures forall i :: 0 <= i < 4 ==> data[i] == ByteAt(clkn, i)
    {
      Pow2Values();
      data := PackLe(clkn, 4);
    }

    /** UBERTOOTH_GET_ACCESS_ADDRESS: the four bytes of the followed address, least significant first. */
    method GetAccessAddress() returns (data: seq<u8>)
      ensures |data| == 4 && LeValue(data) == le.accessAddress
      ensures forall i :: 0 <= i < 4 ==> data[i] == ByteAt(le.accessAddress, i)
    {
      Pow2Values();
      data := PackLe(le.accessAddress, 4);
    }

    /**
     * UBERTOOTH_SET_ACCESS_ADDRESS: follow the address the host sends, least
     * significant byte first, and turn the target filter on.
     */
    method SetAccessAddressRequest(data: seq<u8>)
      requires |data| >= 4
      modifies this`le
      ensures old(Valid()) ==> Valid()
      ensures le == WithAccessAddress(old(le), RequestedAddress(data)).(targetSet := true)
    {
      var aa := UnpackLe(data[..4]);
      Pow2Values();
      SetAccessAddress(aa);
      le := le.(targetSet := true);
    }
  }
}
