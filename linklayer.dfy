/**
 * The followed BTLE link: the `le_state_t` record and the value-level pieces of the
 * link-layer logic: the advertising-channel defaults, `DIVIDE_ROUND`, the
 * rollover-corrected clock differences, and the fields of CONNECT_REQ and
 * LL_CONNECTION_UPDATE_REQ PDUs (Bluetooth Core Specification v4.x, Vol 6, Part B,
 * sections 2.3.3.1 and 2.4.2.1).
 */
module LinkLayer {
  import opened Types
  import opened Bits

  /** A six-octet device address, as the `u8 target[6]` of `le_state_t` holds it. */
  type DeviceAddress = s: seq<u8> | |s| == 6 witness [0, 0, 0, 0, 0, 0]

  /**
   * `le_state_t`. Its declaration is not part of this model; the widths are chosen
   * from how the fields are used: 16-bit connection counters and intervals, 8-bit
   * channel index and increment, 32-bit addresses and timestamps.
   */
  datatype LeState = LeState(
    accessAddress: u32,
    synch: u16,
    syncl: u16,
    crcInit: u32,
    crcInitReversed: u32,
    crcVerify: bool,
    linkState: LinkState,
    channelIdx: u8,
    channelIncrement: u8,
    connEpoch: u32,
    intervalTimer: u16,
    connInterval: u16,
    connCount: u16,
    winSize: u8,
    winOffset: u16,
    updatePending: bool,
    updateInstant: u16,
    intervalUpdate: u16,
    winSizeUpdate: u8,
    winOffsetUpdate: u16,
    target: DeviceAddress,
    targetSet: bool,
    lastPacket: u32)

  /** The advertising-channel access address and CRC initial value. */
  const ADV_ACCESS_ADDRESS: u32 := 0x8e89bed6
  const ADV_CRC_INIT: u32 := 0x555555
  /** The sync registers for the advertising address: the halves of its bit reversal 0x6B7D9171. */
  const ADV_SYNCH: u16 := 0x6b7d
  const ADV_SYNCL: u16 := 0x9171
  const ADV_CRC_INIT_REVERSED: u32 := 0xAAAAAA

  /** Bytes of the packet buffer handed to the packet handlers: `uint32_t packet[48/4+1]`. */
  const PACKET_BYTES: int := 52

  /** Connection time-out: 5 s in 100 ns ticks. */
  const LINK_TIMEOUT: int := 50000000

  /** The rollover constant `promisc_recover_hop_interval` uses instead of the clock's period. */
  const RECOVER_ROLLOVER: int := 3267800000

  /** The bit-reversed access address split into the radio's two 16-bit sync registers. */
  function SynchOf(aa: u32): u16
  {
    Rbit(aa) / 0x1_0000
  }

  function SynclOf(aa: u32): u16
  {
    Rbit(aa) % 0x1_0000
  }

  /** `synch:syncl`, bit-reversed again, is the access address itself. */
  lemma SyncRegistersGiveAddress(aa: u32)
    ensures Rbit(SynchOf(aa) * 0x1_0000 + SynclOf(aa)) == aa
  {
    var r := Rbit(aa);
    DivMod(r, 0x1_0000);
    assert SynchOf(aa) * 0x1_0000 + SynclOf(aa) == r;
    Pow2Values();
    RevBitsInvolutive(aa, 32);
    assert Rbit(r) == RevBits(RevBits(aa, 32), 32);
  }

  /** The statically initialised `le`. */
  function InitialLe(): (le: LeState)
  {
    LeState(ADV_ACCESS_ADDRESS, ADV_SYNCH, ADV_SYNCL, ADV_CRC_INIT, ADV_CRC_INIT_REVERSED, false,
            LinkInactive, 0, 0, 0, 0, 0, 0, 0, 0, false, 0, 0, 0, 0,
            [0, 0, 0, 0, 0, 0], false, 0)
  }

  /**
   * `DIVIDE_ROUND(N, D)`, `((N) + (D)/2) / (D)`, in the unsigned 32-bit arithmetic the
   * firmware evaluates it in. A zero divisor yields 0, as the Cortex-M3 `UDIV`
   * instruction does by default.
   */
  function DivideRound(n: u32, d: int): u32
    requires 0 <= d < TWO_32
  {
    if d == 0 then 0 else ((n + d / 2) % TWO_32) / d
  }

  /** Without wrap-around, DIVIDE_ROUND is n/d rounded to the nearest integer, halves up. */
  lemma DivideRoundNearest(n: u32, d: int)
    requires 0 < d < TWO_32 && n + d / 2 < TWO_32
    ensures DivideRound(n, d) == (2 * n + d) / (2 * d)
  {
    var q, r := (n + d / 2) / d, (n + d / 2) % d;
    DivMod(n + d / 2, d);
    DivMod(d, 2);
    DivUnique(n + d / 2, TWO_32, 0, n + d / 2);
    assert 2 * n + d == (2 * d) * q + (2 * r + d % 2) by {
      assert (2 * d) * q == 2 * (d * q);
    }
    DivUnique(2 * n + d, 2 * d, q, 2 * r + d % 2);
  }

  /**
   * `now - last` on the 32-bit timestamps after the firmware's rollover correction:
   * when now is below last, `period` is added to now first.
   */
  function Elapsed(now: u32, last: u32, period: int): u32
    requires 0 <= period < TWO_32
  {
    (Unrolled(now, last, period) - last) % TWO_32
  }

  /** The rollover-corrected timestamp itself: `if (now < last) now += period`, in 32 bits. */
  function Unrolled(now: u32, last: u32, period: int): u32
    requires 0 <= period < TWO_32
  {
    if now < last then (now + period) % TWO_32 else now
  }

  /**
   * With the clock's own period the correction is exact: for timestamps of the 100 ns
   * clock, the result is the time from last to now, across at most one rollover.
   */
  lemma ElapsedAcrossRollover(now: u32, last: u32)
    requires now < CLK100NS_PERIOD && last < CLK100NS_PERIOD
    ensures Elapsed(now, last, CLK100NS_PERIOD) == (now - last) % CLK100NS_PERIOD
  {
    if now < last {
      var c := (now + CLK100NS_PERIOD) % TWO_32;
      if now + CLK100NS_PERIOD < TWO_32 {
        DivUnique(now + CLK100NS_PERIOD, TWO_32, 0, now + CLK100NS_PERIOD);
      } else {
        DivUnique(now + CLK100NS_PERIOD, TWO_32, 1, now + CLK100NS_PERIOD - TWO_32);
      }
      DivUnique(c - last, TWO_32, if c < last then -1 else 0, now + CLK100NS_PERIOD - last);
      DivUnique(now - last, CLK100NS_PERIOD, -1, now + CLK100NS_PERIOD - last);
    } else {
      DivUnique(now - last, TWO_32, 0, now - last);
      DivUnique(now - last, CLK100NS_PERIOD, 0, now - last);
    }
  }

  /**
   * With the constant `promisc_recover_hop_interval` uses, a gap that spans a rollover
   * comes out 9,000,000 ticks (0.9 s) short.
   */
  lemma RecoverRolloverShort(now: u32, last: u32)
    requires now < last < CLK100NS_PERIOD
    requires (now - last) % CLK100NS_PERIOD >= CLK100NS_PERIOD - RECOVER_ROLLOVER
    ensures Elapsed(now, last, RECOVER_ROLLOVER) == (now - last) % CLK100NS_PERIOD - (CLK100NS_PERIOD - RECOVER_ROLLOVER)
  {
    var c := (now + RECOVER_ROLLOVER) % TWO_32;
    var gap := now + RECOVER_ROLLOVER - last;
    if now + RECOVER_ROLLOVER < TWO_32 {
      DivUnique(now + RECOVER_ROLLOVER, TWO_32, 0, now + RECOVER_ROLLOVER);
    } else {
      DivUnique(now + RECOVER_ROLLOVER, TWO_32, 1, now + RECOVER_ROLLOVER - TWO_32);
    }
    DivUnique(now - last, CLK100NS_PERIOD, -1, now + CLK100NS_PERIOD - last);
    DivUnique(c - last, TWO_32, if c < last then -1 else 0, gap);
  }

  /** The PDU type nibble of a CONNECT_REQ. */
  const CONNECT_REQ: int := 0x05

  /** Offsets in the packet buffer (access address, header, length, then the PDU payload). */
  const INIT_A: int := 6
  const ADV_A: int := 12
  const LL_AA: int := 18
  const CRC_INIT: int := 22
  const WIN_SIZE: int := 25
  const WIN_OFFSET: int := 26
  const CONN_INTERVAL: int := 28
  const CHANNEL_INC: int := 39

  /** Bytes [from, from + 6) of the packet: a device address as it appears on the air. */
  function AddressAt(packet: seq<u8>, from: nat): (a: seq<u8>)
    requires from + 6 <= |packet|
    ensures |a| == 6
  {
    packet[from..from + 6]
  }

  /**
   * The target filter: with no target set every CONNECT_REQ is followed, otherwise
   * only one whose InitA or AdvA equals the target.
   */
  predicate TargetAccepts(le: LeState, packet: seq<u8>)
    requires |packet| == PACKET_BYTES
  {
    !le.targetSet || le.target == AddressAt(packet, INIT_A) || le.target == AddressAt(packet, ADV_A)
  }

  /** `update_instant - conn_count < 32767`, compared after promotion to `int`. */
  predicate InstantAhead(updateInstant: u16, connCount: u16)
  {
    updateInstant - connCount < 32767
  }

  /** The radio's sync registers hold the bit-reversed access address: `synch:syncl == rbit(aa)`. */
  predicate SyncInv(le: LeState)
  {
    le.synch * 0x1_0000 + le.syncl == Rbit(le.accessAddress)
  }

  /** `le_set_access_address`. */
  function WithAccessAddress(le: LeState, aa: u32): (r: LeState)
  {
    le.(accessAddress := aa, syncl := SynclOf(aa), synch := SynchOf(aa))
  }

  /**
   * Setting an access address keeps the sync registers matched to it, so that the
   * radio, reading `synch:syncl` bit-reversed, looks for exactly that address.
   */
  lemma AccessAddressSyncs(le: LeState, aa: u32)
    ensures var r := WithAccessAddress(le, aa);
      SyncInv(r) && r.accessAddress == aa && Rbit(r.synch * 0x1_0000 + r.syncl) == aa
  {
    DivMod(Rbit(aa), 0x1_0000);
    SyncRegistersGiveAddress(aa);
  }

  /** The statically initialised `le` already has its sync registers right. */
  lemma InitialLeSync()
    ensures SyncInv(InitialLe())
  {
    RbitAdvertisingAa(ADV_ACCESS_ADDRESS);
  }

  /**
   * `reset_le`: back to the advertising channel's access address and CRC, inactive,
   * with every connection parameter zero except `win_offset_update`, which the
   * statement meant to clear it leaves as it was; the target filter is kept.
   */
  function ResetLe(le: LeState): (r: LeState)
  {
    le.(accessAddress := ADV_ACCESS_ADDRESS, synch := ADV_SYNCH, syncl := ADV_SYNCL,
      crcInit := ADV_CRC_INIT, crcInitReversed := ADV_CRC_INIT_REVERSED, crcVerify := false,
      lastPacket := 0, linkState := LinkInactive, channelIdx := 0, channelIncrement := 0,
      connEpoch := 0, intervalTimer := 0, connInterval := 0, connCount := 0,
      winSize := 0, winOffset := 0, updatePending := false, updateInstant := 0,
      intervalUpdate := 0, winSizeUpdate := 0)
  }

  /**
   * A reset gives back the statically initialised state, except for the target filter
   * and `win_offset_update`, which survive it.
   */
  lemma ResetIsInitial(le: LeState)
    ensures ResetLe(le) == InitialLe().(winOffsetUpdate := le.winOffsetUpdate, target := le.target, targetSet := le.targetSet)
    ensures SyncInv(ResetLe(le))
    ensures ResetLe(le) == WithAccessAddress(ResetLe(le), ADV_ACCESS_ADDRESS)
  {
    RbitAdvertisingAa(ADV_ACCESS_ADDRESS);
  }

  /** The PDU type nibble says CONNECT_REQ. */
  predicate IsConnectReq(packet: seq<u8>)
    requires |packet| == PACKET_BYTES
  {
    packet[4] % 16 == CONNECT_REQ
  }

  /** LLID 3 (control PDU) with opcode 0: LL_CONNECTION_UPDATE_REQ. */
  predicate IsUpdateReq(packet: seq<u8>)
    requires |packet| == PACKET_BYTES
  {
    packet[4] % 4 == 3 && packet[6] == 0
  }

  /** The LLData access address of a CONNECT_REQ, least significant octet first. */
  function ConnectReqAddress(packet: seq<u8>): (aa: u32)
    requires |packet| == PACKET_BYTES
    ensures aa == LeValue(packet[LL_AA..LL_AA + 4])
  {
    LeBytesLeValue(packet[LL_AA..LL_AA + 4]);
    Pow2Values();
    LeValue(packet[LL_AA..LL_AA + 4])
  }

  /** The 24-bit LLData CRCInit of a CONNECT_REQ, least significant octet first. */
  function ConnectReqCrcInit(packet: seq<u8>): (crcInit: u32)
    requires |packet| == PACKET_BYTES
    ensures crcInit == LeValue(packet[CRC_INIT..CRC_INIT + 3]) < 0x100_0000
  {
    LeBytesLeValue(packet[CRC_INIT..CRC_INIT + 3]);
    Pow2Values();
    LeValue(packet[CRC_INIT..CRC_INIT + 3])
  }

  /**
   * The LINK_LISTENING branch once a CONNECT_REQ has passed the target filter: follow
   * the new access address, CRC initial value, window and interval (each read from its
   * low byte only) and hop increment, with CRC checking off.
   */
  function AcceptConnectReq(le: LeState, packet: seq<u8>): (r: LeState)
    requires |packet| == PACKET_BYTES
  {
    var crcInit := ConnectReqCrcInit(packet);
    var inc := packet[CHANNEL_INC] % 32;
    WithAccessAddress(le, ConnectReqAddress(packet)).(
      linkState := LinkConnPending, crcVerify := false,
      crcInit := crcInit, crcInitReversed := Rbit(crcInit),
      winSize := packet[WIN_SIZE], winOffset := packet[WIN_OFFSET],
      connInterval := packet[CONN_INTERVAL],
      channelIncrement := inc, channelIdx := inc)
  }

  /** The LINK_CONN_PENDING branch: the first packet of the connection arrived at clkn. */
  function EnterConnected(le: LeState, clkn: u32): (r: LeState)
  {
    le.(linkState := LinkConnected, connEpoch := clkn,
        intervalTimer := (le.connInterval - 1) % TWO_16, connCount := 0, updatePending := false)
  }

  /** The first half of the LINK_CONNECTED branch: a pending update takes effect at its instant. */
  function ApplyPendingUpdate(le: LeState, clkn: u32): (r: LeState)
  {
    if le.updatePending && le.connCount == le.updateInstant then
      le.(connEpoch := clkn, connInterval := le.intervalUpdate,
          intervalTimer := (le.intervalUpdate - 1) % TWO_16,
          winSize := le.winSizeUpdate, winOffset := le.winOffsetUpdate, updatePending := false)
    else le
  }

  /**
   * The second half: an LL_CONNECTION_UPDATE_REQ records the new parameters and
   * arms the update when its instant is less than 32767 events ahead (the difference
   * taken as a signed int); an instant further off leaves the pending flag as it was.
   */
  function RecordUpdateReq(le: LeState, packet: seq<u8>): (r: LeState)
    requires |packet| == PACKET_BYTES
  {
    var instant := packet[16] as int + packet[17] as int * 0x100;
    le.(winSizeUpdate := packet[7],
        winOffsetUpdate := packet[8] as int + packet[9] as int * 0x100,
        intervalUpdate := packet[10] as int + packet[11] as int * 0x100,
        updateInstant := instant,
        updatePending := if InstantAhead(instant, le.connCount) then true else le.updatePending)
  }

  /** `connection_follow_cb`'s effect on `le`, for a packet received at clkn. */
  function FollowConnection(le: LeState, packet: seq<u8>, clkn: u32): (r: LeState)
    requires |packet| == PACKET_BYTES
  {
    match le.linkState
    case LinkConnPending => EnterConnected(le, clkn)
    case LinkConnected =>
      var applied := ApplyPendingUpdate(le, clkn);
      if IsUpdateReq(packet) then RecordUpdateReq(applied, packet) else applied
    case LinkListening =>
      if IsConnectReq(packet) && TargetAccepts(le, packet) then AcceptConnectReq(le, packet) else le
    case LinkInactive => le
  }

  /**
   * While listening, the link moves on exactly for a CONNECT_REQ that passes the
   * target filter, and then takes the access address, CRC initial value and hop
   * increment from the PDU; any other packet changes nothing.
   */
  lemma ListeningTransition(le: LeState, packet: seq<u8>, clkn: u32)
    requires |packet| == PACKET_BYTES && le.linkState == LinkListening
    ensures var r := FollowConnection(le, packet, clkn);
      && (r.linkState == LinkConnPending <==> IsConnectReq(packet) && TargetAccepts(le, packet))
      && (r.linkState != LinkConnPending ==> r == le)
      && (r.linkState == LinkConnPending ==>
            && !r.crcVerify
            && r.channelIdx == r.channelIncrement == packet[CHANNEL_INC] % 32 <= 31
            && r.accessAddress == LeValue(packet[LL_AA..LL_AA + 4])
            && r.crcInit == LeValue(packet[CRC_INIT..CRC_INIT + 3])
            && SyncInv(r))
  {
  }

  /**
   * The first packet after a CONNECT_REQ makes the link connected: the connection
   * clock starts at clkn, the interval timer one short of the interval, the event
   * counter at 0, with no update pending.
   */
  lemma PendingTransition(le: LeState, packet: seq<u8>, clkn: u32)
    requires |packet| == PACKET_BYTES && le.linkState == LinkConnPending
    ensures var r := FollowConnection(le, packet, clkn);
      && r.linkState == LinkConnected && r.connEpoch == clkn
      && r.intervalTimer == (le.connInterval - 1) % TWO_16
      && r.connCount == 0 && !r.updatePending
  {
  }

  /**
   * While connected, a pending update takes effect exactly at its instant and then
   * is no longer pending; before it, interval and timer are left alone (unless the
   * packet is itself an update request, which only records new parameters).
   */
  lemma ConnectedTransition(le: LeState, packet: seq<u8>, clkn: u32)
    requires |packet| == PACKET_BYTES && le.linkState == LinkConnected
    ensures var r := FollowConnection(le, packet, clkn);
      && r.linkState == LinkConnected
      && (le.updatePending && le.connCount == le.updateInstant ==>
            r.connInterval == le.intervalUpdate && r.intervalTimer == (le.intervalUpdate - 1) % TWO_16 &&
            r.connEpoch == clkn && (r.updatePending <==> IsUpdateReq(packet) && InstantAhead(r.updateInstant, le.connCount)))
      && (!(le.updatePending && le.connCount == le.updateInstant) ==>
            r.connInterval == le.connInterval && r.intervalTimer == le.intervalTimer && r.connEpoch == le.connEpoch)
      && r.connCount == le.connCount
  {
  }

  /** Every step of connection following keeps the sync registers matched to the access address. */
  lemma FollowKeepsSync(le: LeState, packet: seq<u8>, clkn: u32)
    requires |packet| == PACKET_BYTES && SyncInv(le)
    ensures SyncInv(FollowConnection(le, packet, clkn))
  {
  }

  /**
   * One BTLE tick of `TIMER0_IRQHandler` on a connected link at a connection-clock
   * boundary: `--interval_timer`, and when that reaches 0 a hop is due, `conn_count`
   * goes up and the timer is reloaded with the interval.
   */
  function CountDown(le: LeState): (r: LeState)
  {
    var t := (le.intervalTimer - 1) % TWO_16;
    if t == 0 then le.(intervalTimer := le.connInterval, connCount := (le.connCount + 1) % TWO_16)
    else le.(intervalTimer := t)
  }

  /** The tick of `CountDown` that makes a hop due. */
  predicate HopDue(le: LeState)
  {
    (le.intervalTimer - 1) % TWO_16 == 0
  }

  /** k consecutive ticks. */
  function CountDowns(le: LeState, k: nat): (r: LeState)
    decreases k
  {
    if k == 0 then le else CountDowns(CountDown(le), k - 1)
  }

  /** A tick on a timer above 1 only decrements it. */
  lemma CountDownEarly(le: LeState)
    requires le.intervalTimer >= 2
    ensures !HopDue(le) && CountDown(le) == le.(intervalTimer := le.intervalTimer - 1)
  {
    DivUnique(le.intervalTimer - 1, TWO_16, 0, le.intervalTimer - 1);
  }

  /** The tick on a timer at 1 makes the hop due and reloads the timer. */
  lemma CountDownLast(le: LeState)
    requires le.intervalTimer == 1
    ensures HopDue(le)
    ensures CountDown(le) == le.(intervalTimer := le.connInterval, connCount := (le.connCount + 1) % TWO_16)
  {
  }

  /** Until the timer reaches 1 the ticks bring no hop: only the timer moves. */
  lemma {:induction false} NoHopBeforeTimer(le: LeState, k: nat)
    requires k < le.intervalTimer
    decreases k
    ensures CountDowns(le, k) == le.(intervalTimer := le.intervalTimer - k)
    ensures forall j :: 0 <= j < k ==> !HopDue(CountDowns(le, j))
  {
    if k > 0 {
      CountDownEarly(le);
      var next := le.(intervalTimer := le.intervalTimer - 1);
      NoHopBeforeTimer(next, k - 1);
      assert next.(intervalTimer := next.intervalTimer - (k - 1)) == le.(intervalTimer := le.intervalTimer - k);
      forall j | 0 <= j < k ensures !HopDue(CountDowns(le, j)) {
        if j > 0 {
          assert CountDowns(le, j) == CountDowns(next, j - 1);
        }
      }
    }
  }

  /**
   * A hop is due once every `interval_timer` ticks: the last of them, and no earlier
   * one, makes it due, and after it the connection event counter has gone up by one
   * and the timer holds the interval again.
   */
  lemma HopEveryInterval(le: LeState)
    requires le.intervalTimer >= 1
    ensures forall j :: 0 <= j < le.intervalTimer - 1 ==> !HopDue(CountDowns(le, j))
    ensures HopDue(CountDowns(le, le.intervalTimer - 1))
    ensures CountDowns(le, le.intervalTimer) ==
      le.(intervalTimer := le.connInterval, connCount := (le.connCount + 1) % TWO_16)
  {
    var t := le.intervalTimer;
    NoHopBeforeTimer(le, t - 1);
    var last := CountDowns(le, t - 1);
    assert last == le.(intervalTimer := 1);
    CountDownLast(last);
    CountDownsSplit(le, t - 1, 1);
    assert CountDowns(le, t) == CountDowns(CountDown(last), 0);
  }

  lemma {:induction false} CountDownsSplit(le: LeState, a: nat, b: nat)
    ensures CountDowns(le, a + b) == CountDowns(CountDowns(le, a), b)
    decreases a
  {
    if a > 0 {
      CountDownsSplit(CountDown(le), a - 1, b);
    }
  }

  /**
   * The connection time-out of `bt_le_sync`: a pending or established link that has
   * heard nothing for more than 5 s, or a jam that has run its count.
   */
  predicate TimedOut(le: LeState, now: u32, jamCount: int)
  {
    || ((le.linkState == LinkConnected || le.linkState == LinkConnPending) &&
        Elapsed(now, le.lastPacket, CLK100NS_PERIOD) > LINK_TIMEOUT)
    || jamCount == 1
  }

  /** For timestamps of the 100 ns clock the time-out fires when more than 5 s passed, rollover or not. */
  lemma TimeoutAcrossRollover(le: LeState, now: u32, jamCount: int)
    requires now < CLK100NS_PERIOD && le.lastPacket < CLK100NS_PERIOD && jamCount != 1
    requires le.linkState == LinkConnected || le.linkState == LinkConnPending
    ensures TimedOut(le, now, jamCount) <==> (now - le.lastPacket) % CLK100NS_PERIOD > LINK_TIMEOUT
  {
    ElapsedAcrossRollover(now, le.lastPacket);
  }

  /** `obsv_hop_interval`: the smallest gap in units of 37 connection-clock ticks, stored as u16. */
  function HopIntervalEstimate(smallest: u32): u16
  {
    DivideRound(smallest, 37 * LE_BASECLK) % TWO_16
  }

  /**
   * `channels_hopped` of `promisc_recover_hop_increment`: the time between the packets
   * seen on 2404 and on 2406 MHz in connection intervals (1.25 ms each), rounded.
   */
  function ChannelsHopped(first: u32, second: u32, connInterval: u16): u32
  {
    DivideRound(Elapsed(second, first, CLK100NS_PERIOD), connInterval * LE_BASECLK)
  }

  /** The estimate is never cut by its 16-bit store: it is the rounded quotient itself. */
  lemma EstimateFits(smallest: u32)
    ensures HopIntervalEstimate(smallest) == DivideRound(smallest, 37 * LE_BASECLK) < 9288
  {
    var d := 37 * LE_BASECLK;
    var n := (smallest + d / 2) % TWO_32;
    DivMod(smallest + d / 2, TWO_32);
    assert n / d <= (TWO_32 - 1) / d;
    DivUnique(n / d, TWO_16, 0, n / d);
  }
}
