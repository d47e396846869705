/**
 * The value-level rules of promiscuous connection recovery: once an access address
 * is followed, `promisc_follow_cb` recovers the CRC initial value,
 * `promisc_recover_hop_interval` estimates the connection interval from the
 * smallest gap between packets, and `promisc_recover_hop_increment` times one hop
 * between two data channels to look up the hop increment.
 */
module Recovery {
  import opened Types
  import opened Bits
  import opened LinkLayer

  /** Gaps below this are taken as packets of one connection event: `2 * LE_BASECLK`. */
  const MIN_GAP: int := 25000

  /** Agreeing estimates after which the hop interval is taken as recovered. */
  const AGREEING_ESTIMATES: int := 5

  /** Data channels of BTLE, and entries of `hop_interval_lut`. */
  const DATA_CHANNELS: int := 37

  /** The two channels the hop increment is timed between. */
  const PROBE_FIRST: int := 2404
  const PROBE_SECOND: int := 2406

  // ----- CRC initial value -----

  /**
   * The packet `promisc_follow_cb` can recover the CRC initial value from: an empty
   * data PDU (header 0x01 0x00) while the CRC is not yet being checked.
   */
  predicate CrcRecoverable(le: LeState, packet: seq<u8>)
    requires |packet| == PACKET_BYTES
  {
    !le.crcVerify && packet[4] == 0x01 && packet[5] == 0x00
  }

  /** The CRC received after the two header bytes, least significant octet first. */
  function ReceivedCrc(packet: seq<u8>): (crc: u32)
    requires |packet| == PACKET_BYTES
    ensures crc == LeValue(packet[6..9]) < 0x100_0000
  {
    LeBytesLeValue(packet[6..9]);
    Pow2Values();
    LeValue(packet[6..9])
  }

  /** The recovered CRC initial value, its 24 bits reversed, and CRC checking on. */
  function WithCrcInit(le: LeState, crcInit: u32): (r: LeState)
  {
    Pow2Values();
    le.(crcInit := crcInit, crcInitReversed := RevBits(crcInit, 24), crcVerify := true)
  }

  /**
   * The recovered value is stored together with its mirror image: bit i of the
   * reversed field is bit 23-i of the value, and reversing again gives the value.
   * Nothing else about the link changes.
   */
  lemma CrcInitMirrored(le: LeState, crcInit: u32)
    requires crcInit < 0x100_0000
    ensures var r := WithCrcInit(le, crcInit);
      && r.crcVerify && r.crcInit == crcInit && r.crcInitReversed < 0x100_0000
      && RevBits(r.crcInitReversed, 24) == crcInit
      && (forall i :: 0 <= i < 24 ==> BitAt(r.crcInitReversed, i) == BitAt(crcInit, 23 - i))
      && r.(crcInit := le.crcInit, crcInitReversed := le.crcInitReversed, crcVerify := le.crcVerify) == le
  {
    Pow2Values();
    RevBitsFacts(crcInit, 24);
  }

  /** `rbit` of a 24-bit value is its 24-bit mirror image moved up one octet. */
  lemma RbitOf24Bits(x: u32)
    requires x < 0x100_0000
    ensures Rbit(x) == 0x100 * RevBits(x, 24)
  {
    RevBitsSplit(x, 24, 8);
    assert Shr(x, 24) == 0 by {
      ShrDiv(x, 24);
      Pow2Values();
      DivUnique(x, 0x100_0000, 0, x);
    }
    RevBitsZero(8);
    Pow2Byte();
  }

  /**
   * The two places that store a reversed CRC initial value disagree: `rbit` on a
   * 24-bit value (the CONNECT_REQ path) puts its mirror image in the top three
   * octets, eight bits above where the 24-bit loop of `promisc_follow_cb` puts it.
   */
  lemma CrcReversalsDiffer(crcInit: u32)
    requires crcInit < 0x100_0000
    ensures Rbit(crcInit) == 0x100 * RevBits(crcInit, 24)
    ensures crcInit != 0 ==> Rbit(crcInit) != RevBits(crcInit, 24)
  {
    RbitOf24Bits(crcInit);
    if crcInit != 0 {
      Pow2Values();
      RevBitsInvolutive(crcInit, 24);
      RevBitsZero(24);
    }
  }

  // ----- hop interval -----

  /**
   * Where the hop-interval search stands: `le_promisc.smallest_hop_interval`, the
   * current estimate (kept in `le.conn_interval`) and `le_promisc.consec_intervals`.
   */
  datatype IntervalSearch = IntervalSearch(smallest: u32, estimate: u16, agreeing: int)

  /**
   * One packet of `promisc_recover_hop_interval`, gap ticks after the previous one:
   * a short gap changes nothing; otherwise the smallest gap is updated, the interval
   * re-estimated from it, and an estimate equal to the previous one counted as
   * agreeing while a different one becomes current with the count reset.
   */
  function ObserveGap(gap: u32, s: IntervalSearch): (r: IntervalSearch)
  {
    if gap < MIN_GAP then s
    else
      var smallest := if gap < s.smallest then gap else s.smallest;
      var estimate := HopIntervalEstimate(smallest);
      if s.estimate == estimate then s.(smallest := smallest, agreeing := s.agreeing + 1)
      else IntervalSearch(smallest, estimate, 0)
  }

  /** The packet after which the interval counts as recovered: the fifth agreeing estimate. */
  predicate IntervalRecovered(gap: u32, s: IntervalSearch)
  {
    gap >= MIN_GAP && ObserveGap(gap, s).agreeing == AGREEING_ESTIMATES && s.agreeing + 1 == AGREEING_ESTIMATES
  }

  /**
   * A short gap changes nothing. The smallest gap never grows, and after a long gap it
   * is at most that gap. The estimate is always the rounded number of 37-channel
   * rounds in the smallest gap, and it fits its 16 bits. An estimate that differs
   * from the previous one resets the count; an equal one adds one to it. The search
   * is over exactly when the count goes from 4 to 5.
   */
  lemma ObserveGapFacts(gap: u32, s: IntervalSearch)
    ensures var r := ObserveGap(gap, s);
      && (gap < MIN_GAP ==> r == s)
      && r.smallest <= s.smallest
      && (gap >= MIN_GAP ==> r.smallest <= gap && (r.smallest == gap || r.smallest == s.smallest))
      && (gap >= MIN_GAP ==> r.estimate == DivideRound(r.smallest, 37 * LE_BASECLK) < 9288)
      && (gap >= MIN_GAP && r.estimate != s.estimate ==> r.agreeing == 0)
      && (gap >= MIN_GAP && r.estimate == s.estimate ==> r.agreeing == s.agreeing + 1)
      && (IntervalRecovered(gap, s) <==> gap >= MIN_GAP && s.agreeing == 4 && r.agreeing == 5)
  {
    if gap >= MIN_GAP {
      EstimateFits(ObserveGap(gap, s).smallest);
    }
  }

  /** Packets gap after gap. */
  function ObserveGaps(gaps: seq<u32>, s: IntervalSearch): (r: IntervalSearch)
    decreases |gaps|
  {
    if gaps == [] then s else ObserveGaps(gaps[1..], ObserveGap(gaps[0], s))
  }

  /** Over any run of packets the smallest gap never grows, and ends at most every long gap seen. */
  lemma {:induction false} SmallestNeverGrows(gaps: seq<u32>, s: IntervalSearch)
    decreases |gaps|
    ensures ObserveGaps(gaps, s).smallest <= s.smallest
    ensures forall i :: 0 <= i < |gaps| && gaps[i] >= MIN_GAP ==> ObserveGaps(gaps, s).smallest <= gaps[i]
  {
    if gaps != [] {
      var s1 := ObserveGap(gaps[0], s);
      ObserveGapFacts(gaps[0], s);
      SmallestNeverGrows(gaps[1..], s1);
      forall i | 0 <= i < |gaps| && gaps[i] >= MIN_GAP
        ensures ObserveGaps(gaps, s).smallest <= gaps[i]
      {
        if i > 0 {
          assert gaps[i] == gaps[1..][i - 1];
        }
      }
    }
  }

  /**
   * Once the smallest gap is found and the estimate matches it, every further packet
   * (a short one or a gap no smaller) leaves the estimate alone, and each long gap
   * adds one agreeing estimate: the search then ends after at most five long gaps.
   */
  lemma {:induction false} SteadyGapsAgree(gaps: seq<u32>, s: IntervalSearch)
    requires s.estimate == HopIntervalEstimate(s.smallest)
    requires forall i :: 0 <= i < |gaps| ==> gaps[i] >= MIN_GAP && gaps[i] >= s.smallest
    decreases |gaps|
    ensures ObserveGaps(gaps, s) == s.(agreeing := s.agreeing + |gaps|)
  {
    if gaps != [] {
      var s1 := ObserveGap(gaps[0], s);
      assert s1 == s.(agreeing := s.agreeing + 1);
      forall i | 0 <= i < |gaps[1..]| ensures gaps[1..][i] >= MIN_GAP && gaps[1..][i] >= s1.smallest {
        assert gaps[1..][i] == gaps[i + 1];
      }
      SteadyGapsAgree(gaps[1..], s1);
    }
  }

  // ----- hop increment -----

  /**
   * The commit of `promisc_recover_hop_increment` once `hopped` channels were counted
   * between the two probes: the increment from the table, the connection clock
   * restarted half an interval in, and the link connected on the channel after the
   * current one, with the CRC check off.
   */
  function CommitIncrement(le: LeState, increment: u8): (r: LeState)
  {
    le.(channelIncrement := increment, intervalTimer := le.connInterval / 2, connCount := 0,
        connEpoch := 0, channelIdx := (1 + increment) % DATA_CHANNELS,
        linkState := LinkConnected, crcVerify := false)
  }

  /** The probe on the second channel finds an increment: fewer than 37 channels were hopped. */
  predicate ProbeCommits(firstTs: u32, now: u32, connInterval: u16)
  {
    ChannelsHopped(firstTs, now, connInterval) < DATA_CHANNELS
  }

  /**
   * A committed increment leaves a connected link whose channel index is a valid data
   * channel, one increment on from channel 0, with the address and its sync registers
   * untouched.
   */
  lemma CommitIncrementFacts(le: LeState, increment: u8)
    ensures var r := CommitIncrement(le, increment);
      && r.linkState == LinkConnected && !r.crcVerify
      && r.channelIdx < DATA_CHANNELS && r.channelIdx == (0 + r.channelIncrement + 1) % DATA_CHANNELS
      && r.channelIncrement == increment
      && r.intervalTimer <= le.connInterval && r.connCount == 0 && r.connEpoch == 0
      && r.accessAddress == le.accessAddress && (SyncInv(le) ==> SyncInv(r))
  {
  }

  /**
   * When the two probes are less than a rollover apart and the interval is known,
   * the count of channels hopped is the elapsed time in intervals, rounded to nearest.
   */
  lemma ChannelsHoppedRounds(firstTs: u32, now: u32, connInterval: u16)
    requires firstTs <= now && connInterval > 0
    ensures ChannelsHopped(firstTs, now, connInterval) ==
      (2 * (now - firstTs) + connInterval * LE_BASECLK) / (2 * (connInterval * LE_BASECLK))
      || now - firstTs + (connInterval * LE_BASECLK) / 2 >= TWO_32
  {
    var d := connInterval * LE_BASECLK;
    DivUnique(now - firstTs, TWO_32, 0, now - firstTs);
    if now - firstTs + d / 2 < TWO_32 {
      DivideRoundNearest(now - firstTs, d);
    }
  }
}
