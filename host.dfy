/**
 * The parameter logic of the host's vendor requests that steer BTLE work:
 * UBERTOOTH_SET_CHANNEL, UBERTOOTH_SPECAN, UBERTOOTH_BTLE_SET_TARGET and
 * UBERTOOTH_SET_ACCESS_ADDRESS.
 */
module Host {
  import opened Types
  import opened Bits

  /** The channel mode and channel a SET_CHANNEL request asks for. */
  datatype ChannelRequest = ChannelRequest(hopMode: HopMode, channel: u16)

  /** Start of the band sweep. */
  const SWEEP_START: int := 2402

  /**
   * SET_CHANNEL: a value above MAX_FREQ asks for the band sweep, starting at 2402;
   * any other value is a fixed channel, clamped into MIN_FREQ..MAX_FREQ.
   */
  function RequestChannel(param: u16): (r: ChannelRequest)
  {
    if param > MAX_FREQ then ChannelRequest(HopSweep, SWEEP_START)
    else
      var atLeast := if param > MIN_FREQ then param else MIN_FREQ;
      ChannelRequest(HopNone, if atLeast < MAX_FREQ then atLeast else MAX_FREQ)
  }

  /**
   * The request sweeps exactly when the value is above MAX_FREQ; a fixed channel is
   * always within MIN_FREQ..MAX_FREQ, is the value itself when that is in range, and
   * the nearest end of the range otherwise.
   */
  lemma RequestChannelRange(param: u16)
    ensures var r := RequestChannel(param);
      && (r.hopMode == HopSweep <==> param > MAX_FREQ)
      && (r.hopMode == HopSweep ==> r.channel == SWEEP_START)
      && (r.hopMode != HopSweep ==> r.hopMode == HopNone && MIN_FREQ <= r.channel <= MAX_FREQ)
      && (MIN_FREQ <= param <= MAX_FREQ ==> r.channel == param)
      && (param < MIN_FREQ ==> r.channel == MIN_FREQ)
  {
  }

  /** Bounds of the spectrum analyser's sweep, in MHz. */
  const SPECAN_LOW: int := 2049
  const SPECAN_HIGH: int := 3072

  /** The rejection test of UBERTOOTH_SPECAN, negated. */
  predicate SpecanRangeOk(low: u16, high: u16)
  {
    !(low < SPECAN_LOW || low > SPECAN_HIGH || high < SPECAN_LOW || high > SPECAN_HIGH || high < low)
  }

  /** A sweep is accepted exactly when it is a non-empty range inside 2049..3072 MHz. */
  lemma SpecanRange(low: u16, high: u16)
    ensures SpecanRangeOk(low, high) <==> SPECAN_LOW <= low <= high <= SPECAN_HIGH
  {
  }

  /**
   * BTLE_SET_TARGET: the host sends an address most significant octet first, and it
   * is stored in the order it appears in packets, least significant first.
   */
  function TargetOrder(addr: seq<u8>): (target: seq<u8>)
    requires |addr| >= 6
    ensures |target| == 6
  {
    [addr[5], addr[4], addr[3], addr[2], addr[1], addr[0]]
  }

  /** The stored target is the address reversed, and reversing it again gives the address back. */
  lemma TargetOrderReverses(addr: seq<u8>)
    requires |addr| >= 6
    ensures TargetOrder(addr) == Reversed(addr[..6])
    ensures TargetOrder(TargetOrder(addr)) == addr[..6]
  {
    var r := Reversed(addr[..6]);
    assert r == [addr[5], addr[4], addr[3], addr[2], addr[1], addr[0]];
  }

  /**
   * UBERTOOTH_SET_ACCESS_ADDRESS: the address in the request's first four bytes,
   * least significant first; the bytes are exactly that address's encoding.
   */
  function RequestedAddress(data: seq<u8>): (aa: u32)
    requires |data| >= 4
    ensures aa == LeValue(data[..4])
    ensures LeBytes(aa, 4) == data[..4]
  {
    LeBytesLeValue(data[..4]);
    Pow2Values();
    LeValue(data[..4])
  }
}
