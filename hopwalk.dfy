/**
 * The channel walks of `hop()` in SWEEP and AFH mode: `channel += 32`, and when the
 * result passes 2480 MHz, `channel -= 79`. Over the 79 Bluetooth channels
 * 2402..2480 this adds 32 modulo 79, and since 32 and 79 are coprime the walk visits
 * every channel within 79 steps. Each walk repeats the step while the current
 * channel does not qualify under the 10-byte `afh_map`.
 */
module HopWalk {
  import opened Types
  import opened Bits

  /** The Bluetooth band the walks run over. */
  const BAND_LOW: int := 2402
  const BAND_HIGH: int := 2480
  const BAND_CHANNELS: int := 79

  /** Bytes in `afh_map`: one bit per channel, 79 bits. */
  const AFH_MAP_LEN: int := 10

  predicate InBand(c: int)
  {
    BAND_LOW <= c <= BAND_HIGH
  }

  /** One step of either walk on the 16-bit `channel`. */
  function Step(c: u16): (n: u16)
    ensures InBand(c) ==> InBand(n)
  {
    var up := (c + 32) % TWO_16;
    if up > BAND_HIGH then up - 79 else up
  }

  /** Within the band a step adds 32 to the channel's offset, modulo 79. */
  lemma StepOffset(c: u16)
    requires InBand(c)
    ensures InBand(Step(c)) && Step(c) - BAND_LOW == (c - BAND_LOW + 32) % 79
  {
    var o := c - BAND_LOW;
    if o + 32 < 79 {
      DivUnique(o + 32, 79, 0, o + 32);
    } else {
      DivUnique(o + 32, 79, 1, o + 32 - 79);
    }
  }

  /** `(channel-2402)/8`, the `afh_map` byte holding the channel's bit. */
  function MapIndex(c: int): (i: int)
    requires InBand(c)
    ensures 0 <= i < AFH_MAP_LEN
  {
    (c - BAND_LOW) / 8
  }

  /** `afh_map[(channel-2402)/8] & 0x1<<((channel-2402)%8)`, as a truth value. */
  predicate MapBit(afhMap: seq<u8>, c: int)
    requires |afhMap| == AFH_MAP_LEN && InBand(c)
  {
    BitAt(afhMap[MapIndex(c)], (c - BAND_LOW) % 8)
  }

  /**
   * Whether the walk filters channels at all: SWEEP only when AFH is enabled and some
   * channel is in use, AFH unless all 79 are in use. Without a filter the `while`
   * condition is false before it reads `afh_map`, so the walk takes one step.
   */
  predicate WalkFiltered(mode: HopMode, usedChannels: u8, afhEnabled: bool)
    requires mode == HopSweep || mode == HopAfh
  {
    if mode == HopSweep then usedChannels != 0 && afhEnabled else usedChannels != 79
  }

  /**
   * The `while` condition of the walk: SWEEP skips channels whose bit is clear, AFH
   * skips channels whose bit is set, each only while its filter is on.
   */
  predicate KeepWalking(mode: HopMode, usedChannels: u8, afhEnabled: bool, afhMap: seq<u8>, c: int)
    requires mode == HopSweep || mode == HopAfh
    requires |afhMap| == AFH_MAP_LEN && (WalkFiltered(mode, usedChannels, afhEnabled) ==> InBand(c))
  {
    && WalkFiltered(mode, usedChannels, afhEnabled)
    && (if mode == HopSweep then !MapBit(afhMap, c) else MapBit(afhMap, c))
  }

  /** n steps from c. */
  function Walk(c: u16, n: nat): (w: u16)
    ensures InBand(c) ==> InBand(w)
    decreases n
  {
    if n == 0 then c else Walk(Step(c), n - 1)
  }

  /** How many steps lead from in-band c to in-band t: 42 is the inverse of 32 modulo 79. */
  function Dist(c: int, t: int): (d: int)
    requires InBand(c) && InBand(t)
    ensures 0 <= d < 79
  {
    (42 * (t - c)) % 79
  }

  /** No steps are needed exactly when the walk is already there. */
  lemma DistZero(c: int, t: int)
    requires InBand(c) && InBand(t)
    ensures Dist(c, t) == 0 <==> c == t
  {
    var d := t - c;
    if Dist(c, t) == 0 {
      var k := (42 * d) / 79;
      DivMod(42 * d, 79);
      assert 42 * d == 79 * k;
      var m := 32 * k - 17 * d;
      assert d == 79 * m;
    }
  }

  /** A step towards t that is not yet there shortens the distance by one. */
  lemma DistStep(c: u16, t: int)
    requires InBand(c) && InBand(t) && c != t
    ensures InBand(Step(c)) && Dist(Step(c), t) == Dist(c, t) - 1
  {
    StepOffset(c);
    DistZero(c, t);
    var o, p := c - BAND_LOW, t - BAND_LOW;
    var s := Step(c) - BAND_LOW;
    var q := (o + 32) / 79;
    DivMod(o + 32, 79);
    assert s == o + 32 - 79 * q;
    var k := (42 * (p - o)) / 79;
    DivMod(42 * (p - o), 79);
    var dd := Dist(c, t);
    assert 42 * (p - o) == 79 * k + dd;
    assert 42 * (p - s) == 79 * (k - 17 + 42 * q) + (dd - 1);
    DivUnique(42 * (p - s), 79, k - 17 + 42 * q, dd - 1);
  }

  /** Any in-band channel reaches any in-band channel in fewer than 79 steps. */
  lemma {:induction false} Coverage(c: u16, t: u16)
    requires InBand(c) && InBand(t)
    ensures Walk(c, Dist(c, t)) == t
    decreases Dist(c, t)
  {
    DistZero(c, t);
    if c != t {
      DistStep(c, t);
      Coverage(Step(c), t);
    }
  }

  /**
   * The SWEEP/AFH branch of `hop()`: a do-while loop that steps at least once and
   * stops on the first channel that does not keep it walking. Without a filter that
   * is the first step, from any channel. With a filter the walk reads `afh_map`, so
   * it needs an in-band start, and it terminates when some in-band channel stops it.
   */
  method NextChannel(mode: HopMode, channel: u16, usedChannels: u8, afhEnabled: bool, afhMap: seq<u8>)
      returns (c: u16, ghost steps: nat)
    requires mode == HopSweep || mode == HopAfh
    requires |afhMap| == AFH_MAP_LEN
    requires WalkFiltered(mode, usedChannels, afhEnabled) ==>
      InBand(channel) && exists t :: InBand(t) && !KeepWalking(mode, usedChannels, afhEnabled, afhMap, t)
    ensures !WalkFiltered(mode, usedChannels, afhEnabled) ==> steps == 1 && c == Step(channel)
    ensures WalkFiltered(mode, usedChannels, afhEnabled) ==> InBand(c)
    ensures !KeepWalking(mode, usedChannels, afhEnabled, afhMap, c)
    ensures 1 <= steps <= 79 && c == Walk(channel, steps)
    ensures forall k :: 1 <= k < steps ==> KeepWalking(mode, usedChannels, afhEnabled, afhMap, Walk(channel, k))
  {
    var filtered := WalkFiltered(mode, usedChannels, afhEnabled);
    ghost var t: int := BAND_LOW;
    if filtered {
      t :| InBand(t) && !KeepWalking(mode, usedChannels, afhEnabled, afhMap, t);
      StepOffset(channel);
      if channel != t {
        DistStep(channel, t);
      }
    }
    c := Step(channel);
    steps := 1;
    while KeepWalking(mode, usedChannels, afhEnabled, afhMap, c)
      invariant filtered ==> InBand(c) && steps + Dist(c, t) <= 79
      invariant 1 <= steps && c == Walk(channel, steps)
      invariant forall k :: 1 <= k < steps ==> KeepWalking(mode, usedChannels, afhEnabled, afhMap, Walk(channel, k))
      decreases if filtered then Dist(c, t) else 0
    {
      DistStep(c, t);
      WalkStep(channel, steps);
      c := Step(c);
      steps := steps + 1;
    }
  }

  lemma {:induction false} WalkStep(c: u16, n: nat)
    decreases n
    ensures Walk(c, n + 1) == Step(Walk(c, n))
  {
    if n > 0 {
      WalkStep(Step(c), n - 1);
    }
  }
}
