/** Machine integer widths and the small enumerations of the firmware. */
module Types {

  /** `uint8_t` / `u8` */
  type u8 = x: int | 0 <= x < 0x100
  /** `uint16_t` / `u16` */
  type u16 = x: int | 0 <= x < 0x1_0000
  /** `uint32_t` / `u32` */
  type u32 = x: int | 0 <= x < 0x1_0000_0000

  const TWO_8: int := 0x100
  const TWO_16: int := 0x1_0000
  const TWO_24: int := 0x100_0000
  const TWO_32: int := 0x1_0000_0000

  /** Lowest and highest radio frequency, in MHz, a host may ask for. */
  const MIN_FREQ: int := 2268
  const MAX_FREQ: int := 2794

  /** One BTLE time unit (1.25 ms) in ticks of the 100 ns clock. */
  const LE_BASECLK: int := 12500

  /** Bytes per capture buffer; the unpacked symbol buffer holds two of them, one symbol per byte. */
  const DMA_SIZE: int := 50

  /** Period of the 100 ns clock `CLK100NS`: 3125 ticks for each of the 2^20 values of the 20-bit `clkn`. */
  const CLK100NS_PERIOD: int := 3276800000

  /** Number of slots in the access-address LFU cache. */
  const AA_LIST_SIZE: int := 32

  /** Initial value of the jam countdown when jamming is enabled. */
  const JAM_COUNT_DEFAULT: int := 40

  /** The hopping disciplines a `hop()` can follow. */
  datatype HopMode = HopNone | HopSweep | HopBluetooth | HopBtle | HopDirect | HopAfh

  /** Link-layer state of the followed BTLE connection. */
  datatype LinkState = LinkInactive | LinkListening | LinkConnPending | LinkConnected

  /** Operating modes of the firmware's top-level scheduler. */
  datatype Mode =
    | ModeIdle | ModeRxSymbols | ModeTxSymbols | ModeSpecan | ModeRangeTest | ModeRepeater
    | ModeLedSpecan | ModeBtFollow | ModeBtFollowLe | ModeBtPromiscLe | ModeBtSlaveLe
    | ModeReset | ModeAfh | ModeEgo

  /** Jamming option set by the host. */
  datatype JamMode = JamNone | JamOnce | JamContinuous

  /** The handler installed in `packet_cb`: the active stage of following or discovery. */
  datatype PacketHandler =
    | NoPacketHandler
    | ConnectionFollow        // connection_follow_cb
    | PromiscFollow           // promisc_follow_cb: CRC-init recovery
    | RecoverHopInterval      // promisc_recover_hop_interval
    | RecoverHopIncrement     // promisc_recover_hop_increment

  /** The handler installed in `data_cb` for the unsynchronised receive loop. */
  datatype DataHandler = NoDataHandler | LePromiscScan | FollowLeScan
}
