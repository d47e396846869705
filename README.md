# Ubertooth BTLE tracking and discovery, in Dafny

This project models the Bluetooth Low Energy core of the Ubertooth firmware's
`bluetooth_rxtx.c`. It covers:

- how the firmware follows a BTLE connection;
- how it discovers connections promiscuously;
- the host requests that steer both.

The radio, DMA and USB hardware around this logic is abstracted away. The globals
the logic works on are fields of one class, `Rxtx.Engine`: `le`, `le_promisc`,
`channel`, `hop_mode`, `do_hop`, `hop_direct_channel`, `status` with the USB queue,
the clock, AFH and mode globals, and the `static` locals of the handlers. Each
handler is a method on it that changes only the fields it names. Every handler
keeps `Rxtx.Engine.Valid`: the address cache keeps its shape (no duplicate
addresses, empty slots last), the AFH map keeps ten bytes and the received buffer
fifty. The target address is six bytes by its type.

The model is split into modules:

- `Types`: integer widths (`u8`, `u16`, `u32` as bounded `int`s) and the firmware's
  enumerations. The active stage, which the firmware keeps in the `packet_cb` and
  `data_cb` function pointers, is a closed enumeration.
- `Bits`: bit reversal (`reverse8`, `reverse16`, `rbit`, the 24-bit CRC-init loop)
  and little-endian packing.
- `Whitening`: the cyclic XOR with the whitening table.
- `Capture`:
  - the sliding 32-bit access-address register of `cb_follow_le`;
  - the empty-PDU pattern test and PDU extraction of `cb_le_promisc`.
- `Transmit`: the transmit-buffer build of `le_transmit`.
- `HopWalk`: the SWEEP/AFH channel walks of `hop`, including a proof that the walk
  reaches every channel.
- `LinkLayer`:
  - the `le_state_t` record, `le_set_access_address` and `reset_le`;
  - the link-state machine of `connection_follow_cb`;
  - the BTLE interval countdown of the timer tick;
  - `DIVIDE_ROUND` and the rollover-corrected clock differences.
- `Recovery`: the value-level rules of CRC-init, hop-interval and hop-increment
  recovery.
- `AaCache`: `le_promisc` and its 32-slot least-frequently-used cache of access
  addresses (`see_aa`, `reset_le_promisc`).
- `Outbox`: `enqueue` into a bounded USB queue that may be full, with the `status`
  flags, and the `le_promisc_state` reports.
- `Discovery`: the scan of `cb_le_promisc` as a fold over symbol positions, with its
  invariants.
- `Host`: the parameter logic of the vendor requests UBERTOOTH_SET_CHANNEL,
  UBERTOOTH_SPECAN, UBERTOOTH_BTLE_SET_TARGET and UBERTOOTH_SET_ACCESS_ADDRESS.
- `Rxtx`: the `Engine` class, holding the handlers, the timer tick, `hop`, the
  teardown of `bt_le_sync`, `cb_le_promisc` and the vendor requests.

Each loop of the source is a `while` loop, proved against a specification function. The
specification functions carry the lemmas.

Behaviour kept as the code has it:

- `reset_le` leaves `win_offset_update` as it was: the statement meant to clear it is
  a bare expression. (`LinkLayer.ResetIsInitial`)
- An access address is promoted once its count is above 3, that is after four
  sightings, although the comment next to the test says five. (`AaCache.PromotedSlot`)
- Two rollover constants are used for the same 100 ns clock. `bt_le_sync` and
  `promisc_recover_hop_increment` add 3276800000, the clock's period.
  `promisc_recover_hop_interval` adds 3267800000, so a gap across a rollover comes out
  0.9 s short there. (`LinkLayer.ElapsedAcrossRollover`, `LinkLayer.RecoverRolloverShort`)
- The reversed CRC initial value is stored two different ways:
  - the CONNECT_REQ path stores `rbit` of the 24-bit value;
  - `promisc_follow_cb` stores the 24-bit mirror image.

  The two differ by a factor 256 for every non-zero value
  (`Recovery.CrcReversalsDiffer`). Which one `btle_crcgen_lut` expects is not part of
  this model, so both are modelled as written.
- `update_instant - conn_count < 32767` is evaluated on 16-bit fields promoted to
  `int`, a signed difference, not a modular one.

Further behaviour of the code that the model keeps:

- The interval search ignores gaps under `2 * LE_BASECLK`, two BTLE time units.
- The search is over when the count of agreeing estimates reaches 5. That count is
  reset to 0 by the estimate that changes the interval, so six equal estimates in a
  row are needed.
- At a connection teardown in `bt_le_sync`, a link followed from promiscuous mode
  is reset to inactive and `bt_le_sync` returns. The loop of `bt_promisc_le` then
  runs `reset_le_promisc`. With no target set it goes back to discovery. With a
  target set it calls `bt_le_sync` again at once, on the advertising address
  0x8e89bed6 that `reset_le` put in place (`target_set` survives the reset). Any
  other link goes back to listening.
- The jam countdown is decremented once per `bt_le_sync` round.

## Model

| member | source | states |
|---|---|---|
| Bits.Reverse8 | firmware/bluetooth_rxtx/bluetooth_rxtx.c:1278-1288 | bit i of the result is bit 7-i of the byte, and reversing the result gives the byte back |
| Bits.Reverse16 | firmware/bluetooth_rxtx/bluetooth_rxtx.c:1290-1300 | bit i of the result is bit 15-i of the word, and reversing the result gives the word back |
| Bits.ReverseLowBits | firmware/bluetooth_rxtx/bluetooth_rxtx.c:2043-2045 | the OR-accumulating reversal loop computes the reversal of the low `width` bits |
| Bits.RevBitsFacts | firmware/bluetooth_rxtx/bluetooth_rxtx.c:1278-1300 | reversing n bits stays below 2^n, moves bit i to bit n-1-i, and is its own inverse |
| Bits.RevBitsInvolutive | firmware/bluetooth_rxtx/bluetooth_rxtx.c:1278-1300 | reversing the n low bits twice is the identity on numbers below 2^n |
| Bits.RevBitsMovesBits | firmware/bluetooth_rxtx/bluetooth_rxtx.c:1284 | bit i of the reversal is bit n-1-i of the input |
| Bits.RbitBytes | firmware/bluetooth_rxtx/bluetooth_rxtx.c:1389 | `rbit` reverses the byte order and the bits within each byte |
| Bits.RbitAdvertisingAa | firmware/bluetooth_rxtx/bluetooth_rxtx.c:76-79 | the advertising address 0x8E89BED6 bit-reversed is 0x6B7D9171, the initial `synch:syncl` |
| Bits.UnpackLe | firmware/bluetooth_rxtx/bluetooth_rxtx.c:1900-1901 | the shift-and-OR loop reads the bytes as a little-endian number below 2^(8n) |
| Bits.PackLe | firmware/bluetooth_rxtx/bluetooth_rxtx.c:499-501 | the byte-extraction loop writes x out little-endian, and reading that back gives x |
| Bits.LeValueLeBytes | firmware/bluetooth_rxtx/bluetooth_rxtx.c:497-503 | splitting a value below 2^(8n) into n little-endian bytes and reading them back gives the value |
| Bits.LeBytesLeValue | firmware/bluetooth_rxtx/bluetooth_rxtx.c:527-528 | reading a byte string little-endian and writing it back gives the string |
| Bits.LeValueShort | firmware/bluetooth_rxtx/bluetooth_rxtx.c:2143-2146 | the firmware's three- and four-byte shift-and-OR expressions are the little-endian value |
| Bits.LeValueBytesOf | firmware/bluetooth_rxtx/bluetooth_rxtx.c:2138-2146 | packing bits into bytes LSB first and reading the bytes little-endian gives the bits' value |
| Whitening.Whiten | firmware/bluetooth_rxtx/bluetooth_rxtx.c:2094-2097 | bit k is XOR-ed with table entry (start+k) mod the table size; the length is kept |
| Whitening.WhitenInvolutive | firmware/bluetooth_rxtx/bluetooth_rxtx.c:2134-2137 | dewhitening from the same start gives the original bits back |
| Whitening.WhitenBits | firmware/bluetooth_rxtx/bluetooth_rxtx.c:2093-2097 | the XOR loop with the cyclic index computes the whitening, ending at index (start+n) mod size |
| Capture.WindowRecent | firmware/bluetooth_rxtx/bluetooth_rxtx.c:1783-1791 | after k shifts the register holds the last 32 symbols, zero-padded while k < 32 |
| Capture.RegisterStep | firmware/bluetooth_rxtx/bluetooth_rxtx.c:1784-1785 | `aa >>= 1; aa \|= bit << 31` moves the window on by one symbol and stays within 32 bits |
| Capture.PrimeRegister | firmware/bluetooth_rxtx/bluetooth_rxtx.c:1783-1786 | the first loop leaves the value of symbols 0..30 in the register |
| Capture.FindAccessAddress | firmware/bluetooth_rxtx/bluetooth_rxtx.c:1782-1791 | it finds the first position whose last 32 symbols equal the followed address, or reports that none does |
| Capture.DesiredAreEmptyPdus | firmware/bluetooth_rxtx/bluetooth_rxtx.c:2078-2088 | each pattern is an empty PDU: header 0x01, 0x09, 0x05 or 0x0D, then length 0 |
| Capture.MatchPattern | firmware/bluetooth_rxtx/bluetooth_rxtx.c:2102-2124 | the result is the first pattern matching at i, and -1 exactly when none matches |
| Capture.PduBitsSplit | firmware/bluetooth_rxtx/bluetooth_rxtx.c:2127-2141 | the copied bits are the 32 raw symbols before i, then 48 symbols dewhitened |
| Capture.ExtractPdu | firmware/bluetooth_rxtx/bluetooth_rxtx.c:2127-2141 | the extraction loops produce the ten bytes of those bits, LSB first |
| Capture.ExtractByte | firmware/bluetooth_rxtx/bluetooth_rxtx.c:2129-2140 | one pass builds byte j and moves the whitening index on only past the address |
| Capture.ExtractedAccessAddress | firmware/bluetooth_rxtx/bluetooth_rxtx.c:2143-2146 | the address reassembled from bytes 0..3 is the value of the 32 symbols before the match |
| Capture.ExtractedPayloadRewhitens | firmware/bluetooth_rxtx/bluetooth_rxtx.c:2134-2137 | the dewhitened bits, whitened again, are the received symbols |
| Transmit.MirrorByte | firmware/bluetooth_rxtx/bluetooth_rxtx.c:991-995 | the inner access-address loop stores the byte bit-reversed |
| Transmit.AirBitsOfRevBits | firmware/bluetooth_rxtx/bluetooth_rxtx.c:987-996 | a mirrored byte sent MSB first puts the original byte on the air LSB first |
| Transmit.AirBitsOfReversed | firmware/bluetooth_rxtx/bluetooth_rxtx.c:1003-1008 | a byte built from bit string w at positions 7-j goes on the air as w |
| Transmit.WhitenByte | firmware/bluetooth_rxtx/bluetooth_rxtx.c:1001-1008 | the data inner loop stores the whitened byte mirrored, and moves the index on by 8 |
| Transmit.MirrorAccessAddress | firmware/bluetooth_rxtx/bluetooth_rxtx.c:988-996 | the four stored bytes put the address's bytes on the air LSB first, and `aa` ends at 0 |
| Transmit.WhitenData | firmware/bluetooth_rxtx/bluetooth_rxtx.c:999-1009 | data byte i goes on the air whitened from table position start+8i |
| Transmit.BuildTxBuffer | firmware/bluetooth_rxtx/bluetooth_rxtx.c:987-1011 | the buffer has len+4 bytes: the address bytes, then the whitened data, in air order |
| Transmit.LeTransmitAsWritten | firmware/bluetooth_rxtx/bluetooth_rxtx.c:978-1035 | as written, the buffer is right but SYNCH is always 0x5555 |
| Transmit.AsWrittenSyncRepeatsBit | firmware/bluetooth_rxtx/bluetooth_rxtx.c:1031-1035 | for every address with bit 0 set, the sync word's last on-air bit equals the address's first bit |
| Transmit.LeTransmit | firmware/bluetooth_rxtx/bluetooth_rxtx.c:978-1035 | with the sync word chosen from the first address bit |
| Transmit.PreambleSyncAlternates | firmware/bluetooth_rxtx/bluetooth_rxtx.c:1031-1035 | the chosen sync byte alternates on the air and runs into the address's first bit |
| HopWalk.Step | firmware/bluetooth_rxtx/bluetooth_rxtx.c:1122-1124 | a step from a channel in 2402..2480 stays in 2402..2480 |
| HopWalk.StepOffset | firmware/bluetooth_rxtx/bluetooth_rxtx.c:1122-1124 | within the band a step adds 32 to the channel's offset, modulo 79 |
| HopWalk.MapIndex | firmware/bluetooth_rxtx/bluetooth_rxtx.c:1125 | the `afh_map` byte index of an in-band channel is within 0..9 |
| HopWalk.Walk | firmware/bluetooth_rxtx/bluetooth_rxtx.c:1121-1125 | any number of steps from an in-band channel stays in band |
| HopWalk.Coverage | firmware/bluetooth_rxtx/bluetooth_rxtx.c:1120-1137 | every in-band channel reaches every in-band channel in fewer than 79 steps |
| HopWalk.NextChannel | firmware/bluetooth_rxtx/bluetooth_rxtx.c:1120-1137 | the do-while walk stops after 1..79 steps on the first qualifying channel; every channel passed over keeps it walking; with the filter off it takes one step from any channel |
| LinkLayer.SyncRegistersGiveAddress | firmware/bluetooth_rxtx/bluetooth_rxtx.c:1388-1391 | `synch:syncl`, bit-reversed again, is the access address |
| LinkLayer.AccessAddressSyncs | firmware/bluetooth_rxtx/bluetooth_rxtx.c:1385-1392 | after `le_set_access_address(aa)`, `access_address == aa` and `synch:syncl == rbit(aa)` |
| LinkLayer.InitialLeSync | firmware/bluetooth_rxtx/bluetooth_rxtx.c:76-88 | the statically initialised sync registers match the advertising address |
| LinkLayer.ResetIsInitial | firmware/bluetooth_rxtx/bluetooth_rxtx.c:1395-1423 | a reset gives the initial state except the target filter and `win_offset_update`, with the sync registers matched |
| LinkLayer.DivideRoundNearest | firmware/bluetooth_rxtx/bluetooth_rxtx.c:1955 | without wrap-around, DIVIDE_ROUND is n/d rounded to nearest, halves up |
| LinkLayer.ElapsedAcrossRollover | firmware/bluetooth_rxtx/bluetooth_rxtx.c:1700-1705 | with the clock's period the corrected difference is the true elapsed time across one rollover |
| LinkLayer.RecoverRolloverShort | firmware/bluetooth_rxtx/bluetooth_rxtx.c:2002-2005 | with 3267800000 a gap across a rollover comes out 9,000,000 ticks short |
| LinkLayer.ConnectReqAddress | firmware/bluetooth_rxtx/bluetooth_rxtx.c:1900-1901 | the new access address is bytes 18..21 read little-endian |
| LinkLayer.ConnectReqCrcInit | firmware/bluetooth_rxtx/bluetooth_rxtx.c:1904-1907 | the CRC initial value is bytes 22..24 read little-endian, below 2^24 |
| LinkLayer.ListeningTransition | firmware/bluetooth_rxtx/bluetooth_rxtx.c:1886-1925 | listening moves to pending exactly for a CONNECT_REQ passing the target filter, taking its address, CRC init and increment (at most 31) with CRC off; otherwise nothing changes |
| LinkLayer.PendingTransition | firmware/bluetooth_rxtx/bluetooth_rxtx.c:1849-1855 | the first packet connects the link, with epoch clkn, timer interval-1, count 0 and no pending update |
| LinkLayer.ConnectedTransition | firmware/bluetooth_rxtx/bluetooth_rxtx.c:1861-1884 | a pending update applies exactly at its instant (new interval, timer, epoch); otherwise interval, timer and epoch are kept |
| LinkLayer.FollowKeepsSync | firmware/bluetooth_rxtx/bluetooth_rxtx.c:1834-1927 | every step of connection following keeps the sync registers matched to the address |
| LinkLayer.CountDownEarly | firmware/bluetooth_rxtx/bluetooth_rxtx.c:673-680 | a tick on a timer above 1 only decrements it |
| LinkLayer.CountDownLast | firmware/bluetooth_rxtx/bluetooth_rxtx.c:673-677 | the tick on a timer at 1 makes a hop due, counts an event and reloads the interval |
| LinkLayer.NoHopBeforeTimer | firmware/bluetooth_rxtx/bluetooth_rxtx.c:670-682 | ticks before the timer reaches 1 bring no hop and only move the timer |
| LinkLayer.HopEveryInterval | firmware/bluetooth_rxtx/bluetooth_rxtx.c:670-682 | a hop is due on exactly the timer's last tick, after which the count went up by one and the timer holds the interval |
| LinkLayer.CountDownsSplit | firmware/bluetooth_rxtx/bluetooth_rxtx.c:670-682 | a+b ticks are a ticks followed by b ticks |
| LinkLayer.TimeoutAcrossRollover | firmware/bluetooth_rxtx/bluetooth_rxtx.c:1700-1708 | a pending or connected link times out exactly when more than 5 s passed, rollover or not |
| LinkLayer.EstimateFits | firmware/bluetooth_rxtx/bluetooth_rxtx.c:2006-2015 | the interval estimate is the rounded quotient itself, never cut by its 16-bit store |
| Recovery.ReceivedCrc | firmware/bluetooth_rxtx/bluetooth_rxtx.c:2040 | the received CRC is bytes 6..8 read little-endian, below 2^24 |
| Recovery.CrcInitMirrored | firmware/bluetooth_rxtx/bluetooth_rxtx.c:2042-2047 | the stored mirror has bit i equal to bit 23-i of the value and reverses back to it; CRC checking is on; nothing else changes |
| Recovery.RbitOf24Bits | firmware/bluetooth_rxtx/bluetooth_rxtx.c:1908 | `rbit` of a 24-bit value is its 24-bit mirror moved up one octet |
| Recovery.CrcReversalsDiffer | firmware/bluetooth_rxtx/bluetooth_rxtx.c:1908 | the CONNECT_REQ reversal differs from the 24-bit loop's for every non-zero CRC init |
| Recovery.ObserveGapFacts | firmware/bluetooth_rxtx/bluetooth_rxtx.c:2005-2030 | short gaps change nothing; the minimum never grows; a new estimate resets the count, an equal one adds one; recovery is exactly the step from 4 to 5 |
| Recovery.SmallestNeverGrows | firmware/bluetooth_rxtx/bluetooth_rxtx.c:2012-2013 | over any run of packets the minimum never grows and ends at most every long gap seen |
| Recovery.SteadyGapsAgree | firmware/bluetooth_rxtx/bluetooth_rxtx.c:2015-2026 | once the estimate matches the minimum, each further long gap adds exactly one agreeing estimate |
| Recovery.CommitIncrementFacts | firmware/bluetooth_rxtx/bluetooth_rxtx.c:1970-1980 | a commit leaves a connected link, CRC off, channel index (1+increment) mod 37 < 37, the address and sync registers kept |
| Recovery.ChannelsHoppedRounds | firmware/bluetooth_rxtx/bluetooth_rxtx.c:1964-1969 | without wrap-around the channels hopped are the elapsed intervals rounded to nearest |
| AaCache.FindAa | firmware/bluetooth_rxtx/bluetooth_rxtx.c:2056-2060 | the first slot holding aa, or -1 exactly when no slot holds it |
| AaCache.MinSlot | firmware/bluetooth_rxtx/bluetooth_rxtx.c:2063-2067 | the first slot holding the smallest count |
| AaCache.SeenAaSlots | firmware/bluetooth_rxtx/bluetooth_rxtx.c:2054-2071 | a cached address's first slot goes up by one; a new address replaces the first least-used slot with (aa, 1); nothing else changes |
| AaCache.SeenAaKeepsInv | firmware/bluetooth_rxtx/bluetooth_rxtx.c:2054-2071 | `see_aa` keeps the empty slots a zero suffix and never creates a second slot for an address |
| AaCache.PromotedSlot | firmware/bluetooth_rxtx/bluetooth_rxtx.c:2154-2155 | the first slot with count above 3, or -1 exactly when there is none |
| AaCache.PromiscState.constructor | firmware/bluetooth_rxtx/bluetooth_rxtx.c:95-103 | the zero-initialised state: every slot (0, 0) |
| AaCache.PromiscState.Reset | firmware/bluetooth_rxtx/bluetooth_rxtx.c:1426-1429 | every slot (0, 0), the count 0, the smallest gap 0xffffffff |
| AaCache.PromiscState.SeeAa | firmware/bluetooth_rxtx/bluetooth_rxtx.c:2054-2071 | the slots become `SeenAa` of the old slots, and the cache invariant is kept |
| AaCache.PromiscState.FindSlot | firmware/bluetooth_rxtx/bluetooth_rxtx.c:2056-2060 | the first loop finds `FindAa` |
| AaCache.PromiscState.LeastUsedSlot | firmware/bluetooth_rxtx/bluetooth_rxtx.c:2055-2067 | the eviction loop with `max = -1` finds the first least-used slot |
| AaCache.PromiscState.FirstPromotable | firmware/bluetooth_rxtx/bluetooth_rxtx.c:2154-2155 | the promotion loop finds `PromotedSlot` |
| Outbox.Offer | firmware/bluetooth_rxtx/bluetooth_rxtx.c:122-152 | enqueueing never changes the queue's capacity; what it does to the queue and flags is stated by `Outbox.OfferOutcome` |
| Outbox.OfferOutcome | firmware/bluetooth_rxtx/bluetooth_rxtx.c:122-152 | a full queue is unchanged and gains FIFO_OVERFLOW, keeping earlier flags; otherwise the packet is appended with the flags so far, which are cleared |
| Outbox.DropIsReported | firmware/bluetooth_rxtx/bluetooth_rxtx.c:126-149 | after a drop and one dequeue, the next queued packet carries FIFO_OVERFLOW and the earlier flags |
| Outbox.PromiscReport | firmware/bluetooth_rxtx/bluetooth_rxtx.c:1944-1951 | 50 bytes: the kind, at most 49 bytes of the field, then zeros |
| Outbox.PromiscReportCarries | firmware/bluetooth_rxtx/bluetooth_rxtx.c:1944-1951 | a report of an n-byte field read little-endian from byte 1 gives the value back |
| Discovery.WhitenedPatterns | firmware/bluetooth_rxtx/bluetooth_rxtx.c:2090-2098 | four patterns of 16 symbols; that a match means an empty PDU is stated by `Discovery.MatchMeansEmptyPdu` |
| Discovery.MatchMeansEmptyPdu | firmware/bluetooth_rxtx/bluetooth_rxtx.c:2090-2112 | a whitened pattern matches exactly when the symbols there dewhiten to that empty PDU |
| Discovery.HitBuffer | firmware/bluetooth_rxtx/bluetooth_rxtx.c:2127-2141 | a hit rewrites only the first ten bytes of the 50-byte buffer; what those bytes hold is stated by `Discovery.HitBufferContents` |
| Discovery.HitBufferContents | firmware/bluetooth_rxtx/bluetooth_rxtx.c:2127-2146 | the buffer starts with the address before the match, and its next six bytes whiten back to the received symbols |
| Discovery.ScanAtKeepsInv | firmware/bluetooth_rxtx/bluetooth_rxtx.c:2101-2150 | one position keeps the cache invariant, the buffer's last 40 bytes and every queued packet |
| Discovery.ScanKeepsInv | firmware/bluetooth_rxtx/bluetooth_rxtx.c:2101-2151 | the whole scan keeps the cache invariant and the last 40 bytes, and only appends to the queue |
| Discovery.ScanCountsEveryHit | firmware/bluetooth_rxtx/bluetooth_rxtx.c:2114-2149 | no match changes nothing; a match puts its address at the buffer's head and in a counted cache slot |
| Discovery.WhitenPatterns | firmware/bluetooth_rxtx/bluetooth_rxtx.c:2090-2098 | the set-up loops whiten each pattern from the channel's start index |
| Host.RequestChannelRange | firmware/bluetooth_rxtx/bluetooth_rxtx.c:349-360 | sweep exactly above MAX_FREQ, from 2402; otherwise a fixed channel clamped into MIN_FREQ..MAX_FREQ |
| Host.SpecanRange | firmware/bluetooth_rxtx/bluetooth_rxtx.c:383-386 | a range is accepted exactly when 2049 <= low <= high <= 3072 |
| Host.TargetOrderReverses | firmware/bluetooth_rxtx/bluetooth_rxtx.c:608-617 | the stored target is the address octet-reversed, and reversing again gives it back |
| Host.RequestedAddress | firmware/bluetooth_rxtx/bluetooth_rxtx.c:528 | the address is the four bytes little-endian, and its encoding is those bytes |
| Rxtx.LeClk | firmware/bluetooth_rxtx/bluetooth_rxtx.c:655 | the connection-clock phase is within 0..3 |
| Rxtx.BtleTick | firmware/bluetooth_rxtx/bluetooth_rxtx.c:669-682 | a BTLE tick acts only on a connected link at phase 0, hops exactly when the timer was at 1, and then counts an event and reloads the timer |
| Rxtx.Engine.constructor | firmware/bluetooth_rxtx/bluetooth_rxtx.c:44-88 | the statically initialised globals |
| Rxtx.Engine.Enqueue | firmware/bluetooth_rxtx/bluetooth_rxtx.c:122-152 | answers whether the queue had room; the outbox becomes `Offer` of the stamped packet |
| Rxtx.Engine.LePromiscState | firmware/bluetooth_rxtx/bluetooth_rxtx.c:1944-1952 | queues the 50-byte report of kind and field |
| Rxtx.Engine.SetAccessAddress | firmware/bluetooth_rxtx/bluetooth_rxtx.c:1385-1392 | `le` becomes the address with its sync registers |
| Rxtx.Engine.Tick | firmware/bluetooth_rxtx/bluetooth_rxtx.c:648-698 | the clock advances by 1 plus the offset (plus 2 when trimmed); `do_hop` is raised by the mode's cadence; only BTLE counts down |
| Rxtx.Engine.Hop | firmware/bluetooth_rxtx/bluetooth_rxtx.c:1106-1149 | clears `do_hop`, notes the time, and per mode stays, walks to a qualifying channel, asks the hop sequence (`btle_next_hop` moving only the channel index), or jumps |
| Rxtx.Engine.ConnectionFollowCb | firmware/bluetooth_rxtx/bluetooth_rxtx.c:1834-1927 | `le` follows `FollowConnection`; a taken CONNECT_REQ raises `do_hop`; connecting arms the jam count |
| Rxtx.Engine.FollowListening | firmware/bluetooth_rxtx/bluetooth_rxtx.c:1886-1925 | the listening branch, raising `do_hop` exactly for a CONNECT_REQ that passes the filter |
| Rxtx.Engine.FollowConnected | firmware/bluetooth_rxtx/bluetooth_rxtx.c:1861-1884 | the connected branch: apply a due update, then record an update request |
| Rxtx.Engine.TakeConnectReq | firmware/bluetooth_rxtx/bluetooth_rxtx.c:1897-1921 | the CONNECT_REQ fields are taken up as `AcceptConnectReq` |
| Rxtx.Engine.LeSyncTimeout | firmware/bluetooth_rxtx/bluetooth_rxtx.c:1699-1732 | no time-out changes nothing; on time-out the link is reset, jamming stops, a one-shot jam asks for the idle mode and returns, a link followed from promiscuous mode returns from `bt_le_sync` with the advertising address in place (after which `bt_promisc_le` restarts discovery only when no target is set), and otherwise the link listens again on the saved channel or 2402 |
| Rxtx.Engine.SessionOver | firmware/bluetooth_rxtx/bluetooth_rxtx.c:1700-1708 | the teardown test is `TimedOut` |
| Rxtx.Engine.RearmRadio | firmware/bluetooth_rxtx/bluetooth_rxtx.c:1740-1757 | jams exactly while the count is positive, decrementing it; otherwise re-arms, resynchronising when asked and clearing the request |
| Rxtx.Engine.PromiscFollowCb | firmware/bluetooth_rxtx/bluetooth_rxtx.c:2035-2051 | an empty PDU with CRC off yields the CRC init and its mirror, CRC on, the next stage and a report; anything else changes nothing |
| Rxtx.Engine.PromiscRecoverHopInterval | firmware/bluetooth_rxtx/bluetooth_rxtx.c:1999-2033 | the search state follows `ObserveGap`; the fifth agreeing estimate moves to increment recovery on 2404 and reports |
| Rxtx.Engine.FoldGap | firmware/bluetooth_rxtx/bluetooth_rxtx.c:2012-2030 | a long gap is folded into the search as `ObserveGap` |
| Rxtx.Engine.PromiscRecoverHopIncrement | firmware/bluetooth_rxtx/bluetooth_rxtx.c:1957-1997 | 2404 starts the clock and probes 2406; 2406 commits when under 37 channels hopped; any other case re-probes 2404 |
| Rxtx.Engine.CommitHopIncrement | firmware/bluetooth_rxtx/bluetooth_rxtx.c:1970-1988 | commits the increment, switches to BTLE following, reports it and arms the jam count |
| Rxtx.Engine.ResetLe | firmware/bluetooth_rxtx/bluetooth_rxtx.c:1395-1423 | `le` becomes `ResetLe` of the old `le`, and `do_hop` is cleared |
| Rxtx.Engine.CbLePromisc | firmware/bluetooth_rxtx/bluetooth_rxtx.c:2074-2167 | cache, buffer and queue follow the scan specification; the first slot above 3 is followed and reported (answer false), or discovery goes on (true) |
| Rxtx.Engine.Promote | firmware/bluetooth_rxtx/bluetooth_rxtx.c:2153-2166 | follows the first promotable slot's address, or changes nothing |
| Rxtx.Engine.FollowAddress | firmware/bluetooth_rxtx/bluetooth_rxtx.c:2156-2160 | sets the address with CRC off, installs the follow handlers, and reports the address |
| Rxtx.Engine.ScanBuffer | firmware/bluetooth_rxtx/bluetooth_rxtx.c:2100-2151 | the position loop computes `ScanUpTo` over 32..751 |
| Rxtx.Engine.ScanPosition | firmware/bluetooth_rxtx/bluetooth_rxtx.c:2101-2150 | one position computes `ScanAt` |
| Rxtx.Engine.TakeHit | firmware/bluetooth_rxtx/bluetooth_rxtx.c:2126-2149 | a hit counts its address with `see_aa`, fills the buffer and queues it |
| Rxtx.Engine.ExtractHit | firmware/bluetooth_rxtx/bluetooth_rxtx.c:2126-2146 | the buffer gets the hit's ten bytes, and the address read back is the one before the match |
| Rxtx.Engine.SetChannel | firmware/bluetooth_rxtx/bluetooth_rxtx.c:348-370 | sets the hop mode; retunes at once outside BTLE following, otherwise leaves the channel in `requested_channel` |
| Rxtx.Engine.SpecanRequest | firmware/bluetooth_rxtx/bluetooth_rxtx.c:382-391 | accepts exactly a valid range, storing it and requesting SPECAN; a refused one changes nothing |
| Rxtx.Engine.SetTarget | firmware/bluetooth_rxtx/bluetooth_rxtx.c:608-618 | stores the address octet-reversed and turns the filter on |
| Rxtx.Engine.GetClock | firmware/bluetooth_rxtx/bluetooth_rxtx.c:497-503 | four bytes, byte i is byte i of `clkn`, and together they read back as `clkn` |
| Rxtx.Engine.GetAccessAddress | firmware/bluetooth_rxtx/bluetooth_rxtx.c:520-525 | four bytes that read back little-endian as the followed address |
| Rxtx.Engine.SetAccessAddressRequest | firmware/bluetooth_rxtx/bluetooth_rxtx.c:527-530 | follows the little-endian address from the request and turns the filter on |

## Left out

- Radio, DMA and USB hardware are not modelled:
  - `cc2400_*` register writes, strobes and busy-waits;
  - the retune half of `hop` (1151-1175);
  - `le_jam`;
  - the FIFO feeding of `le_transmit`;
  - LEDs;
  - the DMA waits and buffer swaps of `bt_le_sync`;
  - the interrupt handlers other than the timer tick.

  These are hardware I/O and polling; the received buffers and the clock come in as
  parameters.
- The RSSI fields of `enqueue` and `cs_threshold_calc_and_set` are left out. Their
  meaning lives in the RSSI modules.
- `usb_enqueue` is modelled as a bounded queue whose capacity is a parameter of
  `Rxtx.Engine.constructor`.
- External functions and tables come in as parameters, with nothing assumed about
  their internals: `next_hop`, `btle_reverse_crc`, `hop_interval_lut`, the
  `whitening` table and the per-channel `whitening_index` start.
- `btle_next_hop` is external too. It is given as the channel index it leaves in `le`
  and the channel it answers, so `Rxtx.Engine.Hop` assumes it changes no other field of
  `le`.
- `Transmit.BuildTxBuffer`, `Transmit.LeTransmitAsWritten` and `Transmit.LeTransmit`
  require `len + 4 <= 64`. `le_transmit` has no such guard and writes past `txbuf`
  for `len > 60`; that overflow is not modelled. The only caller, `bt_slave_le`,
  passes 14.
- `rbit` is defined as 32-bit bit reversal, the ARM `RBIT` instruction.
- Some constants come from headers that are not part of this model:
  - `MIN_FREQ` 2268 and `MAX_FREQ` 2794;
  - `LE_BASECLK` 12500 and `DMA_SIZE` 50;
  - the `status` flag values;
  - the `le_state_t` field widths, chosen from how the fields are used and stated in
    `LinkLayer`.
- OR-ing bits or shifted bytes that cannot overlap is written as addition.
- `LinkLayer.DivideRound`: a zero divisor (reachable while `conn_interval` is 0)
  gives 0, as the Cortex-M3 `UDIV` does by default.
- `AaCache.ActiveAa`: the C `int count` is unbounded here. Overflow would take 2^31
  sightings of one address. A count above 3 is promoted at the end of the same
  `cb_le_promisc` call, and one call sees at most 720 matches.
- `HopWalk.NextChannel` and `Rxtx.Engine.Hop` require, for a SWEEP or AFH walk whose
  filter is on (`HopWalk.WalkFiltered`), that the start channel is in 2402..2480 and
  that some in-band channel ends the walk. Otherwise the firmware's do-while loop
  indexes `afh_map` out of range, or does not terminate. With the filter off the
  walk takes its single step from any channel, and the model covers that case.
- `Rxtx.Engine.ExtractHit` does not model the `offset >= DMA_SIZE*8*2` break. Every
  position the scan tries reads at most symbol 799, so the break never fires.
- Not modelled from `cb_follow_le` (1792-1829): the extraction of the 46 bytes after
  the followed address, the CRC check through `btle_crcgen_lut`, and the hand-off to
  `packet_cb`. The model covers the access-address search (`Capture.FindAccessAddress`).
- Not modelled from `bt_le_sync`: the dewhitening, CRC check and delivery of each
  received packet (1665-1687, including `le.last_packet`), the `requested_channel`
  hand-over, and the receive loop around the teardown.
- The modes outside BTLE (`bt_stream_rx`, `br_transmit`, `specan`, `led_specan`, the
  test modes) and the other vendor requests are outside the modelled core.

## Findings

| source | as written | input that shows it | evidently intended | confidence | as-written member | corrected member |
|---|---|---|---|---|---|---|
| firmware/bluetooth_rxtx/bluetooth_rxtx.c:1031-1035 | SYNCH is chosen from `aa & 1` after the access-address loop (988-996) has shifted `aa` right 32 times, so it is always 0x5555 | any aa with bit 0 set, such as aa = 1: the sync byte's last on-air bit is 1, the same as the address's first bit, so the preamble does not alternate into the address. The only caller, `bt_slave_le` (2229), passes 0x8e89bed6, whose bit 0 is 0, so there the as-written 0x5555 is also the intended choice and the defect stays latent in this file | choose 0xaaaa when the address's first transmitted bit (bit 0 of the original `aa`) is set, as the comment at 1031 says | not executed | Transmit.LeTransmitAsWritten, Transmit.AsWrittenSyncRepeatsBit | Transmit.LeTransmit, Transmit.PreambleSyncAlternates |
