/**
 * The specification of `cb_le_promisc`'s scan: at each symbol position 32..751 the
 * four whitened empty-PDU patterns are tried; at a match, the 32 symbols before it are
 * taken as an access address and counted in the cache, and the extracted PDU start is
 * queued for the host.
 */
module Discovery {
  import opened Types
  import opened Bits
  import opened Whitening
  import opened Capture
  import opened AaCache
  import opened Outbox

  /** The four empty-PDU patterns as they appear on the air, whitened from start. */
  function WhitenedPatterns(table: seq<bool>, start: nat): (d: seq<seq<bool>>)
    requires |table| > 0
    ensures |d| == 4 && forall j :: 0 <= j < 4 ==> |d[j]| == 16
  {
    seq(4, j requires 0 <= j < 4 => Whiten(DESIRED[j], table, start))
  }

  /**
   * A whitened pattern matches at i exactly when the 16 symbols there, dewhitened,
   * are that empty PDU's header and length.
   */
  lemma MatchMeansEmptyPdu(u: seq<bool>, i: nat, table: seq<bool>, start: nat, j: nat)
    requires |table| > 0 && j < 4 && i + 16 <= |u|
    ensures MatchesAt(u, i, WhitenedPatterns(table, start)[j]) <==> Whiten(u[i..i + 16], table, start) == DESIRED[j]
  {
    var p := WhitenedPatterns(table, start)[j];
    var w := Whiten(u[i..i + 16], table, start);
    DesiredAreEmptyPdus(j);
    if MatchesAt(u, i, p) {
      forall k | 0 <= k < 16 ensures w[k] == DESIRED[j][k] {
        assert u[i + k] == p[k];
      }
    }
    if w == DESIRED[j] {
      forall k | 0 <= k < 16 ensures u[i + k] == p[k] {
        assert w[k] == DESIRED[j][k];
      }
    }
  }

  /** Some pattern matches at i. */
  predicate AnyMatch(u: seq<bool>, i: nat, desired: seq<seq<bool>>)
    requires |desired| == 4
  {
    MatchesAt(u, i, desired[0]) || MatchesAt(u, i, desired[1]) ||
    MatchesAt(u, i, desired[2]) || MatchesAt(u, i, desired[3])
  }

  /** The access address reported for a match at i: the 32 symbols received before it. */
  function SeenAddress(u: seq<bool>, i: nat): (aa: u32)
    requires 32 <= i <= |u|
  {
    Pow2Values();
    ValueOf(u[i - 32..i])
  }

  /** What the scan changes: the address cache, `idle_rxbuf` and the USB outbox. */
  datatype Scan = Scan(cache: seq<ActiveAa>, rxbuf: seq<u8>, out: Outbox)

  predicate ScanShape(sc: Scan)
  {
    |sc.cache| > 0 && |sc.rxbuf| == PACKET_DATA
  }

  /** `idle_rxbuf` after a hit at i: the ten extracted bytes over its first ten. */
  function HitBuffer(u: seq<bool>, i: nat, table: seq<bool>, start: nat, buf: seq<u8>): (r: seq<u8>)
    requires 32 <= i && i + 48 <= |u| && |table| > 0 && |buf| == PACKET_DATA
    ensures |r| == PACKET_DATA && r[10..] == buf[10..]
  {
    BytesOf(PduBits(u, i, table, start)) + buf[10..]
  }

  /**
   * The buffer of a hit starts with the access address, little-endian, and its next
   * six bytes whiten back to the symbols received after the address.
   */
  lemma HitBufferContents(u: seq<bool>, i: nat, table: seq<bool>, start: nat, buf: seq<u8>)
    requires 32 <= i && i + 48 <= |u| && |table| > 0 && |buf| == PACKET_DATA
    ensures var r := HitBuffer(u, i, table, start, buf);
      && LeValue(r[..4]) == SeenAddress(u, i)
      && BytesOf(Whiten(PduBits(u, i, table, start)[32..], table, start)) == BytesOf(u[i..i + 48])
      && r[4..10] == BytesOf(PduBits(u, i, table, start)[32..])
  {
    var bits := PduBits(u, i, table, start);
    var bytes := BytesOf(bits);
    assert (bytes + buf[10..])[..4] == bytes[..4];
    ExtractedAccessAddress(u, i, table, start);
    ExtractedPayloadRewhitens(u, i, table, start);
    var tail := BytesOf(bits[32..]);
    forall k | 0 <= k < 6 ensures bytes[4 + k] == tail[k] {
      assert bits[8 * (4 + k)..8 * (4 + k) + 8] == bits[32..][8 * k..8 * k + 8];
    }
  }

  /**
   * One position i of the scan: on a match the address before it is counted, the
   * extracted bytes go into the buffer, and the buffer is queued with the given stamp.
   */
  function ScanAt(sc: Scan, u: seq<bool>, desired: seq<seq<bool>>, table: seq<bool>, start: nat, stamp: Stamp, i: nat): (r: Scan)
    requires ScanShape(sc) && |u| == UNPACKED_LEN && |desired| == 4 && |table| > 0 && 32 <= i < PROMISC_SCAN_END
    ensures ScanShape(r)
  {
    if AnyMatch(u, i, desired) then
      var buf := HitBuffer(u, i, table, start, sc.rxbuf);
      Scan(SeenAa(sc.cache, SeenAddress(u, i)), buf, Offer(sc.out, Received(LePacket, stamp, buf)))
    else sc
  }

  /** The scan after it has tried positions 32..n-1. */
  function ScanUpTo(sc: Scan, u: seq<bool>, desired: seq<seq<bool>>, table: seq<bool>, start: nat, stamp: Stamp, n: nat): (r: Scan)
    requires ScanShape(sc) && |u| == UNPACKED_LEN && |desired| == 4 && |table| > 0 && n <= PROMISC_SCAN_END
    ensures ScanShape(r)
    decreases n
  {
    if n <= 32 then sc
    else ScanAt(ScanUpTo(sc, u, desired, table, start, stamp, n - 1), u, desired, table, start, stamp, n - 1)
  }

  /** One position keeps the cache's shape, the buffer's last forty bytes and every queued packet. */
  lemma ScanAtKeepsInv(sc: Scan, u: seq<bool>, desired: seq<seq<bool>>, table: seq<bool>, start: nat, stamp: Stamp, i: nat)
    requires ScanShape(sc) && |u| == UNPACKED_LEN && |desired| == 4 && |table| > 0 && 32 <= i < PROMISC_SCAN_END
    ensures var r := ScanAt(sc, u, desired, table, start, stamp, i);
      && (CacheInv(sc.cache) ==> CacheInv(r.cache))
      && r.rxbuf[10..] == sc.rxbuf[10..]
      && r.out.capacity == sc.out.capacity
      && sc.out.queue <= r.out.queue
  {
    if AnyMatch(u, i, desired) && CacheInv(sc.cache) {
      SeenAaKeepsInv(sc.cache, SeenAddress(u, i));
    }
  }

  /**
   * However many addresses the scan counts, the cache keeps its shape, the buffer's
   * last forty bytes are never touched, and the outbox is only appended to.
   */
  lemma {:induction false} ScanKeepsInv(sc: Scan, u: seq<bool>, desired: seq<seq<bool>>, table: seq<bool>, start: nat, stamp: Stamp, n: nat)
    requires ScanShape(sc) && |u| == UNPACKED_LEN && |desired| == 4 && |table| > 0 && n <= PROMISC_SCAN_END
    ensures var r := ScanUpTo(sc, u, desired, table, start, stamp, n);
      && (CacheInv(sc.cache) ==> CacheInv(r.cache))
      && r.rxbuf[10..] == sc.rxbuf[10..]
      && r.out.capacity == sc.out.capacity
      && sc.out.queue <= r.out.queue
    decreases n
  {
    if n > 32 {
      ScanKeepsInv(sc, u, desired, table, start, stamp, n - 1);
      ScanAtKeepsInv(ScanUpTo(sc, u, desired, table, start, stamp, n - 1), u, desired, table, start, stamp, n - 1);
    }
  }

  /**
   * Every packet the scan queues is the buffer of a hit: it starts with the address
   * received 32 symbols before a match, and a match anywhere puts that address in the cache.
   */
  lemma ScanCountsEveryHit(sc: Scan, u: seq<bool>, desired: seq<seq<bool>>, table: seq<bool>, start: nat, stamp: Stamp, i: nat)
    requires ScanShape(sc) && |u| == UNPACKED_LEN && |desired| == 4 && |table| > 0 && 32 <= i < PROMISC_SCAN_END
    ensures var r := ScanAt(sc, u, desired, table, start, stamp, i);
      && (!AnyMatch(u, i, desired) ==> r == sc)
      && (AnyMatch(u, i, desired) ==>
            && LeValue(r.rxbuf[..4]) == SeenAddress(u, i)
            && exists k :: 0 <= k < |r.cache| && r.cache[k].aa == SeenAddress(u, i) && r.cache[k].count > 0)
  {
    if AnyMatch(u, i, desired) {
      var aa := SeenAddress(u, i);
      HitBufferContents(u, i, table, start, sc.rxbuf);
      var j := FindAa(sc.cache, aa);
      if j < 0 {
        var k := MinSlot(sc.cache, |sc.cache|);
        assert ScanAt(sc, u, desired, table, start, stamp, i).cache[k].aa == aa;
      } else {
        SeenAaSlots(sc.cache, aa);
        var r := ScanAt(sc, u, desired, table, start, stamp, i).cache;
        assert r[j].aa == aa;
      }
    }
  }

  /**
   * The pattern set-up of `cb_le_promisc`: each of the four empty-PDU patterns is
   * whitened from the channel's start index.
   */
  method WhitenPatterns(table: seq<bool>, start: nat) returns (desired: seq<seq<bool>>)
    requires start < |table|
    ensures desired == WhitenedPatterns(table, start)
  {
    desired := [];
    var i := 0;
    while i < 4
      invariant 0 <= i <= 4 && |desired| == i
      invariant forall j :: 0 <= j < i ==> desired[j] == Whiten(DESIRED[j], table, start)
    {
      var w, _ := WhitenBits(DESIRED[i], table, start);
      desired := desired + [w];
      i := i + 1;
    }
  }
}
