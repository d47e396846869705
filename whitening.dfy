/**
 * BTLE data whitening as the firmware applies it: each payload bit is XOR-ed with
 * `whitening[idx]`, where idx starts at the channel's `whitening_index` entry and
 * runs cyclically (`idx = (idx + 1) % sizeof(whitening)`) over the table. The table
 * and its per-channel start index are external constants and appear as parameters.
 */
module Whitening {
  import opened Bits

  /** bits XOR-ed with the whitening table read cyclically from position `start`. */
  function Whiten(bits: seq<bool>, table: seq<bool>, start: nat): (r: seq<bool>)
    requires |table| > 0
    ensures |r| == |bits|
    ensures forall k :: 0 <= k < |bits| ==> r[k] == (bits[k] != table[(start + k) % |table|])
  {
    if bits == [] then []
    else [bits[0] != table[start % |table|]] + Whiten(bits[1..], table, start + 1)
  }

  /** Dewhitening is whitening again from the same start: it gives the original bits back. */
  lemma WhitenInvolutive(bits: seq<bool>, table: seq<bool>, start: nat)
    requires |table| > 0
    ensures Whiten(Whiten(bits, table, start), table, start) == bits
  {
    var w := Whiten(Whiten(bits, table, start), table, start);
    forall k | 0 <= k < |bits| ensures w[k] == bits[k] {
    }
  }

  /** `idx = (idx + 1) % sizeof(whitening)` keeps idx equal to (start + steps) mod the table size. */
  lemma ModSucc(a: nat, n: nat)
    requires n > 0
    ensures (a % n + 1) % n == (a + 1) % n
  {
    var q, r := a / n, a % n;
    DivMod(a, n);
    if r + 1 < n {
      DivUnique(r + 1, n, 0, r + 1);
      DivUnique(a + 1, n, q, r + 1);
    } else {
      DivUnique(r + 1, n, 1, 0);
      DivUnique(a + 1, n, q + 1, 0);
    }
  }

  /**
   * The whitening loop of `cb_le_promisc` (and of `le_transmit`, one byte at a time):
   * each bit is XOR-ed with `whitening[idx]` and idx advances cyclically.
   */
  method WhitenBits(bits: seq<bool>, table: seq<bool>, start: nat) returns (r: seq<bool>, idx: nat)
    requires 0 <= start < |table|
    ensures r == Whiten(bits, table, start)
    ensures idx == (start + |bits|) % |table|
  {
    r := [];
    idx := start;
    var j := 0;
    while j < |bits|
      invariant 0 <= j <= |bits|
      invariant idx == (start + j) % |table|
      invariant |r| == j
      invariant forall k :: 0 <= k < j ==> r[k] == (bits[k] != table[(start + k) % |table|])
    {
      r := r + [bits[j] != table[idx]];
      ModSucc(start + j, |table|);
      idx := (idx + 1) % |table|;
      j := j + 1;
    }
  }
}
