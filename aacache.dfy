/**
 * `le_promisc`: the state of promiscuous BTLE discovery. Its 32-slot `active_aa`
 * array is a least-frequently-used cache of the access addresses seen so far; the
 * other two fields belong to hop-interval recovery.
 */
module AaCache {
  import opened Types

  /**
   * One `le_promisc_active_aa_t` slot: an access address and how often it was seen.
   * The count starts at zero and is only ever incremented or set to 1, so it is a `nat`.
   */
  datatype ActiveAa = ActiveAa(aa: u32, count: nat)

  /** Count above which a cached address is followed. */
  const PROMOTE_ABOVE: int := 3

  /**
   * The shape every reachable cache has: the empty (zero-count) slots are a suffix
   * still holding address 0, and no address has two slots with a positive count.
   */
  ghost predicate CacheInv(s: seq<ActiveAa>)
  {
    && (forall i :: 0 <= i < |s| && s[i].count == 0 ==> s[i].aa == 0)
    && (forall i, j :: 0 <= i < j < |s| && s[i].count == 0 ==> s[j].count == 0)
    && (forall i, j :: 0 <= i < j < |s| && s[i].count > 0 && s[j].count > 0 ==> s[i].aa != s[j].aa)
  }

  /** The first slot holding aa, or -1: the first loop of `see_aa`. */
  function FindAa(s: seq<ActiveAa>, aa: u32): (i: int)
    ensures -1 <= i < |s|
    ensures i >= 0 ==> s[i].aa == aa && forall j :: 0 <= j < i ==> s[j].aa != aa
    ensures i < 0 ==> forall j :: 0 <= j < |s| ==> s[j].aa != aa
  {
    if s == [] then -1
    else if s[0].aa == aa then 0
    else
      var r := FindAa(s[1..], aa);
      if r < 0 then -1 else r + 1
  }

  /** The first slot among the n first holding their smallest count. */
  function MinSlot(s: seq<ActiveAa>, n: nat): (k: nat)
    requires 0 < n <= |s|
    ensures k < n
    ensures forall j :: 0 <= j < n ==> s[k].count <= s[j].count
    ensures forall j :: 0 <= j < k ==> s[j].count > s[k].count
  {
    if n == 1 then 0
    else
      var m := MinSlot(s, n - 1);
      if s[n - 1].count < s[m].count then n - 1 else m
  }

  /** `see_aa` on the slot contents: increment the address's slot, or evict the first least-used one. */
  function SeenAa(s: seq<ActiveAa>, aa: u32): (r: seq<ActiveAa>)
    requires |s| > 0
    ensures |r| == |s|
  {
    var i := FindAa(s, aa);
    if i >= 0 then s[i := s[i].(count := s[i].count + 1)]
    else s[MinSlot(s, |s|) := ActiveAa(aa, 1)]
  }

  /**
   * Cached address: its first slot's count goes up by one, nothing else changes.
   * New address: the first slot holding the minimum count is overwritten with (aa, 1),
   * nothing else changes.
   */
  lemma SeenAaSlots(s: seq<ActiveAa>, aa: u32)
    requires |s| > 0
    ensures var r := SeenAa(s, aa);
      (exists i :: 0 <= i < |s| && s[i].aa == aa) ==>
        exists i :: 0 <= i < |s| && s[i].aa == aa && (forall j :: 0 <= j < i ==> s[j].aa != aa) &&
          r == s[i := ActiveAa(aa, s[i].count + 1)]
    ensures var r := SeenAa(s, aa);
      (forall i :: 0 <= i < |s| ==> s[i].aa != aa) ==>
        exists k :: 0 <= k < |s| && (forall j :: 0 <= j < |s| ==> s[k].count <= s[j].count) &&
          (forall j :: 0 <= j < k ==> s[j].count > s[k].count) && r == s[k := ActiveAa(aa, 1)]
  {
    var i := FindAa(s, aa);
    if i >= 0 {
      assert s[i].(count := s[i].count + 1) == ActiveAa(aa, s[i].count + 1);
    } else {
      var k := MinSlot(s, |s|);
      assert SeenAa(s, aa) == s[k := ActiveAa(aa, 1)];
    }
  }

  /** `see_aa` keeps the cache's shape: in particular it never creates a second slot for an address. */
  lemma SeenAaKeepsInv(s: seq<ActiveAa>, aa: u32)
    requires |s| > 0 && CacheInv(s)
    ensures CacheInv(SeenAa(s, aa))
  {
    var r := SeenAa(s, aa);
    var i := FindAa(s, aa);
    if i >= 0 {
      forall j | 0 <= j < i ensures s[j].count > 0 {
      }
      forall j | i < j < |s| && s[j].count > 0 ensures s[j].aa != aa {
      }
    } else {
      var k := MinSlot(s, |s|);
      forall j | 0 <= j < k ensures s[j].count > 0 {
      }
    }
  }

  /** The first slot whose count is above the promotion threshold, or -1. */
  function PromotedSlot(s: seq<ActiveAa>): (i: int)
    ensures -1 <= i < |s|
    ensures i >= 0 ==> s[i].count > PROMOTE_ABOVE && forall j :: 0 <= j < i ==> s[j].count <= PROMOTE_ABOVE
    ensures i < 0 ==> forall j :: 0 <= j < |s| ==> s[j].count <= PROMOTE_ABOVE
  {
    if s == [] then -1
    else if s[0].count > PROMOTE_ABOVE then 0
    else
      var r := PromotedSlot(s[1..]);
      if r < 0 then -1 else r + 1
  }

  /** The state of promiscuous discovery (`le_promisc_state_t`). */
  class PromiscState {
    /** `active_aa`: the LFU cache of recently seen access addresses. */
    const activeAa: array<ActiveAa>
    /** Smallest gap between packets seen while recovering the hop interval, in 100 ns ticks. */
    var smallestHopInterval: u32
    /** How many consecutive estimates agreed with the current hop interval. */
    var consecIntervals: int

    ghost predicate Valid()
      reads activeAa
    {
      activeAa.Length == AA_LIST_SIZE && CacheInv(activeAa[..])
    }

    /** The statically zero-initialised `le_promisc`. */
    constructor ()
      ensures Valid() && fresh(activeAa)
      ensures forall i :: 0 <= i < AA_LIST_SIZE ==> activeAa[i] == ActiveAa(0, 0)
      ensures smallestHopInterval == 0 && consecIntervals == 0
    {
      activeAa := new ActiveAa[AA_LIST_SIZE](_ => ActiveAa(0, 0));
      smallestHopInterval := 0;
      consecIntervals := 0;
    }

    /** `reset_le_promisc`: zero the whole state, then set the smallest gap to 0xffffffff. */
    method Reset()
      requires activeAa.Length == AA_LIST_SIZE
      modifies this`smallestHopInterval, this`consecIntervals, activeAa
      ensures Valid()
      ensures forall i :: 0 <= i < AA_LIST_SIZE ==> activeAa[i] == ActiveAa(0, 0)
      ensures smallestHopInterval == 0xffff_ffff && consecIntervals == 0
    {
      var i := 0;
      while i < AA_LIST_SIZE
        invariant 0 <= i <= AA_LIST_SIZE
        invariant forall j :: 0 <= j < i ==> activeAa[j] == ActiveAa(0, 0)
      {
        activeAa[i] := ActiveAa(0, 0);
        i := i + 1;
      }
      consecIntervals := 0;
      smallestHopInterval := 0xffff_ffff;
    }

    /** `see_aa`: count one more sighting of aa, evicting the least used slot if aa is new. */
    method SeeAa(aa: u32)
      requires activeAa.Length == AA_LIST_SIZE
      modifies activeAa
      ensures activeAa[..] == SeenAa(old(activeAa[..]), aa)
      ensures old(Valid()) ==> Valid()
    {
      ghost var s := activeAa[..];
      var i := FindSlot(aa);
      if i >= 0 {
        activeAa[i] := activeAa[i].(count := activeAa[i].count + 1);
        assert activeAa[..] == SeenAa(s, aa);
      } else {
        var killme := LeastUsedSlot();
        activeAa[killme] := ActiveAa(aa, 1);
        assert activeAa[..] == SeenAa(s, aa);
      }
      if CacheInv(s) {
        SeenAaKeepsInv(s, aa);
      }
    }

    /** The first loop of `see_aa`: the first slot holding aa, or -1. */
    method FindSlot(aa: u32) returns (i: int)
      requires activeAa.Length == AA_LIST_SIZE
      ensures i == FindAa(activeAa[..], aa)
    {
      i := 0;
      while i < AA_LIST_SIZE
        invariant 0 <= i <= AA_LIST_SIZE
        invariant forall j :: 0 <= j < i ==> activeAa[j].aa != aa
      {
        if activeAa[i].aa == aa {
          return;
        }
        i := i + 1;
      }
      i := -1;
    }

    /**
     * The eviction loop of `see_aa`: `max` starts at -1 and the slot is replaced
     * whenever a strictly smaller count turns up, so the first least-used slot wins.
     */
    method LeastUsedSlot() returns (killme: int)
      requires activeAa.Length == AA_LIST_SIZE
      ensures killme == MinSlot(activeAa[..], AA_LIST_SIZE)
    {
      var max: int := -1;
      killme := -1;
      var i := 0;
      while i < AA_LIST_SIZE
        invariant 0 <= i <= AA_LIST_SIZE
        invariant i == 0 ==> max == -1
        invariant i > 0 ==> killme == MinSlot(activeAa[..], i) && max == activeAa[killme].count
      {
        if activeAa[i].count < max || max < 0 {
          killme := i;
          max := activeAa[i].count;
        }
        i := i + 1;
      }
    }

    /**
     * The promotion scan at the end of `cb_le_promisc`: the first slot whose count is
     * above 3, or -1.
     */
    method FirstPromotable() returns (i: int)
      requires activeAa.Length == AA_LIST_SIZE
      ensures i == PromotedSlot(activeAa[..])
    {
      i := 0;
      while i < AA_LIST_SIZE
        invariant 0 <= i <= AA_LIST_SIZE
        invariant forall j :: 0 <= j < i ==> activeAa[j].count <= PROMOTE_ABOVE
      {
        if activeAa[i].count > PROMOTE_ABOVE {
          return;
        }
        i := i + 1;
      }
      i := -1;
    }
  }
}
