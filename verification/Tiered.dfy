/**
 The two-tier residency replay. New tensors enter WARM; a WARM tensor that has been reused
 often enough becomes OLD and is promoted to HOT, which may demote HOT tensors back to
 WARM, which may drop WARM tensors. This module gives the meaning of each operation as a
 function on values.
 */
module Tiered {
  import opened Common

  datatype Tier = HOT | WARM

  datatype Generation = NEW | YOUNG | OLD

  datatype Item = Item(bytes: nat, tier: Tier, generation: Generation, count: nat, last: nat)

  type Items = map<nat, Item>

  datatype Request = Request(ref: nat, bytes: nat)

  datatype Capacities = Capacities(hot: nat, warm: nat, oldAfter: nat)

  /** Byte counters are integers: nothing in the code keeps them from going negative. */
  datatype Store = Store(
    entries: Items, hotBytes: int, warmBytes: int,
    promotions: nat, demotions: nat, warmAdmissions: nat, warmEvictions: nat,
    misses: nat, hotHits: nat, warmHits: nat)

  const EMPTY := Store(map[], 0, 0, 0, 0, 0, 0, 0, 0, 0)

  function InTier(entries: Items, tier: Tier): set<nat> {
    set r | r in entries && entries[r].tier == tier
  }

  // ---------------------------------------------------------------- the oldest entry of a tier

  predicate Older(entries: Items, a: nat, b: nat)
    requires a in entries && b in entries
  {
    entries[a].last < entries[b].last || (entries[a].last == entries[b].last && a <= b)
  }

  ghost predicate IsOldest(entries: Items, among: set<nat>, v: nat)
    requires among <= entries.Keys
  {
    v in among && forall r :: r in among ==> Older(entries, v, r)
  }

  lemma {:induction false} OldestExists(entries: Items, among: set<nat>)
    requires among <= entries.Keys && among != {}
    ensures exists v :: IsOldest(entries, among, v)
  {
    var x :| x in among;
    if among == {x} {
      assert IsOldest(entries, among, x);
    } else {
      OldestExists(entries, among - {x});
      var w :| IsOldest(entries, among - {x}, w);
      assert among == among - {x} + {x};
      assert IsOldest(entries, among, if Older(entries, x, w) then x else w);
    }
  }

  ghost function Oldest(entries: Items, among: set<nat>): (v: nat)
    requires among <= entries.Keys && among != {}
    ensures IsOldest(entries, among, v)
  {
    OldestExists(entries, among);
    var v :| IsOldest(entries, among, v);
    v
  }

  lemma OldestUnique(entries: Items, among: set<nat>, v: nat, w: nat)
    requires among <= entries.Keys && IsOldest(entries, among, v) && IsOldest(entries, among, w)
    ensures v == w
  {
  }

  // ---------------------------------------------------------------- the operations

  function Drop(s: Store, v: nat): Store
    requires v in s.entries
  {
    s.(entries := s.entries - {v}, warmBytes := s.warmBytes - s.entries[v].bytes,
       warmEvictions := s.warmEvictions + 1)
  }

  function Demote(s: Store, v: nat): Store
    requires v in s.entries
  {
    var item := s.entries[v];
    s.(entries := s.entries[v := item.(tier := WARM)], hotBytes := s.hotBytes - item.bytes,
       warmBytes := s.warmBytes + item.bytes, demotions := s.demotions + 1)
  }

  /** Drop the oldest WARM entries until `required` bytes fit; false if none are left. */
  ghost function EvictWarm(c: Capacities, s: Store, required: nat): (Store, bool)
    decreases |s.entries|
  {
    var warm := InTier(s.entries, WARM);
    if s.warmBytes + required <= c.warm then (s, true)
    else if warm == {} then (s, false)
    else
      var v := Oldest(s.entries, warm);
      assert v in s.entries.Keys && (s.entries - {v}).Keys == s.entries.Keys - {v};
      EvictWarm(c, Drop(s, v), required)
  }

  lemma EvictWarmDone(c: Capacities, s: Store, required: nat)
    requires s.warmBytes + required <= c.warm || InTier(s.entries, WARM) == {}
    ensures EvictWarm(c, s, required) == (s, s.warmBytes + required <= c.warm)
  {
  }

  lemma EvictWarmRound(c: Capacities, s: Store, required: nat, v: nat)
    requires s.warmBytes + required > c.warm && InTier(s.entries, WARM) != {}
    requires v == Oldest(s.entries, InTier(s.entries, WARM))
    ensures EvictWarm(c, s, required) == EvictWarm(c, Drop(s, v), required)
    ensures |Drop(s, v).entries| < |s.entries|
  {
    assert v in s.entries.Keys && (s.entries - {v}).Keys == s.entries.Keys - {v};
  }

  lemma {:induction false} EvictWarmKeepsHot(c: Capacities, s: Store, required: nat)
    ensures InTier(EvictWarm(c, s, required).0.entries, HOT) == InTier(s.entries, HOT)
    ensures var t := EvictWarm(c, s, required).0;
            t.entries.Keys <= s.entries.Keys && forall r :: r in t.entries ==> t.entries[r] == s.entries[r]
    ensures EvictWarm(c, s, required).0.hotBytes == s.hotBytes
    decreases |s.entries|
  {
    var warm := InTier(s.entries, WARM);
    if s.warmBytes + required > c.warm && warm != {} {
      var v := Oldest(s.entries, warm);
      assert v in s.entries.Keys && (s.entries - {v}).Keys == s.entries.Keys - {v};
      EvictWarmKeepsHot(c, Drop(s, v), required);
      assert InTier(s.entries - {v}, HOT) == InTier(s.entries, HOT);
    }
  }

  /** Demote the oldest HOT entries until `required` bytes fit; false if that is impossible. */
  ghost function MakeHotRoom(c: Capacities, s: Store, required: nat): (Store, bool)
    decreases |InTier(s.entries, HOT)|
  {
    var hot := InTier(s.entries, HOT);
    if s.hotBytes + required <= c.hot then (s, true)
    else if hot == {} then (s, false)
    else
      var v := Oldest(s.entries, hot);
      var (t, ok) := EvictWarm(c, s, s.entries[v].bytes);
      EvictWarmKeepsHot(c, s, s.entries[v].bytes);
      assert v in t.entries by { assert v in InTier(t.entries, HOT); }
      if !ok then (t, false)
      else
        assert InTier(Demote(t, v).entries, HOT) == hot - {v};
        MakeHotRoom(c, Demote(t, v), required)
  }

  lemma MakeHotRoomDone(c: Capacities, s: Store, required: nat)
    requires s.hotBytes + required <= c.hot || InTier(s.entries, HOT) == {}
    ensures MakeHotRoom(c, s, required) == (s, s.hotBytes + required <= c.hot)
  {
  }

  /** One round of the loop: evict from WARM for the oldest HOT entry, then demote it. */
  lemma MakeHotRoomRound(c: Capacities, s: Store, required: nat, v: nat, t: Store, ok: bool)
    requires s.hotBytes + required > c.hot && InTier(s.entries, HOT) != {}
    requires v == Oldest(s.entries, InTier(s.entries, HOT))
    requires (t, ok) == EvictWarm(c, s, s.entries[v].bytes)
    ensures v in t.entries && t.entries[v] == s.entries[v] && t.hotBytes == s.hotBytes
    ensures InTier(Demote(t, v).entries, HOT) == InTier(s.entries, HOT) - {v}
    ensures !ok ==> MakeHotRoom(c, s, required) == (t, false)
    ensures ok ==> MakeHotRoom(c, s, required) == MakeHotRoom(c, Demote(t, v), required)
  {
    EvictWarmKeepsHot(c, s, s.entries[v].bytes);
    assert v in InTier(t.entries, HOT);
  }

  /** A resident's bookkeeping on reuse. */
  function Reused(item: Item, oldAfter: nat, clock: nat): Item {
    var count := item.count + 1;
    var aged := if count == 2 then YOUNG else item.generation;
    item.(count := count, generation := if count >= oldAfter + 1 then OLD else aged, last := clock)
  }

  function Admit(s: Store, request: Request, clock: nat): Store {
    s.(entries := s.entries[request.ref := Item(request.bytes, WARM, NEW, 1, clock)],
       warmBytes := s.warmBytes + request.bytes, warmAdmissions := s.warmAdmissions + 1)
  }

  /** The promoted entry moves between the counters whether or not it is still stored. */
  function Promote(s: Store, ref: nat, bytes: nat): Store {
    s.(entries := if ref in s.entries then s.entries[ref := s.entries[ref].(tier := HOT)] else s.entries,
       warmBytes := s.warmBytes - bytes, hotBytes := s.hotBytes + bytes, promotions := s.promotions + 1)
  }

  function Touch(c: Capacities, s: Store, ref: nat, clock: nat): Store
    requires ref in s.entries
  {
    var item := s.entries[ref];
    s.(entries := s.entries[ref := Reused(item, c.oldAfter, clock)],
       hotHits := s.hotHits + (if item.tier == HOT then 1 else 0),
       warmHits := s.warmHits + (if item.tier == WARM then 1 else 0))
  }

  /** One request, at the given clock. */
  ghost function Serve(c: Capacities, s: Store, request: Request, clock: nat): Store {
    if request.ref !in s.entries then
      var missed := s.(misses := s.misses + 1);
      var (t, ok) := EvictWarm(c, missed, request.bytes);
      if ok then Admit(t, request, clock) else t
    else
      var t := Touch(c, s, request.ref, clock);
      var item := t.entries[request.ref];
      if item.tier == WARM && item.generation == OLD then
        var (u, ok) := MakeHotRoom(c, t, item.bytes);
        if ok then Promote(u, request.ref, item.bytes) else u
      else t
  }

  /** The store after the first `n` requests; the clock counts requests from one. */
  ghost function Run(c: Capacities, trace: seq<Request>, n: nat): Store
    requires n <= |trace|
  {
    if n == 0 then EMPTY else Serve(c, Run(c, trace, n - 1), trace[n - 1], n)
  }
}
