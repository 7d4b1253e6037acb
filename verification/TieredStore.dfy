/**
 The two-tier store as the replay runs it: a table of entries, two byte counters and the
 event counters, all updated in place. Every method is tied to its meaning in `Tiered`.
 */
module TieredStores {
  import opened Common
  import opened Tiered
  import TieredInvariant
  import TieredRuns

  class TieredStore {
    const capacities: Capacities
    var entries: Items
    var hotBytes: int
    var warmBytes: int
    var promotions: nat
    var demotions: nat
    var warmAdmissions: nat
    var warmEvictions: nat
    var misses: nat
    var hotHits: nat
    var warmHits: nat

    ghost function Abs(): Store
      reads this
    {
      Store(entries, hotBytes, warmBytes, promotions, demotions, warmAdmissions, warmEvictions,
            misses, hotHits, warmHits)
    }

    constructor (capacities: Capacities)
      ensures this.capacities == capacities && Abs() == EMPTY
    {
      this.capacities := capacities;
      entries, hotBytes, warmBytes := map[], 0, 0;
      promotions, demotions, warmAdmissions, warmEvictions := 0, 0, 0, 0;
      misses, hotHits, warmHits := 0, 0, 0;
    }

    /** The least recently used entry of a tier, ties broken by the ref. */
    method PickOldest(among: set<nat>) returns (v: nat)
      requires among <= entries.Keys && among != {}
      ensures v == Oldest(entries, among)
    {
      v :| v in among;
      var rest := among - {v};
      while rest != {}
        invariant rest <= among && v in among - rest
        invariant forall r :: r in among - rest ==> Older(entries, v, r)
        decreases |rest|
      {
        var x :| x in rest;
        if !Older(entries, v, x) {
          assert forall r :: r in among - rest ==> Older(entries, x, r);
          v := x;
        }
        rest := rest - {x};
      }
      OldestUnique(entries, among, v, Oldest(entries, among));
    }

    /** Drop WARM entries until `required` bytes fit. */
    method EvictForWarm(required: nat) returns (ok: bool)
      modifies this
      ensures (Abs(), ok) == EvictWarm(capacities, old(Abs()), required)
    {
      hide EvictWarm;
      ghost var wanted := EvictWarm(capacities, Abs(), required);
      while warmBytes + required > capacities.warm
        invariant EvictWarm(capacities, Abs(), required) == wanted
        decreases |entries|
      {
        var candidates := InTier(entries, WARM);
        if candidates == {} {
          EvictWarmDone(capacities, Abs(), required);
          return false;
        }
        var victim := PickOldest(candidates);
        var item := entries[victim];
        EvictWarmRound(capacities, Abs(), required, victim);
        entries := entries - {victim};
        warmBytes := warmBytes - item.bytes;
        warmEvictions := warmEvictions + 1;
      }
      EvictWarmDone(capacities, Abs(), required);
      ok := true;
    }

    /** Demote HOT entries until `required` bytes fit. */
    method MakeRoomInHot(required: nat) returns (ok: bool)
      modifies this
      ensures (Abs(), ok) == MakeHotRoom(capacities, old(Abs()), required)
    {
      hide EvictWarm, MakeHotRoom;
      ghost var wanted := MakeHotRoom(capacities, Abs(), required);
      while hotBytes + required > capacities.hot
        invariant MakeHotRoom(capacities, Abs(), required) == wanted
        decreases |InTier(entries, HOT)|
      {
        var candidates := InTier(entries, HOT);
        if candidates == {} {
          MakeHotRoomDone(capacities, Abs(), required);
          return false;
        }
        var victim := PickOldest(candidates);
        ghost var s := Abs();
        var item := entries[victim];
        var roomy := EvictForWarm(item.bytes);
        MakeHotRoomRound(capacities, s, required, victim, Abs(), roomy);
        if !roomy {
          return false;
        }
        ghost var t := Abs();
        entries := entries[victim := item.(tier := WARM)];
        hotBytes := hotBytes - item.bytes;
        warmBytes := warmBytes + item.bytes;
        demotions := demotions + 1;
        assert Abs() == Demote(t, victim);
      }
      MakeHotRoomDone(capacities, Abs(), required);
      ok := true;
    }

    /** One request: admission on a miss, bookkeeping and possibly promotion on a hit. */
    method Request(request: Tiered.Request, clock: nat)
      modifies this
      ensures Abs() == Serve(capacities, old(Abs()), request, clock)
    {
      hide EvictWarm, MakeHotRoom;
      var ref := request.ref;
      if ref !in entries {
        misses := misses + 1;
        var roomy := EvictForWarm(request.bytes);
        if roomy {
          entries := entries[ref := Item(request.bytes, WARM, NEW, 1, clock)];
          warmBytes := warmBytes + request.bytes;
          warmAdmissions := warmAdmissions + 1;
        }
      } else {
        var item := entries[ref];
        if item.tier == HOT {
          hotHits := hotHits + 1;
        } else {
          warmHits := warmHits + 1;
        }
        item := Reused(item, capacities.oldAfter, clock);
        entries := entries[ref := item];
        assert Abs() == Touch(capacities, old(Abs()), ref, clock);
        if item.tier == WARM && item.generation == OLD {
          var roomy := MakeRoomInHot(item.bytes);
          if roomy {
            if ref in entries {
              entries := entries[ref := entries[ref].(tier := HOT)];
            }
            warmBytes := warmBytes - item.bytes;
            hotBytes := hotBytes + item.bytes;
            promotions := promotions + 1;
          }
        }
      }
    }
  }

  /** The whole replay, and its guarantee when any two tensors fit in WARM together. */
  method RunTiered(trace: seq<Tiered.Request>, capacities: Capacities) returns (store: TieredStore)
    ensures store.Abs() == Run(capacities, trace, |trace|)
    ensures TieredRuns.PairsFit(capacities, trace) ==>
              TieredInvariant.Valid(capacities, store.Abs(), |trace|)
  {
    store := new TieredStore(capacities);
    for index := 0 to |trace|
      invariant store.capacities == capacities
      invariant store.Abs() == Run(capacities, trace, index)
    {
      store.Request(trace[index], index + 1);
    }
    if TieredRuns.PairsFit(capacities, trace) {
      TieredRuns.PairsFitKeepsBooks(capacities, trace, |trace|);
    }
  }
}
