/**
 The accounting invariant of the two-tier replay, and exactly which request breaks it: a
 promotion whose demotions leave no WARM room for the promoted tensor itself, so that the
 tensor is dropped and then moved to HOT all the same.
 */
module TieredInvariant {
  import opened Common
  import opened Tiered

  // ---------------------------------------------------------------- sums

  ghost function SumOf(entries: Items, refs: set<nat>): nat
    requires refs <= entries.Keys
  {
    if refs == {} then 0
    else
      var r :| r in refs;
      entries[r].bytes + SumOf(entries, refs - {r})
  }

  lemma {:induction false} SumRemove(entries: Items, refs: set<nat>, r: nat)
    requires refs <= entries.Keys && r in refs
    ensures SumOf(entries, refs) == entries[r].bytes + SumOf(entries, refs - {r})
  {
    var q :| q in refs && SumOf(entries, refs) == entries[q].bytes + SumOf(entries, refs - {q});
    if q != r {
      SumRemove(entries, refs - {q}, r);
      SumRemove(entries, refs - {r}, q);
      assert refs - {q} - {r} == refs - {r} - {q};
    }
  }

  lemma {:induction false} SumFrame(a: Items, b: Items, refs: set<nat>)
    requires refs <= a.Keys && refs <= b.Keys
    requires forall r :: r in refs ==> a[r].bytes == b[r].bytes
    ensures SumOf(a, refs) == SumOf(b, refs)
  {
    if refs != {} {
      var r :| r in refs;
      SumRemove(a, refs, r);
      SumRemove(b, refs, r);
      SumFrame(a, b, refs - {r});
    }
  }

  ghost function TierBytes(entries: Items, tier: Tier): nat {
    SumOf(entries, InTier(entries, tier))
  }

  /** Moving one ref out of a tier, with every other ref of the tier untouched. */
  lemma TierShrinks(a: Items, b: Items, tier: Tier, r: nat)
    requires r in a && a[r].tier == tier
    requires InTier(b, tier) == InTier(a, tier) - {r}
    requires forall q :: q in InTier(b, tier) ==> a[q].bytes == b[q].bytes
    ensures TierBytes(a, tier) == TierBytes(b, tier) + a[r].bytes
    ensures |InTier(a, tier)| == |InTier(b, tier)| + 1
  {
    SumRemove(a, InTier(a, tier), r);
    SumFrame(a, b, InTier(b, tier));
  }

  lemma TierKept(a: Items, b: Items, tier: Tier)
    requires InTier(b, tier) == InTier(a, tier)
    requires forall q :: q in InTier(a, tier) ==> a[q].bytes == b[q].bytes
    ensures TierBytes(a, tier) == TierBytes(b, tier)
  {
    SumFrame(a, b, InTier(b, tier));
  }

  // ---------------------------------------------------------------- the invariant

  /** Counters agree with the stored entries. */
  ghost predicate Books(s: Store) {
    && s.hotBytes == TierBytes(s.entries, HOT)
    && s.warmBytes == TierBytes(s.entries, WARM)
    && s.promotions == s.demotions + |InTier(s.entries, HOT)|
    && s.warmAdmissions == s.warmEvictions + |s.entries|
  }

  ghost predicate ItemOk(c: Capacities, item: Item, clock: nat) {
    && item.bytes <= c.warm && item.last <= clock && item.count >= 1
    && (item.tier == HOT ==> item.generation == OLD)
    && (item.generation == OLD ==> item.count >= 2 && item.count >= c.oldAfter + 1)
  }

  ghost predicate ItemsOk(c: Capacities, s: Store, clock: nat) {
    forall r :: r in s.entries ==> ItemOk(c, s.entries[r], clock)
  }

  ghost predicate Valid(c: Capacities, s: Store, clock: nat) {
    Books(s) && ItemsOk(c, s, clock) && s.hotBytes <= c.hot && s.warmBytes <= c.warm
  }

  lemma DropBooks(s: Store, v: nat)
    requires Books(s) && v in InTier(s.entries, WARM)
    ensures Books(Drop(s, v))
  {
    var t := Drop(s, v);
    assert t.entries.Keys == s.entries.Keys - {v};
    assert |s.entries.Keys| == |t.entries.Keys| + 1;
    assert InTier(t.entries, WARM) == InTier(s.entries, WARM) - {v};
    assert InTier(t.entries, HOT) == InTier(s.entries, HOT);
    TierShrinks(s.entries, t.entries, WARM, v);
    TierKept(s.entries, t.entries, HOT);
  }

  lemma DemoteBooks(s: Store, v: nat)
    requires Books(s) && v in InTier(s.entries, HOT)
    ensures Books(Demote(s, v))
  {
    var t := Demote(s, v);
    assert t.entries.Keys == s.entries.Keys;
    assert |s.entries.Keys| == |t.entries.Keys|;
    assert InTier(t.entries, HOT) == InTier(s.entries, HOT) - {v};
    assert InTier(t.entries, WARM) - {v} == InTier(s.entries, WARM);
    TierShrinks(s.entries, t.entries, HOT, v);
    TierShrinks(t.entries, s.entries, WARM, v);
  }

  // ---------------------------------------------------------------- eviction from WARM

  lemma SumAtLeast(entries: Items, refs: set<nat>, r: nat)
    requires refs <= entries.Keys && r in refs
    ensures entries[r].bytes <= SumOf(entries, refs)
  {
    SumRemove(entries, refs, r);
  }

  /** The loop keeps the books, succeeds exactly when the request fits an empty WARM, and
      leaves the required room when it succeeds. */
  lemma {:induction false} EvictWarmBooks(c: Capacities, s: Store, required: nat)
    requires Books(s)
    ensures var (t, ok) := EvictWarm(c, s, required);
            && Books(t) && t.warmBytes <= s.warmBytes
            && (ok <==> required <= c.warm)
            && (ok ==> t.warmBytes + required <= c.warm)
    decreases |s.entries|
  {
    var warm := InTier(s.entries, WARM);
    if s.warmBytes + required > c.warm && warm != {} {
      var v := Oldest(s.entries, warm);
      assert v in s.entries.Keys && (s.entries - {v}).Keys == s.entries.Keys - {v};
      DropBooks(s, v);
      EvictWarmBooks(c, Drop(s, v), required);
    }
  }

  /** `p` is a WARM entry used after every other WARM entry. */
  ghost predicate Youngest(s: Store, p: nat) {
    && p in InTier(s.entries, WARM)
    && forall r :: r in InTier(s.entries, WARM) && r != p ==> s.entries[r].last < s.entries[p].last
  }

  /** The youngest WARM entry survives exactly when it and the required bytes fit together. */
  lemma {:induction false} YoungestSurvives(c: Capacities, s: Store, required: nat, p: nat)
    requires Books(s) && Youngest(s, p)
    ensures p in EvictWarm(c, s, required).0.entries <==> s.entries[p].bytes + required <= c.warm
    ensures p in EvictWarm(c, s, required).0.entries ==> Youngest(EvictWarm(c, s, required).0, p)
    decreases |s.entries|
  {
    var warm := InTier(s.entries, WARM);
    SumAtLeast(s.entries, warm, p);
    if s.warmBytes + required > c.warm {
      var v := Oldest(s.entries, warm);
      assert v in s.entries.Keys && (s.entries - {v}).Keys == s.entries.Keys - {v};
      if v == p {
        OnlyYoungest(s, p, v);
        EvictWarmKeepsHot(c, Drop(s, v), required);
      } else {
        DropBooks(s, v);
        YoungestSurvives(c, Drop(s, v), required, p);
      }
    }
  }

  /** If the oldest WARM entry is the youngest, it is the only one. */
  lemma OnlyYoungest(s: Store, p: nat, v: nat)
    requires Books(s) && Youngest(s, p) && IsOldest(s.entries, InTier(s.entries, WARM), v) && v == p
    ensures s.warmBytes == s.entries[p].bytes
  {
    var warm := InTier(s.entries, WARM);
    forall r | r in warm
      ensures r == p
    {
      assert Older(s.entries, v, r);
    }
    assert warm == {p};
    SumRemove(s.entries, warm, p);
    assert warm - {p} == {};
  }

  /** What WARM eviction does to the other conditions: it only removes entries. */
  lemma EvictWarmItems(c: Capacities, s: Store, required: nat, clock: nat)
    requires ItemsOk(c, s, clock)
    ensures ItemsOk(c, EvictWarm(c, s, required).0, clock)
  {
    EvictWarmKeepsHot(c, s, required);
  }

  // ---------------------------------------------------------------- room in HOT

  /** The HOT refs that making room demotes: oldest first, until the rest and the required
      bytes fit. A caller can read them off the HOT tier beforehand. */
  ghost function Demoted(c: Capacities, entries: Items, hot: set<nat>, hotBytes: int, required: nat): set<nat>
    requires hot <= entries.Keys
    decreases hot
  {
    if hotBytes + required <= c.hot || hot == {} then {}
    else
      var v := Oldest(entries, hot);
      {v} + Demoted(c, entries, hot - {v}, hotBytes - entries[v].bytes, required)
  }

  lemma {:induction false} DemotedFrame(c: Capacities, a: Items, b: Items, hot: set<nat>, hotBytes: int, required: nat)
    requires hot <= a.Keys && hot <= b.Keys && forall r :: r in hot ==> a[r] == b[r]
    ensures Demoted(c, a, hot, hotBytes, required) == Demoted(c, b, hot, hotBytes, required)
    ensures Demoted(c, a, hot, hotBytes, required) <= hot
    decreases hot
  {
    if hotBytes + required > c.hot && hot != {} {
      var v := Oldest(a, hot);
      OldestUnique(b, hot, v, Oldest(b, hot));
      DemotedFrame(c, a, b, hot - {v}, hotBytes - a[v].bytes, required);
    }
  }

  /** `p` was used after every other entry and is WARM. */
  ghost predicate Latest(s: Store, p: nat) {
    && p in InTier(s.entries, WARM)
    && forall r :: r in s.entries && r != p ==> s.entries[r].last < s.entries[p].last
  }

  ghost predicate RoomFor(entries: Items, demoted: set<nat>, bytes: nat, warm: nat) {
    forall v :: v in demoted && v in entries ==> entries[v].bytes + bytes <= warm
  }

  /** One demotion keeps the books, the items and the WARM budget. */
  lemma DemotionStep(c: Capacities, s: Store, v: nat, clock: nat)
    requires Books(s) && ItemsOk(c, s, clock) && v in InTier(s.entries, HOT)
    ensures var (t, ok) := EvictWarm(c, s, s.entries[v].bytes);
            && ok && v in InTier(t.entries, HOT) && t.entries[v] == s.entries[v]
            && Books(Demote(t, v)) && ItemsOk(c, Demote(t, v), clock)
            && Demote(t, v).warmBytes <= c.warm
            && Demote(t, v).hotBytes == s.hotBytes - s.entries[v].bytes
            && InTier(Demote(t, v).entries, HOT) == InTier(s.entries, HOT) - {v}
  {
    hide Books, EvictWarm;
    var b := s.entries[v].bytes;
    assert ItemOk(c, s.entries[v], clock);
    EvictWarmBooks(c, s, b);
    EvictWarmItems(c, s, b, clock);
    EvictWarmKeepsHot(c, s, b);
    var t := EvictWarm(c, s, b).0;
    assert v in InTier(t.entries, HOT);
    DemoteBooks(t, v);
  }

  lemma {:induction false} MakeHotRoomBooks(c: Capacities, s: Store, required: nat, clock: nat)
    requires Books(s) && ItemsOk(c, s, clock) && s.warmBytes <= c.warm
    ensures var (t, ok) := MakeHotRoom(c, s, required);
            && Books(t) && ItemsOk(c, t, clock) && t.warmBytes <= c.warm && t.hotBytes <= s.hotBytes
            && (ok <==> required <= c.hot) && (ok ==> t.hotBytes + required <= c.hot)
            && t.entries.Keys <= s.entries.Keys
    decreases |InTier(s.entries, HOT)|
  {
    var hot := InTier(s.entries, HOT);
    if s.hotBytes + required > c.hot && hot != {} {
      var v := Oldest(s.entries, hot);
      DemotionStep(c, s, v, clock);
      EvictWarmKeepsHot(c, s, s.entries[v].bytes);
      var t := EvictWarm(c, s, s.entries[v].bytes).0;
      assert |hot| == |hot - {v}| + 1;
      MakeHotRoomBooks(c, Demote(t, v), required, clock);
    }
  }

  /** After one demotion the latest entry, if it is still stored, is still the latest. */
  lemma LatestAfterDemotion(c: Capacities, s: Store, v: nat, p: nat, clock: nat)
    requires Books(s) && ItemsOk(c, s, clock) && v in InTier(s.entries, HOT) && Latest(s, p)
    ensures var t := EvictWarm(c, s, s.entries[v].bytes).0;
            && v in t.entries
            && (p in Demote(t, v).entries <==> s.entries[p].bytes + s.entries[v].bytes <= c.warm)
            && (p in Demote(t, v).entries ==>
                  Latest(Demote(t, v), p) && Demote(t, v).entries[p] == s.entries[p])
  {
    var b := s.entries[v].bytes;
    YoungestSurvives(c, s, b, p);
    EvictWarmKeepsHot(c, s, b);
    assert v in InTier(EvictWarm(c, s, b).0.entries, HOT);
  }

  ghost function ToDemote(c: Capacities, s: Store, required: nat): set<nat> {
    Demoted(c, s.entries, InTier(s.entries, HOT), s.hotBytes, required)
  }

  /** `p` survives making room exactly when it fits beside every demoted tensor. */
  ghost predicate SurvivesExactly(c: Capacities, s: Store, required: nat, p: nat)
    requires p in s.entries
  {
    var left := MakeHotRoom(c, s, required).0.entries;
    && (p in left <==> RoomFor(s.entries, ToDemote(c, s, required), s.entries[p].bytes, c.warm))
    && (p in left ==> left[p] == s.entries[p])
  }

  /** The store after the first demotion, and how making room goes on from there. */
  ghost function AfterFirst(c: Capacities, s: Store, v: nat): Store
    requires v in InTier(s.entries, HOT)
  {
    EvictWarmKeepsHot(c, s, s.entries[v].bytes);
    var t := EvictWarm(c, s, s.entries[v].bytes).0;
    assert v in InTier(t.entries, HOT);
    Demote(t, v)
  }

  lemma MakeHotRoomUnfold(c: Capacities, s: Store, required: nat, clock: nat, v: nat)
    requires Books(s) && ItemsOk(c, s, clock)
    requires s.hotBytes + required > c.hot && InTier(s.entries, HOT) != {}
    requires v == Oldest(s.entries, InTier(s.entries, HOT))
    ensures MakeHotRoom(c, s, required) == MakeHotRoom(c, AfterFirst(c, s, v), required)
    ensures ToDemote(c, s, required) == {v} + ToDemote(c, AfterFirst(c, s, v), required)
    ensures |InTier(AfterFirst(c, s, v).entries, HOT)| < |InTier(s.entries, HOT)|
  {
    hide Books, ItemsOk, EvictWarm, MakeHotRoom, ToDemote;
    var b := s.entries[v].bytes;
    DemotionStep(c, s, v, clock);
    EvictWarmKeepsHot(c, s, b);
    var (t, ok) := EvictWarm(c, s, b);
    MakeHotRoomRound(c, s, required, v, t, ok);
    ToDemoteUnfold(c, s, required, v, AfterFirst(c, s, v));
  }

  lemma ToDemoteUnfold(c: Capacities, s: Store, required: nat, v: nat, u: Store)
    requires s.hotBytes + required > c.hot && v in InTier(s.entries, HOT)
    requires v == Oldest(s.entries, InTier(s.entries, HOT))
    requires InTier(u.entries, HOT) == InTier(s.entries, HOT) - {v} && u.hotBytes == s.hotBytes - s.entries[v].bytes
    requires forall r :: r in InTier(u.entries, HOT) ==> u.entries[r] == s.entries[r]
    ensures ToDemote(c, s, required) == {v} + ToDemote(c, u, required)
    ensures |InTier(u.entries, HOT)| < |InTier(s.entries, HOT)|
  {
    var hot := InTier(s.entries, HOT);
    DemotedFrame(c, s.entries, u.entries, hot - {v}, u.hotBytes, required);
    assert |hot| == |hot - {v}| + 1;
  }

  lemma SurvivesStep(c: Capacities, s: Store, required: nat, p: nat, v: nat, u: Store)
    requires p in s.entries && v in s.entries && u.entries.Keys <= s.entries.Keys
    requires forall r :: r in u.entries ==> u.entries[r].bytes == s.entries[r].bytes
    requires MakeHotRoom(c, s, required) == MakeHotRoom(c, u, required)
    requires ToDemote(c, s, required) == {v} + ToDemote(c, u, required)
    requires ToDemote(c, u, required) <= u.entries.Keys
    requires p in u.entries <==> s.entries[p].bytes + s.entries[v].bytes <= c.warm
    requires p in u.entries ==> u.entries[p] == s.entries[p] && SurvivesExactly(c, u, required, p)
    requires p !in u.entries ==> p !in MakeHotRoom(c, u, required).0.entries
    ensures SurvivesExactly(c, s, required, p)
  {
    hide MakeHotRoom, ToDemote;
    if p in u.entries {
      var rest := ToDemote(c, u, required);
      assert RoomFor(u.entries, rest, s.entries[p].bytes, c.warm)
        <==> RoomFor(s.entries, {v} + rest, s.entries[p].bytes, c.warm);
    } else {
      assert v in ToDemote(c, s, required);
    }
  }

  lemma {:induction false} LatestSurvives(c: Capacities, s: Store, required: nat, p: nat, clock: nat)
    requires Books(s) && ItemsOk(c, s, clock) && s.warmBytes <= c.warm && Latest(s, p)
    ensures SurvivesExactly(c, s, required, p)
    decreases |InTier(s.entries, HOT)|
  {
    var hot := InTier(s.entries, HOT);
    if s.hotBytes + required > c.hot && hot != {} {
      var v := Oldest(s.entries, hot);
      var u := AfterFirst(c, s, v);
      MakeHotRoomUnfold(c, s, required, clock, v);
      DemotionStep(c, s, v, clock);
      EvictWarmKeepsHot(c, s, s.entries[v].bytes);
      LatestAfterDemotion(c, s, v, p, clock);
      DemotedFrame(c, u.entries, u.entries, InTier(u.entries, HOT), u.hotBytes, required);
      hide *;
      if p in u.entries {
        LatestSurvives(c, u, required, p, clock);
      } else {
        MakeHotRoomBooks(c, u, required, clock);
      }
      SurvivesStep(c, s, required, p, v, u);
    }
  }
}
