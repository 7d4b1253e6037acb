/**
 LRU inclusion under lease schedules, which is how the capacity sweep runs. With one size for
 all tensors the smaller store stays inside the larger one whatever is leased. With several
 sizes and leases it does not, and hits can fall as capacity grows.
 */
module LeasedLru {
  import opened Common
  import opened Residency
  import opened ResidencyAccounting
  import opened UniformReplay
  import opened LruStack
  import opened AvoidableReloads
  import opened ResidencyLimits

  // ---------------------------------------------------------------- stamps

  /** Position `p` is the latest request of `r` among the first `n`. */
  ghost predicate LatestUse(trace: seq<Request>, n: nat, r: nat, p: nat) {
    p < n <= |trace| && trace[p].ref == r && forall q :: p < q < n ==> trace[q].ref != r
  }

  /** Every resident is stamped with its latest request. */
  ghost predicate Stamped(trace: seq<Request>, n: nat, resident: Store) {
    forall r :: r in resident ==> LatestUse(trace, n, r, resident[r].last)
  }

  lemma StampedLater(trace: seq<Request>, n: nat, before: Store, after: Store)
    requires n < |trace| && Stamped(trace, n, before)
    requires forall r :: r in after ==>
      if r == trace[n].ref then after[r].last == n else r in before && after[r] == before[r]
    ensures Stamped(trace, n + 1, after)
  {
    forall r | r in after ensures LatestUse(trace, n + 1, r, after[r].last) {
      if r != trace[n].ref {
        assert LatestUse(trace, n, r, before[r].last);
      }
    }
  }

  lemma StampedStep(cfg: Config, n: nat, s: State)
    requires cfg.Valid() && n < |cfg.trace| && Stamped(cfg.trace, n, s.resident)
    ensures Stamped(cfg.trace, n + 1, Step(cfg, n, s).resident)
  {
    hide Stamped, EvictLoop, TotalBytes;
    var kept := EvictLoop(cfg, n, s.resident, cfg.trace[n].bytes).0;
    EvictLoopFrame(cfg, n, s.resident, cfg.trace[n].bytes);
    StampedLater(cfg.trace, n, s.resident, Step(cfg, n, s).resident);
  }

  lemma {:induction false} AlwaysStamped(cfg: Config, n: nat)
    requires cfg.Valid() && n <= |cfg.trace|
    ensures Stamped(cfg.trace, n, Replay(cfg, n).resident)
  {
    hide Step;
    if n > 0 {
      AlwaysStamped(cfg, n - 1);
      StampedStep(cfg, n - 1, Replay(cfg, n - 1));
    }
  }

  /** Two stamped stores agree on the stamp of a common resident. */
  lemma SameStamp(trace: seq<Request>, n: nat, a: Store, b: Store, r: nat)
    requires Stamped(trace, n, a) && Stamped(trace, n, b) && r in a && r in b
    ensures a[r].last == b[r].last
  {
    assert LatestUse(trace, n, r, a[r].last) && LatestUse(trace, n, r, b[r].last);
  }

  // ---------------------------------------------------------------- one request of one size

  ghost predicate Full(cfg: Config, size: nat, resident: Store) {
    size * (|resident| + 1) > cfg.capacity
  }

  /** The eviction loop on tensors of one size: nothing to do, nothing eligible, or one victim. */
  lemma LeasedEviction(cfg: Config, size: nat, n: nat, resident: Store)
    requires cfg.Valid() && n < |cfg.trace|
    requires AllSized(resident, size) && size * |resident| <= cfg.capacity
    ensures var eligible := resident.Keys - cfg.Protected(n);
            if !Full(cfg, size, resident) then
              EvictLoop(cfg, n, resident, size) == (resident, 0)
              && TotalBytes(resident) + size <= cfg.capacity
            else if eligible == {} then
              EvictLoop(cfg, n, resident, size) == (resident, 0)
              && TotalBytes(resident) + size > cfg.capacity
            else
              var v := Victim(cfg, n, resident, eligible);
              EvictLoop(cfg, n, resident, size) == (resident - {v}, 1)
              && TotalBytes(resident - {v}) + size <= cfg.capacity
  {
    TotalEqualSizes(resident, size);
    Distribute(size, |resident|);
    var eligible := resident.Keys - cfg.Protected(n);
    if Full(cfg, size, resident) && eligible != {} {
      var v := Victim(cfg, n, resident, eligible);
      TotalRemove(resident, v);
      assert EvictLoop(cfg, n, resident - {v}, size) == (resident - {v}, 0);
    }
  }

  /** What one request of one size does to the resident set. */
  ghost predicate LeasedMove(cfg: Config, size: nat, n: nat, before: Store, after: Store)
    requires cfg.Valid() && n < |cfg.trace|
  {
    var x, eligible := cfg.trace[n].ref, before.Keys - cfg.Protected(n);
    if x in before then after.Keys == before.Keys
    else if !Full(cfg, size, before) then after.Keys == before.Keys + {x}
    else if eligible == {} then after.Keys == before.Keys
    else after.Keys == before.Keys - {Victim(cfg, n, before, eligible)} + {x}
  }

  lemma LeasedStep(cfg: Config, size: nat, n: nat, s: State)
    requires cfg.Valid() && OneSize(cfg.trace, size) && n < |cfg.trace|
    requires AllSized(s.resident, size) && size * |s.resident| <= cfg.capacity
    ensures LeasedMove(cfg, size, n, s.resident, Step(cfg, n, s).resident)
  {
    hide EvictLoop, TotalBytes, Full, AllSized;
    assert cfg.trace[n].bytes == size;
    LeasedEviction(cfg, size, n, s.resident);
  }

  // ---------------------------------------------------------------- inclusion

  /** The smaller store is inside the larger one, and equal to it until it fills up. */
  ghost predicate Nested(small: Config, size: nat, s: Store, t: Store) {
    s.Keys <= t.Keys && (!Full(small, size, s) ==> s.Keys == t.Keys)
  }

  lemma SameSizeSets(s: Store, t: Store)
    requires s.Keys == t.Keys
    ensures |s| == |t|
  {
    assert |s.Keys| == |s| && |t.Keys| == |t|;
  }

  lemma GrowsByOne(s: Store, t: Store, v: set<nat>, x: nat)
    requires x !in s && v <= s.Keys && |v| <= 1 && t.Keys == s.Keys - v + {x}
    ensures |t| == |s| - |v| + 1
  {
    assert |t.Keys| == |s.Keys - v| + 1;
    assert s.Keys == (s.Keys - v) + v;
    assert |s.Keys| == |s.Keys - v| + |v|;
  }

  /** A full store stays full. */
  lemma StaysFull(cfg: Config, size: nat, n: nat, before: Store, after: Store)
    requires cfg.Valid() && n < |cfg.trace|
    requires LeasedMove(cfg, size, n, before, after) && Full(cfg, size, before)
    ensures Full(cfg, size, after)
  {
    var x, eligible := cfg.trace[n].ref, before.Keys - cfg.Protected(n);
    if x in before || eligible == {} {
      SameSizeSets(before, after);
    } else {
      GrowsByOne(before, after, {Victim(cfg, n, before, eligible)}, x);
    }
  }

  /** The larger store's victim, if the smaller one holds it too, is the smaller one's victim. */
  lemma SharedVictim(small: Config, large: Config, n: nat, s: Store, t: Store, v: nat)
    requires small.Valid() && small.policy.Lru? && n < |small.trace|
    requires large == small.(capacity := large.capacity)
    requires Stamped(small.trace, n, s) && Stamped(small.trace, n, t) && s.Keys <= t.Keys
    requires IsVictim(large, n, t, t.Keys - large.Protected(n), v) && v in s
    ensures IsVictim(small, n, s, s.Keys - small.Protected(n), v)
  {
    hide Stamped;
    var eligible, wide := s.Keys - small.Protected(n), t.Keys - large.Protected(n);
    forall r | r in eligible ensures Prefers(small, n, s, eligible, v, r) {
      assert Prefers(large, n, t, wide, v, r);
      SameStamp(small.trace, n, s, t, v);
      SameStamp(small.trace, n, s, t, r);
    }
  }

  lemma NestedStep(small: Config, large: Config, size: nat, n: nat, s: Store, s': Store, t: Store,
                   t': Store)
    requires small.Valid() && small.policy.Lru? && n < |small.trace|
    requires large == small.(capacity := large.capacity) && small.capacity <= large.capacity
    requires Stamped(small.trace, n, s) && Stamped(small.trace, n, t) && Nested(small, size, s, t)
    requires LeasedMove(small, size, n, s, s') && LeasedMove(large, size, n, t, t')
    ensures Nested(small, size, s', t')
  {
    hide Stamped, Full;
    var x := small.trace[n].ref;
    if !Full(small, size, s) {
      assert !Full(large, size, t) by { NotFullEither(small, large, size, s, t); }
      assert s'.Keys == t'.Keys;
    } else {
      StaysFull(small, size, n, s, s');
      var eligible, wide := s.Keys - small.Protected(n), t.Keys - large.Protected(n);
      if x !in t && Full(large, size, t) && wide != {} {
        var v := Victim(large, n, t, wide);
        if v in s {
          SharedVictim(small, large, n, s, t, v);
          VictimUnique(small, n, s, eligible, v, Victim(small, n, s, eligible));
        }
      }
    }
  }

  lemma NotFullEither(small: Config, large: Config, size: nat, s: Store, t: Store)
    requires !Full(small, size, s) && s.Keys == t.Keys && small.capacity <= large.capacity
    ensures !Full(large, size, t)
  {
    SameSizeSets(s, t);
  }

  /** LRU inclusion under any lease schedule, for tensors of one size: after every request the
      smaller store is inside the larger one, so hits never fall along a capacity sweep. */
  lemma {:induction false} LeasedInclusion(small: Config, large: Config, size: nat, n: nat)
    requires small.Valid() && small.policy.Lru? && OneSize(small.trace, size) && n <= |small.trace|
    requires large == small.(capacity := large.capacity) && small.capacity <= large.capacity
    ensures Nested(small, size, Replay(small, n).resident, Replay(large, n).resident)
    ensures Replay(small, n).resident.Keys <= Replay(large, n).resident.Keys
    ensures Replay(small, n).hits <= Replay(large, n).hits
  {
    hide Step, Full, LeasedMove, Stamped, AllSized;
    if n > 0 {
      LeasedInclusion(small, large, size, n - 1);
      LeasedInclusionNext(small, large, size, n - 1, Replay(small, n - 1), Replay(large, n - 1));
    }
  }

  lemma LeasedInclusionNext(small: Config, large: Config, size: nat, n: nat, s: State, t: State)
    requires small.Valid() && small.policy.Lru? && OneSize(small.trace, size) && n < |small.trace|
    requires large == small.(capacity := large.capacity) && small.capacity <= large.capacity
    requires s == Replay(small, n) && t == Replay(large, n)
    requires Nested(small, size, s.resident, t.resident) && s.hits <= t.hits
    ensures Nested(small, size, Step(small, n, s).resident, Step(large, n, t).resident)
    ensures Step(small, n, s).hits <= Step(large, n, t).hits
  {
    hide Step, Full, LeasedMove, Stamped, Replay;
    UniformSized(small, size, n);
    UniformSized(large, size, n);
    UniformBudget(small, size, n);
    UniformBudget(large, size, n);
    AlwaysStamped(small, n);
    AlwaysStamped(large, n);
    LeasedStep(small, size, n, s);
    LeasedStep(large, size, n, t);
    NestedStep(small, large, size, n, s.resident, Step(small, n, s).resident, t.resident,
               Step(large, n, t).resident);
    HitsStep(small, n, s);
    HitsStep(large, n, t);
  }

  // ---------------------------------------------------------------- several sizes and leases

  function SweepTrace(): seq<Request> {
    [Request(0, 4), Request(1, 1), Request(2, 1), Request(3, 1), Request(1, 1)]
  }

  function SweepLeases(): Leases {
    Leased([{}, {}, {}, {0}, {}])
  }

  /** Capacity 4: the large tensor is gone when refs 1, 2 and 3 arrive, and ref 1 is hit. */
  lemma SweepSmall(cfg: Config)
    requires cfg == Config(SweepTrace(), 4, Lru, SweepLeases())
    ensures Replay(cfg, 5).hits == 1
  {
    hide Replay;
    var e0, e1, e2, e3 := Entry(4, 0, 1), Entry(1, 1, 1), Entry(1, 2, 1), Entry(1, 3, 1);
    Totals(0, e0, 1, e1);
    Totals(1, e1, 2, e2);
    FirstOne(cfg, 0, 4);
    ReplayNext(cfg, 1);
    EvictOnly(cfg, 1, 0, e0, 1);
    assert Replay(cfg, 2) == Admit(Replay(cfg, 1), 1, 1, 1, map[], 1);
    ReplayNext(cfg, 2);
    assert EvictLoop(cfg, 2, map[1 := e1], 1) == (map[1 := e1], 0);
    assert Replay(cfg, 3) == Admit(Replay(cfg, 2), 2, 1, 2, map[1 := e1], 0);
    ReplayNext(cfg, 3);
    var pair := Pair(1, e1, 2, e2);
    assert Replay(cfg, 3).resident == pair;
    assert EvictLoop(cfg, 3, pair, 1) == (pair, 0);
    assert Replay(cfg, 4) == Admit(Replay(cfg, 3), 3, 1, 3, pair, 0);
    ReplayNext(cfg, 4);
    assert Replay(cfg, 5) == Hit(Replay(cfg, 4), 1, 4);
  }

  /** Capacity 6: the large tensor is leased when room is needed, so ref 1 goes and is missed. */
  lemma SweepLarge(cfg: Config)
    requires cfg == Config(SweepTrace(), 6, Lru, SweepLeases())
    ensures Replay(cfg, 5).hits == 0
  {
    hide Replay, Step;
    SweepLargeFour(cfg);
    ReplayNext(cfg, 4);
    HitsStep(cfg, 4, Replay(cfg, 4));
  }

  lemma SweepLargeFour(cfg: Config)
    requires cfg == Config(SweepTrace(), 6, Lru, SweepLeases())
    ensures 1 !in Replay(cfg, 4).resident && Replay(cfg, 4).hits == 0
  {
    hide Replay;
    var e0, e1, e2 := Entry(4, 0, 1), Entry(1, 1, 1), Entry(1, 2, 1);
    Totals(0, e0, 1, e1);
    Totals(0, e0, 2, e2);
    FirstOne(cfg, 0, 4);
    ReplayNext(cfg, 1);
    assert EvictLoop(cfg, 1, map[0 := e0], 1) == (map[0 := e0], 0);
    assert Replay(cfg, 2) == Admit(Replay(cfg, 1), 1, 1, 1, map[0 := e0], 0);
    ReplayNext(cfg, 2);
    var pair := Pair(0, e0, 1, e1);
    assert Replay(cfg, 2).resident == pair;
    assert EvictLoop(cfg, 2, pair, 1) == (pair, 0);
    assert Replay(cfg, 3) == Admit(Replay(cfg, 2), 2, 1, 2, pair, 0);
    ReplayNext(cfg, 3);
    SweepLargeVictim(cfg, pair[2 := e2]);
    assert Replay(cfg, 4) == Admit(Replay(cfg, 3), 3, 1, 3, Pair(0, e0, 2, e2), 1);
  }

  lemma SweepLargeVictim(cfg: Config, three: Store)
    requires cfg == Config(SweepTrace(), 6, Lru, SweepLeases())
    requires three == Pair(0, Entry(4, 0, 1), 1, Entry(1, 1, 1))[2 := Entry(1, 2, 1)]
    ensures EvictLoop(cfg, 3, three, 1) == (Pair(0, Entry(4, 0, 1), 2, Entry(1, 2, 1)), 1)
    ensures TotalBytes(Pair(0, Entry(4, 0, 1), 2, Entry(1, 2, 1))) == 5
  {
    var e0, e1, e2 := Entry(4, 0, 1), Entry(1, 1, 1), Entry(1, 2, 1);
    Totals(0, e0, 1, e1);
    Totals(0, e0, 2, e2);
    TotalInsert(Pair(0, e0, 1, e1), 2, e2);
    assert three.Keys - cfg.Protected(3) == {1, 2};
    assert IsVictim(cfg, 3, three, {1, 2}, 1);
    VictimUnique(cfg, 3, three, {1, 2}, 1, Victim(cfg, 3, three, {1, 2}));
    assert three - {1} == Pair(0, e0, 2, e2);
    assert EvictLoop(cfg, 3, three - {1}, 1) == (three - {1}, 0);
  }

  /** With leases and several sizes more capacity can mean fewer hits, although every tensor fits
      both capacities. */
  lemma LeasesBreakInclusion()
    ensures Consistent(SweepTrace())
    ensures Replay(Config(SweepTrace(), 4, Lru, SweepLeases()), 5).hits
          > Replay(Config(SweepTrace(), 6, Lru, SweepLeases()), 5).hits
  {
    hide Replay;
    SweepSmall(Config(SweepTrace(), 4, Lru, SweepLeases()));
    SweepLarge(Config(SweepTrace(), 6, Lru, SweepLeases()));
  }

  // ---------------------------------------------------------------- the exact guarantee

  ghost function LruHits(trace: seq<Request>, capacity: nat, leases: Leases): nat
    requires leases.Leased? ==> |leases.sets| == |trace|
  {
    Replay(Config(trace, capacity, Lru, leases), |trace|).hits
  }

  /** Hits never fall with capacity, on all traces of a length, when leases and several sizes are
      or are not admitted. */
  ghost predicate HitsNeverFall(leased: bool, mixed: bool, length: nat) {
    forall trace: seq<Request>, leases: Leases, small: nat, large: nat ::
      Swept(leased, mixed, length, trace, leases) && small <= large ==>
        LruHits(trace, small, leases) <= LruHits(trace, large, leases)
  }

  ghost predicate Swept(leased: bool, mixed: bool, length: nat, trace: seq<Request>, leases: Leases) {
    && |trace| == length && Consistent(trace)
    && (leases.Leased? ==> leased && |leases.sets| == length)
    && (!mixed ==> exists size: nat :: OneSize(trace, size))
  }

  /** A tensor of 4 bytes, leased during the second request, and a small one from then on. */
  function BlockedTrace(length: nat): (t: seq<Request>)
    requires length >= 3
    ensures |t| == length
  {
    [Request(0, 4)] + seq(length - 1, _ => Request(1, 1))
  }

  function BlockedLeases(length: nat): Leases
    requires length >= 3
  {
    Leased([{}, {0}] + seq(length - 2, _ => {}))
  }

  lemma {:induction false} BlockedSmall(cfg: Config, n: nat)
    requires 3 <= |cfg.trace| && 2 <= n <= |cfg.trace|
    requires cfg == Config(BlockedTrace(|cfg.trace|), 1, Lru, BlockedLeases(|cfg.trace|))
    ensures Replay(cfg, n).hits == n - 2 && 1 in Replay(cfg, n).resident
  {
    hide Replay;
    if n == 2 {
      BlockedSecond(cfg);
    } else {
      BlockedSmall(cfg, n - 1);
      RepeatIsHit(cfg, n - 1, 1);
    }
  }

  lemma BlockedSecond(cfg: Config)
    requires 3 <= |cfg.trace|
    requires cfg == Config(BlockedTrace(|cfg.trace|), 1, Lru, BlockedLeases(|cfg.trace|))
    ensures Replay(cfg, 2).hits == 0 && 1 in Replay(cfg, 2).resident
  {
    hide Replay, Step, EvictLoop;
    FirstOne(cfg, 0, 4);
    ReplayNext(cfg, 1);
    assert cfg.trace[1] == Request(1, 1);
    IntoEmpty(cfg, 1, Replay(cfg, 1));
  }

  lemma {:induction false} BlockedLarge(cfg: Config, n: nat)
    requires 3 <= n <= |cfg.trace|
    requires cfg == Config(BlockedTrace(|cfg.trace|), 4, Lru, BlockedLeases(|cfg.trace|))
    ensures Replay(cfg, n).hits == n - 3 && 1 in Replay(cfg, n).resident
  {
    hide Replay;
    if n == 3 {
      BlockedFirst(cfg);
    } else {
      BlockedLarge(cfg, n - 1);
      RepeatIsHit(cfg, n - 1, 1);
    }
  }

  lemma BlockedFirst(cfg: Config)
    requires 3 <= |cfg.trace|
    requires cfg == Config(BlockedTrace(|cfg.trace|), 4, Lru, BlockedLeases(|cfg.trace|))
    ensures Replay(cfg, 3).hits == 0 && 1 in Replay(cfg, 3).resident
  {
    hide Replay;
    var store := map[0 := Entry(4, 0, 1)];
    Totals(0, Entry(4, 0, 1), 1, Entry(1, 2, 1));
    FirstOne(cfg, 0, 4);
    ReplayNext(cfg, 1);
    assert cfg.trace[1] == Request(1, 1) && cfg.trace[2] == Request(1, 1);
    assert store.Keys - cfg.Protected(1) == {};
    assert EvictLoop(cfg, 1, store, 1) == (store, 0);
    assert Replay(cfg, 2) == Refuse(Replay(cfg, 1), store, 0);
    ReplayNext(cfg, 2);
    EvictOnly(cfg, 2, 0, Entry(4, 0, 1), 1);
    assert Replay(cfg, 3) == Admit(Replay(cfg, 2), 1, 1, 2, map[], 1);
  }

  /** Two requests are too few: a hit on the second needs only that the first fits. */
  lemma TwoAreSafe(trace: seq<Request>, leases: Leases, small: nat, large: nat)
    requires |trace| <= 2 && small <= large && (leases.Leased? ==> |leases.sets| == |trace|)
    ensures LruHits(trace, small, leases) <= LruHits(trace, large, leases)
  {
    hide Step, Replay;
    var a, b := Config(trace, small, Lru, leases), Config(trace, large, Lru, leases);
    assert Replay(a, 0).hits == 0 && Replay(b, 0).hits == 0 by { AtStart(a); AtStart(b); }
    if |trace| > 0 {
      FirstOne(a, trace[0].ref, trace[0].bytes);
      FirstOne(b, trace[0].ref, trace[0].bytes);
    }
    if |trace| == 2 {
      ReplayNext(a, 1);
      ReplayNext(b, 1);
      HitsStep(a, 1, Replay(a, 1));
      HitsStep(b, 1, Replay(b, 1));
    }
  }

  lemma AtStart(cfg: Config)
    requires cfg.Valid()
    ensures Replay(cfg, 0) == INITIAL
  {
  }

  /** Hits never fall with capacity exactly when nothing is leased, or all tensors have one size, or
      there are at most two requests. */
  lemma HitsNeverFallExactly(leased: bool, mixed: bool, length: nat)
    ensures HitsNeverFall(leased, mixed, length) <==> !leased || !mixed || length <= 2
  {
    hide LruHits, Replay, Consistent, OneSize, BlockedTrace, BlockedLeases;
    if !leased || !mixed || length <= 2 {
      forall trace: seq<Request>, leases: Leases, small: nat, large: nat
        | Swept(leased, mixed, length, trace, leases) && small <= large
        ensures LruHits(trace, small, leases) <= LruHits(trace, large, leases)
      {
        SweptIsSafe(leased, mixed, length, trace, leases, small, large);
      }
    } else {
      var trace, leases := BlockedTrace(length), BlockedLeases(length);
      BlockedIsSwept(length);
      BlockedHits(length);
      assert !HitsNeverFall(leased, mixed, length);
    }
  }

  lemma BlockedHits(length: nat)
    requires length >= 3
    ensures LruHits(BlockedTrace(length), 1, BlockedLeases(length)) == length - 2
    ensures LruHits(BlockedTrace(length), 4, BlockedLeases(length)) == length - 3
  {
    hide Replay;
    BlockedSmall(Config(BlockedTrace(length), 1, Lru, BlockedLeases(length)), length);
    BlockedLarge(Config(BlockedTrace(length), 4, Lru, BlockedLeases(length)), length);
  }

  lemma BlockedIsSwept(length: nat)
    requires length >= 3
    ensures Swept(true, true, length, BlockedTrace(length), BlockedLeases(length))
  {
  }

  lemma SweptIsSafe(leased: bool, mixed: bool, length: nat, trace: seq<Request>, leases: Leases,
                    small: nat, large: nat)
    requires Swept(leased, mixed, length, trace, leases) && small <= large
    requires !leased || !mixed || length <= 2
    ensures LruHits(trace, small, leases) <= LruHits(trace, large, leases)
  {
    hide Replay;
    var cfg := Config(trace, small, Lru, leases);
    var wide := Config(trace, large, Lru, leases);
    assert wide == cfg.(capacity := large);
    if length <= 2 {
      TwoAreSafe(trace, leases, small, large);
    } else if mixed {
      var sizes := SizesOf(trace);
      LruInclusion(cfg, wide, sizes, length);
    } else {
      var size: nat :| OneSize(trace, size);
      LeasedInclusion(cfg, wide, size, length);
    }
  }
}
