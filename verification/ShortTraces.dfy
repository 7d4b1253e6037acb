/**
 How long a trace must be before MIN can lose: with leases LRU reloads fewer bytes than MIN on
 some trace of a length exactly from length 5, and without leases LFU does exactly from length 6.
 On shorter traces the policies have no room to disagree in a way that matters.
 */
module ShortTraces {
  import opened Common
  import opened Residency
  import opened ResidencyAccounting
  import opened LruStack
  import opened MinWindow
  import opened AvoidableReloads
  import opened ResidencyLimits
  import opened LeasedLru

  // ---------------------------------------------------------------- a schedule without leases

  lemma SameVictim(a: Config, b: Config, n: nat, resident: Store, eligible: set<nat>)
    requires eligible <= resident.Keys && eligible != {}
    requires forall r, q :: r in eligible && q in eligible ==>
      Prefers(a, n, resident, eligible, r, q) == Prefers(b, n, resident, eligible, r, q)
    ensures Victim(a, n, resident, eligible) == Victim(b, n, resident, eligible)
  {
    var v := Victim(a, n, resident, eligible);
    assert IsVictim(b, n, resident, eligible, v) by {
      forall r | r in eligible ensures Prefers(b, n, resident, eligible, v, r) {
        assert Prefers(a, n, resident, eligible, v, r);
      }
    }
    VictimUnique(b, n, resident, eligible, v, Victim(b, n, resident, eligible));
  }

  lemma {:induction false} NothingLeasedEviction(cfg: Config, n: nat, resident: Store, size: nat)
    requires cfg.Valid() && cfg.leases.Leased? && n < |cfg.trace| && cfg.leases.sets[n] == {}
    ensures EvictLoop(cfg, n, resident, size)
            == EvictLoop(cfg.(leases := Unleased), n, resident, size)
    decreases |resident|
  {
    var free := cfg.(leases := Unleased);
    var eligible := resident.Keys - cfg.Protected(n);
    assert eligible == resident.Keys - free.Protected(n);
    if resident != map[] && TotalBytes(resident) + size > cfg.capacity && eligible != {} {
      SameVictim(cfg, free, n, resident, eligible);
      var v := Victim(cfg, n, resident, eligible);
      assert (resident - {v}).Keys == resident.Keys - {v};
      NothingLeasedEviction(cfg, n, resident - {v}, size);
    }
  }

  /** A schedule of empty lease sets replays like no schedule at all. */
  lemma {:induction false} NothingLeased(cfg: Config, n: nat)
    requires cfg.Valid() && cfg.leases.Leased? && n <= |cfg.trace|
    requires forall i :: 0 <= i < |cfg.trace| ==> cfg.leases.sets[i] == {}
    ensures Replay(cfg, n) == Replay(cfg.(leases := Unleased), n)
  {
    hide EvictLoop;
    if n > 0 {
      NothingLeased(cfg, n - 1);
      var s := Replay(cfg, n - 1);
      NothingLeasedEviction(cfg, n - 1, s.resident, cfg.trace[n - 1].bytes);
    }
  }

  // ---------------------------------------------------------------- counters of one request

  /** The request at `n` is loaded: it misses and fits beside the leased residents. */
  ghost predicate Admits(cfg: Config, n: nat, s: State)
    requires cfg.Valid() && n < |cfg.trace|
  {
    && cfg.trace[n].ref !in s.resident
    && TotalBytes(LeasedPart(cfg, n, s.resident)) + cfg.trace[n].bytes <= cfg.capacity
  }

  ghost function Reloaded(cfg: Config, n: nat, s: State): nat
    requires cfg.Valid() && n < |cfg.trace|
  {
    if Admits(cfg, n, s) && cfg.trace[n].ref in s.seen then cfg.trace[n].bytes else 0
  }

  lemma StepCounts(cfg: Config, n: nat, s: State)
    requires cfg.Valid() && n < |cfg.trace|
    ensures var t := Step(cfg, n, s);
            && t.seen == s.seen + (if Admits(cfg, n, s) then {cfg.trace[n].ref} else {})
            && t.reloadBytes == s.reloadBytes + Reloaded(cfg, n, s)
            && (Admits(cfg, n, s) ==> cfg.trace[n].ref in t.resident)
  {
    hide EvictLoop, TotalBytes;
    var kept := EvictLoop(cfg, n, s.resident, cfg.trace[n].bytes).0;
    EvictLoopFrame(cfg, n, s.resident, cfg.trace[n].bytes);
    SubStoreBytes(LeasedPart(cfg, n, s.resident), kept);
  }

  /** Two runs of one trace under different policies. */
  ghost predicate Rivals(a: Config, b: Config) {
    a.Valid() && b == a.(policy := b.policy)
  }

  /** What a request loads and reloads depends on the store, not on the policy. */
  lemma SameCounts(a: Config, b: Config, n: nat, s: State, t: State)
    requires Rivals(a, b) && n < |a.trace| && s.resident == t.resident && s.seen == t.seen
    requires s.reloadBytes == t.reloadBytes
    ensures Step(a, n, s).seen == Step(b, n, t).seen
    ensures Step(a, n, s).reloadBytes == Step(b, n, t).reloadBytes
  {
    hide Step;
    StepCounts(a, n, s);
    StepCounts(b, n, t);
  }

  // ---------------------------------------------------------------- no choice, no difference

  lemma OnlyOne(resident: Store, r: nat)
    requires r in resident && |resident| <= 1
    ensures resident.Keys == {r}
  {
    assert |resident.Keys| == |resident|;
    assert |resident.Keys - {r}| == |resident.Keys| - 1;
  }

  lemma SingleEviction(a: Config, b: Config, n: nat, resident: Store, size: nat)
    requires Rivals(a, b) && n < |a.trace| && |resident| <= 1
    ensures EvictLoop(a, n, resident, size) == EvictLoop(b, n, resident, size)
  {
    var eligible := resident.Keys - a.Protected(n);
    if resident != map[] && TotalBytes(resident) + size > a.capacity && eligible != {} {
      var v := Victim(a, n, resident, eligible);
      OnlyOne(resident, v);
      assert eligible == {v} && resident - {v} == map[];
      assert Victim(b, n, resident, eligible) in eligible;
    }
  }

  lemma SingleSame(a: Config, b: Config, n: nat, s: State)
    requires Rivals(a, b) && n < |a.trace| && |s.resident| <= 1
    ensures Step(a, n, s) == Step(b, n, s)
  {
    hide EvictLoop;
    SingleEviction(a, b, n, s.resident, a.trace[n].bytes);
  }

  lemma FewResidents(cfg: Config, n: nat)
    requires cfg.Valid() && n <= |cfg.trace|
    ensures |Replay(cfg, n).resident| <= n
  {
    hide Replay, TotalBytes;
    Accounting(cfg, n);
  }

  /** The first two requests leave the same state under every policy. */
  lemma SameStart(a: Config, b: Config, n: nat)
    requires Rivals(a, b) && n <= 2 && n <= |a.trace|
    ensures Replay(a, n) == Replay(b, n)
  {
    hide Step;
    if n > 0 {
      SameStart(a, b, n - 1);
      FewResidents(a, n - 1);
      SingleSame(a, b, n - 1, Replay(a, n - 1));
    }
  }

  // ---------------------------------------------------------------- the third request

  /** The store after two requests that are both resident. */
  ghost function StartPair(cfg: Config): Store
    requires |cfg.trace| >= 2
  {
    Pair(cfg.trace[0].ref, Entry(cfg.trace[0].bytes, 0, 1),
         cfg.trace[1].ref, Entry(cfg.trace[1].bytes, 1, 1))
  }

  lemma TwoResidents(cfg: Config)
    requires cfg.Valid() && |cfg.trace| >= 2 && |Replay(cfg, 2).resident| == 2
    ensures cfg.trace[0].ref != cfg.trace[1].ref && Replay(cfg, 2).resident == StartPair(cfg)
    ensures Replay(cfg, 2).seen == {cfg.trace[0].ref, cfg.trace[1].ref}
    ensures cfg.trace[0].bytes + cfg.trace[1].bytes <= cfg.capacity
  {
    hide Replay;
    FirstOne(cfg, cfg.trace[0].ref, cfg.trace[0].bytes);
    ReplayNext(cfg, 1);
    var s := Replay(cfg, 1);
    FewResidents(cfg, 1);
    SecondGrows(cfg, s);
    assert cfg.trace[0].bytes <= cfg.capacity;
    OnePlusOne(cfg, s);
    Totals(cfg.trace[0].ref, Entry(cfg.trace[0].bytes, 0, 1),
           cfg.trace[1].ref, Entry(cfg.trace[1].bytes, 1, 1));
    AccountedBytes(cfg, 2);
  }

  lemma AccountedBytes(cfg: Config, n: nat)
    requires cfg.Valid() && n <= |cfg.trace|
    ensures TotalBytes(Replay(cfg, n).resident) <= cfg.capacity
  {
    hide Replay, TotalBytes;
    Accounting(cfg, n);
  }

  /** If the second request leaves two residents, it was admitted without any eviction. */
  lemma SecondGrows(cfg: Config, s: State)
    requires cfg.Valid() && |cfg.trace| >= 2 && |s.resident| <= 1
    requires |Step(cfg, 1, s).resident| == 2
    ensures cfg.trace[1].ref !in s.resident && |s.resident| == 1
    ensures Step(cfg, 1, s) == Admit(s, cfg.trace[1].ref, cfg.trace[1].bytes, 1, s.resident, 0)
  {
    hide EvictLoop, TotalBytes;
    var Request(x, size) := cfg.trace[1];
    if x in s.resident {
      SameKeysSize(Hit(s, x, 1).resident, s.resident);
    } else {
      var (kept, victims) := EvictLoop(cfg, 1, s.resident, size);
      EvictLoopFrame(cfg, 1, s.resident, size);
      StoreGrows(kept, x, Entry(size, 1, 1));
      SubStoreBytes(kept, s.resident);
      if |kept| == |s.resident| {
        SameSub(kept, s.resident);
      }
    }
  }

  lemma SameKeysSize(a: Store, b: Store)
    requires a.Keys == b.Keys
    ensures |a| == |b|
  {
    assert |a.Keys| == |a| && |b.Keys| == |b|;
  }

  lemma SameSub(part: Store, whole: Store)
    requires SubStore(part, whole) && |part| == |whole|
    ensures part == whole
  {
    assert |part.Keys| == |whole.Keys|;
    assert whole.Keys == part.Keys + (whole.Keys - part.Keys);
    assert |whole.Keys - part.Keys| == 0;
  }

  lemma OnePlusOne(cfg: Config, s: State)
    requires cfg.Valid() && |cfg.trace| >= 2 && cfg.trace[1].ref !in s.resident
    requires s == Admit(INITIAL, cfg.trace[0].ref, cfg.trace[0].bytes, 0, map[], 0)
    ensures cfg.trace[0].ref != cfg.trace[1].ref
    ensures var t := Admit(s, cfg.trace[1].ref, cfg.trace[1].bytes, 1, s.resident, 0);
            t.resident == StartPair(cfg) && t.seen == {cfg.trace[0].ref, cfg.trace[1].ref}
  {
  }

  lemma EvictStays(cfg: Config, n: nat, kept: Store, size: nat)
    requires cfg.Valid() && n < |cfg.trace|
    requires || kept == map[] || TotalBytes(kept) + size <= cfg.capacity
             || kept.Keys - cfg.Protected(n) == {}
    ensures EvictLoop(cfg, n, kept, size) == (kept, 0)
  {
  }

  lemma OnlyOneEligible(x: nat, ex: Entry, y: nat, ey: Entry, leased: set<nat>, v: nat)
    requires x in leased || y in leased
    requires v in Pair(x, ex, y, ey).Keys - leased
    ensures Pair(x, ex, y, ey).Keys - leased == {v}
  {
  }

  /** Two residents, one of them leased: only the other can go, whatever the policy. */
  lemma PairSame(a: Config, b: Config, n: nat, x: nat, ex: Entry, y: nat, ey: Entry, size: nat)
    requires Rivals(a, b) && n < |a.trace| && x != y
    requires x in a.Protected(n) || y in a.Protected(n) || ex.bytes + ey.bytes + size <= a.capacity
    ensures EvictLoop(a, n, Pair(x, ex, y, ey), size) == EvictLoop(b, n, Pair(x, ex, y, ey), size)
  {
    hide EvictLoop, Victim, TotalBytes, Leads, Prefers;
    var pair := Pair(x, ex, y, ey);
    var eligible := pair.Keys - a.Protected(n);
    Totals(x, ex, y, ey);
    if ex.bytes + ey.bytes + size <= a.capacity || eligible == {} {
      EvictStays(a, n, pair, size);
      EvictStays(b, n, pair, size);
    } else {
      var v := Victim(a, n, pair, eligible);
      assert v in eligible && Victim(b, n, pair, eligible) in eligible;
      OnlyOneEligible(x, ex, y, ey, a.Protected(n), v);
      EvictLoopMore(a, n, pair, size, v);
      EvictLoopMore(b, n, pair, size, v);
      PairRest(pair, x, y, v);
      SingleEviction(a, b, n, pair - {v}, size);
    }
  }

  lemma PairRest(pair: Store, x: nat, y: nat, v: nat)
    requires pair.Keys == {x, y} && x != y && v in pair
    ensures |pair - {v}| <= 1
  {
    assert (pair - {v}).Keys == {x, y} - {v};
    assert |(pair - {v}).Keys| == |pair - {v}|;
  }

  /** The eviction loop on two residents that may both go, when `x` goes first. */
  lemma PairEvicts(cfg: Config, n: nat, x: nat, ex: Entry, y: nat, ey: Entry, size: nat)
    requires cfg.Valid() && n < |cfg.trace| && x != y && cfg.Protected(n) !! {x, y}
    requires ex.bytes + ey.bytes + size > cfg.capacity
    requires Prefers(cfg, n, Pair(x, ex, y, ey), {x, y}, x, y)
    ensures EvictLoop(cfg, n, Pair(x, ex, y, ey), size)
            == if ey.bytes + size <= cfg.capacity then (map[y := ey], 1) else (map[], 2)
  {
    if ey.bytes + size <= cfg.capacity {
      EvictFirst(cfg, n, x, ex, y, ey, size);
    } else {
      EvictBoth(cfg, n, x, ex, y, ey, size);
    }
  }

  lemma PairFlips(x: nat, ex: Entry, y: nat, ey: Entry)
    requires x != y
    ensures Pair(x, ex, y, ey) == Pair(y, ey, x, ex)
  {
  }

  // ---------------------------------------------------------------- four requests under leases

  lemma NextOnly(cfg: Config, n: nat, r: nat)
    requires n + 2 == |cfg.trace|
    ensures FutureKey(cfg.trace, n, r) == if cfg.trace[n + 1].ref == r then n + 1 else NEVER
  {
    assert NextAt(cfg.trace, n + 2, r) == None;
  }

  ghost predicate LruAndMin(lru: Config, mine: Config) {
    && lru.Valid() && lru.policy.Lru? && mine == lru.(policy := Min)
    && |lru.trace| == 4 && Consistent(lru.trace)
  }

  /** MIN's fourth request is a reload only if LRU's is: where two residents and a newcomer leave
      the policies a choice. */
  lemma FourthAfterChoice(lru: Config, mine: Config, s: State)
    requires LruAndMin(lru, mine) && s == Replay(lru, 2) && |s.resident| == 2
    requires lru.trace[2].ref !in s.resident
    requires lru.Protected(2) !! s.resident.Keys
    requires TotalBytes(s.resident) + lru.trace[2].bytes > lru.capacity
    ensures Reloaded(mine, 3, Step(mine, 2, s)) <= Reloaded(lru, 3, Step(lru, 2, s))
  {
    hide Replay, EvictLoop, Reloaded, TotalBytes;
    TwoResidents(lru);
    var x, y := lru.trace[0].ref, lru.trace[1].ref;
    var ex, ey := Entry(lru.trace[0].bytes, 0, 1), Entry(lru.trace[1].bytes, 1, 1);
    var size := lru.trace[2].bytes;
    Totals(x, ex, y, ey);
    PairEvicts(lru, 2, x, ex, y, ey, size);
    NextOnly(mine, 2, x);
    NextOnly(mine, 2, y);
    if lru.trace[3].ref == x {
      PairFlips(x, ex, y, ey);
      PairEvicts(mine, 2, y, ey, x, ex, size);
      FourthIsFirst(lru, mine, s);
    } else if lru.trace[3].ref == y {
      PairEvicts(mine, 2, x, ex, y, ey, size);
      SameAfter(lru, mine, s);
    } else {
      NothingToReload(mine, s);
    }
  }

  /** The same eviction leads to the same state, and then to the same reload. */
  lemma SameAfter(lru: Config, mine: Config, s: State)
    requires Rivals(lru, mine) && |lru.trace| == 4
    requires EvictLoop(lru, 2, s.resident, lru.trace[2].bytes)
             == EvictLoop(mine, 2, s.resident, lru.trace[2].bytes)
    ensures Step(lru, 2, s) == Step(mine, 2, s)
    ensures Reloaded(mine, 3, Step(mine, 2, s)) == Reloaded(lru, 3, Step(lru, 2, s))
  {
    hide EvictLoop, TotalBytes;
  }

  /** A fourth tensor, or a third that was admitted, has nothing to reload. */
  lemma NothingToReload(cfg: Config, s: State)
    requires cfg.Valid() && |cfg.trace| == 4 && s.seen == s.resident.Keys
    requires cfg.trace[3].ref !in s.resident
    ensures Reloaded(cfg, 3, Step(cfg, 2, s)) == 0
  {
    hide Step;
    StepCounts(cfg, 2, s);
  }

  /** The fourth request returns to the first tensor, which MIN keeps if it can. If it cannot, LRU
      may have kept the second one, beside which the first one fits. */
  lemma FourthIsFirst(lru: Config, mine: Config, s: State)
    requires LruAndMin(lru, mine) && |s.resident| == 2 && s.resident == StartPair(lru)
    requires lru.trace[0].ref != lru.trace[1].ref && lru.trace[3].ref == lru.trace[0].ref
    requires lru.trace[0].bytes + lru.trace[1].bytes <= lru.capacity
    requires lru.trace[2].ref !in s.resident && s.seen == s.resident.Keys
    requires var x, y, size := lru.trace[0], lru.trace[1], lru.trace[2].bytes;
             && EvictLoop(lru, 2, s.resident, size)
                == (if y.bytes + size <= lru.capacity then (map[y.ref := Entry(y.bytes, 1, 1)], 1)
                    else (map[], 2))
             && EvictLoop(mine, 2, s.resident, size)
                == (if x.bytes + size <= lru.capacity then (map[x.ref := Entry(x.bytes, 0, 1)], 1)
                    else (map[], 2))
    ensures Reloaded(mine, 3, Step(mine, 2, s)) <= Reloaded(lru, 3, Step(lru, 2, s))
  {
    hide EvictLoop, Reloaded;
    var x, y, c := lru.trace[0], lru.trace[1], lru.trace[2];
    var ex, ey, ec := Entry(x.bytes, 0, 1), Entry(y.bytes, 1, 1), Entry(c.bytes, 2, 1);
    Totals(x.ref, ex, y.ref, ey);
    Totals(y.ref, ey, c.ref, ec);
    if x.bytes + c.bytes <= lru.capacity {
      assert x.ref in Step(mine, 2, s).resident;
      ResidentIsNoReload(mine, Step(mine, 2, s));
    } else if y.bytes + c.bytes <= lru.capacity {
      assert Step(lru, 2, s) == Admit(s, c.ref, c.bytes, 2, map[y.ref := ey], 1);
      assert Step(mine, 2, s) == Admit(s, c.ref, c.bytes, 2, map[], 2);
      BesideTheSecond(lru, mine, Step(lru, 2, s), Step(mine, 2, s));
    } else {
      SameAfter(lru, mine, s);
    }
  }

  lemma ResidentIsNoReload(cfg: Config, s: State)
    requires cfg.Valid() && |cfg.trace| == 4 && cfg.trace[3].ref in s.resident
    ensures Reloaded(cfg, 3, s) == 0
  {
  }

  lemma BesideTheSecond(lru: Config, mine: Config, s: State, t: State)
    requires LruAndMin(lru, mine) && lru.trace[3].ref == lru.trace[0].ref
    requires var x, y, c := lru.trace[0], lru.trace[1], lru.trace[2];
             && x.ref != y.ref && x.ref != c.ref && y.ref != c.ref
             && x.bytes + y.bytes <= lru.capacity && x.bytes + c.bytes > lru.capacity
             && s.resident == Pair(y.ref, Entry(y.bytes, 1, 1), c.ref, Entry(c.bytes, 2, 1))
             && t.resident == map[c.ref := Entry(c.bytes, 2, 1)] && s.seen == t.seen
    ensures Reloaded(mine, 3, t) <= Reloaded(lru, 3, s)
  {
    var x, y, c := lru.trace[0], lru.trace[1], lru.trace[2];
    var ey, ec := Entry(y.bytes, 1, 1), Entry(c.bytes, 2, 1);
    assert lru.trace[3].bytes == x.bytes;
    Totals(y.ref, ey, c.ref, ec);
    Totals(c.ref, ec, y.ref, ey);
    if c.ref in lru.Protected(3) {
      assert LeasedPart(mine, 3, t.resident) == t.resident;
    } else {
      SubStoreBytes(LeasedPart(lru, 3, s.resident), map[y.ref := ey]);
    }
  }

  /** On at most four requests MIN reloads no more bytes than LRU, whatever is leased. */
  lemma FourAreSafe(trace: seq<Request>, capacity: nat, leases: Leases)
    requires |trace| <= 4 && Consistent(trace) && (leases.Leased? ==> |leases.sets| == |trace|)
    ensures AvoidableReloadBytes(trace, capacity, leases) >= 0
  {
    hide Step, Replay, Reloaded, TotalBytes, Consistent;
    var lru, mine := Config(trace, capacity, Lru, leases), Config(trace, capacity, Min, leases);
    assert Rivals(lru, mine);
    if |trace| <= 2 {
      SameStart(lru, mine, |trace|);
    } else {
      SameStart(lru, mine, 2);
      ReplayNext(lru, 2);
      ReplayNext(mine, 2);
      var s := Replay(lru, 2);
      SameCounts(lru, mine, 2, s, s);
      if |trace| == 4 {
        FourthReload(lru, mine, s);
        ReplayNext(lru, 3);
        ReplayNext(mine, 3);
        StepCounts(lru, 3, Replay(lru, 3));
        StepCounts(mine, 3, Replay(mine, 3));
      }
    }
  }

  lemma FourthReload(lru: Config, mine: Config, s: State)
    requires LruAndMin(lru, mine) && s == Replay(lru, 2)
    ensures Reloaded(mine, 3, Step(mine, 2, s)) <= Reloaded(lru, 3, Step(lru, 2, s))
  {
    hide Step, Replay, Reloaded, EvictLoop;
    FewResidents(lru, 2);
    if |s.resident| <= 1 {
      SingleSame(lru, mine, 2, s);
    } else if lru.trace[2].ref in s.resident {
      HitSame(lru, mine, s);
    } else if lru.Protected(2) !! s.resident.Keys
              && TotalBytes(s.resident) + lru.trace[2].bytes > lru.capacity {
      FourthAfterChoice(lru, mine, s);
    } else {
      TwoResidents(lru);
      var x, y := lru.trace[0], lru.trace[1];
      Totals(x.ref, Entry(x.bytes, 0, 1), y.ref, Entry(y.bytes, 1, 1));
      PairSame(lru, mine, 2, x.ref, Entry(x.bytes, 0, 1), y.ref, Entry(y.bytes, 1, 1),
               lru.trace[2].bytes);
      SameAfter(lru, mine, s);
    }
    assert lru.trace == mine.trace && lru.capacity == mine.capacity;
    if Step(lru, 2, s) == Step(mine, 2, s) {
      SameReload(lru, mine, Step(lru, 2, s));
    }
  }

  lemma HitSame(a: Config, b: Config, s: State)
    requires Rivals(a, b) && |a.trace| == 4 && a.trace[2].ref in s.resident
    ensures Step(a, 2, s) == Step(b, 2, s)
  {
    hide EvictLoop;
  }

  lemma SameReload(a: Config, b: Config, s: State)
    requires Rivals(a, b) && |a.trace| == 4
    ensures Reloaded(a, 3, s) == Reloaded(b, 3, s)
  {
  }

  // ---------------------------------------------------------------- the exact length under leases

  /** The reported figure, on all traces of a length, all capacities and all lease schedules. */
  ghost predicate NeverNegativeLeased(length: nat) {
    forall trace: seq<Request>, capacity: nat, leases: Leases ::
      |trace| == length && Consistent(trace) && (leases.Leased? ==> |leases.sets| == length) ==>
        AvoidableReloadBytes(trace, capacity, leases) >= 0
  }

  /** With leases the figure is never negative exactly up to four requests. */
  lemma NeverNegativeLeasedExactly(length: nat)
    ensures NeverNegativeLeased(length) <==> length <= 4
  {
    hide AvoidableReloadBytes, Consistent, LeaseTrace, LeaseSchedule;
    if length <= 4 {
      forall trace: seq<Request>, capacity: nat, leases: Leases
        | |trace| == length && Consistent(trace) && (leases.Leased? ==> |leases.sets| == length)
        ensures AvoidableReloadBytes(trace, capacity, leases) >= 0
      {
        FourAreSafe(trace, capacity, leases);
      }
    } else {
      LeasesBreakMin(length);
    }
  }

  /** When the schedule leases nothing, as for a trace without lease events, the figure is
      non-negative on every consistent trace of at most 10^9 requests. */
  lemma NothingLeasedIsSafe(trace: seq<Request>, capacity: nat, leases: Leases)
    requires Consistent(trace) && |trace| <= NEVER && leases.Leased? && |leases.sets| == |trace|
    requires forall i :: 0 <= i < |trace| ==> leases.sets[i] == {}
    ensures AvoidableReloadBytes(trace, capacity, leases) >= 0
  {
    hide Replay;
    NothingLeased(Config(trace, capacity, Lru, leases), |trace|);
    NothingLeased(Config(trace, capacity, Min, leases), |trace|);
    NeverNegativeUpToNever(trace, capacity);
  }
}
