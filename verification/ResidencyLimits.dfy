/**
 Where the guarantees of the flat replay end, by concrete traces: with a lease schedule
 MIN can reload more than LRU, and with unequal sizes MIN can reload more than LFU.
 */
module ResidencyLimits {
  import opened Common
  import opened Residency
  import opened AvoidableReloads

  function Pair(a: nat, ea: Entry, b: nat, eb: Entry): Store {
    map[a := ea, b := eb]
  }

  lemma Totals(a: nat, ea: Entry, b: nat, eb: Entry)
    requires a != b
    ensures TotalBytes(map[]) == 0 && TotalBytes(map[a := ea]) == ea.bytes
    ensures TotalBytes(Pair(a, ea, b, eb)) == ea.bytes + eb.bytes
  {
    TotalInsert(map[], a, ea);
    TotalInsert(map[a := ea], b, eb);
    assert Pair(a, ea, b, eb) == map[a := ea][b := eb];
  }

  /** The eviction loop on a store of two entries, when it must evict exactly `a`. */
  lemma EvictFirst(cfg: Config, n: nat, a: nat, ea: Entry, b: nat, eb: Entry, size: nat)
    requires cfg.Valid() && n < |cfg.trace| && a != b && cfg.Protected(n) !! {a, b}
    requires ea.bytes + eb.bytes + size > cfg.capacity >= eb.bytes + size
    requires Prefers(cfg, n, Pair(a, ea, b, eb), {a, b}, a, b)
    ensures EvictLoop(cfg, n, Pair(a, ea, b, eb), size) == (map[b := eb], 1)
  {
    var pair := Pair(a, ea, b, eb);
    Totals(a, ea, b, eb);
    Totals(b, eb, a, ea);
    assert pair.Keys - cfg.Protected(n) == {a, b};
    assert IsVictim(cfg, n, pair, {a, b}, a);
    VictimUnique(cfg, n, pair, {a, b}, a, Victim(cfg, n, pair, {a, b}));
    assert pair - {a} == map[b := eb];
    assert EvictLoop(cfg, n, map[b := eb], size) == (map[b := eb], 0);
  }

  /** The eviction loop on a store of two entries, when it must evict `a` and then `b`. */
  lemma EvictBoth(cfg: Config, n: nat, a: nat, ea: Entry, b: nat, eb: Entry, size: nat)
    requires cfg.Valid() && n < |cfg.trace| && a != b && cfg.Protected(n) !! {a, b}
    requires eb.bytes + size > cfg.capacity
    requires Prefers(cfg, n, Pair(a, ea, b, eb), {a, b}, a, b)
    ensures EvictLoop(cfg, n, Pair(a, ea, b, eb), size) == (map[], 2)
  {
    var pair := Pair(a, ea, b, eb);
    Totals(a, ea, b, eb);
    Totals(b, eb, a, ea);
    assert pair.Keys - cfg.Protected(n) == {a, b};
    assert IsVictim(cfg, n, pair, {a, b}, a);
    VictimUnique(cfg, n, pair, {a, b}, a, Victim(cfg, n, pair, {a, b}));
    assert pair - {a} == map[b := eb];
    EvictOnly(cfg, n, b, eb, size);
  }

  lemma EvictOnly(cfg: Config, n: nat, b: nat, eb: Entry, size: nat)
    requires cfg.Valid() && n < |cfg.trace| && b !in cfg.Protected(n)
    requires eb.bytes + size > cfg.capacity
    ensures EvictLoop(cfg, n, map[b := eb], size) == (map[], 1)
  {
    Totals(b, eb, b + 1, eb);
    var single := map[b := eb];
    assert single.Keys - cfg.Protected(n) == {b};
    assert single - {b} == map[];
    assert EvictLoop(cfg, n, map[], size) == (map[], 0);
  }

  /** The first request into the empty store, when it fits. */
  lemma FirstOne(cfg: Config, a: nat, size: nat)
    requires cfg.Valid() && |cfg.trace| > 0 && cfg.trace[0] == Request(a, size)
    ensures size <= cfg.capacity ==> Replay(cfg, 1) == Admit(INITIAL, a, size, 0, map[], 0)
    ensures size > cfg.capacity ==> Replay(cfg, 1) == Refuse(INITIAL, map[], 0)
  {
    Totals(0, Entry(0, 0, 0), 1, Entry(0, 0, 0));
    assert EvictLoop(cfg, 0, map[], size) == (map[], 0);
    assert Replay(cfg, 1) == Step(cfg, 0, INITIAL);
  }

  /** A request that fits is admitted to an empty store. */
  lemma IntoEmpty(cfg: Config, n: nat, s: State)
    requires cfg.Valid() && n < |cfg.trace| && s.resident == map[]
    requires cfg.trace[n].bytes <= cfg.capacity
    ensures Step(cfg, n, s) == Admit(s, cfg.trace[n].ref, cfg.trace[n].bytes, n, map[], 0)
  {
    Totals(0, Entry(0, 0, 0), 1, Entry(0, 0, 0));
    assert EvictLoop(cfg, n, map[], cfg.trace[n].bytes) == (map[], 0);
  }

  lemma RepeatIsHit(cfg: Config, n: nat, r: nat)
    requires cfg.Valid() && n < |cfg.trace| && cfg.trace[n].ref == r && r in Replay(cfg, n).resident
    ensures Replay(cfg, n + 1).hits == Replay(cfg, n).hits + 1 && r in Replay(cfg, n + 1).resident
    ensures Replay(cfg, n + 1).reloadBytes == Replay(cfg, n).reloadBytes
  {
    hide EvictLoop;
  }

  /** Two tensors loaded into an empty store by the first two requests. */
  lemma FirstTwo(cfg: Config, a: nat, b: nat)
    requires cfg.Valid() && |cfg.trace| >= 2 && a != b
    requires cfg.trace[0].ref == a && cfg.trace[1].ref == b
    requires cfg.trace[0].bytes + cfg.trace[1].bytes <= cfg.capacity
    ensures Replay(cfg, 2).resident
         == Pair(a, Entry(cfg.trace[0].bytes, 0, 1), b, Entry(cfg.trace[1].bytes, 1, 1))
    ensures Replay(cfg, 2).seen == {a, b} && Replay(cfg, 2).reloadBytes == 0
  {
    var ea, eb := Entry(cfg.trace[0].bytes, 0, 1), Entry(cfg.trace[1].bytes, 1, 1);
    Totals(a, ea, b, eb);
    assert EvictLoop(cfg, 0, map[], ea.bytes) == (map[], 0);
    assert Replay(cfg, 1) == Admit(INITIAL, a, ea.bytes, 0, map[], 0);
    assert EvictLoop(cfg, 1, map[a := ea], eb.bytes) == (map[a := ea], 0);
    assert Replay(cfg, 2) == Admit(Replay(cfg, 1), b, eb.bytes, 1, map[a := ea], 0);
    assert Replay(cfg, 2).resident == Pair(a, ea, b, eb);
  }

  lemma {:induction false} RepeatsAreHits(cfg: Config, from: nat, n: nat, r: nat)
    requires cfg.Valid() && from <= n <= |cfg.trace| && r in Replay(cfg, from).resident
    requires forall i :: from <= i < n ==> cfg.trace[i].ref == r
    ensures r in Replay(cfg, n).resident && Replay(cfg, n).reloadBytes == Replay(cfg, from).reloadBytes
    decreases n
  {
    hide Replay;
    if from < n {
      RepeatsAreHits(cfg, from, n - 1, r);
      RepeatIsHit(cfg, n - 1, r);
    }
  }

  // ---------------------------------------------------------------- leases

  /** Five requests, and any number of repeats of the last one. */
  function LeaseTrace(length: nat): (t: seq<Request>)
    requires length >= 5
    ensures |t| == length
  {
    [Request(0, 1), Request(1, 1), Request(2, 1), Request(0, 1)] + seq(length - 4, _ => Request(1, 1))
  }

  function LeaseSchedule(length: nat): Leases
    requires length >= 5
  {
    Leased([{}, {}, {}, {1, 2}] + seq(length - 4, _ => {}))
  }

  ghost predicate LeaseRun(cfg: Config, policy: Policy) {
    && |cfg.trace| >= 5
    && cfg == Config(LeaseTrace(|cfg.trace|), 2, policy, LeaseSchedule(|cfg.trace|))
  }

  lemma LeaseRunFacts(cfg: Config, policy: Policy)
    requires LeaseRun(cfg, policy)
    ensures |cfg.trace| >= 5 && cfg.Valid() && cfg.capacity == 2 && cfg.policy == policy
    ensures cfg.trace[0] == Request(0, 1) && cfg.trace[1] == Request(1, 1)
    ensures cfg.trace[2] == Request(2, 1) && cfg.trace[3] == Request(0, 1)
    ensures forall i :: 4 <= i < |cfg.trace| ==> cfg.trace[i] == Request(1, 1)
    ensures cfg.Protected(2) == {} && cfg.Protected(3) == {1, 2} && cfg.Protected(4) == {}
  {
  }

  /** LRU keeps 1 and 2, whose leases refuse the return of 0, and then hits 1. */
  lemma LeasedLru(cfg: Config)
    requires LeaseRun(cfg, Lru)
    ensures Replay(cfg, |cfg.trace|).reloadBytes == 0
  {
    hide Replay, LeaseRun, Step;
    LeaseRunFacts(cfg, Lru);
    LeasedLruThree(cfg);
    LeasedLruFour(cfg);
    RepeatsAreHits(cfg, 4, |cfg.trace|, 1);
  }

  lemma LeasedLruThree(cfg: Config)
    requires LeaseRun(cfg, Lru)
    ensures Replay(cfg, 3).resident == Pair(1, Entry(1, 1, 1), 2, Entry(1, 2, 1))
    ensures Replay(cfg, 3).reloadBytes == 0
  {
    hide Replay, LeaseRun;
    LeaseRunFacts(cfg, Lru);
    FirstTwo(cfg, 0, 1);
    ReplayNext(cfg, 2);
    EvictFirst(cfg, 2, 0, Entry(1, 0, 1), 1, Entry(1, 1, 1), 1);
    Totals(1, Entry(1, 1, 1), 2, Entry(1, 2, 1));
    assert Replay(cfg, 3) == Admit(Replay(cfg, 2), 2, 1, 2, map[1 := Entry(1, 1, 1)], 1);
  }

  lemma LeasedLruFour(cfg: Config)
    requires LeaseRun(cfg, Lru)
    ensures 1 in Replay(cfg, 4).resident && Replay(cfg, 4).reloadBytes == 0
  {
    hide Replay, LeaseRun;
    LeaseRunFacts(cfg, Lru);
    LeasedLruThree(cfg);
    var kept := Pair(1, Entry(1, 1, 1), 2, Entry(1, 2, 1));
    Totals(1, Entry(1, 1, 1), 2, Entry(1, 2, 1));
    ReplayNext(cfg, 3);
    assert kept.Keys - cfg.Protected(3) == {};
    assert EvictLoop(cfg, 3, kept, 1) == (kept, 0);
    assert Replay(cfg, 4) == Refuse(Replay(cfg, 3), kept, 0);
  }

  /** MIN keeps 0 and 2, hits 0, and then reloads 1. */
  lemma LeasedMin(cfg: Config)
    requires LeaseRun(cfg, Min)
    ensures Replay(cfg, |cfg.trace|).reloadBytes == 1
  {
    hide Replay, Step, LeaseRun;
    LeaseRunFacts(cfg, Min);
    LeasedMinFour(cfg);
    LeasedMinFive(cfg, Replay(cfg, 4));
    ReplayNext(cfg, 4);
    RepeatsAreHits(cfg, 5, |cfg.trace|, 1);
  }

  lemma LeasedMinThree(cfg: Config)
    requires LeaseRun(cfg, Min)
    ensures Replay(cfg, 3).resident == Pair(0, Entry(1, 0, 1), 2, Entry(1, 2, 1))
    ensures Replay(cfg, 3).seen == {0, 1, 2} && Replay(cfg, 3).reloadBytes == 0
  {
    hide Replay, LeaseRun;
    LeaseRunFacts(cfg, Min);
    FirstTwo(cfg, 0, 1);
    ReplayNext(cfg, 2);
    assert NextAt(cfg.trace, 3, 0) == Some(3) && NextAt(cfg.trace, 3, 1) == Some(4);
    assert Replay(cfg, 2).resident == Pair(1, Entry(1, 1, 1), 0, Entry(1, 0, 1));
    EvictFirst(cfg, 2, 1, Entry(1, 1, 1), 0, Entry(1, 0, 1), 1);
    Totals(0, Entry(1, 0, 1), 2, Entry(1, 2, 1));
    assert Replay(cfg, 3) == Admit(Replay(cfg, 2), 2, 1, 2, map[0 := Entry(1, 0, 1)], 1);
  }

  lemma LeasedMinFour(cfg: Config)
    requires LeaseRun(cfg, Min)
    ensures Replay(cfg, 4).resident == Pair(2, Entry(1, 2, 1), 0, Entry(1, 3, 2))
    ensures 1 in Replay(cfg, 4).seen && Replay(cfg, 4).reloadBytes == 0
  {
    hide Replay, LeaseRun, EvictLoop;
    LeaseRunFacts(cfg, Min);
    LeasedMinThree(cfg);
    ReplayNext(cfg, 3);
    assert Replay(cfg, 4) == Hit(Replay(cfg, 3), 0, 3);
  }

  lemma LeasedMinFive(cfg: Config, s: State)
    requires LeaseRun(cfg, Min)
    requires s.resident == Pair(2, Entry(1, 2, 1), 0, Entry(1, 3, 2))
    requires 1 in s.seen && s.reloadBytes == 0
    ensures Step(cfg, 4, s).reloadBytes == 1 && 1 in Step(cfg, 4, s).resident
  {
    hide LeaseRun;
    LeaseRunFacts(cfg, Min);
    assert NextAt(cfg.trace, 5, 0) == None && NextAt(cfg.trace, 5, 2) == None;
    EvictFirst(cfg, 4, 2, Entry(1, 2, 1), 0, Entry(1, 3, 2), 1);
    Totals(0, Entry(1, 3, 2), 2, Entry(1, 2, 1));
    assert Step(cfg, 4, s) == Admit(s, 1, 1, 4, map[0 := Entry(1, 3, 2)], 1);
  }

  /** With leases the reported figure can be negative on every length from 5, with equal sizes. */
  lemma LeasesBreakMin(length: nat)
    requires length >= 5
    ensures Consistent(LeaseTrace(length)) && LeaseSchedule(length).Leased?
    ensures |LeaseSchedule(length).sets| == length
    ensures AvoidableReloadBytes(LeaseTrace(length), 2, LeaseSchedule(length)) == -1
  {
    hide Replay;
    LeasedLru(Config(LeaseTrace(length), 2, Lru, LeaseSchedule(length)));
    LeasedMin(Config(LeaseTrace(length), 2, Min, LeaseSchedule(length)));
  }

  // ---------------------------------------------------------------- unequal sizes

  /** Six requests, and any number of repeats of the last one. */
  function SizeTrace(length: nat): (t: seq<Request>)
    requires length >= 6
    ensures |t| == length
  {
    [Request(0, 1), Request(1, 5), Request(0, 1), Request(2, 2), Request(1, 5)]
    + seq(length - 5, _ => Request(0, 1))
  }

  ghost predicate SizeRun(cfg: Config, policy: Policy) {
    |cfg.trace| >= 6 && cfg == Config(SizeTrace(|cfg.trace|), 6, policy, Unleased)
  }

  lemma SizeRunFacts(cfg: Config, policy: Policy)
    requires SizeRun(cfg, policy)
    ensures |cfg.trace| >= 6 && cfg.Valid() && cfg.capacity == 6
    ensures cfg.leases.Unleased? && cfg.policy == policy
    ensures cfg.trace[0] == Request(0, 1) && cfg.trace[1] == Request(1, 5)
    ensures cfg.trace[2] == Request(0, 1) && cfg.trace[3] == Request(2, 2)
    ensures cfg.trace[4] == Request(1, 5)
    ensures forall i :: 5 <= i < |cfg.trace| ==> cfg.trace[i] == Request(0, 1)
  {
  }

  lemma SizeFirstThree(cfg: Config, policy: Policy)
    requires SizeRun(cfg, policy)
    ensures Replay(cfg, 3).resident == Pair(0, Entry(1, 2, 2), 1, Entry(5, 1, 1))
    ensures Replay(cfg, 3).seen == {0, 1} && Replay(cfg, 3).reloadBytes == 0
  {
    hide Replay, SizeRun, EvictLoop;
    SizeRunFacts(cfg, policy);
    FirstTwo(cfg, 0, 1);
    ReplayNext(cfg, 2);
    assert Replay(cfg, 3) == Hit(Replay(cfg, 2), 0, 2);
  }

  /** LFU evicts the large tensor once and keeps the small one. */
  lemma SizedLfu(cfg: Config)
    requires SizeRun(cfg, Lfu)
    ensures Replay(cfg, |cfg.trace|).reloadBytes == 5
  {
    hide Replay, SizeRun, Step;
    SizeRunFacts(cfg, Lfu);
    SizedLfuFour(cfg);
    SizedLfuFive(cfg);
    RepeatsAreHits(cfg, 5, |cfg.trace|, 0);
  }

  lemma SizedLfuFour(cfg: Config)
    requires SizeRun(cfg, Lfu)
    ensures Replay(cfg, 4).resident == Pair(2, Entry(2, 3, 1), 0, Entry(1, 2, 2))
    ensures Replay(cfg, 4).seen == {0, 1, 2} && Replay(cfg, 4).reloadBytes == 0
  {
    hide Replay, SizeRun;
    SizeRunFacts(cfg, Lfu);
    SizeFirstThree(cfg, Lfu);
    ReplayNext(cfg, 3);
    assert Replay(cfg, 3).resident == Pair(1, Entry(5, 1, 1), 0, Entry(1, 2, 2));
    EvictFirst(cfg, 3, 1, Entry(5, 1, 1), 0, Entry(1, 2, 2), 2);
    Totals(0, Entry(1, 2, 2), 2, Entry(2, 3, 1));
    assert Replay(cfg, 4) == Admit(Replay(cfg, 3), 2, 2, 3, map[0 := Entry(1, 2, 2)], 1);
  }

  lemma SizedLfuFive(cfg: Config)
    requires SizeRun(cfg, Lfu)
    ensures 0 in Replay(cfg, 5).resident && Replay(cfg, 5).reloadBytes == 5
  {
    hide Replay, SizeRun;
    SizeRunFacts(cfg, Lfu);
    SizedLfuFour(cfg);
    ReplayNext(cfg, 4);
    EvictFirst(cfg, 4, 2, Entry(2, 3, 1), 0, Entry(1, 2, 2), 5);
    Totals(0, Entry(1, 2, 2), 2, Entry(2, 3, 1));
    assert Replay(cfg, 5) == Admit(Replay(cfg, 4), 1, 5, 4, map[0 := Entry(1, 2, 2)], 1);
  }

  /** MIN evicts the small tensor first, then needs the room of the large one as well. */
  lemma SizedMin(cfg: Config)
    requires SizeRun(cfg, Min)
    ensures Replay(cfg, |cfg.trace|).reloadBytes == 6
  {
    hide Replay, SizeRun, Step;
    SizeRunFacts(cfg, Min);
    SizedMinFour(cfg);
    SizedMinSix(cfg);
    RepeatsAreHits(cfg, 6, |cfg.trace|, 0);
  }

  lemma SizedMinFour(cfg: Config)
    requires SizeRun(cfg, Min)
    ensures Replay(cfg, 4).resident == map[2 := Entry(2, 3, 1)]
    ensures Replay(cfg, 4).seen == {0, 1, 2} && Replay(cfg, 4).reloadBytes == 0
  {
    hide Replay, SizeRun;
    SizeRunFacts(cfg, Min);
    SizeFirstThree(cfg, Min);
    ReplayNext(cfg, 3);
    assert NextAt(cfg.trace, 4, 0) == Some(5) && NextAt(cfg.trace, 4, 1) == Some(4);
    EvictBoth(cfg, 3, 0, Entry(1, 2, 2), 1, Entry(5, 1, 1), 2);
    Totals(0, Entry(1, 2, 2), 2, Entry(2, 3, 1));
    assert Replay(cfg, 4) == Admit(Replay(cfg, 3), 2, 2, 3, map[], 2);
  }

  lemma SizedMinSix(cfg: Config)
    requires SizeRun(cfg, Min)
    ensures 0 in Replay(cfg, 6).resident && Replay(cfg, 6).reloadBytes == 6
  {
    hide Replay, SizeRun;
    SizeRunFacts(cfg, Min);
    SizedMinFour(cfg);
    ReplayNext(cfg, 4);
    EvictOnly(cfg, 4, 2, Entry(2, 3, 1), 5);
    Totals(1, Entry(5, 4, 1), 2, Entry(2, 3, 1));
    assert Replay(cfg, 5) == Admit(Replay(cfg, 4), 1, 5, 4, map[], 1);
    ReplayNext(cfg, 5);
    assert EvictLoop(cfg, 5, map[1 := Entry(5, 4, 1)], 1) == (map[1 := Entry(5, 4, 1)], 0);
    assert Replay(cfg, 6) == Admit(Replay(cfg, 5), 0, 1, 5, map[1 := Entry(5, 4, 1)], 0);
  }

  /** With unequal sizes MIN is not optimal on any length from 6: LFU reloads fewer bytes. */
  lemma SizesBreakMin(length: nat)
    requires length >= 6
    ensures Consistent(SizeTrace(length))
    ensures Replay(Config(SizeTrace(length), 6, Min, Unleased), length).reloadBytes
          > Replay(Config(SizeTrace(length), 6, Lfu, Unleased), length).reloadBytes
  {
    hide Replay;
    SizedLfu(Config(SizeTrace(length), 6, Lfu, Unleased));
    SizedMin(Config(SizeTrace(length), 6, Min, Unleased));
  }
}
