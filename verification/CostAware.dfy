/**
 The cost-aware comparison replay. It keeps its recency in a table of its own that
 outlives evictions, and counts first loads and reloads apart. It is proved to be the
 same replay as the flat one under the same policy.
 */
module CostAware {
  import opened Common
  import opened Residency
  import opened ResidencyAccounting

  datatype Report = Report(hits: nat, loads: nat, evictions: nat, reloads: nat,
                           loadBytes: nat, reloadBytes: nat)

  /** A resident as this replay stores it: its size, and the request that loaded it. */
  datatype Slot = Slot(bytes: nat, loadedAt: nat)

  type Slots = map<nat, Slot>

  /** Sizes from the slots and recency from the separate table. */
  function Joined(resident: Slots, lastRequest: map<nat, nat>): Facts
    requires resident.Keys <= lastRequest.Keys
  {
    map r | r in resident :: (resident[r].bytes, lastRequest[r])
  }

  predicate PrefersBy(cfg: Config, index: nat, facts: Facts, eligible: set<nat>, a: nat, b: nat)
    requires a in facts && b in facts && !cfg.policy.Lfu?
  {
    match cfg.policy
    case Lru => LexLe(facts[a].1, a, facts[b].1, b)
    case Min => LexLe(FutureKey(cfg.trace, index, b), b, FutureKey(cfg.trace, index, a), a)
    case Scored(score) =>
      var p, q := score(index, facts, eligible, a), score(index, facts, eligible, b);
      p < q || (p == q && a <= b)
  }

  method PickVictim(cfg: Config, index: nat, facts: Facts, eligible: set<nat>, ghost store: Store)
    returns (v: nat)
    requires !cfg.policy.Lfu? && facts == FactsOf(store)
    requires eligible <= facts.Keys && eligible != {}
    ensures v == Victim(cfg, index, store, eligible)
  {
    v :| v in eligible;
    var rest := eligible - {v};
    while rest != {}
      invariant rest <= eligible && v in eligible - rest
      invariant Leads(cfg, index, store, eligible, eligible - rest, v)
      decreases |rest|
    {
      var x :| x in rest;
      LeadsInsert(cfg, index, store, eligible, eligible - rest, v, x);
      assert eligible - rest + {x} == eligible - (rest - {x});
      if !PrefersBy(cfg, index, facts, eligible, v, x) {
        v := x;
      }
      rest := rest - {x};
    }
    assert eligible - rest == eligible;
    VictimUnique(cfg, index, store, eligible, v, Victim(cfg, index, store, eligible));
  }

  /** The slots hold the same residents, sizes and recency as the flat replay's store. */
  ghost predicate Mirrors(resident: Slots, lastRequest: map<nat, nat>, store: Store) {
    && resident.Keys == store.Keys
    && resident.Keys <= lastRequest.Keys
    && forall r :: r in store ==> resident[r].bytes == store[r].bytes && lastRequest[r] == store[r].last
  }

  lemma MirroredFacts(resident: Slots, lastRequest: map<nat, nat>, store: Store)
    requires Mirrors(resident, lastRequest, store)
    ensures Joined(resident, lastRequest) == FactsOf(store)
  {
  }

  lemma MirrorsHit(resident: Slots, lastRequest: map<nat, nat>, s: State, ref: nat, index: nat)
    requires Mirrors(resident, lastRequest, s.resident) && ref in resident
    ensures Mirrors(resident, lastRequest[ref := index], Hit(s, ref, index).resident)
  {
  }

  lemma MirrorsAdmit(kept: Slots, lastRequest: map<nat, nat>, store: Store, s: State,
                     ref: nat, size: nat, index: nat, victims: nat)
    requires Mirrors(kept, lastRequest, store)
    ensures Mirrors(kept[ref := Slot(size, index)], lastRequest[ref := index],
                    Admit(s, ref, size, index, store, victims).resident)
  {
  }

  method SumSlots(resident: Slots, ghost lastRequest: map<nat, nat>, ghost store: Store) returns (total: nat)
    requires Mirrors(resident, lastRequest, store)
    ensures total == TotalBytes(store)
  {
    total := 0;
    var rest := resident;
    ghost var restStore := store;
    while rest != map[]
      invariant Mirrors(rest, lastRequest, restStore)
      invariant total + TotalBytes(restStore) == TotalBytes(store)
      decreases |rest|
    {
      var r :| r in rest.Keys;
      TotalRemove(restStore, r);
      assert (rest - {r}).Keys == rest.Keys - {r};
      total := total + rest[r].bytes;
      rest, restStore := rest - {r}, restStore - {r};
    }
    assert restStore == map[];
  }

  method EvictFor(cfg: Config, index: nat, resident: Slots, lastRequest: map<nat, nat>, size: nat,
                  ghost store: Store)
    returns (kept: Slots, victims: nat, ghost keptStore: Store)
    requires cfg.Valid() && index < |cfg.trace| && !cfg.policy.Lfu?
    requires Mirrors(resident, lastRequest, store)
    ensures Mirrors(kept, lastRequest, keptStore)
    ensures (keptStore, victims) == EvictLoop(cfg, index, store, size)
  {
    hide EvictLoop, EvictRest, Prefers;
    EvictStart(cfg, index, store, size);
    kept, victims, keptStore := resident, 0, store;
    var total := SumSlots(kept, lastRequest, keptStore);
    while kept != map[] && total + size > cfg.capacity
      invariant Mirrors(kept, lastRequest, keptStore) && total == TotalBytes(keptStore)
      invariant EvictRest(cfg, index, keptStore, size, victims) == EvictLoop(cfg, index, store, size)
      decreases |kept|
    {
      var eligible := kept.Keys - cfg.Protected(index);
      if eligible == {} {
        break;
      }
      var facts := Joined(kept, lastRequest);
      MirroredFacts(kept, lastRequest, keptStore);
      var v := PickVictim(cfg, index, facts, eligible, keptStore);
      EvictMore(cfg, index, keptStore, size, victims, v);
      assert (kept - {v}).Keys == kept.Keys - {v};
      kept, keptStore := kept - {v}, keptStore - {v};
      victims := victims + 1;
      total := SumSlots(kept, lastRequest, keptStore);
    }
    assert kept == map[] ==> keptStore.Keys == {};
    EvictStop(cfg, index, keptStore, size, victims);
  }

  /** First loads are the flat replay's loads that are not reloads. */
  ghost function ReportOf(s: State): Report
    requires s.reloads <= s.loads
  {
    Report(s.hits, s.loads - s.reloads, s.evictions, s.reloads, s.loadBytes, s.reloadBytes)
  }

  /** The report of `s` after one more load. */
  lemma ReportAdmit(s: State, ref: nat, size: nat, index: nat, kept: Store, victims: nat)
    requires s.reloads <= s.loads
    ensures var t := Admit(s, ref, size, index, kept, victims);
            && t.reloads <= t.loads
            && var r := ReportOf(s).(evictions := s.evictions + victims, loadBytes := s.loadBytes + size);
               ReportOf(t) == if ref in s.seen
                              then r.(reloads := r.reloads + 1, reloadBytes := r.reloadBytes + size)
                              else r.(loads := r.loads + 1)
  {
  }

  lemma StepCases(cfg: Config, index: nat, s: State)
    requires cfg.Valid() && index < |cfg.trace| && s == Replay(cfg, index)
    ensures var Request(ref, size) := cfg.trace[index];
            var (kept, victims) := EvictLoop(cfg, index, s.resident, size);
            Replay(cfg, index + 1) ==
              if ref in s.resident then Hit(s, ref, index)
              else if TotalBytes(kept) + size > cfg.capacity then Refuse(s, kept, victims)
              else Admit(s, ref, size, index, kept, victims)
  {
  }

  /** A hit changes the recency of its ref and the hit count. */
  lemma ServeHit(cfg: Config, index: nat, s: State, resident: Slots, lastRequest: map<nat, nat>)
    requires cfg.Valid() && index < |cfg.trace| && s == Replay(cfg, index)
    requires Mirrors(resident, lastRequest, s.resident) && cfg.trace[index].ref in resident
    requires s.reloads <= s.loads
    ensures var t := Replay(cfg, index + 1);
            && t.reloads <= t.loads && t.seen == s.seen
            && Mirrors(resident, lastRequest[cfg.trace[index].ref := index], t.resident)
            && ReportOf(t) == ReportOf(s).(hits := ReportOf(s).hits + 1)
  {
    MirrorsHit(resident, lastRequest, s, cfg.trace[index].ref, index);
  }

  /** A miss: evict for the request, then load it if there is room. */
  method ServeMiss(cfg: Config, index: nat, resident: Slots, lastRequest: map<nat, nat>,
                   seen: set<nat>, report: Report, ghost s: State)
    returns (resident': Slots, lastRequest': map<nat, nat>, seen': set<nat>, report': Report)
    requires cfg.Valid() && index < |cfg.trace| && !cfg.policy.Lfu?
    requires s == Replay(cfg, index) && s.reloads <= s.loads && cfg.trace[index].ref !in s.resident
    requires Mirrors(resident, lastRequest, s.resident) && seen == s.seen && report == ReportOf(s)
    ensures var t := Replay(cfg, index + 1);
            && t.reloads <= t.loads && Mirrors(resident', lastRequest', t.resident)
            && seen' == t.seen && report' == ReportOf(t)
  {
    StepCases(cfg, index, s);
    hide Step, Replay, EvictLoop, Mirrors;
    var Request(ref, size) := cfg.trace[index];
    var kept, victims, keptStore := EvictFor(cfg, index, resident, lastRequest, size, s.resident);
    resident', lastRequest', seen' := kept, lastRequest, seen;
    report' := report.(evictions := report.evictions + victims);
    var total := SumSlots(kept, lastRequest, keptStore);
    if total + size <= cfg.capacity {
      MirrorsAdmit(kept, lastRequest, keptStore, s, ref, size, index, victims);
      ReportAdmit(s, ref, size, index, keptStore, victims);
      resident' := kept[ref := Slot(size, index)];
      lastRequest' := lastRequest[ref := index];
      report' := report'.(loadBytes := report.loadBytes + size);
      if ref in seen {
        report' := report'.(reloads := report.reloads + 1, reloadBytes := report.reloadBytes + size);
      } else {
        report' := report'.(loads := report.loads + 1);
      }
      seen' := seen + {ref};
    }
  }

  /** The replay with its four tables: the same residents, hits, evictions, reloads and bytes
      as the flat replay under the same policy, with the first loads counted apart. */
  method Simulate(cfg: Config) returns (report: Report)
    requires cfg.Valid() && !cfg.policy.Lfu?
    ensures Replay(cfg, |cfg.trace|).reloads <= Replay(cfg, |cfg.trace|).loads
    ensures report == ReportOf(Replay(cfg, |cfg.trace|))
  {
    hide *;
    var resident: Slots, seen: set<nat>, lastRequest: map<nat, nat> := map[], {}, map[];
    report := Report(0, 0, 0, 0, 0, 0);
    ghost var s := INITIAL;
    MirrorsNothing(cfg);
    for index := 0 to |cfg.trace|
      invariant s == Replay(cfg, index) && s.reloads <= s.loads
      invariant Mirrors(resident, lastRequest, s.resident)
      invariant seen == s.seen && report == ReportOf(s)
    {
      MirrorsKeys(resident, lastRequest, s.resident);
      var ref := cfg.trace[index].ref;
      if ref in resident {
        ServeHit(cfg, index, s, resident, lastRequest);
        report := report.(hits := report.hits + 1);
        lastRequest := lastRequest[ref := index];
      } else {
        resident, lastRequest, seen, report :=
          ServeMiss(cfg, index, resident, lastRequest, seen, report, s);
      }
      s := Replay(cfg, index + 1);
    }
  }

  /** The loads this replay reports are the distinct refs it ever loaded. */
  lemma LoadsAreDistinct(cfg: Config, n: nat)
    requires cfg.Valid() && n <= |cfg.trace|
    ensures Replay(cfg, n).reloads <= Replay(cfg, n).loads
    ensures ReportOf(Replay(cfg, n)).loads == |Replay(cfg, n).seen|
  {
    hide Step;
    Accounting(cfg, n);
  }

  lemma MirrorsNothing(cfg: Config)
    requires cfg.Valid()
    ensures Replay(cfg, 0) == INITIAL && Mirrors(map[], map[], INITIAL.resident)
    ensures INITIAL.seen == {} && INITIAL.reloads <= INITIAL.loads
    ensures ReportOf(INITIAL) == Report(0, 0, 0, 0, 0, 0)
  {
  }

  lemma MirrorsKeys(resident: Slots, lastRequest: map<nat, nat>, store: Store)
    requires Mirrors(resident, lastRequest, store)
    ensures resident.Keys == store.Keys
  {
  }
}
