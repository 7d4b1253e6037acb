/**
 The flat residency replay: a bounded store of tensors that serves a request trace
 under least-recently-used, least-frequently-used, Belady MIN or score-based eviction,
 while leased tensors are never evicted.

 `Replay` is the meaning of the replay loop as a function of the number of requests
 already served. `Simulate` is the loop itself, over a dictionary it updates, and is
 proved to compute `Replay`.
 */
module Residency {
  import opened Common

  datatype Request = Request(ref: nat, bytes: nat)

  /** A resident tensor: size, index of its latest request, requests since it was loaded. */
  datatype Entry = Entry(bytes: nat, last: nat, uses: nat)

  type Store = map<nat, Entry>

  /** What a score may look at: the size and the latest request of every resident. */
  type Facts = map<nat, (nat, nat)>

  function FactsOf(resident: Store): Facts {
    map r | r in resident :: (resident[r].bytes, resident[r].last)
  }

  /** `Scored` is any real-valued retention score; the least score is evicted first. */
  datatype Policy = Lru | Lfu | Min | Scored(score: (nat, Facts, set<nat>, nat) -> real)

  /** The leased refs at each request, when a lease schedule is replayed. */
  datatype Leases = Unleased | Leased(sets: seq<set<nat>>)

  datatype Config = Config(trace: seq<Request>, capacity: nat, policy: Policy, leases: Leases)
  {
    /** A lease schedule has one set per request. */
    predicate Valid() {
      leases.Leased? ==> |leases.sets| == |trace|
    }

    function Protected(index: nat): set<nat>
      requires Valid() && index < |trace|
    {
      if leases.Leased? then leases.sets[index] else {}
    }
  }

  datatype State = State(
    resident: Store, seen: set<nat>, hits: nat, loads: nat, evictions: nat,
    reloads: nat, loadBytes: nat, reloadBytes: nat, loaded: seq<nat>)

  const INITIAL := State(map[], {}, 0, 0, 0, 0, 0, 0, [])

  /** Key standing for "never used again" when MIN compares future positions. */
  const NEVER: nat := 1_000_000_000

  // ---------------------------------------------------------------- next uses

  /** The first position at or after `from` that requests `ref`. */
  function NextAt(trace: seq<Request>, from: nat, ref: nat): (position: Option<nat>)
    ensures position.Some? ==>
              && from <= position.value < |trace|
              && trace[position.value].ref == ref
              && forall q :: from <= q < position.value ==> trace[q].ref != ref
    ensures position.None? ==> forall q :: from <= q < |trace| ==> trace[q].ref != ref
    decreases |trace| - from
  {
    if from >= |trace| then None
    else if trace[from].ref == ref then Some(from)
    else NextAt(trace, from + 1, ref)
  }

  /** `future` holds, for every ref, its first position at or after `from`. */
  ghost predicate IsFuture(trace: seq<Request>, from: nat, future: map<nat, nat>) {
    forall ref :: Lookup(future, ref) == NextAt(trace, from, ref)
  }

  function Lookup(future: map<nat, nat>, ref: nat): Option<nat> {
    if ref in future then Some(future[ref]) else None
  }

  lemma FutureStep(trace: seq<Request>, index: nat, future: map<nat, nat>)
    requires index < |trace| && IsFuture(trace, index + 1, future)
    ensures IsFuture(trace, index, future[trace[index].ref := index])
  {
    var next := future[trace[index].ref := index];
    forall ref
      ensures Lookup(next, ref) == NextAt(trace, index, ref)
    {
      assert Lookup(future, ref) == NextAt(trace, index + 1, ref);
    }
  }

  /** `result` holds the next uses of the requests from `index` on. */
  ghost predicate NextUsesFrom(trace: seq<Request>, index: nat, result: seq<Option<nat>>) {
    && |result| == |trace|
    && forall i :: index <= i < |trace| ==> result[i] == NextAt(trace, i + 1, trace[i].ref)
  }

  lemma NextUseFound(trace: seq<Request>, index: nat, future: map<nat, nat>, result: seq<Option<nat>>)
    requires index < |trace| && IsFuture(trace, index + 1, future) && NextUsesFrom(trace, index + 1, result)
    ensures NextUsesFrom(trace, index, result[index := Lookup(future, trace[index].ref)])
  {
    hide NextAt;
    assert Lookup(future, trace[index].ref) == NextAt(trace, index + 1, trace[index].ref);
  }

  lemma NothingAhead(trace: seq<Request>)
    ensures IsFuture(trace, |trace|, map[])
  {
  }

  /** The backward pass that computes every request's next use. */
  method NextUses(trace: seq<Request>) returns (result: seq<Option<nat>>)
    ensures |result| == |trace|
    ensures forall i :: 0 <= i < |trace| ==> result[i] == NextAt(trace, i + 1, trace[i].ref)
  {
    hide NextAt, IsFuture, Lookup;
    result := seq(|trace|, _ => None);
    NothingAhead(trace);
    var future: map<nat, nat> := map[];
    var index := |trace|;
    while index > 0
      invariant 0 <= index <= |trace|
      invariant IsFuture(trace, index, future) && NextUsesFrom(trace, index, result)
    {
      index := index - 1;
      var ref := trace[index].ref;
      NextUseFound(trace, index, future, result);
      result := result[index := Lookup(future, ref)];
      FutureStep(trace, index, future);
      future := future[ref := index];
    }
  }

  // ---------------------------------------------------------------- victims

  predicate LexLe(a: nat, b: nat, c: nat, d: nat) {
    a < c || (a == c && b <= d)
  }

  /** MIN's key: the position of the next use after `index`, or the "never" key. */
  function FutureKey(trace: seq<Request>, index: nat, ref: nat): nat {
    var position := NextAt(trace, index + 1, ref);
    if position.Some? && position.value != 0 then position.value else NEVER
  }

  /** Whether `a` is evicted no later than `b`. Ties are always broken by the ref itself. */
  predicate Prefers(cfg: Config, index: nat, resident: Store, eligible: set<nat>, a: nat, b: nat)
    requires a in resident && b in resident
  {
    match cfg.policy
    case Lru => LexLe(resident[a].last, a, resident[b].last, b)
    case Lfu =>
      || resident[a].uses < resident[b].uses
      || (resident[a].uses == resident[b].uses && LexLe(resident[a].last, a, resident[b].last, b))
    case Min =>
      LexLe(FutureKey(cfg.trace, index, b), b, FutureKey(cfg.trace, index, a), a)
    case Scored(score) =>
      var facts := FactsOf(resident);
      var p, q := score(index, facts, eligible, a), score(index, facts, eligible, b);
      p < q || (p == q && a <= b)
  }

  lemma PrefersTransitive(cfg: Config, index: nat, resident: Store, eligible: set<nat>,
                          a: nat, b: nat, c: nat)
    requires {a, b, c} <= resident.Keys
    requires Prefers(cfg, index, resident, eligible, a, b)
    requires Prefers(cfg, index, resident, eligible, b, c)
    ensures Prefers(cfg, index, resident, eligible, a, c)
  {
  }

  /** `v` is evicted no later than anything in `among`. */
  ghost predicate Leads(cfg: Config, index: nat, resident: Store, eligible: set<nat>, among: set<nat>, v: nat)
    requires among <= resident.Keys && v in resident
  {
    forall r :: r in among ==> Prefers(cfg, index, resident, eligible, v, r)
  }

  lemma LeadsInsert(cfg: Config, index: nat, resident: Store, eligible: set<nat>, among: set<nat>, w: nat, x: nat)
    requires among <= resident.Keys && w in resident && x in resident
    requires Leads(cfg, index, resident, eligible, among, w)
    ensures Prefers(cfg, index, resident, eligible, w, x) ==>
              Leads(cfg, index, resident, eligible, among + {x}, w)
    ensures !Prefers(cfg, index, resident, eligible, w, x) ==>
              Leads(cfg, index, resident, eligible, among + {x}, x)
  {
    if !Prefers(cfg, index, resident, eligible, w, x) {
      forall r | r in among
        ensures Prefers(cfg, index, resident, eligible, x, r)
      {
        PrefersTransitive(cfg, index, resident, eligible, x, w, r);
      }
    }
  }

  lemma {:induction false} VictimExists(cfg: Config, index: nat, resident: Store,
                                        eligible: set<nat>, among: set<nat>)
    requires among <= resident.Keys && among != {}
    ensures exists v :: v in among && Leads(cfg, index, resident, eligible, among, v)
  {
    var x :| x in among;
    var rest := among - {x};
    assert rest + {x} == among;
    if rest == {} {
      assert Leads(cfg, index, resident, eligible, among, x);
    } else {
      VictimExists(cfg, index, resident, eligible, rest);
      var w :| w in rest && Leads(cfg, index, resident, eligible, rest, w);
      LeadsInsert(cfg, index, resident, eligible, rest, w, x);
    }
  }

  ghost predicate IsVictim(cfg: Config, index: nat, resident: Store, eligible: set<nat>, v: nat)
    requires eligible <= resident.Keys
  {
    v in eligible && Leads(cfg, index, resident, eligible, eligible, v)
  }

  ghost function Victim(cfg: Config, index: nat, resident: Store, eligible: set<nat>): (v: nat)
    requires eligible <= resident.Keys && eligible != {}
    ensures IsVictim(cfg, index, resident, eligible, v)
  {
    VictimExists(cfg, index, resident, eligible, eligible);
    var v :| v in eligible && Leads(cfg, index, resident, eligible, eligible, v);
    v
  }

  lemma VictimUnique(cfg: Config, index: nat, resident: Store, eligible: set<nat>, v: nat, w: nat)
    requires eligible <= resident.Keys
    requires IsVictim(cfg, index, resident, eligible, v) && IsVictim(cfg, index, resident, eligible, w)
    ensures v == w
  {
    assert Prefers(cfg, index, resident, eligible, v, w);
    assert Prefers(cfg, index, resident, eligible, w, v);
  }

  method PickVictim(cfg: Config, index: nat, resident: Store, eligible: set<nat>) returns (v: nat)
    requires eligible <= resident.Keys && eligible != {}
    ensures v == Victim(cfg, index, resident, eligible)
  {
    v :| v in eligible;
    var rest := eligible - {v};
    while rest != {}
      invariant rest <= eligible && v in eligible - rest
      invariant Leads(cfg, index, resident, eligible, eligible - rest, v)
      decreases |rest|
    {
      var x :| x in rest;
      LeadsInsert(cfg, index, resident, eligible, eligible - rest, v, x);
      assert eligible - rest + {x} == eligible - (rest - {x});
      if !Prefers(cfg, index, resident, eligible, v, x) {
        v := x;
      }
      rest := rest - {x};
    }
    assert eligible - rest == eligible;
    VictimUnique(cfg, index, resident, eligible, v, Victim(cfg, index, resident, eligible));
  }

  // ---------------------------------------------------------------- byte totals

  ghost function TotalBytes(resident: Store): nat
    decreases |resident|
  {
    if resident == map[] then 0
    else
      var r :| r in resident;
      assert |resident - {r}| < |resident| by { assert (resident - {r}).Keys == resident.Keys - {r}; }
      resident[r].bytes + TotalBytes(resident - {r})
  }

  lemma TotalRemove(resident: Store, r: nat)
    requires r in resident
    ensures TotalBytes(resident) == resident[r].bytes + TotalBytes(resident - {r})
    decreases |resident|
  {
    var q :| q in resident && TotalBytes(resident) == resident[q].bytes + TotalBytes(resident - {q});
    assert (resident - {q}).Keys == resident.Keys - {q};
    if q != r {
      TotalRemove(resident - {q}, r);
      TotalRemove(resident - {r}, q) by {
        assert (resident - {r}).Keys == resident.Keys - {r};
      }
      assert resident - {q} - {r} == resident - {r} - {q};
    }
  }

  lemma TotalInsert(resident: Store, r: nat, e: Entry)
    requires r !in resident
    ensures TotalBytes(resident[r := e]) == TotalBytes(resident) + e.bytes
  {
    TotalRemove(resident[r := e], r);
    assert resident[r := e] - {r} == resident;
  }

  lemma TotalTouch(resident: Store, r: nat, e: Entry)
    requires r in resident && e.bytes == resident[r].bytes
    ensures TotalBytes(resident[r := e]) == TotalBytes(resident)
  {
    TotalRemove(resident, r);
    TotalRemove(resident[r := e], r);
    assert resident[r := e] - {r} == resident - {r};
  }

  lemma {:induction false} TotalEqualSizes(resident: Store, size: nat)
    requires forall r :: r in resident ==> resident[r].bytes == size
    ensures TotalBytes(resident) == size * |resident|
    decreases |resident|
  {
    if resident != map[] {
      var r :| r in resident;
      var rest := resident - {r};
      assert rest.Keys == resident.Keys - {r};
      assert |resident.Keys| == |rest.Keys| + 1;
      TotalRemove(resident, r);
      TotalEqualSizes(rest, size);
      Distribute(size, |rest|);
    }
  }

  lemma Distribute(size: nat, k: nat)
    ensures size * (k + 1) == size * k + size
  {
  }

  method SumBytes(resident: Store) returns (total: nat)
    ensures total == TotalBytes(resident)
  {
    total := 0;
    var rest := resident;
    while rest != map[]
      invariant rest.Keys <= resident.Keys
      invariant total + TotalBytes(rest) == TotalBytes(resident)
      decreases |rest|
    {
      var r :| r in rest.Keys;
      TotalRemove(rest, r);
      assert (rest - {r}).Keys == rest.Keys - {r};
      total := total + rest[r].bytes;
      rest := rest - {r};
    }
  }

  // ---------------------------------------------------------------- one request

  /** The store after the eviction loop, and the number of victims. */
  ghost function EvictLoop(cfg: Config, index: nat, resident: Store, size: nat): (r: (Store, nat))
    requires cfg.Valid() && index < |cfg.trace|
    decreases |resident|
  {
    var eligible := resident.Keys - cfg.Protected(index);
    if resident == map[] || TotalBytes(resident) + size <= cfg.capacity || eligible == {} then
      (resident, 0)
    else
      var v := Victim(cfg, index, resident, eligible);
      assert (resident - {v}).Keys == resident.Keys - {v};
      var (after, n) := EvictLoop(cfg, index, resident - {v}, size);
      (after, n + 1)
  }

  function Hit(s: State, ref: nat, index: nat): State
    requires ref in s.resident
  {
    var e := s.resident[ref];
    s.(hits := s.hits + 1, resident := s.resident[ref := Entry(e.bytes, index, e.uses + 1)])
  }

  function Refuse(s: State, kept: Store, victims: nat): State {
    s.(resident := kept, evictions := s.evictions + victims)
  }

  function Admit(s: State, ref: nat, size: nat, index: nat, kept: Store, victims: nat): State {
    var again := ref in s.seen;
    State(kept[ref := Entry(size, index, 1)], s.seen + {ref}, s.hits, s.loads + 1,
          s.evictions + victims, if again then s.reloads + 1 else s.reloads,
          s.loadBytes + size, if again then s.reloadBytes + size else s.reloadBytes,
          s.loaded + [index])
  }

  ghost function Step(cfg: Config, index: nat, s: State): State
    requires cfg.Valid() && index < |cfg.trace|
  {
    var Request(ref, size) := cfg.trace[index];
    if ref in s.resident then Hit(s, ref, index)
    else
      var (kept, victims) := EvictLoop(cfg, index, s.resident, size);
      if TotalBytes(kept) + size > cfg.capacity then Refuse(s, kept, victims)
      else Admit(s, ref, size, index, kept, victims)
  }

  /** The state after the first `n` requests. */
  ghost function Replay(cfg: Config, n: nat): State
    requires cfg.Valid() && n <= |cfg.trace|
  {
    if n == 0 then INITIAL else Step(cfg, n - 1, Replay(cfg, n - 1))
  }

  /** The replay loop, with its dictionary, its set and its counters. */
  method Simulate(cfg: Config) returns (result: State)
    requires cfg.Valid()
    ensures result == Replay(cfg, |cfg.trace|)
  {
    var resident: Store, seen: set<nat> := map[], {};
    var hits, loads, evictions, reloads, loadBytes, reloadBytes := 0, 0, 0, 0, 0, 0;
    var loaded: seq<nat> := [];
    for index := 0 to |cfg.trace|
      invariant State(resident, seen, hits, loads, evictions, reloads, loadBytes, reloadBytes, loaded)
             == Replay(cfg, index)
    {
      var Request(ref, size) := cfg.trace[index];
      if ref in resident {
        hits := hits + 1;
        resident := resident[ref := Entry(resident[ref].bytes, index, resident[ref].uses + 1)];
      } else {
        var kept, victims := RunEvictions(cfg, index, resident, size);
        resident, evictions := kept, evictions + victims;
        var total := SumBytes(resident);
        if total + size <= cfg.capacity {
          resident := resident[ref := Entry(size, index, 1)];
          loaded := loaded + [index];
          loads := loads + 1;
          loadBytes := loadBytes + size;
          if ref in seen {
            reloads := reloads + 1;
            reloadBytes := reloadBytes + size;
          }
          seen := seen + {ref};
        }
      }
    }
    result := State(resident, seen, hits, loads, evictions, reloads, loadBytes, reloadBytes, loaded);
  }

  /** What is left of the eviction loop once `victims` victims are gone. */
  ghost function EvictRest(cfg: Config, index: nat, kept: Store, size: nat, victims: nat): (Store, nat)
    requires cfg.Valid() && index < |cfg.trace|
  {
    var (after, n) := EvictLoop(cfg, index, kept, size);
    (after, victims + n)
  }

  lemma EvictLoopMore(cfg: Config, index: nat, kept: Store, size: nat, v: nat)
    requires cfg.Valid() && index < |cfg.trace|
    requires TotalBytes(kept) + size > cfg.capacity && kept.Keys - cfg.Protected(index) != {}
    requires v == Victim(cfg, index, kept, kept.Keys - cfg.Protected(index))
    ensures EvictLoop(cfg, index, kept, size).0 == EvictLoop(cfg, index, kept - {v}, size).0
    ensures EvictLoop(cfg, index, kept, size).1 == EvictLoop(cfg, index, kept - {v}, size).1 + 1
  {
    assert v in kept;
  }

  lemma EvictMore(cfg: Config, index: nat, kept: Store, size: nat, victims: nat, v: nat)
    requires cfg.Valid() && index < |cfg.trace|
    requires TotalBytes(kept) + size > cfg.capacity && kept.Keys - cfg.Protected(index) != {}
    requires v == Victim(cfg, index, kept, kept.Keys - cfg.Protected(index))
    ensures EvictRest(cfg, index, kept, size, victims) == EvictRest(cfg, index, kept - {v}, size, victims + 1)
  {
    hide EvictLoop, Victim;
    EvictLoopMore(cfg, index, kept, size, v);
  }

  lemma EvictStart(cfg: Config, index: nat, resident: Store, size: nat)
    requires cfg.Valid() && index < |cfg.trace|
    ensures EvictRest(cfg, index, resident, size, 0) == EvictLoop(cfg, index, resident, size)
  {
  }

  lemma EvictStop(cfg: Config, index: nat, kept: Store, size: nat, victims: nat)
    requires cfg.Valid() && index < |cfg.trace|
    requires || kept == map[] || TotalBytes(kept) + size <= cfg.capacity
             || kept.Keys - cfg.Protected(index) == {}
    ensures EvictRest(cfg, index, kept, size, victims) == (kept, victims)
  {
  }

  method RunEvictions(cfg: Config, index: nat, resident: Store, size: nat)
    returns (kept: Store, victims: nat)
    requires cfg.Valid() && index < |cfg.trace|
    ensures (kept, victims) == EvictLoop(cfg, index, resident, size)
  {
    hide EvictLoop, EvictRest;
    EvictStart(cfg, index, resident, size);
    kept, victims := resident, 0;
    var total := SumBytes(kept);
    while kept != map[] && total + size > cfg.capacity
      invariant total == TotalBytes(kept)
      invariant EvictRest(cfg, index, kept, size, victims) == EvictLoop(cfg, index, resident, size)
      decreases |kept|
    {
      var eligible := kept.Keys - cfg.Protected(index);
      if eligible == {} {
        break;
      }
      var v := PickVictim(cfg, index, kept, eligible);
      EvictMore(cfg, index, kept, size, victims, v);
      assert (kept - {v}).Keys == kept.Keys - {v};
      kept := kept - {v};
      victims := victims + 1;
      total := SumBytes(kept);
    }
    EvictStop(cfg, index, kept, size, victims);
  }
}
