/**
 MIN against LRU for tensors of any sizes: at every position where the MIN replay misses,
 the LRU replay misses too. Both facts are about the distinct refs requested between two
 uses of a ref. MIN only drops a ref when that window exceeds the capacity, and LRU never
 holds a ref across such a window.
 */
module MinWindow {
  import opened Common
  import opened Residency
  import opened ResidencyAccounting
  import opened LruStack

  /** The distinct refs requested in positions `a` up to but not including `b`. */
  ghost function Window(trace: seq<Request>, a: nat, b: nat): set<nat>
    requires b <= |trace|
  {
    set p | a <= p < b :: trace[p].ref
  }

  lemma InWindow(trace: seq<Request>, a: nat, b: nat, p: nat)
    requires a <= p < b <= |trace|
    ensures trace[p].ref in Window(trace, a, b)
  {
  }

  /** A set of refs as a store, so that its bytes can be totalled. */
  ghost function AsStore(refs: set<nat>, sizes: nat -> nat): Store {
    map r | r in refs :: Entry(sizes(r), 0, 0)
  }

  ghost function BytesOf(refs: set<nat>, sizes: nat -> nat): nat {
    TotalBytes(AsStore(refs, sizes))
  }

  lemma BytesOfMonotone(part: set<nat>, whole: set<nat>, sizes: nat -> nat)
    requires part <= whole
    ensures BytesOf(part, sizes) <= BytesOf(whole, sizes)
  {
    SubStoreBytes(AsStore(part, sizes), AsStore(whole, sizes));
  }

  lemma BytesOfStore(resident: Store, sizes: nat -> nat)
    requires SizedBy(resident, sizes)
    ensures TotalBytes(resident) == BytesOf(resident.Keys, sizes)
  {
    SameTotals(resident, AsStore(resident.Keys, sizes), sizes);
  }

  lemma BytesOfInsert(refs: set<nat>, x: nat, sizes: nat -> nat)
    requires x !in refs
    ensures BytesOf(refs + {x}, sizes) == BytesOf(refs, sizes) + sizes(x)
  {
    TotalInsert(AsStore(refs, sizes), x, Entry(sizes(x), 0, 0));
    assert AsStore(refs + {x}, sizes) == AsStore(refs, sizes)[x := Entry(sizes(x), 0, 0)];
  }

  // ---------------------------------------------------------------- MIN's side

  /** `r`, last requested at `from - 1`, cannot be kept until its next use at or after `n`. */
  ghost predicate WindowTooBig(cfg: Config, sizes: nat -> nat, from: nat, n: nat, r: nat) {
    var next := NextAt(cfg.trace, n, r);
    next.Some? ==> BytesOf(Window(cfg.trace, from, next.value) + {r}, sizes) > cfg.capacity
  }

  ghost predicate LatestAt(trace: seq<Request>, n: nat, p: nat) {
    p < n <= |trace| && forall q :: p < q < n ==> trace[q].ref != trace[p].ref
  }

  /** If `p` is the latest request of its ref, the ref is resident or faces too big a window. */
  ghost predicate JustifiedAt(cfg: Config, sizes: nat -> nat, n: nat, resident: Store, p: nat) {
    LatestAt(cfg.trace, n, p) && cfg.trace[p].ref !in resident
    ==> WindowTooBig(cfg, sizes, p + 1, n, cfg.trace[p].ref)
  }

  ghost predicate Justified(cfg: Config, sizes: nat -> nat, n: nat, resident: Store) {
    SizedBy(resident, sizes) && forall p :: 0 <= p < n ==> JustifiedAt(cfg, sizes, n, resident, p)
  }

  /** A MIN victim's window holds every other resident and the incoming request. */
  lemma VictimWindow(cfg: Config, sizes: nat -> nat, n: nat, resident: Store, v: nat, from: nat)
    requires cfg.policy.Min? && n < |cfg.trace| <= NEVER && FixedSizes(cfg, sizes)
    requires SizedBy(resident, sizes) && cfg.trace[n].ref !in resident
    requires IsVictim(cfg, n, resident, resident.Keys, v) && from <= n
    requires TotalBytes(resident) + cfg.trace[n].bytes > cfg.capacity
    ensures WindowTooBig(cfg, sizes, from, n + 1, v)
  {
    var x, next := cfg.trace[n].ref, NextAt(cfg.trace, n + 1, v);
    if next.Some? {
      var window := Window(cfg.trace, from, next.value);
      forall r | r in resident && r != v
        ensures r in window
      {
        assert Prefers(cfg, n, resident, resident.Keys, v, r);
        InWindow(cfg.trace, from, next.value, NextAt(cfg.trace, n + 1, r).value);
      }
      InWindow(cfg.trace, from, next.value, n);
      BytesOfStore(resident, sizes);
      BytesOfInsert(resident.Keys, x, sizes);
      BytesOfMonotone(resident.Keys + {x}, window + {v}, sizes);
    }
  }

  /** The eviction loop of MIN only drops refs whose windows are too big. */
  lemma {:induction false} EvictLoopJustified(cfg: Config, sizes: nat -> nat, n: nat,
                                              resident: Store, v: nat, from: nat)
    requires cfg.policy.Min? && n < |cfg.trace| <= NEVER && FixedSizes(cfg, sizes)
    requires SizedBy(resident, sizes) && cfg.trace[n].ref !in resident && from <= n
    requires v in resident && v !in EvictLoop(cfg, n, resident, cfg.trace[n].bytes).0
    ensures WindowTooBig(cfg, sizes, from, n + 1, v)
    decreases |resident|
  {
    assert resident.Keys - cfg.Protected(n) == resident.Keys;
    var w := Victim(cfg, n, resident, resident.Keys);
    assert (resident - {w}).Keys == resident.Keys - {w};
    if v == w {
      VictimWindow(cfg, sizes, n, resident, v, from);
    } else {
      EvictLoopJustified(cfg, sizes, n, resident - {w}, v, from);
    }
  }

  /** A ref whose next use is after `n` keeps its window when the request at `n` is served. */
  lemma WindowUnchanged(cfg: Config, sizes: nat -> nat, from: nat, n: nat, r: nat)
    requires n < |cfg.trace| && cfg.trace[n].ref != r
    requires WindowTooBig(cfg, sizes, from, n, r)
    ensures WindowTooBig(cfg, sizes, from, n + 1, r)
  {
    assert NextAt(cfg.trace, n, r) == NextAt(cfg.trace, n + 1, r);
  }

  /** A tensor larger than the capacity is never kept until its next use. */
  lemma OversizeWindow(cfg: Config, sizes: nat -> nat, from: nat, n: nat, r: nat)
    requires sizes(r) > cfg.capacity
    ensures WindowTooBig(cfg, sizes, from, n, r)
  {
    var next := NextAt(cfg.trace, n, r);
    if next.Some? {
      BytesOfMonotone({r}, Window(cfg.trace, from, next.value) + {r}, sizes);
      BytesOfInsert({}, r, sizes);
      assert {} + {r} == {r};
    }
  }

  lemma JustifiedStepAt(cfg: Config, sizes: nat -> nat, n: nat, s: State, p: nat)
    requires cfg.policy.Min? && p <= n < |cfg.trace| <= NEVER && FixedSizes(cfg, sizes)
    requires Justified(cfg, sizes, n, s.resident)
    ensures JustifiedAt(cfg, sizes, n + 1, Step(cfg, n, s).resident, p)
  {
    var r, size := cfg.trace[p].ref, cfg.trace[n].bytes;
    if LatestAt(cfg.trace, n + 1, p) && r !in Step(cfg, n, s).resident {
      UnleasedStop(cfg, n, s.resident, size);
      if p == n {
        OversizeWindow(cfg, sizes, p + 1, n + 1, r);
      } else if r in s.resident {
        EvictLoopJustified(cfg, sizes, n, s.resident, r, p + 1);
      } else {
        assert JustifiedAt(cfg, sizes, n, s.resident, p);
        WindowUnchanged(cfg, sizes, p + 1, n, r);
      }
    }
  }

  lemma SizedByStep(cfg: Config, sizes: nat -> nat, n: nat, s: State)
    requires n < |cfg.trace| && FixedSizes(cfg, sizes) && SizedBy(s.resident, sizes)
    ensures SizedBy(Step(cfg, n, s).resident, sizes)
  {
    UnleasedStop(cfg, n, s.resident, cfg.trace[n].bytes);
  }

  lemma {:induction false} MinJustified(cfg: Config, sizes: nat -> nat, n: nat)
    requires cfg.policy.Min? && n <= |cfg.trace| <= NEVER && FixedSizes(cfg, sizes)
    ensures Justified(cfg, sizes, n, Replay(cfg, n).resident)
  {
    hide Step, JustifiedAt;
    if n > 0 {
      var before := Replay(cfg, n - 1);
      MinJustified(cfg, sizes, n - 1);
      SizedByStep(cfg, sizes, n - 1, before);
      forall p | 0 <= p < n
        ensures JustifiedAt(cfg, sizes, n, Replay(cfg, n).resident, p)
      {
        JustifiedStepAt(cfg, sizes, n - 1, before, p);
      }
    }
  }

  // ---------------------------------------------------------------- LRU's side

  /** LRU cannot hold a ref across a window that exceeds the capacity. */
  lemma LruWindowFits(cfg: Config, sizes: nat -> nat, n: nat, resident: Store, r: nat)
    requires n <= |cfg.trace| && LruState(cfg, sizes, n, resident) && r in resident
    requires TotalBytes(resident) <= cfg.capacity
    ensures BytesOf(Window(cfg.trace, resident[r].last + 1, n) + {r}, sizes) <= cfg.capacity
  {
    var window := Window(cfg.trace, resident[r].last + 1, n);
    assert Recent(cfg.trace, n, resident, r, resident[r]);
    assert window <= resident.Keys;
    BytesOfStore(resident, sizes);
    BytesOfMonotone(window + {r}, resident.Keys, sizes);
  }

  // ---------------------------------------------------------------- the comparison

  /** At each request, a MIN miss is an LRU miss, whatever the sizes. */
  lemma MinMissIsLruMiss(mine: Config, lru: Config, sizes: nat -> nat, n: nat)
    requires mine.policy.Min? && lru == mine.(policy := Lru)
    requires FixedSizes(mine, sizes) && n < |mine.trace| <= NEVER
    requires mine.trace[n].ref in Replay(lru, n).resident
    ensures mine.trace[n].ref in Replay(mine, n).resident
  {
    hide Step, Replay, TotalBytes, Justified, RecencyClosed, SizedBy;
    var held := Replay(lru, n).resident;
    LruRecency(lru, sizes, n);
    WithinCapacity(lru, n);
    MinJustified(mine, sizes, n);
    HeldIsJustified(mine, sizes, n, held, Replay(mine, n).resident);
  }

  lemma WithinCapacity(cfg: Config, n: nat)
    requires cfg.Valid() && n <= |cfg.trace|
    ensures TotalBytes(Replay(cfg, n).resident) <= cfg.capacity
  {
    hide Replay, Step;
    Accounting(cfg, n);
  }

  /** A ref that LRU holds when it is requested has a window small enough for MIN to keep it. */
  lemma HeldIsJustified(cfg: Config, sizes: nat -> nat, n: nat, held: Store, mine: Store)
    requires n < |cfg.trace| && cfg.trace[n].ref in held && TotalBytes(held) <= cfg.capacity
    requires LruState(cfg, sizes, n, held) && Justified(cfg, sizes, n, mine)
    ensures cfg.trace[n].ref in mine
  {
    hide BytesOf, Window, TotalBytes;
    var x := cfg.trace[n].ref;
    assert Recent(cfg.trace, n, held, x, held[x]);
    LruWindowFits(cfg, sizes, n, held, x);
    assert NextAt(cfg.trace, n, x) == Some(n);
    assert JustifiedAt(cfg, sizes, n, mine, held[x].last);
  }
}
