/**
 The stack property of the LRU replay without leases, for tensors of any sizes: what stays
 resident is a recency-closed set, so the store of a smaller capacity is always inside the
 store of a larger one, and hits never fall along a capacity sweep.
 */
module LruStack {
  import opened Common
  import opened Residency
  import opened ResidencyAccounting

  /** Every tensor keeps its size throughout the trace, and nothing is leased. */
  ghost predicate FixedSizes(cfg: Config, sizes: nat -> nat) {
    && cfg.leases.Unleased?
    && forall i :: 0 <= i < |cfg.trace| ==> cfg.trace[i].bytes == sizes(cfg.trace[i].ref)
  }

  ghost predicate SizedBy(resident: Store, sizes: nat -> nat) {
    forall r :: r in resident ==> resident[r].bytes == sizes(r)
  }

  /** `e` is stamped with the latest request of `r` before `n`, and everything requested
      since then is resident too. */
  ghost predicate Recent(trace: seq<Request>, n: nat, resident: Store, r: nat, e: Entry) {
    && e.last < n <= |trace|
    && trace[e.last].ref == r
    && forall p :: e.last < p < n ==> trace[p].ref != r && trace[p].ref in resident
  }

  ghost predicate RecencyClosed(trace: seq<Request>, n: nat, resident: Store) {
    forall r :: r in resident ==> Recent(trace, n, resident, r, resident[r])
  }

  /** Evicting the least recently used entry keeps the store recency-closed. */
  lemma EvictOldest(cfg: Config, n: nat, resident: Store, v: nat)
    requires cfg.policy.Lru? && n <= |cfg.trace| && RecencyClosed(cfg.trace, n, resident)
    requires IsVictim(cfg, n, resident, resident.Keys, v)
    ensures RecencyClosed(cfg.trace, n, resident - {v})
    ensures forall r :: r in resident && r != v ==> resident[v].last < resident[r].last
  {
    assert Recent(cfg.trace, n, resident, v, resident[v]);
    forall r | r in resident && r != v
      ensures resident[v].last < resident[r].last
      ensures Recent(cfg.trace, n, resident - {v}, r, resident[r])
    {
      assert Recent(cfg.trace, n, resident, r, resident[r]);
      assert Prefers(cfg, n, resident, resident.Keys, v, r);
    }
  }

  lemma {:induction false} EvictLoopClosed(cfg: Config, n: nat, resident: Store, size: nat)
    requires cfg.policy.Lru? && cfg.leases.Unleased? && n < |cfg.trace|
    requires RecencyClosed(cfg.trace, n, resident)
    ensures RecencyClosed(cfg.trace, n, EvictLoop(cfg, n, resident, size).0)
    decreases |resident|
  {
    assert resident.Keys - cfg.Protected(n) == resident.Keys;
    if resident != map[] && TotalBytes(resident) + size > cfg.capacity {
      var v := Victim(cfg, n, resident, resident.Keys);
      EvictOldest(cfg, n, resident, v);
      assert (resident - {v}).Keys == resident.Keys - {v};
      EvictLoopClosed(cfg, n, resident - {v}, size);
    }
  }

  /** Stamping the request at `n` closes the store again, one position later. */
  lemma StampClosed(trace: seq<Request>, n: nat, resident: Store, e: Entry)
    requires n < |trace| && RecencyClosed(trace, n, resident) && e.last == n
    ensures RecencyClosed(trace, n + 1, resident[trace[n].ref := e])
  {
    var x := trace[n].ref;
    var after := resident[x := e];
    forall r | r in after
      ensures Recent(trace, n + 1, after, r, after[r])
    {
      if r != x {
        assert Recent(trace, n, resident, r, resident[r]);
      }
    }
  }

  ghost predicate LruState(cfg: Config, sizes: nat -> nat, n: nat, resident: Store) {
    RecencyClosed(cfg.trace, n, resident) && SizedBy(resident, sizes)
  }

  /** Without leases, the loop stops with room for the request or with nothing left. */
  lemma UnleasedStop(cfg: Config, n: nat, resident: Store, size: nat)
    requires cfg.leases.Unleased? && n < |cfg.trace|
    ensures var kept := EvictLoop(cfg, n, resident, size).0;
            && SubStore(kept, resident)
            && (TotalBytes(kept) + size <= cfg.capacity || kept == map[])
  {
    EvictLoopFrame(cfg, n, resident, size);
    assert LeasedPart(cfg, n, resident) == map[];
  }

  lemma LruStateStep(cfg: Config, sizes: nat -> nat, n: nat, s: State)
    requires cfg.policy.Lru? && FixedSizes(cfg, sizes) && n < |cfg.trace|
    requires LruState(cfg, sizes, n, s.resident)
    ensures LruState(cfg, sizes, n + 1, Step(cfg, n, s).resident)
  {
    var Request(x, size) := cfg.trace[n];
    if x in s.resident {
      StampClosed(cfg.trace, n, s.resident, Hit(s, x, n).resident[x]);
    } else {
      var (kept, victims) := EvictLoop(cfg, n, s.resident, size);
      EvictLoopClosed(cfg, n, s.resident, size);
      UnleasedStop(cfg, n, s.resident, size);
      if TotalBytes(kept) + size <= cfg.capacity {
        StampClosed(cfg.trace, n, kept, Entry(size, n, 1));
      }
    }
  }

  /** The LRU store is recency-closed after every request. */
  lemma {:induction false} LruRecency(cfg: Config, sizes: nat -> nat, n: nat)
    requires cfg.policy.Lru? && FixedSizes(cfg, sizes) && n <= |cfg.trace|
    ensures LruState(cfg, sizes, n, Replay(cfg, n).resident)
  {
    hide Step;
    if n > 0 {
      LruRecency(cfg, sizes, n - 1);
      LruStateStep(cfg, sizes, n - 1, Replay(cfg, n - 1));
    }
  }

  // ---------------------------------------------------------------- inclusion

  /** Stores that agree on their keys and on sizes have the same total. */
  lemma {:induction false} SameTotals(a: Store, b: Store, sizes: nat -> nat)
    requires a.Keys == b.Keys && SizedBy(a, sizes) && SizedBy(b, sizes)
    ensures TotalBytes(a) == TotalBytes(b)
    decreases |a|
  {
    if a == map[] {
      assert b == map[];
    } else {
      var r :| r in a;
      TotalRemove(a, r);
      TotalRemove(b, r);
      assert (a - {r}).Keys == a.Keys - {r} && (b - {r}).Keys == b.Keys - {r};
      SameTotals(a - {r}, b - {r}, sizes);
    }
  }

  /** If the oldest entry of the larger store is also in the smaller one, they coincide. */
  lemma OldestShared(trace: seq<Request>, n: nat, small: Store, large: Store, v: nat)
    requires RecencyClosed(trace, n, small) && RecencyClosed(trace, n, large)
    requires small.Keys <= large.Keys && v in small
    requires forall r :: r in large && r != v ==> large[v].last < large[r].last
    ensures small.Keys == large.Keys
  {
    assert Recent(trace, n, small, v, small[v]);
    assert Recent(trace, n, large, v, large[v]);
    assert small[v].last == large[v].last;
    forall r | r in large
      ensures r in small
    {
      if r != v {
        assert Recent(trace, n, large, r, large[r]);
        assert trace[large[r].last].ref in small;
      }
    }
  }

  /** The larger store's eviction loop never evicts anything the smaller store keeps. */
  lemma {:induction false} EvictKeepsInclusion(cfg: Config, sizes: nat -> nat, n: nat,
                                               kept: Store, large: Store, size: nat)
    requires cfg.policy.Lru? && cfg.leases.Unleased? && n < |cfg.trace|
    requires LruState(cfg, sizes, n, kept) && LruState(cfg, sizes, n, large)
    requires kept.Keys <= large.Keys
    requires TotalBytes(kept) + size <= cfg.capacity || kept == map[]
    ensures kept.Keys <= EvictLoop(cfg, n, large, size).0.Keys
    decreases |large|
  {
    assert large.Keys - cfg.Protected(n) == large.Keys;
    if kept != map[] && TotalBytes(large) + size > cfg.capacity {
      var v := Victim(cfg, n, large, large.Keys);
      EvictOldest(cfg, n, large, v);
      if v in kept {
        OldestShared(cfg.trace, n, kept, large, v);
        SameTotals(kept, large, sizes);
      }
      assert (large - {v}).Keys == large.Keys - {v};
      EvictKeepsInclusion(cfg, sizes, n, kept, large - {v}, size);
    }
  }

  lemma InclusionStep(small: Config, large: Config, sizes: nat -> nat, n: nat, s: State, t: State)
    requires small.policy.Lru? && FixedSizes(small, sizes) && n < |small.trace|
    requires large == small.(capacity := large.capacity) && small.capacity <= large.capacity
    requires LruState(small, sizes, n, s.resident) && LruState(large, sizes, n, t.resident)
    requires s.resident.Keys <= t.resident.Keys
    ensures Step(small, n, s).resident.Keys <= Step(large, n, t).resident.Keys
  {
    var Request(x, size) := small.trace[n];
    if x !in s.resident {
      var kept := EvictLoop(small, n, s.resident, size).0;
      UnleasedStop(small, n, s.resident, size);
      if x !in t.resident {
        EvictLoopClosed(small, n, s.resident, size);
        EvictKeepsInclusion(large, sizes, n, kept, t.resident, size);
        UnleasedStop(large, n, t.resident, size);
      }
    }
  }

  /** LRU inclusion without leases: after every request, a smaller store is inside a larger one. */
  lemma {:induction false} LruInclusion(small: Config, large: Config, sizes: nat -> nat, n: nat)
    requires small.policy.Lru? && FixedSizes(small, sizes) && n <= |small.trace|
    requires large == small.(capacity := large.capacity) && small.capacity <= large.capacity
    ensures Replay(small, n).resident.Keys <= Replay(large, n).resident.Keys
    ensures Replay(small, n).hits <= Replay(large, n).hits
  {
    hide Step;
    if n > 0 {
      LruInclusion(small, large, sizes, n - 1);
      LruRecency(small, sizes, n - 1);
      LruRecency(large, sizes, n - 1);
      var s, t := Replay(small, n - 1), Replay(large, n - 1);
      InclusionStep(small, large, sizes, n - 1, s, t);
      HitsStep(small, n - 1, s);
      HitsStep(large, n - 1, t);
    }
  }

  lemma HitsStep(cfg: Config, n: nat, s: State)
    requires cfg.Valid() && n < |cfg.trace|
    ensures Step(cfg, n, s).hits == s.hits + (if cfg.trace[n].ref in s.resident then 1 else 0)
  {
  }
}
