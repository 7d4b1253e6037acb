/**
 What every replay keeps, whatever the policy and the lease schedule: the byte budget,
 the leases, and the balance of hits, loads, evictions, reloads and refusals.
 */
module ResidencyAccounting {
  import opened Common
  import opened Residency

  ghost predicate SubStore(part: Store, whole: Store) {
    part.Keys <= whole.Keys && forall r :: r in part ==> part[r] == whole[r]
  }

  ghost function LeasedPart(cfg: Config, index: nat, resident: Store): Store
    requires cfg.Valid() && index < |cfg.trace|
  {
    map r | r in resident && r in cfg.Protected(index) :: resident[r]
  }

  lemma {:induction false} SubStoreBytes(part: Store, whole: Store)
    requires SubStore(part, whole)
    ensures TotalBytes(part) <= TotalBytes(whole)
    ensures |part| <= |whole|
    decreases |part|
  {
    if part != map[] {
      var r :| r in part;
      TotalRemove(part, r);
      TotalRemove(whole, r);
      assert (part - {r}).Keys == part.Keys - {r};
      assert (whole - {r}).Keys == whole.Keys - {r};
      SubStoreBytes(part - {r}, whole - {r});
    }
  }

  ghost predicate EvictFrame(cfg: Config, index: nat, resident: Store, size: nat, kept: Store, victims: nat)
    requires cfg.Valid() && index < |cfg.trace|
  {
    && SubStore(kept, resident)
    && |kept| + victims == |resident|
    && SubStore(LeasedPart(cfg, index, resident), kept)
    && (TotalBytes(kept) + size <= cfg.capacity || kept == LeasedPart(cfg, index, resident))
  }

  lemma EvictFrameExtend(cfg: Config, index: nat, resident: Store, v: nat, size: nat, kept: Store, victims: nat)
    requires cfg.Valid() && index < |cfg.trace|
    requires v in resident && v !in cfg.Protected(index)
    requires EvictFrame(cfg, index, resident - {v}, size, kept, victims)
    ensures EvictFrame(cfg, index, resident, size, kept, victims + 1)
  {
    assert (resident - {v}).Keys == resident.Keys - {v};
    assert |resident.Keys| == |(resident - {v}).Keys| + 1;
    assert LeasedPart(cfg, index, resident - {v}) == LeasedPart(cfg, index, resident);
  }

  lemma EvictFrameStop(cfg: Config, index: nat, resident: Store, size: nat)
    requires cfg.Valid() && index < |cfg.trace|
    requires TotalBytes(resident) + size <= cfg.capacity || resident.Keys <= cfg.Protected(index)
    ensures EvictFrame(cfg, index, resident, size, resident, 0)
  {
    if resident.Keys <= cfg.Protected(index) {
      assert resident == LeasedPart(cfg, index, resident);
    }
  }

  /** The eviction loop only removes, never removes a leased ref, counts its victims, and
      stops either with room for the request or with nothing but leased refs left. */
  lemma {:induction false} EvictLoopFrame(cfg: Config, index: nat, resident: Store, size: nat)
    requires cfg.Valid() && index < |cfg.trace|
    ensures var (kept, victims) := EvictLoop(cfg, index, resident, size);
            EvictFrame(cfg, index, resident, size, kept, victims)
    decreases |resident|
  {
    var eligible := resident.Keys - cfg.Protected(index);
    if resident == map[] || TotalBytes(resident) + size <= cfg.capacity || eligible == {} {
      assert eligible == {} ==> resident.Keys <= cfg.Protected(index);
      EvictFrameStop(cfg, index, resident, size);
    } else {
      var v := Victim(cfg, index, resident, eligible);
      assert (resident - {v}).Keys == resident.Keys - {v};
      var (kept, n) := EvictLoop(cfg, index, resident - {v}, size);
      EvictLoopFrame(cfg, index, resident - {v}, size);
      EvictFrameExtend(cfg, index, resident, v, size, kept, n);
    }
  }

  ghost function RefusedNow(cfg: Config, n: nat, after: State): nat
    requires n < |cfg.trace|
  {
    if cfg.trace[n].ref in after.resident then 0 else 1
  }

  /** Requests among the first `n` whose tensor is not resident once they have been served. */
  ghost function Refusals(cfg: Config, n: nat): nat
    requires cfg.Valid() && n <= |cfg.trace|
  {
    if n == 0 then 0
    else Refusals(cfg, n - 1) + RefusedNow(cfg, n - 1, Replay(cfg, n))
  }

  ghost predicate Indices(trace: seq<Request>, indices: seq<nat>, n: nat) {
    n <= |trace| && forall j :: 0 <= j < |indices| ==> indices[j] < n
  }

  ghost function BytesAt(trace: seq<Request>, indices: seq<nat>): nat
    requires Indices(trace, indices, |trace|)
  {
    if indices == [] then 0
    else BytesAt(trace, indices[..|indices| - 1]) + trace[indices[|indices| - 1]].bytes
  }

  ghost predicate CountsBalance(cfg: Config, n: nat, s: State, refusals: nat) {
    && TotalBytes(s.resident) <= cfg.capacity
    && s.loads == s.evictions + |s.resident|
    && s.hits + s.loads + refusals == n
    && s.loads == s.reloads + |s.seen|
    && s.resident.Keys <= s.seen
  }

  ghost predicate LoadsListed(cfg: Config, n: nat, s: State)
    requires cfg.Valid() && n <= |cfg.trace|
  {
    && |s.loaded| == s.loads
    && Indices(cfg.trace, s.loaded, n)
    && (forall r :: r in s.seen <==> exists j :: 0 <= j < |s.loaded| && cfg.trace[s.loaded[j]].ref == r)
    && s.loadBytes == BytesAt(cfg.trace, s.loaded)
  }

  lemma LoadsListedStep(cfg: Config, n: nat, s: State, t: State)
    requires cfg.Valid() && n < |cfg.trace|
    requires LoadsListed(cfg, n, s) && t.loaded == s.loaded + [n] && t.loads == s.loads + 1
    requires t.seen == s.seen + {cfg.trace[n].ref}
    requires t.loadBytes == s.loadBytes + cfg.trace[n].bytes
    ensures LoadsListed(cfg, n + 1, t)
  {
    assert t.loaded[..|t.loaded| - 1] == s.loaded;
    forall r
      ensures r in t.seen <==> exists j :: 0 <= j < |t.loaded| && cfg.trace[t.loaded[j]].ref == r
    {
      if r in s.seen {
        var j :| 0 <= j < |s.loaded| && cfg.trace[s.loaded[j]].ref == r;
        assert t.loaded[j] == s.loaded[j];
      } else if r in t.seen {
        assert t.loaded[|s.loaded|] == n;
      }
    }
  }

  lemma StoreGrows(kept: Store, ref: nat, e: Entry)
    requires ref !in kept
    ensures |kept[ref := e]| == |kept| + 1
    ensures kept[ref := e].Keys == kept.Keys + {ref}
  {
    assert kept[ref := e].Keys == kept.Keys + {ref};
    assert |kept.Keys + {ref}| == |kept.Keys| + 1;
  }

  lemma CountsAfterHit(cfg: Config, n: nat, s: State, ref: nat, refusals: nat)
    requires CountsBalance(cfg, n, s, refusals) && ref in s.resident
    ensures CountsBalance(cfg, n + 1, Hit(s, ref, n), refusals)
  {
    var t := Hit(s, ref, n);
    TotalTouch(s.resident, ref, t.resident[ref]);
    assert t.resident.Keys == s.resident.Keys;
    assert |t.resident.Keys| == |s.resident.Keys|;
  }

  lemma CountsAfterRefuse(cfg: Config, n: nat, s: State, size: nat, kept: Store, victims: nat, refusals: nat)
    requires cfg.Valid() && n < |cfg.trace| && CountsBalance(cfg, n, s, refusals)
    requires EvictFrame(cfg, n, s.resident, size, kept, victims)
    ensures CountsBalance(cfg, n + 1, Refuse(s, kept, victims), refusals + 1)
  {
    SubStoreBytes(kept, s.resident);
  }

  lemma CountsAfterAdmit(cfg: Config, n: nat, s: State, ref: nat, size: nat, kept: Store, victims: nat, refusals: nat)
    requires cfg.Valid() && n < |cfg.trace| && CountsBalance(cfg, n, s, refusals)
    requires ref !in s.resident && EvictFrame(cfg, n, s.resident, size, kept, victims)
    requires TotalBytes(kept) + size <= cfg.capacity
    ensures CountsBalance(cfg, n + 1, Admit(s, ref, size, n, kept, victims), refusals)
  {
    var t := Admit(s, ref, size, n, kept, victims);
    TotalInsert(kept, ref, Entry(size, n, 1));
    StoreGrows(kept, ref, Entry(size, n, 1));
    if ref !in s.seen {
      assert |s.seen + {ref}| == |s.seen| + 1;
    } else {
      assert s.seen + {ref} == s.seen;
    }
  }

  lemma CountsAfterStep(cfg: Config, n: nat, s: State, refusals: nat)
    requires cfg.Valid() && n < |cfg.trace| && CountsBalance(cfg, n, s, refusals)
    ensures CountsBalance(cfg, n + 1, Step(cfg, n, s), refusals + RefusedNow(cfg, n, Step(cfg, n, s)))
  {
    var Request(ref, size) := cfg.trace[n];
    if ref in s.resident {
      CountsAfterHit(cfg, n, s, ref, refusals);
    } else {
      var (kept, victims) := EvictLoop(cfg, n, s.resident, size);
      EvictLoopFrame(cfg, n, s.resident, size);
      if TotalBytes(kept) + size > cfg.capacity {
        CountsAfterRefuse(cfg, n, s, size, kept, victims, refusals);
      } else {
        CountsAfterAdmit(cfg, n, s, ref, size, kept, victims, refusals);
      }
    }
  }

  /** The books balance after every request of every replay: bytes stay within capacity,
      loads minus evictions are the residents, hits, loads and refusals are the requests,
      and loads minus reloads are the distinct refs ever loaded. */
  lemma {:induction false} Accounting(cfg: Config, n: nat)
    requires cfg.Valid() && n <= |cfg.trace|
    ensures CountsBalance(cfg, n, Replay(cfg, n), Refusals(cfg, n))
  {
    hide *;
    if n == 0 {
      NothingYetBalances(cfg);
    } else {
      Accounting(cfg, n - 1);
      CountsAfterStep(cfg, n - 1, Replay(cfg, n - 1), Refusals(cfg, n - 1));
      OneMoreRequest(cfg, n - 1);
    }
  }

  lemma NothingYetBalances(cfg: Config)
    requires cfg.Valid()
    ensures CountsBalance(cfg, 0, Replay(cfg, 0), Refusals(cfg, 0))
  {
  }

  lemma OneMoreRequest(cfg: Config, n: nat)
    requires cfg.Valid() && n < |cfg.trace|
    ensures Replay(cfg, n + 1) == Step(cfg, n, Replay(cfg, n))
    ensures Refusals(cfg, n + 1) == Refusals(cfg, n) + RefusedNow(cfg, n, Replay(cfg, n + 1))
  {
    hide Step, RefusedNow;
  }

  /** The recorded load indices are exactly the loads: one per load, their refs are the refs
      seen, and their bytes sum to the bytes loaded. */
  lemma {:induction false} LoadedIndices(cfg: Config, n: nat)
    requires cfg.Valid() && n <= |cfg.trace|
    ensures LoadsListed(cfg, n, Replay(cfg, n))
  {
    if n > 0 {
      LoadedIndices(cfg, n - 1);
      var s := Replay(cfg, n - 1);
      var Request(ref, size) := cfg.trace[n - 1];
      if ref !in s.resident {
        var (kept, victims) := EvictLoop(cfg, n - 1, s.resident, size);
        if TotalBytes(kept) + size <= cfg.capacity {
          LoadsListedStep(cfg, n - 1, s, Admit(s, ref, size, n - 1, kept, victims));
        }
      }
    }
  }

  /** A leased resident survives every request, and a hit never evicts anything. */
  lemma LeasesHold(cfg: Config, n: nat, r: nat)
    requires cfg.Valid() && n < |cfg.trace|
    requires r in Replay(cfg, n).resident
    requires r in cfg.Protected(n) || cfg.trace[n].ref in Replay(cfg, n).resident
    ensures r in Replay(cfg, n + 1).resident
  {
    EvictLoopFrame(cfg, n, Replay(cfg, n).resident, cfg.trace[n].bytes);
    if r in cfg.Protected(n) {
      assert r in LeasedPart(cfg, n, Replay(cfg, n).resident);
    }
  }

  /** A request is refused exactly when it misses and does not fit beside the leased residents. */
  lemma RefusedExactly(cfg: Config, n: nat)
    requires cfg.Valid() && n < |cfg.trace|
    ensures cfg.trace[n].ref !in Replay(cfg, n + 1).resident
       <==> && cfg.trace[n].ref !in Replay(cfg, n).resident
            && TotalBytes(LeasedPart(cfg, n, Replay(cfg, n).resident)) + cfg.trace[n].bytes > cfg.capacity
  {
    var s := Replay(cfg, n);
    var (kept, victims) := EvictLoop(cfg, n, s.resident, cfg.trace[n].bytes);
    EvictLoopFrame(cfg, n, s.resident, cfg.trace[n].bytes);
    SubStoreBytes(LeasedPart(cfg, n, s.resident), kept);
  }
}
