/**
 Replays in which every tensor has the same size. When nothing is leased, such a replay only
 moves between sets of resident refs, and evicts at most one ref per request.
 */
module UniformReplay {
  import opened Common
  import opened Residency
  import opened ResidencyAccounting

  ghost predicate OneSize(trace: seq<Request>, size: nat) {
    forall i :: 0 <= i < |trace| ==> trace[i].bytes == size
  }

  ghost predicate Uniform(cfg: Config, size: nat) {
    cfg.leases.Unleased? && OneSize(cfg.trace, size)
  }

  ghost predicate AllSized(resident: Store, size: nat) {
    forall r :: r in resident ==> resident[r].bytes == size
  }

  ghost function Residents(cfg: Config, n: nat): set<nat>
    requires cfg.Valid() && n <= |cfg.trace|
  {
    Replay(cfg, n).resident.Keys
  }

  /** One uniform request, as the eviction loop carries it out. */
  lemma UniformEviction(cfg: Config, size: nat, n: nat, resident: Store)
    requires Uniform(cfg, size) && n < |cfg.trace| && size <= cfg.capacity
    requires AllSized(resident, size) && size * |resident| <= cfg.capacity
    ensures size * (|resident| + 1) <= cfg.capacity ==> EvictLoop(cfg, n, resident, size) == (resident, 0)
    ensures size * (|resident| + 1) > cfg.capacity ==>
              && resident != map[]
              && var v := Victim(cfg, n, resident, resident.Keys);
                 EvictLoop(cfg, n, resident, size) == (resident - {v}, 1)
    ensures var kept := EvictLoop(cfg, n, resident, size).0; TotalBytes(kept) + size <= cfg.capacity
  {
    TotalEqualSizes(resident, size);
    Distribute(size, |resident|);
    if size * (|resident| + 1) > cfg.capacity {
      assert resident.Keys - cfg.Protected(n) == resident.Keys;
      assert resident == map[] ==> size * (|resident| + 1) == size;
      var v := Victim(cfg, n, resident, resident.Keys);
      var rest := resident - {v};
      TotalRemove(resident, v);
      assert TotalBytes(rest) + size <= cfg.capacity;
      assert EvictLoop(cfg, n, rest, size) == (rest, 0);
    }
  }

  ghost predicate Sized(s: State, size: nat) {
    AllSized(s.resident, size) && s.reloadBytes == size * s.reloads
  }

  lemma SizedStep(cfg: Config, size: nat, n: nat, s: State)
    requires cfg.Valid() && OneSize(cfg.trace, size) && n < |cfg.trace| && Sized(s, size)
    ensures Sized(Step(cfg, n, s), size)
  {
    hide EvictLoop, TotalBytes, Hit, Admit;
    assert cfg.trace[n].bytes == size;
    var ref := cfg.trace[n].ref;
    if ref in s.resident {
      SizedHit(s, size, ref, n);
    } else {
      EvictLoopFrame(cfg, n, s.resident, size);
      var (kept, victims) := EvictLoop(cfg, n, s.resident, size);
      SizedAdmit(s, size, ref, n, kept, victims);
    }
  }

  lemma SizedHit(s: State, size: nat, ref: nat, n: nat)
    requires Sized(s, size) && ref in s.resident
    ensures Sized(Hit(s, ref, n), size)
  {
  }

  lemma SizedAdmit(s: State, size: nat, ref: nat, n: nat, kept: Store, victims: nat)
    requires Sized(s, size) && AllSized(kept, size)
    ensures Sized(Admit(s, ref, size, n, kept, victims), size)
  {
    Distribute(size, s.reloads);
  }

  /** The store invariant of a replay of one size, leased or not: every entry has that size. */
  lemma {:induction false} UniformSized(cfg: Config, size: nat, n: nat)
    requires cfg.Valid() && OneSize(cfg.trace, size) && n <= |cfg.trace|
    ensures Sized(Replay(cfg, n), size)
  {
    if n > 0 {
      UniformSized(cfg, size, n - 1);
      SizedStep(cfg, size, n - 1, Replay(cfg, n - 1));
    }
  }

  lemma UniformBudget(cfg: Config, size: nat, n: nat)
    requires cfg.Valid() && OneSize(cfg.trace, size) && n <= |cfg.trace|
    ensures size * |Replay(cfg, n).resident| <= cfg.capacity
  {
    Accounting(cfg, n);
    UniformSized(cfg, size, n);
    TotalEqualSizes(Replay(cfg, n).resident, size);
  }

  /** What one request does to the resident set. */
  ghost predicate UniformMove(cfg: Config, size: nat, n: nat, s: State, t: State)
    requires n < |cfg.trace|
  {
    var x, before := cfg.trace[n].ref, s.resident.Keys;
    if x in before then
      && t.resident.Keys == before && t.loads == s.loads
    else if size * (|before| + 1) <= cfg.capacity then
      && t.resident.Keys == before + {x} && t.loads == s.loads + 1
    else
      && before != {}
      && t.resident.Keys == before - {Victim(cfg, n, s.resident, before)} + {x}
      && t.loads == s.loads + 1
  }

  lemma UniformMiss(cfg: Config, size: nat, n: nat, s: State)
    requires Uniform(cfg, size) && n < |cfg.trace| && size <= cfg.capacity
    requires Sized(s, size) && size * |s.resident| <= cfg.capacity
    requires cfg.trace[n].ref !in s.resident
    ensures UniformMove(cfg, size, n, s, Step(cfg, n, s))
    ensures Step(cfg, n, s).seen == s.seen + {cfg.trace[n].ref}
  {
    hide EvictLoop, TotalBytes, Step, Victim;
    assert |s.resident.Keys| == |s.resident|;
    UniformEviction(cfg, size, n, s.resident);
    StepAdmits(cfg, n, s);
  }

  lemma StepAdmits(cfg: Config, n: nat, s: State)
    requires cfg.Valid() && n < |cfg.trace| && cfg.trace[n].ref !in s.resident
    requires TotalBytes(EvictLoop(cfg, n, s.resident, cfg.trace[n].bytes).0) + cfg.trace[n].bytes <= cfg.capacity
    ensures var Request(ref, size) := cfg.trace[n];
            var (kept, victims) := EvictLoop(cfg, n, s.resident, size);
            Step(cfg, n, s) == Admit(s, ref, size, n, kept, victims)
  {
    hide EvictLoop, TotalBytes;
  }

  lemma UniformReplayMove(cfg: Config, size: nat, n: nat)
    requires Uniform(cfg, size) && n < |cfg.trace| && size <= cfg.capacity
    ensures UniformMove(cfg, size, n, Replay(cfg, n), Replay(cfg, n + 1))
    ensures Replay(cfg, n).resident.Keys <= Replay(cfg, n).seen
    ensures Replay(cfg, n + 1).seen == Replay(cfg, n).seen + {cfg.trace[n].ref}
  {
    UniformSized(cfg, size, n);
    UniformBudget(cfg, size, n);
    Accounting(cfg, n);
    var s := Replay(cfg, n);
    if cfg.trace[n].ref in s.resident {
      assert Step(cfg, n, s) == Hit(s, cfg.trace[n].ref, n);
    } else {
      UniformMiss(cfg, size, n, s);
    }
  }

  ghost function RefsOf(trace: seq<Request>, n: nat): set<nat>
    requires n <= |trace|
  {
    if n == 0 then {} else RefsOf(trace, n - 1) + {trace[n - 1].ref}
  }

  /** With room for one tensor, every requested ref is loaded at least once. */
  lemma {:induction false} UniformSeen(cfg: Config, size: nat, n: nat)
    requires Uniform(cfg, size) && n <= |cfg.trace| && size <= cfg.capacity
    ensures Replay(cfg, n).seen == RefsOf(cfg.trace, n)
  {
    hide Step;
    if n > 0 {
      UniformSeen(cfg, size, n - 1);
      UniformReplayMove(cfg, size, n - 1);
    }
  }

  /** Without room for one tensor, nothing is ever loaded. */
  lemma {:induction false} TooSmall(cfg: Config, size: nat, n: nat)
    requires Uniform(cfg, size) && n <= |cfg.trace| && size > cfg.capacity
    ensures Replay(cfg, n).resident == map[]
    ensures Replay(cfg, n).loads == 0 && Replay(cfg, n).reloads == 0 && Replay(cfg, n).reloadBytes == 0
  {
    if n > 0 {
      TooSmall(cfg, size, n - 1);
      assert cfg.trace[n - 1].bytes == size;
    }
  }
}
