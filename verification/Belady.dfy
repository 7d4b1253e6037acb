/**
 Optimality of the MIN replay. The competitor is any sequence of resident sets that
 serves the trace on demand within the same capacity, whatever it evicts and however
 much; LRU, LFU and score-based replays are competitors of this kind.

 The proof compares, for every future time `t`, how many residents of either side are
 requested again by `t`. MIN's shortfall never exceeds the loads it has saved so far.
 */
module Belady {
  import opened Common
  import opened Residency
  import opened UniformReplay
  import ResidencyAccounting

  // ---------------------------------------------------------------- competitors

  /** Serving `x` on demand: everything kept was there before, `x` is there afterwards. */
  ghost predicate DemandMove(before: set<nat>, x: nat, after: set<nat>, size: nat, capacity: nat) {
    x in after && after <= before + {x} && size * |after| <= capacity
  }

  ghost predicate DemandRun(trace: seq<Request>, size: nat, capacity: nat, run: seq<set<nat>>) {
    && |run| == |trace| + 1
    && run[0] == {}
    && forall i :: 0 <= i < |trace| ==> DemandMove(run[i], trace[i].ref, run[i + 1], size, capacity)
  }

  ghost function Misses(trace: seq<Request>, run: seq<set<nat>>, n: nat): nat
    requires n <= |trace| < |run|
  {
    if n == 0 then 0
    else Misses(trace, run, n - 1) + Miss(trace[n - 1].ref, run[n - 1])
  }

  ghost function Miss(x: nat, residents: set<nat>): nat {
    if x in residents then 0 else 1
  }

  // ---------------------------------------------------------------- next use as a time

  /** The next request of `ref` at or after `i`, or the length of the trace. */
  ghost function NextTime(trace: seq<Request>, i: nat, ref: nat): nat {
    var position := NextAt(trace, i, ref);
    if position.Some? then position.value else |trace|
  }

  ghost function Soon(trace: seq<Request>, i: nat, residents: set<nat>, t: nat): set<nat> {
    set r | r in residents && NextTime(trace, i, r) <= t
  }

  /** By time `t`, at most `slack` more of `theirs` than of `mine` are requested again. */
  ghost predicate CoversBy(trace: seq<Request>, i: nat, mine: set<nat>, theirs: set<nat>, slack: int, t: nat) {
    |Soon(trace, i, theirs, t)| <= |Soon(trace, i, mine, t)| + slack
  }

  ghost predicate Covers(trace: seq<Request>, i: nat, mine: set<nat>, theirs: set<nat>, slack: int) {
    && slack >= 0
    && forall t :: i <= t < |trace| ==> CoversBy(trace, i, mine, theirs, slack, t)
  }

  /** Splitting the residents requested soon into the current request and the others. */
  lemma SoonSplit(trace: seq<Request>, i: nat, residents: set<nat>, t: nat)
    requires i <= t < |trace|
    ensures var x := trace[i].ref;
            |Soon(trace, i, residents, t)| ==
            |Soon(trace, i + 1, residents - {x}, t)| + (if x in residents then 1 else 0)
  {
    var x := trace[i].ref;
    var others := Soon(trace, i + 1, residents - {x}, t);
    if x in residents {
      assert Soon(trace, i, residents, t) == others + {x};
    } else {
      assert Soon(trace, i, residents, t) == others;
    }
  }

  /** Either a victim-free prefix of `mine` survives, or all of `mine` was due by `t`. */
  lemma SoonAfter(trace: seq<Request>, i: nat, residents: set<nat>, t: nat)
    requires i <= t < |trace| && trace[i].ref in residents
    ensures var x := trace[i].ref;
            |Soon(trace, i + 1, residents, t)| ==
            |Soon(trace, i + 1, residents - {x}, t)| + (if NextTime(trace, i + 1, x) <= t then 1 else 0)
  {
    var x := trace[i].ref;
    var others := Soon(trace, i + 1, residents - {x}, t);
    if NextTime(trace, i + 1, x) <= t {
      assert Soon(trace, i + 1, residents, t) == others + {x};
    } else {
      assert Soon(trace, i + 1, residents, t) == others;
    }
  }

  /** `v` is requested again no sooner than any other ref of `residents`. */
  ghost predicate Furthest(trace: seq<Request>, i: nat, residents: set<nat>, v: nat) {
    v in residents && forall r :: r in residents ==> NextTime(trace, i, r) <= NextTime(trace, i, v)
  }

  /** One MIN move over resident sets. */
  ghost predicate MinMove(trace: seq<Request>, i: nat, before: set<nat>, after: set<nat>, size: nat, capacity: nat)
    requires i < |trace|
  {
    var x := trace[i].ref;
    if x in before then after == before
    else if size * (|before| + 1) <= capacity then after == before + {x}
    else exists v :: Furthest(trace, i + 1, before, v) && after == before - {v} + {x}
  }

  /** A set that leaves no room for one more tensor is at least as large as any that fits. */
  lemma FullIsLargest(size: nat, capacity: nat, mine: nat, theirs: nat)
    requires size * (mine + 1) > capacity && size * theirs <= capacity
    ensures theirs <= mine
  {
    Monotone(size, mine + 1, theirs);
  }

  lemma Monotone(size: nat, a: nat, b: nat)
    ensures a <= b ==> size * a <= size * b
  {
  }

  lemma OthersAfterEviction(trace: seq<Request>, i: nat, mine: set<nat>, v: nat, theirs: set<nat>, x: nat, t: nat)
    requires Furthest(trace, i, mine, v) && x in theirs && |theirs| <= |mine|
    ensures || Soon(trace, i, mine - {v}, t) == Soon(trace, i, mine, t)
            || |Soon(trace, i, theirs - {x}, t)| <= |Soon(trace, i, mine - {v}, t)|
  {
    if NextTime(trace, i, v) > t {
      assert Soon(trace, i, mine - {v}, t) == Soon(trace, i, mine, t);
    } else {
      assert Soon(trace, i, mine - {v}, t) == mine - {v};
      assert |mine - {v}| == |mine| - 1 && |theirs - {x}| == |theirs| - 1;
      SubsetSize(Soon(trace, i, theirs - {x}, t), theirs - {x});
    }
  }

  /** Apart from the current request, a MIN move drops nothing or the furthest ref of a full set. */
  lemma MoveDrops(trace: seq<Request>, i: nat, mine: set<nat>, mine': set<nat>, size: nat, capacity: nat)
    requires i < |trace| && MinMove(trace, i, mine, mine', size, capacity)
    ensures var x := trace[i].ref;
            || mine' - {x} == mine - {x}
            || (&& mine - {x} == mine && size * (|mine| + 1) > capacity
                && exists v :: Furthest(trace, i + 1, mine, v) && mine' - {x} == mine - {v})
  {
    hide NextTime;
    var x := trace[i].ref;
    if x in mine || size * (|mine| + 1) <= capacity {
      assert mine' - {x} == mine - {x};
    } else {
      var v :| Furthest(trace, i + 1, mine, v) && mine' == mine - {v} + {x};
      assert mine' - {x} == mine - {v};
    }
  }

  /** Requests other than the current one: what MIN still holds of those due by `t`,
      against what the competitor still holds of them. */
  lemma OthersAfter(trace: seq<Request>, i: nat, size: nat, capacity: nat,
                    mine: set<nat>, mine': set<nat>, theirs': set<nat>, t: nat)
    requires i < t < |trace|
    requires MinMove(trace, i, mine, mine', size, capacity)
    requires trace[i].ref in theirs' && size * |theirs'| <= capacity
    ensures var x := trace[i].ref;
            || Soon(trace, i + 1, mine' - {x}, t) == Soon(trace, i + 1, mine - {x}, t)
            || |Soon(trace, i + 1, theirs' - {x}, t)| <= |Soon(trace, i + 1, mine' - {x}, t)|
  {
    hide *;
    MoveDrops(trace, i, mine, mine', size, capacity);
    var x := trace[i].ref;
    if mine' - {x} != mine - {x} {
      var v :| Furthest(trace, i + 1, mine, v) && mine' - {x} == mine - {v};
      FullIsLargest(size, capacity, |mine|, |theirs'|);
      OthersAfterEviction(trace, i + 1, mine, v, theirs', x, t);
    }
  }

  lemma MoveKeepsCurrent(trace: seq<Request>, i: nat, mine: set<nat>, mine': set<nat>, size: nat, capacity: nat)
    requires i < |trace| && MinMove(trace, i, mine, mine', size, capacity)
    ensures trace[i].ref in mine'
  {
  }

  /** The shortfall at time `t` after one request. */
  lemma CoversAt(trace: seq<Request>, i: nat, size: nat, capacity: nat,
                 mine: set<nat>, mine': set<nat>, theirs: set<nat>, theirs': set<nat>, slack: int, t: nat)
    requires i < t < |trace|
    requires CoversBy(trace, i, mine, theirs, slack, t)
    requires slack + Miss(trace[i].ref, theirs) - Miss(trace[i].ref, mine) >= 0
    requires MinMove(trace, i, mine, mine', size, capacity)
    requires DemandMove(theirs, trace[i].ref, theirs', size, capacity)
    ensures CoversBy(trace, i + 1, mine', theirs',
                     slack + Miss(trace[i].ref, theirs) - Miss(trace[i].ref, mine), t)
  {
    var x := trace[i].ref;
    MoveKeepsCurrent(trace, i, mine, mine', size, capacity);
    SoonSplit(trace, i, mine, t);
    SoonSplit(trace, i, theirs, t);
    SoonAfter(trace, i, mine', t);
    SoonAfter(trace, i, theirs', t);
    SubsetSize(Soon(trace, i + 1, theirs' - {x}, t), Soon(trace, i + 1, theirs - {x}, t));
    OthersAfter(trace, i, size, capacity, mine, mine', theirs', t);
  }

  /** The saved loads pay for this request if MIN misses it alone. */
  lemma SlackSuffices(trace: seq<Request>, i: nat, mine: set<nat>, theirs: set<nat>, slack: int)
    requires i < |trace| && Covers(trace, i, mine, theirs, slack)
    ensures slack + Miss(trace[i].ref, theirs) - Miss(trace[i].ref, mine) >= 0
  {
    hide NextTime;
    var x := trace[i].ref;
    SoonSplit(trace, i, mine, i);
    SoonSplit(trace, i, theirs, i);
    NobodySoon(trace, i + 1, theirs - {x}, i);
    NobodySoon(trace, i + 1, mine - {x}, i);
    assert CoversBy(trace, i, mine, theirs, slack, i);
  }

  lemma NobodySoon(trace: seq<Request>, i: nat, residents: set<nat>, t: nat)
    requires t < i <= |trace|
    ensures Soon(trace, i, residents, t) == {}
  {
  }

  /** MIN never loses a load it has saved: the invariant of the comparison. */
  lemma CoversStep(trace: seq<Request>, i: nat, size: nat, capacity: nat,
                   mine: set<nat>, mine': set<nat>, theirs: set<nat>, theirs': set<nat>, slack: int)
    requires i < |trace|
    requires Covers(trace, i, mine, theirs, slack)
    requires MinMove(trace, i, mine, mine', size, capacity)
    requires DemandMove(theirs, trace[i].ref, theirs', size, capacity)
    ensures Covers(trace, i + 1, mine', theirs',
                   slack + Miss(trace[i].ref, theirs) - Miss(trace[i].ref, mine))
  {
    hide CoversBy, MinMove, DemandMove, Miss;
    var x := trace[i].ref;
    SlackSuffices(trace, i, mine, theirs, slack);
    var next, slack' := i + 1, slack + Miss(x, theirs) - Miss(x, mine);
    forall t | next <= t < |trace|
      ensures CoversBy(trace, next, mine', theirs', slack', t)
    {
      CoversAt(trace, i, size, capacity, mine, mine', theirs, theirs', slack, t);
    }
  }

  // ---------------------------------------------------------------- MIN replays

  /** While positions fit below the "never" key, MIN's victim is the furthest resident. */
  lemma VictimIsFurthest(cfg: Config, i: nat, resident: Store)
    requires cfg.policy.Min? && i < |cfg.trace| <= NEVER && resident != map[]
    ensures Furthest(cfg.trace, i + 1, resident.Keys, Victim(cfg, i, resident, resident.Keys))
  {
    var v := Victim(cfg, i, resident, resident.Keys);
    forall r | r in resident
      ensures NextTime(cfg.trace, i + 1, r) <= NextTime(cfg.trace, i + 1, v)
    {
      assert Prefers(cfg, i, resident, resident.Keys, v, r);
    }
  }

  lemma MoveOfMin(cfg: Config, size: nat, i: nat, s: State, t: State)
    requires cfg.policy.Min? && i < |cfg.trace| <= NEVER
    requires UniformMove(cfg, size, i, s, t)
    ensures MinMove(cfg.trace, i, s.resident.Keys, t.resident.Keys, size, cfg.capacity)
  {
    if s.resident != map[] {
      VictimIsFurthest(cfg, i, s.resident);
    }
  }

  lemma MoveOnDemand(cfg: Config, size: nat, i: nat, s: State, t: State)
    requires i < |cfg.trace| && UniformMove(cfg, size, i, s, t)
    requires size * |t.resident| <= cfg.capacity
    ensures DemandMove(s.resident.Keys, cfg.trace[i].ref, t.resident.Keys, size, cfg.capacity)
  {
    assert |t.resident.Keys| == |t.resident|;
  }

  lemma MoveLoads(cfg: Config, size: nat, i: nat, s: State, t: State)
    requires i < |cfg.trace| && UniformMove(cfg, size, i, s, t)
    ensures t.loads == s.loads + Miss(cfg.trace[i].ref, s.resident.Keys)
  {
  }

  // ---------------------------------------------------------------- replays as set runs

  ghost predicate MinRun(trace: seq<Request>, size: nat, capacity: nat, run: seq<set<nat>>) {
    && |run| == |trace| + 1
    && run[0] == {}
    && forall i :: 0 <= i < |trace| ==> MinMove(trace, i, run[i], run[i + 1], size, capacity)
  }

  lemma CoversNothing(trace: seq<Request>)
    ensures Covers(trace, 0, {}, {}, 0)
  {
  }

  /** MIN against a competitor, over resident sets only. */
  lemma {:induction false} MinCovers(trace: seq<Request>, size: nat, capacity: nat,
                                     mine: seq<set<nat>>, theirs: seq<set<nat>>, n: nat)
    requires MinRun(trace, size, capacity, mine) && DemandRun(trace, size, capacity, theirs)
    requires n <= |trace|
    ensures Covers(trace, n, mine[n], theirs[n], Misses(trace, theirs, n) - Misses(trace, mine, n))
  {
    hide MinMove, DemandMove, CoversBy;
    CoversNothing(trace);
    if n > 0 {
      MinCovers(trace, size, capacity, mine, theirs, n - 1);
      CoversStep(trace, n - 1, size, capacity, mine[n - 1], mine[n], theirs[n - 1], theirs[n],
                 Misses(trace, theirs, n - 1) - Misses(trace, mine, n - 1));
    }
  }

  /** The resident sets of a replay, from before the first request to after the last. */
  ghost function RunOf(cfg: Config): seq<set<nat>>
    requires cfg.Valid()
  {
    seq(|cfg.trace| + 1, i requires 0 <= i <= |cfg.trace| => Residents(cfg, i))
  }

  /** Every uniform replay is a demand run, whatever its policy. */
  lemma ReplayIsDemandRun(cfg: Config, size: nat)
    requires Uniform(cfg, size) && size <= cfg.capacity
    ensures DemandRun(cfg.trace, size, cfg.capacity, RunOf(cfg))
  {
    hide Step, UniformMove, DemandMove;
    var run := RunOf(cfg);
    forall i | 0 <= i < |cfg.trace|
      ensures DemandMove(run[i], cfg.trace[i].ref, run[i + 1], size, cfg.capacity)
    {
      UniformReplayMove(cfg, size, i);
      UniformBudget(cfg, size, i + 1);
      MoveOnDemand(cfg, size, i, Replay(cfg, i), Replay(cfg, i + 1));
    }
  }

  /** A uniform MIN replay evicts as Belady prescribes. */
  lemma ReplayIsMinRun(cfg: Config, size: nat)
    requires cfg.policy.Min? && |cfg.trace| <= NEVER
    requires Uniform(cfg, size) && size <= cfg.capacity
    ensures MinRun(cfg.trace, size, cfg.capacity, RunOf(cfg))
  {
    hide Step, UniformMove, MinMove;
    var run := RunOf(cfg);
    forall i | 0 <= i < |cfg.trace|
      ensures MinMove(cfg.trace, i, run[i], run[i + 1], size, cfg.capacity)
    {
      UniformReplayMove(cfg, size, i);
      MoveOfMin(cfg, size, i, Replay(cfg, i), Replay(cfg, i + 1));
    }
  }

  lemma {:induction false} MissesAreLoads(cfg: Config, size: nat, n: nat)
    requires Uniform(cfg, size) && size <= cfg.capacity && n <= |cfg.trace|
    ensures Misses(cfg.trace, RunOf(cfg), n) == Replay(cfg, n).loads
  {
    hide Step, UniformMove;
    if n > 0 {
      MissesAreLoads(cfg, size, n - 1);
      UniformReplayMove(cfg, size, n - 1);
      MoveLoads(cfg, size, n - 1, Replay(cfg, n - 1), Replay(cfg, n));
    }
  }

  // ---------------------------------------------------------------- the theorems

  /** Belady's theorem: after every request, MIN has loaded no more than any run that
      serves the same trace on demand within the same capacity. */
  lemma MinIsOptimal(cfg: Config, size: nat, run: seq<set<nat>>, n: nat)
    requires cfg.policy.Min? && Uniform(cfg, size) && n <= |cfg.trace| <= NEVER
    requires DemandRun(cfg.trace, size, cfg.capacity, run)
    ensures Replay(cfg, n).loads <= Misses(cfg.trace, run, n)
  {
    hide Step, MinMove, DemandMove, CoversBy;
    if size <= cfg.capacity {
      ReplayIsMinRun(cfg, size);
      MissesAreLoads(cfg, size, n);
      MinCovers(cfg.trace, size, cfg.capacity, RunOf(cfg), run, n);
    } else {
      TooSmall(cfg, size, n);
    }
  }

  /** Hence MIN loads no more, reloads no more and reloads no more bytes than any policy. */
  lemma MinBeatsPolicy(mine: Config, theirs: Config, size: nat, n: nat)
    requires mine.policy.Min? && theirs == mine.(policy := theirs.policy)
    requires Uniform(mine, size) && n <= |mine.trace| <= NEVER
    ensures Replay(mine, n).loads <= Replay(theirs, n).loads
    ensures Replay(mine, n).reloads <= Replay(theirs, n).reloads
    ensures Replay(theirs, n).reloadBytes - Replay(mine, n).reloadBytes >= 0
  {
    hide Step, DemandMove;
    if size > mine.capacity {
      TooSmall(mine, size, n);
      TooSmall(theirs, size, n);
    } else {
      ReplayIsDemandRun(theirs, size);
      MinIsOptimal(mine, size, RunOf(theirs), n);
      MissesAreLoads(theirs, size, n);
      ReloadsOfLoads(mine, size, n);
      ReloadsOfLoads(theirs, size, n);
      Monotone(size, Replay(mine, n).reloads, Replay(theirs, n).reloads);
    }
  }

  lemma ReloadsOfLoads(cfg: Config, size: nat, n: nat)
    requires Uniform(cfg, size) && size <= cfg.capacity && n <= |cfg.trace|
    ensures Replay(cfg, n).loads == Replay(cfg, n).reloads + |RefsOf(cfg.trace, n)|
    ensures Replay(cfg, n).reloadBytes == size * Replay(cfg, n).reloads
  {
    ResidencyAccounting.Accounting(cfg, n);
    UniformSeen(cfg, size, n);
    UniformSized(cfg, size, n);
  }
}
