/**
 MIN against LFU without leases, for tensors of any sizes: MIN reloads no more bytes than LFU on
 all traces of a length exactly when that length is at most 5.
 */
module LfuLimits {
  import opened Common
  import opened Residency
  import opened ResidencyAccounting
  import opened LruStack
  import opened MinWindow
  import opened AvoidableReloads
  import opened ResidencyLimits
  import opened LeasedLru
  import opened ShortTraces

  // ---------------------------------------------------------------- use counts

  ghost function Uses(trace: seq<Request>, n: nat, r: nat): nat
    requires n <= |trace|
  {
    if n == 0 then 0 else Uses(trace, n - 1, r) + (if trace[n - 1].ref == r then 1 else 0)
  }

  /** A resident's use count never exceeds the requests for it. */
  ghost predicate Counted(trace: seq<Request>, n: nat, resident: Store)
    requires n <= |trace|
  {
    forall r :: r in resident ==> 1 <= resident[r].uses <= Uses(trace, n, r)
  }

  lemma CountedStep(cfg: Config, n: nat, s: State)
    requires cfg.Valid() && n < |cfg.trace| && Counted(cfg.trace, n, s.resident)
    ensures Counted(cfg.trace, n + 1, Step(cfg, n, s).resident)
  {
    hide EvictLoop, TotalBytes;
    EvictLoopFrame(cfg, n, s.resident, cfg.trace[n].bytes);
  }

  lemma {:induction false} AlwaysCounted(cfg: Config, n: nat)
    requires cfg.Valid() && n <= |cfg.trace|
    ensures Counted(cfg.trace, n, Replay(cfg, n).resident)
  {
    hide Step;
    if n > 0 {
      AlwaysCounted(cfg, n - 1);
      CountedStep(cfg, n - 1, Replay(cfg, n - 1));
    }
  }

  // ---------------------------------------------------------------- where LFU is LRU

  lemma SubKeys(resident: Store, v: nat)
    requires v in resident
    ensures (resident - {v}).Keys == resident.Keys - {v} && |resident - {v}| < |resident|
  {
    assert |resident.Keys - {v}| == |resident.Keys| - 1;
    assert |(resident - {v}).Keys| == |resident - {v}|;
  }

  /** With every resident used once, LFU evicts what LRU evicts. */
  lemma {:induction false} UsedOnceEviction(lru: Config, lfu: Config, n: nat, resident: Store, size: nat)
    requires Rivals(lru, lfu) && lru.policy.Lru? && lfu.policy.Lfu? && n < |lru.trace|
    requires forall r :: r in resident ==> resident[r].uses == 1
    ensures EvictLoop(lru, n, resident, size) == EvictLoop(lfu, n, resident, size)
    decreases |resident|
  {
    hide EvictLoop, TotalBytes, Victim;
    var eligible := resident.Keys - lru.Protected(n);
    if resident == map[] || TotalBytes(resident) + size <= lru.capacity || eligible == {} {
      EvictStays(lru, n, resident, size);
      EvictStays(lfu, n, resident, size);
    } else {
      SameVictim(lru, lfu, n, resident, eligible);
      var v := Victim(lru, n, resident, eligible);
      assert v in eligible;
      EvictLoopMore(lru, n, resident, size, v);
      EvictLoopMore(lfu, n, resident, size, v);
      SubKeys(resident, v);
      UsedOnceEviction(lru, lfu, n, resident - {v}, size);
    }
  }

  lemma UsedOnceStep(lru: Config, lfu: Config, n: nat, s: State)
    requires Rivals(lru, lfu) && lru.policy.Lru? && lfu.policy.Lfu? && n < |lru.trace|
    requires forall r :: r in s.resident ==> s.resident[r].uses == 1
    ensures Step(lru, n, s) == Step(lfu, n, s)
  {
    hide EvictLoop, TotalBytes;
    UsedOnceEviction(lru, lfu, n, s.resident, lru.trace[n].bytes);
  }

  /** LRU and LFU are in the same state after three requests. */
  lemma ThreeSame(lru: Config, lfu: Config)
    requires Rivals(lru, lfu) && lru.policy.Lru? && lfu.policy.Lfu? && |lru.trace| >= 3
    ensures Replay(lru, 3) == Replay(lfu, 3)
  {
    hide Step, Replay;
    SameStart(lru, lfu, 2);
    FewResidents(lru, 2);
    var s := Replay(lru, 2);
    ReplayNext(lru, 2);
    ReplayNext(lfu, 2);
    if |s.resident| <= 1 {
      SingleSame(lru, lfu, 2, s);
    } else {
      TwoResidents(lru);
      UsedOnceStep(lru, lfu, 2, s);
    }
  }

  // ---------------------------------------------------------------- the fourth request

  lemma UsesOfThree(trace: seq<Request>, r: nat)
    requires |trace| >= 3
    ensures Uses(trace, 3, r) == (if trace[0].ref == r then 1 else 0)
                                 + (if trace[1].ref == r then 1 else 0)
                                 + (if trace[2].ref == r then 1 else 0)
  {
    assert Uses(trace, 1, r) == if trace[0].ref == r then 1 else 0;
  }

  /** Two residents after three requests of which `r` was used twice: `r`, and the ref `q` of the
      third request position. */
  lemma TwiceUsed(cfg: Config, r: nat, q: nat)
    requires cfg.Valid() && |cfg.trace| >= 3 && r != q
    requires var s := Replay(cfg, 3).resident; r in s && q in s && s[r].uses >= 2
    ensures var s := Replay(cfg, 3).resident;
            s.Keys == {r, q} && s[q].uses == 1
            && (s[q].last < s[r].last || (cfg.trace[0].ref == r && cfg.trace[1].ref == r
                                          && cfg.trace[2].ref == q))
  {
    hide Replay;
    var s := Replay(cfg, 3).resident;
    AlwaysCounted(cfg, 3);
    AlwaysStamped(cfg, 3);
    UsesOfThree(cfg.trace, r);
    UsesOfThree(cfg.trace, q);
    assert LatestUse(cfg.trace, 3, r, s[r].last) && LatestUse(cfg.trace, 3, q, s[q].last);
    forall p | p in s ensures p == r || p == q {
      UsesOfThree(cfg.trace, p);
    }
  }

  ghost predicate LruAndLfu(lru: Config, lfu: Config, mine: Config) {
    && lru.policy.Lru? && lru.leases.Unleased? && |lru.trace| == 5 && Consistent(lru.trace)
    && lfu == lru.(policy := Lfu) && mine == lru.(policy := Min)
  }

  /** After requests r, r, q with both resident, LFU and MIN evict q first when r returns last. */
  lemma RepeatedThenOther(lru: Config, lfu: Config, mine: Config, r: nat, q: nat)
    requires LruAndLfu(lru, lfu, mine) && r != q
    requires lru.trace[0].ref == r && lru.trace[1].ref == r && lru.trace[2].ref == q
    requires Replay(lru, 3).resident.Keys == {r, q} && lru.trace[3].ref !in {r, q}
    requires Replay(lru, 3).resident[r].uses > Replay(lru, 3).resident[q].uses
    requires lru.trace[4].ref == r && r in Replay(lfu, 4).resident
    ensures r in Replay(mine, 4).resident
  {
    hide Step, Replay, EvictLoop;
    var s := Replay(lru, 3);
    ThreeSame(lru, lfu);
    TwoOfOne(lru, mine, r);
    ReplayNext(lfu, 3);
    ReplayNext(mine, 3);
    KeptLikewise(lfu, mine, s, r, q);
  }

  /** Two requests for one ref leave at most one resident, so MIN is still where LRU is. */
  lemma TwoOfOne(lru: Config, mine: Config, r: nat)
    requires Rivals(lru, mine) && |lru.trace| >= 3
    requires lru.trace[0].ref == r && lru.trace[1].ref == r
    ensures Replay(lru, 3) == Replay(mine, 3)
  {
    hide Step, Replay;
    SameStart(lru, mine, 2);
    AlwaysStamped(lru, 2);
    var s := Replay(lru, 2);
    forall p | p in s.resident ensures p == r {
      assert LatestUse(lru.trace, 2, p, s.resident[p].last);
    }
    assert s.resident.Keys <= {r};
    assert |s.resident.Keys| <= |{r}| by { SubsetSize(s.resident.Keys, {r}); }
    assert |s.resident.Keys| == |s.resident|;
    ReplayNext(lru, 2);
    ReplayNext(mine, 2);
    SingleSame(lru, mine, 2, s);
  }

  lemma KeptLikewise(lfu: Config, mine: Config, s: State, r: nat, q: nat)
    requires Rivals(lfu, mine) && lfu.leases.Unleased? && |lfu.trace| == 5
    requires lfu.policy.Lfu? && mine.policy.Min? && s.resident.Keys == {r, q} && r != q
    requires s.resident[r].uses > s.resident[q].uses
    requires lfu.trace[3].ref !in {r, q} && lfu.trace[4].ref == r
    requires r in Step(lfu, 3, s).resident
    ensures r in Step(mine, 3, s).resident
  {
    hide EvictLoop, TotalBytes;
    var er, eq, size := s.resident[r], s.resident[q], lfu.trace[3].bytes;
    assert s.resident == Pair(q, eq, r, er);
    Totals(q, eq, r, er);
    NextOnly(mine, 3, r);
    NextOnly(mine, 3, q);
    if eq.bytes + er.bytes + size <= lfu.capacity {
      PairSame(lfu, mine, 3, q, eq, r, er, size);
    } else {
      PairEvicts(lfu, 3, q, eq, r, er, size);
      PairEvicts(mine, 3, q, eq, r, er, size);
    }
  }

  /** If the fifth request hits under LFU, it hits under MIN. */
  lemma FifthHit(lru: Config, lfu: Config, mine: Config)
    requires LruAndLfu(lru, lfu, mine) && lru.trace[4].ref in Replay(lfu, 4).resident
    ensures lru.trace[4].ref in Replay(mine, 4).resident
  {
    hide Step, Replay, EvictLoop, TotalBytes;
    var x, s := lru.trace[4].ref, Replay(lru, 3);
    ThreeSame(lru, lfu);
    ReplayNext(lru, 3);
    ReplayNext(lfu, 3);
    if x in Replay(lru, 4).resident {
      MinMissIsLruMiss(mine, lru, SizesOf(lru.trace), 4);
    } else {
      FourthDiffers(lru, lfu, s, x);
      var r, q :| r in s.resident && q in s.resident && r != q && s.resident[r].uses >= 2
                  && !(s.resident[q].last < s.resident[r].last) && x == r;
      TwiceUsed(lru, r, q);
      RepeatedThenOther(lru, lfu, mine, r, q);
    }
  }

  lemma FourthAlike(lru: Config, lfu: Config, s: State)
    requires Rivals(lru, lfu) && lru.policy.Lru? && lfu.policy.Lfu? && |lru.trace| == 5
    ensures lru.trace[3].ref in s.resident || |s.resident| <= 1
            || (forall r :: r in s.resident ==> s.resident[r].uses == 1) ==>
              Step(lru, 3, s) == Step(lfu, 3, s)
  {
    hide EvictLoop, TotalBytes;
    if lru.trace[3].ref !in s.resident {
      if |s.resident| <= 1 {
        SingleSame(lru, lfu, 3, s);
      } else if forall r :: r in s.resident ==> s.resident[r].uses == 1 {
        UsedOnceStep(lru, lfu, 3, s);
      }
    }
  }

  lemma Another(resident: Store, r: nat)
    requires r in resident && |resident| > 1
    ensures exists q :: q in resident && q != r
  {
    assert |resident.Keys - {r}| == |resident.Keys| - 1;
    assert |resident.Keys| == |resident|;
    var q :| q in resident.Keys - {r};
  }

  /** LRU and LFU part on the fourth request only if an older resident was used twice. */
  lemma FourthDiffers(lru: Config, lfu: Config, s: State, x: nat)
    requires LruAndLfu(lru, lfu, lru.(policy := Min)) && s == Replay(lru, 3)
    requires x in Step(lfu, 3, s).resident && x !in Step(lru, 3, s).resident
    ensures lru.trace[3].ref !in s.resident
    ensures exists r, q :: r in s.resident && q in s.resident && r != q
              && s.resident[r].uses >= 2 && !(s.resident[q].last < s.resident[r].last) && x == r
  {
    hide Replay, Step;
    AlwaysCounted(lru, 3);
    FourthAlike(lru, lfu, s);
    var r :| r in s.resident && s.resident[r].uses >= 2;
    Another(s.resident, r);
    var q :| q in s.resident && q != r;
    TwiceUsed(lru, r, q);
    LfuPrefersOther(lru, lfu, s, r, q, x);
  }

  lemma LfuPrefersOther(lru: Config, lfu: Config, s: State, r: nat, q: nat, x: nat)
    requires Rivals(lru, lfu) && lru.policy.Lru? && lfu.policy.Lfu? && lru.leases.Unleased?
    requires |lru.trace| == 5 && r != q && s.resident.Keys == {r, q}
    requires s.resident[r].uses > s.resident[q].uses && lru.trace[3].ref !in s.resident
    requires x in Step(lfu, 3, s).resident && x !in Step(lru, 3, s).resident
    ensures !(s.resident[q].last < s.resident[r].last) && x == r
  {
    hide EvictLoop, TotalBytes;
    var er, eq, size := s.resident[r], s.resident[q], lru.trace[3].bytes;
    assert s.resident == Pair(q, eq, r, er);
    Totals(q, eq, r, er);
    if eq.bytes + er.bytes + size <= lru.capacity {
      PairSame(lru, lfu, 3, q, eq, r, er, size);
    } else {
      PairEvicts(lfu, 3, q, eq, r, er, size);
      if eq.last < er.last {
        PairEvicts(lru, 3, q, eq, r, er, size);
      }
      Totals(r, er, q, eq);
      NewcomerStays(lru, lfu, s, x);
    }
  }

  /** The newcomer itself is admitted under both policies or under neither. */
  lemma NewcomerStays(lru: Config, lfu: Config, s: State, x: nat)
    requires Rivals(lru, lfu) && |lru.trace| == 5 && lru.trace[3].ref !in s.resident
    requires x in Step(lfu, 3, s).resident && x !in Step(lru, 3, s).resident
    ensures x != lru.trace[3].ref
  {
    hide TotalBytes;
    EvictLoopFrame(lru, 3, s.resident, lru.trace[3].bytes);
    EvictLoopFrame(lfu, 3, s.resident, lru.trace[3].bytes);
    StepCounts(lru, 3, s);
    StepCounts(lfu, 3, s);
    if x == lru.trace[3].ref {
      AdmittedIffSeen(lfu, s);
    }
  }

  lemma AdmittedIffSeen(cfg: Config, s: State)
    requires cfg.Valid() && |cfg.trace| == 5 && cfg.trace[3].ref !in s.resident
    requires cfg.trace[3].ref in Step(cfg, 3, s).resident
    ensures Admits(cfg, 3, s)
  {
    hide TotalBytes;
    var kept := EvictLoop(cfg, 3, s.resident, cfg.trace[3].bytes).0;
    EvictLoopFrame(cfg, 3, s.resident, cfg.trace[3].bytes);
    SubStoreBytes(LeasedPart(cfg, 3, s.resident), kept);
  }

  // ---------------------------------------------------------------- the exact length against LFU

  ghost function ReloadBytes(trace: seq<Request>, capacity: nat, policy: Policy): nat {
    Replay(Config(trace, capacity, policy, Unleased), |trace|).reloadBytes
  }

  /** MIN reloads no more bytes than LFU, on all traces of a length. */
  ghost predicate NoMoreThanLfu(length: nat) {
    forall trace: seq<Request>, capacity: nat :: |trace| == length && Consistent(trace) ==>
      ReloadBytes(trace, capacity, Min) <= ReloadBytes(trace, capacity, Lfu)
  }

  /** Up to the fourth request LFU reloads what LRU reloads. */
  lemma FourthSame(lru: Config, lfu: Config, n: nat)
    requires Rivals(lru, lfu) && lru.policy.Lru? && lfu.policy.Lfu? && n <= 4 && n <= |lru.trace|
    ensures Replay(lru, n).seen == Replay(lfu, n).seen
    ensures Replay(lru, n).reloadBytes == Replay(lfu, n).reloadBytes
  {
    hide Step, Replay;
    if n <= 2 {
      SameStart(lru, lfu, n);
    } else {
      ThreeSame(lru, lfu);
      if n == 4 {
        ReplayNext(lru, 3);
        ReplayNext(lfu, 3);
        SameCounts(lru, lfu, 3, Replay(lru, 3), Replay(lfu, 3));
      }
    }
  }

  lemma FiveAreSafe(trace: seq<Request>, capacity: nat)
    requires |trace| <= 5 && Consistent(trace)
    ensures ReloadBytes(trace, capacity, Min) <= ReloadBytes(trace, capacity, Lfu)
  {
    hide Step, Replay, Served;
    var lru := Config(trace, capacity, Lru, Unleased);
    var lfu, mine := lru.(policy := Lfu), lru.(policy := Min);
    var n := if |trace| <= 4 then |trace| else 4;
    MinNoWorseThanLru(mine, lru, SizesOf(trace), n);
    FourthSame(lru, lfu, n);
    if |trace| == 5 {
      StepServed(mine, 4, Replay(mine, 4));
      StepServed(lfu, 4, Replay(lfu, 4));
      ReplayNext(mine, 4);
      ReplayNext(lfu, 4);
      if trace[4].ref in Replay(lfu, 4).resident {
        FifthHit(lru, lfu, mine);
      }
      LastRequest(mine, lfu, Replay(mine, 4), Replay(mine, 5), Replay(lfu, 4), Replay(lfu, 5));
    }
  }

  lemma LastRequest(mine: Config, lfu: Config, s: State, s': State, t: State, t': State)
    requires Rivals(mine, lfu) && |mine.trace| == 5 && s.seen == t.seen
    requires Served(mine, 4, s, s') && Served(lfu, 4, t, t') && s.reloadBytes <= t.reloadBytes
    requires mine.trace[4].ref in t.resident ==> mine.trace[4].ref in s.resident
    ensures s'.reloadBytes <= t'.reloadBytes
  {
  }

  /** MIN never reloads more bytes than LFU exactly up to five requests. */
  lemma NoMoreThanLfuExactly(length: nat)
    ensures NoMoreThanLfu(length) <==> length <= 5
  {
    hide ReloadBytes, Consistent, SizeTrace;
    if length <= 5 {
      forall trace: seq<Request>, capacity: nat | |trace| == length && Consistent(trace)
        ensures ReloadBytes(trace, capacity, Min) <= ReloadBytes(trace, capacity, Lfu)
      {
        FiveAreSafe(trace, capacity);
      }
    } else {
      SizesLose(length);
    }
  }

  lemma SizesLose(length: nat)
    requires length >= 6
    ensures Consistent(SizeTrace(length))
    ensures ReloadBytes(SizeTrace(length), 6, Min) > ReloadBytes(SizeTrace(length), 6, Lfu)
  {
    hide Replay;
    SizesBreakMin(length);
  }
}
