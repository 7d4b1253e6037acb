/**
 The reported figure `avoidable_reload_bytes`: LRU's reloaded bytes minus MIN's. Without
 leases it is never negative on traces of at most 10^9 requests, whatever the tensor
 sizes, and no longer length has that guarantee. With leases the guarantee is lost.
 */
module AvoidableReloads {
  import opened Common
  import opened Residency
  import opened ResidencyAccounting
  import opened LruStack
  import opened MinWindow

  /** The counters after one unleased request, in terms of what was resident and seen. */
  ghost predicate Served(cfg: Config, n: nat, s: State, t: State)
    requires n < |cfg.trace|
  {
    var Request(x, size) := cfg.trace[n];
    if x in s.resident || size > cfg.capacity then
      && t.seen == s.seen && t.loads == s.loads && t.loadBytes == s.loadBytes
      && t.reloads == s.reloads && t.reloadBytes == s.reloadBytes
    else
      && t.seen == s.seen + {x} && t.loads == s.loads + 1 && t.loadBytes == s.loadBytes + size
      && t.reloads == s.reloads + (if x in s.seen then 1 else 0)
      && t.reloadBytes == s.reloadBytes + (if x in s.seen then size else 0)
  }

  lemma StepServed(cfg: Config, n: nat, s: State)
    requires cfg.leases.Unleased? && n < |cfg.trace|
    ensures Served(cfg, n, s, Step(cfg, n, s))
  {
    UnleasedStop(cfg, n, s.resident, cfg.trace[n].bytes);
  }

  ghost predicate NoWorse(s: State, t: State) {
    && s.seen == t.seen
    && s.loads <= t.loads && s.loadBytes <= t.loadBytes
    && s.reloads <= t.reloads && s.reloadBytes <= t.reloadBytes
  }

  lemma NoWorseStep(mine: Config, lru: Config, n: nat, s: State, s': State, t: State, t': State)
    requires n < |mine.trace| && lru == mine.(policy := Lru)
    requires NoWorse(s, t) && Served(mine, n, s, s') && Served(lru, n, t, t')
    requires s.resident.Keys <= s.seen
    requires mine.trace[n].ref in t.resident ==> mine.trace[n].ref in s.resident
    ensures NoWorse(s', t')
  {
  }

  lemma ReplayNext(cfg: Config, n: nat)
    requires cfg.Valid() && n < |cfg.trace|
    ensures Replay(cfg, n + 1) == Step(cfg, n, Replay(cfg, n))
  {
  }

  lemma NoWorseNext(mine: Config, lru: Config, sizes: nat -> nat, n: nat)
    requires mine.policy.Min? && lru == mine.(policy := Lru)
    requires FixedSizes(mine, sizes) && n < |mine.trace| <= NEVER
    requires NoWorse(Replay(mine, n), Replay(lru, n))
    ensures NoWorse(Replay(mine, n + 1), Replay(lru, n + 1))
  {
    hide Replay, Step, Served;
    var s, t := Replay(mine, n), Replay(lru, n);
    if mine.trace[n].ref in t.resident {
      MinMissIsLruMiss(mine, lru, sizes, n);
    }
    Accounting(mine, n);
    StepServed(mine, n, s);
    StepServed(lru, n, t);
    ReplayNext(mine, n);
    ReplayNext(lru, n);
    NoWorseStep(mine, lru, n, s, Replay(mine, n + 1), t, Replay(lru, n + 1));
  }

  /** MIN loads and reloads no more than LRU, in events and in bytes, for any sizes. */
  lemma {:induction false} MinNoWorseThanLru(mine: Config, lru: Config, sizes: nat -> nat, n: nat)
    requires mine.policy.Min? && lru == mine.(policy := Lru)
    requires FixedSizes(mine, sizes) && n <= |mine.trace| <= NEVER
    ensures NoWorse(Replay(mine, n), Replay(lru, n))
  {
    hide Step, Replay;
    if n == 0 {
      NothingYet(mine, lru);
    } else {
      MinNoWorseThanLru(mine, lru, sizes, n - 1);
      NoWorseNext(mine, lru, sizes, n - 1);
    }
  }

  lemma NothingYet(mine: Config, lru: Config)
    requires mine.Valid() && lru.Valid()
    ensures Replay(mine, 0) == INITIAL == Replay(lru, 0)
  {
  }

  // ---------------------------------------------------------------- the exact bound on the length

  /** Every tensor of the trace keeps one size. */
  ghost predicate Consistent(trace: seq<Request>) {
    forall i, j :: 0 <= i < |trace| && 0 <= j < |trace| && trace[i].ref == trace[j].ref
      ==> trace[i].bytes == trace[j].bytes
  }

  /** The size of every ref of a consistent trace. */
  ghost function SizesOf(trace: seq<Request>): (sizes: nat -> nat)
    requires Consistent(trace)
    ensures forall i :: 0 <= i < |trace| ==> trace[i].bytes == sizes(trace[i].ref)
  {
    (ref: nat) =>
      var first := NextAt(trace, 0, ref);
      if first.Some? then trace[first.value].bytes else 0
  }

  ghost function AvoidableReloadBytes(trace: seq<Request>, capacity: nat, leases: Leases): int
    requires leases.Leased? ==> |leases.sets| == |trace|
  {
    Replay(Config(trace, capacity, Lru, leases), |trace|).reloadBytes
    - Replay(Config(trace, capacity, Min, leases), |trace|).reloadBytes
  }

  /** The guarantee, as a statement about all traces of one length. */
  ghost predicate NeverNegative(length: nat) {
    forall trace: seq<Request>, capacity: nat :: |trace| == length && Consistent(trace) ==>
      AvoidableReloadBytes(trace, capacity, Unleased) >= 0
  }

  lemma NeverNegativeUpToNever(trace: seq<Request>, capacity: nat)
    requires Consistent(trace) && |trace| <= NEVER
    ensures AvoidableReloadBytes(trace, capacity, Unleased) >= 0
  {
    var sizes := SizesOf(trace);
    var mine := Config(trace, capacity, Min, Unleased);
    MinNoWorseThanLru(mine, mine.(policy := Lru), sizes, |trace|);
  }

  /** A trace longer than 10^9 whose last request returns to ref 2: MIN takes that use for
      later than "never" and evicts ref 2, while LRU evicts ref 1. */
  function LateReturn(length: nat): seq<Request>
    requires length > NEVER
    ensures |LateReturn(length)| == length
  {
    [Request(1, 1), Request(2, 1)] + seq(length - 3, _ => Request(0, 1)) + [Request(2, 1)]
  }

  const AFTER_TWO := map[1 := Entry(1, 0, 1), 2 := Entry(1, 1, 1)]

  lemma TwoEntries()
    ensures TotalBytes(map[]) == 0
    ensures TotalBytes(map[1 := Entry(1, 0, 1)]) == 1
    ensures TotalBytes(AFTER_TWO) == 2
  {
    TotalInsert(map[], 1, Entry(1, 0, 1));
    TotalInsert(map[1 := Entry(1, 0, 1)], 2, Entry(1, 1, 1));
    assert AFTER_TWO == map[1 := Entry(1, 0, 1)][2 := Entry(1, 1, 1)];
  }

  lemma LateFirstTwo(cfg: Config)
    requires |cfg.trace| > NEVER && cfg.trace == LateReturn(|cfg.trace|)
    requires cfg.capacity == 2 && cfg.leases.Unleased?
    ensures Replay(cfg, 2).resident == AFTER_TWO
    ensures Replay(cfg, 2).seen == {1, 2} && Replay(cfg, 2).reloadBytes == 0
  {
    TwoEntries();
    assert cfg.trace[0] == Request(1, 1) && cfg.trace[1] == Request(2, 1);
    assert EvictLoop(cfg, 0, map[], 1) == (map[], 0);
    assert Replay(cfg, 1) == Admit(INITIAL, 1, 1, 0, map[], 0);
    assert EvictLoop(cfg, 1, map[1 := Entry(1, 0, 1)], 1) == (map[1 := Entry(1, 0, 1)], 0);
    assert Replay(cfg, 2) == Admit(Replay(cfg, 1), 2, 1, 1, map[1 := Entry(1, 0, 1)], 0);
  }

  /** The third request evicts ref `gone`. */
  lemma LateThird(cfg: Config, gone: nat)
    requires |cfg.trace| > NEVER && cfg.trace == LateReturn(|cfg.trace|)
    requires cfg.capacity == 2 && cfg.leases.Unleased? && gone in {1, 2}
    requires IsVictim(cfg, 2, AFTER_TWO, AFTER_TWO.Keys, gone)
    ensures Replay(cfg, 3).resident.Keys == {0, 3 - gone}
    ensures Replay(cfg, 3).seen == {0, 1, 2} && Replay(cfg, 3).reloadBytes == 0
  {
    hide Replay;
    LateFirstTwo(cfg);
    TwoEntries();
    LateThirdStep(cfg, gone, Replay(cfg, 2));
    ReplayNext(cfg, 2);
  }

  lemma LateThirdStep(cfg: Config, gone: nat, s: State)
    requires |cfg.trace| > NEVER && cfg.trace == LateReturn(|cfg.trace|)
    requires cfg.capacity == 2 && cfg.leases.Unleased? && gone in {1, 2}
    requires IsVictim(cfg, 2, AFTER_TWO, AFTER_TWO.Keys, gone)
    requires s.resident == AFTER_TWO && s.seen == {1, 2} && s.reloadBytes == 0
    ensures Step(cfg, 2, s).resident.Keys == {0, 3 - gone}
    ensures Step(cfg, 2, s).seen == {0, 1, 2} && Step(cfg, 2, s).reloadBytes == 0
  {
    TwoEntries();
    TotalRemove(AFTER_TWO, gone);
    assert cfg.trace[2] == Request(0, 1);
    assert AFTER_TWO.Keys - cfg.Protected(2) == AFTER_TWO.Keys;
    VictimUnique(cfg, 2, AFTER_TWO, AFTER_TWO.Keys, gone, Victim(cfg, 2, AFTER_TWO, AFTER_TWO.Keys));
    var rest := AFTER_TWO - {gone};
    assert EvictLoop(cfg, 2, rest, 1) == (rest, 0);
    assert EvictLoop(cfg, 2, AFTER_TWO, 1) == (rest, 1);
    assert Step(cfg, 2, s) == Admit(s, 0, 1, 2, rest, 1);
    assert rest.Keys == {3 - gone};
  }

  /** The long run of requests to ref 0 changes nothing. */
  lemma {:induction false} LateMiddle(cfg: Config, gone: nat, n: nat)
    requires |cfg.trace| > NEVER && cfg.trace == LateReturn(|cfg.trace|)
    requires cfg.capacity == 2 && cfg.leases.Unleased? && gone in {1, 2}
    requires IsVictim(cfg, 2, AFTER_TWO, AFTER_TWO.Keys, gone)
    requires 3 <= n < |cfg.trace|
    ensures Replay(cfg, n).resident.Keys == {0, 3 - gone}
    ensures Replay(cfg, n).seen == {0, 1, 2} && Replay(cfg, n).reloadBytes == 0
  {
    hide Replay;
    if n == 3 {
      LateThird(cfg, gone);
    } else {
      LateMiddle(cfg, gone, n - 1);
      ReplayNext(cfg, n - 1);
      assert cfg.trace[n - 1] == Request(0, 1);
      assert Step(cfg, n - 1, Replay(cfg, n - 1)) == Hit(Replay(cfg, n - 1), 0, n - 1);
    }
  }

  /** The last request reloads ref 2 exactly when ref 2 was the victim. */
  lemma LateLast(cfg: Config, gone: nat)
    requires |cfg.trace| > NEVER && cfg.trace == LateReturn(|cfg.trace|)
    requires cfg.capacity == 2 && cfg.leases.Unleased? && gone in {1, 2}
    requires IsVictim(cfg, 2, AFTER_TWO, AFTER_TWO.Keys, gone)
    ensures Replay(cfg, |cfg.trace|).reloadBytes == (if gone == 2 then 1 else 0)
  {
    hide Replay, Step;
    var last := |cfg.trace| - 1;
    LateMiddle(cfg, gone, last);
    ReplayNext(cfg, last);
    assert cfg.trace[last] == Request(2, 1);
    StepServed(cfg, last, Replay(cfg, last));
  }

  lemma LateVictims(length: nat)
    requires length > NEVER
    ensures IsVictim(Config(LateReturn(length), 2, Lru, Unleased), 2, AFTER_TWO, AFTER_TWO.Keys, 1)
    ensures IsVictim(Config(LateReturn(length), 2, Min, Unleased), 2, AFTER_TWO, AFTER_TWO.Keys, 2)
  {
    var trace := LateReturn(length);
    assert AFTER_TWO.Keys == {1, 2};
    assert NextAt(trace, 3, 1).None?;
    assert trace[length - 1].ref == 2;
    assert NextAt(trace, 3, 2) == Some(length - 1);
  }

  lemma LateNegative(length: nat)
    requires length > NEVER
    ensures AvoidableReloadBytes(LateReturn(length), 2, Unleased) == -1
  {
    hide Replay, LateReturn;
    LateVictims(length);
    LateLast(Config(LateReturn(length), 2, Lru, Unleased), 1);
    LateLast(Config(LateReturn(length), 2, Min, Unleased), 2);
  }

  /** The figure is never negative on all traces of a length exactly when that length is at
      most 10^9: beyond it a real next use can exceed the key that stands for "never". */
  lemma NeverNegativeExactly(length: nat)
    ensures NeverNegative(length) <==> length <= NEVER
  {
    hide AvoidableReloadBytes;
    if length <= NEVER {
      forall trace: seq<Request>, capacity: nat | |trace| == length && Consistent(trace)
        ensures AvoidableReloadBytes(trace, capacity, Unleased) >= 0
      {
        NeverNegativeUpToNever(trace, capacity);
      }
    } else {
      LateNegative(length);
      assert Consistent(LateReturn(length));
    }
  }
}
