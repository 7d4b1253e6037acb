/** Which requests keep the two-tier accounting, over one request and over whole runs. */
module TieredRuns {
  import opened Common
  import opened Tiered
  import opened TieredInvariant

  // ---------------------------------------------------------------- one request

  lemma AdmitBooks(s: Store, request: Request, clock: nat)
    requires Books(s) && request.ref !in s.entries
    ensures Books(Admit(s, request, clock))
  {
    var t := Admit(s, request, clock);
    assert t.entries.Keys == s.entries.Keys + {request.ref};
    assert |t.entries.Keys| == |s.entries.Keys| + 1;
    assert InTier(t.entries, HOT) == InTier(s.entries, HOT);
    assert InTier(t.entries, WARM) - {request.ref} == InTier(s.entries, WARM);
    TierKept(s.entries, t.entries, HOT);
    TierShrinks(t.entries, s.entries, WARM, request.ref);
  }

  lemma ServeMissValid(c: Capacities, s: Store, request: Request, clock: nat)
    requires clock > 0 && Valid(c, s, clock - 1) && request.ref !in s.entries
    ensures Valid(c, Serve(c, s, request, clock), clock)
  {
    hide EvictWarm;
    var missed := s.(misses := s.misses + 1);
    assert Books(missed);
    EvictWarmBooks(c, missed, request.bytes);
    EvictWarmItems(c, missed, request.bytes, clock);
    EvictWarmKeepsHot(c, missed, request.bytes);
    var (t, ok) := EvictWarm(c, missed, request.bytes);
    if ok {
      AdmitBooks(t, request, clock);
    }
  }

  lemma TouchValid(c: Capacities, s: Store, ref: nat, clock: nat)
    requires clock > 0 && Valid(c, s, clock - 1) && ref in s.entries
    ensures Valid(c, Touch(c, s, ref, clock), clock)
    ensures InTier(Touch(c, s, ref, clock).entries, HOT) == InTier(s.entries, HOT)
    ensures s.entries[ref].tier == WARM ==> Latest(Touch(c, s, ref, clock), ref)
  {
    var t := Touch(c, s, ref, clock);
    assert t.entries.Keys == s.entries.Keys;
    assert |t.entries.Keys| == |s.entries.Keys|;
    assert InTier(t.entries, HOT) == InTier(s.entries, HOT);
    assert InTier(t.entries, WARM) == InTier(s.entries, WARM);
    TierKept(s.entries, t.entries, HOT);
    TierKept(s.entries, t.entries, WARM);
  }

  lemma PromoteKept(c: Capacities, s: Store, ref: nat, clock: nat)
    requires Books(s) && ItemsOk(c, s, clock) && s.warmBytes <= c.warm
    requires ref in InTier(s.entries, WARM) && s.entries[ref].generation == OLD
    requires s.hotBytes + s.entries[ref].bytes <= c.hot
    ensures Valid(c, Promote(s, ref, s.entries[ref].bytes), clock)
  {
    var t := Promote(s, ref, s.entries[ref].bytes);
    assert t.entries.Keys == s.entries.Keys;
    assert |t.entries.Keys| == |s.entries.Keys|;
    assert InTier(t.entries, HOT) - {ref} == InTier(s.entries, HOT);
    assert InTier(t.entries, WARM) == InTier(s.entries, WARM) - {ref};
    TierShrinks(s.entries, t.entries, WARM, ref);
    TierShrinks(t.entries, s.entries, HOT, ref);
  }

  lemma PromoteDropped(c: Capacities, s: Store, ref: nat, bytes: nat, clock: nat)
    requires Books(s) && ref !in s.entries && bytes > 0
    ensures !Valid(c, Promote(s, ref, bytes), clock)
  {
    assert Promote(s, ref, bytes).entries == s.entries;
  }

  /** The request promotes its tensor past a demotion that leaves no room beside it: read off
      the store before the request. */
  ghost predicate Overcommits(c: Capacities, s: Store, request: Request, clock: nat) {
    request.ref in s.entries &&
    var item := Reused(s.entries[request.ref], c.oldAfter, clock);
    && item.tier == WARM && item.generation == OLD && item.bytes <= c.hot
    && !RoomFor(s.entries, ToDemote(c, s, item.bytes), item.bytes, c.warm)
  }

  lemma ToDemoteTouched(c: Capacities, s: Store, ref: nat, clock: nat, bytes: nat)
    requires clock > 0 && Valid(c, s, clock - 1) && ref in s.entries && s.entries[ref].tier == WARM
    ensures var t := Touch(c, s, ref, clock);
            RoomFor(s.entries, ToDemote(c, s, bytes), bytes, c.warm)
            <==> RoomFor(t.entries, ToDemote(c, t, bytes), bytes, c.warm)
  {
    TouchValid(c, s, ref, clock);
    var t := Touch(c, s, ref, clock);
    DemotedFrame(c, s.entries, t.entries, InTier(s.entries, HOT), s.hotBytes, bytes);
  }

  /** A promotion, given the store after the touch. */
  lemma PromotionExactly(c: Capacities, t: Store, ref: nat, clock: nat)
    requires Valid(c, t, clock) && Latest(t, ref) && t.entries[ref].generation == OLD
    ensures var bytes := t.entries[ref].bytes;
            var (u, ok) := MakeHotRoom(c, t, bytes);
            Valid(c, if ok then Promote(u, ref, bytes) else u, clock)
            <==> (bytes > c.hot || RoomFor(t.entries, ToDemote(c, t, bytes), bytes, c.warm))
  {
    var bytes := t.entries[ref].bytes;
    MakeHotRoomBooks(c, t, bytes, clock);
    LatestSurvives(c, t, bytes, ref, clock);
    var (u, ok) := MakeHotRoom(c, t, bytes);
    if ok {
      if ref in u.entries {
        PromoteKept(c, u, ref, clock);
      } else {
        NoRoomIsPositive(c, t, bytes, clock);
        PromoteDropped(c, u, ref, bytes, clock);
      }
    }
  }

  lemma NoRoomIsPositive(c: Capacities, t: Store, bytes: nat, clock: nat)
    requires ItemsOk(c, t, clock) && !RoomFor(t.entries, ToDemote(c, t, bytes), bytes, c.warm)
    ensures bytes > 0
  {
  }

  /** One request keeps the accounting exactly when it does not overcommit. */
  lemma ServeValidExactly(c: Capacities, s: Store, request: Request, clock: nat)
    requires clock > 0 && Valid(c, s, clock - 1)
    ensures Valid(c, Serve(c, s, request, clock), clock) <==> !Overcommits(c, s, request, clock)
  {
    hide MakeHotRoom, EvictWarm, Books, ItemsOk;
    if request.ref !in s.entries {
      ServeMissValid(c, s, request, clock);
    } else {
      TouchValid(c, s, request.ref, clock);
      var t := Touch(c, s, request.ref, clock);
      var item := t.entries[request.ref];
      if item.tier == WARM && item.generation == OLD {
        ToDemoteTouched(c, s, request.ref, clock, item.bytes);
        PromotionExactly(c, t, request.ref, clock);
      }
    }
  }

  // ---------------------------------------------------------------- whole runs

  ghost predicate OvercommitsAt(c: Capacities, trace: seq<Request>, k: nat)
    requires k < |trace|
  {
    Overcommits(c, Run(c, trace, k), trace[k], k + 1)
  }

  ghost predicate ValidAt(c: Capacities, trace: seq<Request>, k: nat)
    requires k <= |trace|
  {
    Valid(c, Run(c, trace, k), k)
  }

  lemma EmptyValid(c: Capacities, trace: seq<Request>)
    ensures ValidAt(c, trace, 0)
  {
    assert InTier(EMPTY.entries, HOT) == {} && InTier(EMPTY.entries, WARM) == {};
  }

  lemma RunNext(c: Capacities, trace: seq<Request>, n: nat)
    requires n < |trace|
    ensures Run(c, trace, n + 1) == Serve(c, Run(c, trace, n), trace[n], n + 1)
  {
  }

  lemma ServeAtExactly(c: Capacities, trace: seq<Request>, k: nat)
    requires k < |trace| && ValidAt(c, trace, k)
    ensures ValidAt(c, trace, k + 1) <==> !OvercommitsAt(c, trace, k)
  {
    hide Run, Overcommits, Valid, Serve;
    RunNext(c, trace, k);
    ServeValidExactly(c, Run(c, trace, k), trace[k], k + 1);
  }

  /** The accounting holds throughout a run exactly when no request of it overcommits. */
  lemma {:induction false} RunValidExactly(c: Capacities, trace: seq<Request>, n: nat)
    requires n <= |trace|
    ensures (forall k :: 0 <= k <= n ==> ValidAt(c, trace, k))
       <==> (forall k :: 0 <= k < n ==> !OvercommitsAt(c, trace, k))
  {
    hide *;
    if n == 0 {
      EmptyValid(c, trace);
    } else {
      RunValidExactly(c, trace, n - 1);
      if ValidAt(c, trace, n - 1) {
        ServeAtExactly(c, trace, n - 1);
      }
    }
  }

  // ---------------------------------------------------------------- a condition on the trace alone

  /** Any two requests for different tensors fit in WARM together. */
  ghost predicate PairsFit(c: Capacities, trace: seq<Request>) {
    forall i, j :: 0 <= i < |trace| && 0 <= j < |trace| && trace[i].ref != trace[j].ref
      ==> trace[i].bytes + trace[j].bytes <= c.warm
  }

  /** Every stored size was requested for that tensor. */
  ghost predicate Requested(trace: seq<Request>, s: Store) {
    forall r :: r in s.entries ==> HasRequest(trace, r, s.entries[r].bytes)
  }

  ghost predicate HasRequest(trace: seq<Request>, ref: nat, bytes: nat) {
    exists i :: 0 <= i < |trace| && trace[i] == Request(ref, bytes)
  }

  /** Making room keeps refs and sizes. */
  lemma {:induction false} MakeHotRoomSizes(c: Capacities, s: Store, required: nat)
    ensures var t := MakeHotRoom(c, s, required).0;
            && t.entries.Keys <= s.entries.Keys
            && forall r :: r in t.entries ==> t.entries[r].bytes == s.entries[r].bytes
    decreases |InTier(s.entries, HOT)|
  {
    var hot := InTier(s.entries, HOT);
    if s.hotBytes + required > c.hot && hot != {} {
      var v := Oldest(s.entries, hot);
      EvictWarmKeepsHot(c, s, s.entries[v].bytes);
      var (t, ok) := EvictWarm(c, s, s.entries[v].bytes);
      assert v in InTier(t.entries, HOT);
      if ok {
        assert InTier(Demote(t, v).entries, HOT) == hot - {v};
        MakeHotRoomSizes(c, Demote(t, v), required);
      }
    }
  }

  lemma ServeRequested(c: Capacities, trace: seq<Request>, s: Store, k: nat)
    requires k < |trace| && Requested(trace, s)
    ensures Requested(trace, Serve(c, s, trace[k], k + 1))
  {
    hide MakeHotRoom, EvictWarm;
    var request := trace[k];
    assert HasRequest(trace, request.ref, request.bytes);
    if request.ref !in s.entries {
      EvictWarmKeepsHot(c, s.(misses := s.misses + 1), request.bytes);
    } else {
      var t := Touch(c, s, request.ref, k + 1);
      MakeHotRoomSizes(c, t, t.entries[request.ref].bytes);
    }
  }

  lemma {:induction false} RunRequested(c: Capacities, trace: seq<Request>, n: nat)
    requires n <= |trace|
    ensures Requested(trace, Run(c, trace, n))
  {
    hide Serve;
    if n > 0 {
      RunRequested(c, trace, n - 1);
      ServeRequested(c, trace, Run(c, trace, n - 1), n - 1);
    }
  }

  lemma PairsNeverOvercommit(c: Capacities, trace: seq<Request>, s: Store, k: nat)
    requires PairsFit(c, trace) && k < |trace| && Requested(trace, s)
    ensures !Overcommits(c, s, trace[k], k + 1)
  {
    var ref := trace[k].ref;
    if ref in s.entries && s.entries[ref].tier == WARM {
      var bytes := s.entries[ref].bytes;
      DemotedFrame(c, s.entries, s.entries, InTier(s.entries, HOT), s.hotBytes, bytes);
      forall v | v in ToDemote(c, s, bytes)
        ensures s.entries[v].bytes + bytes <= c.warm
      {
        var i :| 0 <= i < |trace| && trace[i] == Request(v, s.entries[v].bytes);
        var j :| 0 <= j < |trace| && trace[j] == Request(ref, bytes);
      }
    }
  }

  /** If any two tensors fit in WARM together, the accounting never breaks. */
  lemma {:induction false} PairsFitKeepsBooks(c: Capacities, trace: seq<Request>, n: nat)
    requires PairsFit(c, trace) && n <= |trace|
    ensures ValidAt(c, trace, n)
  {
    forall k | 0 <= k < n
      ensures !OvercommitsAt(c, trace, k)
    {
      RunRequested(c, trace, k);
      PairsNeverOvercommit(c, trace, Run(c, trace, k), k);
    }
    RunValidExactly(c, trace, n);
  }

  // ---------------------------------------------------------------- a run that breaks the books

  function BreakingTrace(): seq<Request> {
    [Request(0, 4), Request(0, 4), Request(0, 4), Request(1, 4), Request(1, 4), Request(1, 4)]
  }

  const SIX := Capacities(6, 6, 2)

  lemma BreakingPrefix()
    ensures Run(SIX, BreakingTrace(), 3).entries == map[0 := Item(4, HOT, OLD, 3, 3)]
    ensures Run(SIX, BreakingTrace(), 3).hotBytes == 4 && Run(SIX, BreakingTrace(), 3).warmBytes == 0
  {
    var trace := BreakingTrace();
    assert Run(SIX, trace, 1) == Admit(EMPTY.(misses := 1), trace[0], 1);
    assert Run(SIX, trace, 2) == Touch(SIX, Run(SIX, trace, 1), 0, 2);
    assert Run(SIX, trace, 2).entries[0] == Item(4, WARM, YOUNG, 2, 2);
    var t := Touch(SIX, Run(SIX, trace, 2), 0, 3);
    assert t.entries[0] == Item(4, WARM, OLD, 3, 3);
    assert MakeHotRoom(SIX, t, 4) == (t, true);
    assert Run(SIX, trace, 3) == Promote(t, 0, 4);
  }

  lemma BreakingMiddle()
    ensures Run(SIX, BreakingTrace(), 5).entries
         == map[0 := Item(4, HOT, OLD, 3, 3), 1 := Item(4, WARM, YOUNG, 2, 5)]
    ensures Run(SIX, BreakingTrace(), 5).hotBytes == 4
  {
    hide Run;
    BreakingPrefix();
    var trace := BreakingTrace();
    RunNext(SIX, trace, 3);
    RunNext(SIX, trace, 4);
    var s := Run(SIX, trace, 3);
    assert Run(SIX, trace, 4) == Admit(s.(misses := s.misses + 1), trace[3], 4);
    assert Run(SIX, trace, 5) == Touch(SIX, Run(SIX, trace, 4), 1, 5);
  }

  /** With both capacities 6, two tensors of 4 bytes and the default age, the sixth request
      overcommits: its tensor is dropped from WARM and then counted as promoted. */
  lemma BooksCanBreak()
    ensures OvercommitsAt(SIX, BreakingTrace(), 5)
    ensures !(forall k :: 0 <= k <= 6 ==> ValidAt(SIX, BreakingTrace(), k))
  {
    hide Run;
    BreakingMiddle();
    var s := Run(SIX, BreakingTrace(), 5);
    var hot := InTier(s.entries, HOT);
    assert hot == {0};
    assert Oldest(s.entries, hot) == 0;
    assert 0 in ToDemote(SIX, s, 4);
    RunValidExactly(SIX, BreakingTrace(), 6);
  }
}
