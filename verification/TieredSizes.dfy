/** For which tensor sizes the two-tier accounting can never break, whatever is requested and in
    whatever order. */
module TieredSizes {
  import opened Tiered
  import opened TieredInvariant
  import opened TieredRuns

  ghost predicate Sized(trace: seq<Request>, sizes: iset<nat>) {
    forall i :: 0 <= i < |trace| ==> trace[i].bytes in sizes
  }

  /** No run over tensors of these sizes ever breaks the accounting. */
  ghost predicate KeepsBooks(c: Capacities, sizes: iset<nat>) {
    forall trace: seq<Request>, n: nat :: n <= |trace| && Sized(trace, sizes) ==> ValidAt(c, trace, n)
  }

  /** A tensor of this size can be in WARM and be promoted to HOT. */
  predicate Promotable(c: Capacities, bytes: nat) {
    bytes <= c.hot && bytes <= c.warm
  }

  /** Any two promotable sizes fit in WARM together. */
  ghost predicate PromotablesFit(c: Capacities, sizes: iset<nat>) {
    forall a, b :: a in sizes && b in sizes && Promotable(c, a) && Promotable(c, b) ==> a + b <= c.warm
  }

  // ---------------------------------------------------------------- sizes that keep the books

  lemma RequestedInSizes(trace: seq<Request>, sizes: iset<nat>, s: Store, r: nat)
    requires Sized(trace, sizes) && Requested(trace, s) && r in s.entries
    ensures s.entries[r].bytes in sizes
  {
    var i :| 0 <= i < |trace| && trace[i] == Request(r, s.entries[r].bytes);
  }

  lemma HotIsPromotable(c: Capacities, s: Store, clock: nat, r: nat)
    requires Valid(c, s, clock) && r in InTier(s.entries, HOT)
    ensures Promotable(c, s.entries[r].bytes)
  {
    SumAtLeast(s.entries, InTier(s.entries, HOT), r);
    assert ItemOk(c, s.entries[r], clock);
  }

  lemma FittingNeverOvercommits(c: Capacities, sizes: iset<nat>, trace: seq<Request>, s: Store, k: nat)
    requires PromotablesFit(c, sizes) && Sized(trace, sizes) && Requested(trace, s)
    requires k < |trace| && Valid(c, s, k)
    ensures !Overcommits(c, s, trace[k], k + 1)
  {
    hide Books, Requested, Sized;
    var ref := trace[k].ref;
    if Overcommits(c, s, trace[k], k + 1) {
      var bytes := s.entries[ref].bytes;
      RequestedInSizes(trace, sizes, s, ref);
      assert ItemOk(c, s.entries[ref], k);
      DemotedFrame(c, s.entries, s.entries, InTier(s.entries, HOT), s.hotBytes, bytes);
      var v :| v in ToDemote(c, s, bytes) && v in s.entries && s.entries[v].bytes + bytes > c.warm;
      RequestedInSizes(trace, sizes, s, v);
      HotIsPromotable(c, s, k, v);
    }
  }

  lemma {:induction false} FittingKeepsBooks(c: Capacities, sizes: iset<nat>, trace: seq<Request>, n: nat)
    requires PromotablesFit(c, sizes) && Sized(trace, sizes) && n <= |trace|
    ensures ValidAt(c, trace, n)
  {
    hide Overcommits, Run, Requested, Sized, PromotablesFit, Valid;
    if n == 0 {
      EmptyValid(c, trace);
    } else {
      FittingKeepsBooks(c, sizes, trace, n - 1);
      RunRequested(c, trace, n - 1);
      FittingNeverOvercommits(c, sizes, trace, Run(c, trace, n - 1), n - 1);
      ServeAtExactly(c, trace, n - 1);
    }
  }

  // ---------------------------------------------------------------- filling HOT one tensor at a time

  /** How many requests in a row promote a new tensor, the last of them doing it. */
  function UsesToPromote(c: Capacities): (n: nat)
    ensures n >= 2
  {
    if c.oldAfter == 0 then 2 else c.oldAfter + 1
  }

  /** WARM is empty, and tensor 0 of `first` bytes is the oldest of the HOT ones. */
  ghost predicate Filling(c: Capacities, s: Store, first: nat, next: nat, clock: nat) {
    && s.warmBytes == 0 && s.hotBytes <= c.hot
    && (forall r :: r in s.entries ==> r < next && s.entries[r].tier == HOT && s.entries[r].last <= clock)
    && 0 in s.entries && s.entries[0].bytes == first
    && (forall r :: r in s.entries ==> s.entries[0].last <= s.entries[r].last)
  }

  /** `s` with one more tensor in WARM, used `uses` times but not yet old. */
  ghost predicate Waiting(s: Store, t: Store, request: Request, uses: nat, clock: nat) {
    && t.hotBytes == s.hotBytes && t.warmBytes == request.bytes
    && t.entries == s.entries[request.ref :=
        Item(request.bytes, WARM, if uses == 1 then NEW else YOUNG, uses, clock)]
  }

  lemma Arrives(c: Capacities, s: Store, request: Request, clock: nat)
    requires s.warmBytes == 0 && request.ref !in s.entries && request.bytes <= c.warm
    ensures Waiting(s, Serve(c, s, request, clock), request, 1, clock)
  {
    var missed := s.(misses := s.misses + 1);
    assert EvictWarm(c, missed, request.bytes) == (missed, true);
  }

  lemma Waits(c: Capacities, s: Store, t: Store, request: Request, uses: nat, clock: nat)
    requires Waiting(s, t, request, uses, clock) && 1 <= uses < UsesToPromote(c) - 1
    ensures Waiting(s, Serve(c, t, request, clock + 1), request, uses + 1, clock + 1)
  {
  }

  lemma Promotes(c: Capacities, s: Store, t: Store, request: Request, first: nat, clock: nat)
    requires Waiting(s, t, request, UsesToPromote(c) - 1, clock)
    requires s.hotBytes + request.bytes <= c.hot
    requires if request.ref == 0 then s.entries == map[] && first == request.bytes
             else Filling(c, s, first, request.ref, clock)
    ensures var u := Serve(c, t, request, clock + 1);
            Filling(c, u, first, request.ref + 1, clock + 1) && u.hotBytes == s.hotBytes + request.bytes
  {
    var touched := Touch(c, t, request.ref, clock + 1);
    assert touched.entries[request.ref].generation == OLD;
    MakeHotRoomDone(c, touched, request.bytes);
  }

  lemma Overflows(c: Capacities, s: Store, t: Store, request: Request, first: nat, clock: nat)
    requires Waiting(s, t, request, UsesToPromote(c) - 1, clock) && request.ref > 0
    requires Filling(c, s, first, request.ref, clock)
    requires s.hotBytes + request.bytes > c.hot && request.bytes <= c.hot && first + request.bytes > c.warm
    ensures Overcommits(c, t, request, clock + 1)
  {
    var hot := InTier(t.entries, HOT);
    assert 0 in hot;
    assert IsOldest(t.entries, hot, 0);
    OldestUnique(t.entries, hot, 0, Oldest(t.entries, hot));
    assert 0 in ToDemote(c, t, request.bytes);
  }

  // ---------------------------------------------------------------- the requests that do it

  lemma {:induction false} RunPrefix(c: Capacities, trace: seq<Request>, more: seq<Request>, n: nat)
    requires n <= |trace|
    ensures Run(c, trace + more, n) == Run(c, trace, n)
  {
    hide Serve;
    if n > 0 {
      RunPrefix(c, trace, more, n - 1);
    }
  }

  lemma RunOneMore(c: Capacities, trace: seq<Request>, request: Request)
    ensures Run(c, trace + [request], |trace| + 1) == Serve(c, Run(c, trace, |trace|), request, |trace| + 1)
  {
    hide Serve;
    RunPrefix(c, trace, [request], |trace|);
  }

  ghost function State(c: Capacities, trace: seq<Request>): Store {
    Run(c, trace, |trace|)
  }

  /** Request a new tensor until its next use would promote it. */
  lemma {:induction false} Wait(c: Capacities, trace: seq<Request>, request: Request, uses: nat)
    returns (longer: seq<Request>)
    requires State(c, trace).warmBytes == 0 && request.ref !in State(c, trace).entries
    requires request.bytes <= c.warm && 1 <= uses < UsesToPromote(c)
    ensures |longer| == |trace| + uses && trace <= longer
    ensures forall i :: |trace| <= i < |longer| ==> longer[i] == request
    ensures Waiting(State(c, trace), State(c, longer), request, uses, |longer|)
  {
    hide Run, Serve, Waiting;
    if uses == 1 {
      longer := trace + [request];
      Arrives(c, State(c, trace), request, |trace| + 1);
      RunOneMore(c, trace, request);
    } else {
      var before := Wait(c, trace, request, uses - 1);
      longer := before + [request];
      Waits(c, State(c, trace), State(c, before), request, uses - 1, |before|);
      RunOneMore(c, before, request);
    }
  }

  /** More tensors of `bytes` fill HOT, until the next one demotes tensor 0 and overcommits. */
  lemma {:induction false} Overfill(c: Capacities, trace: seq<Request>, first: nat, bytes: nat, next: nat,
                                    sizes: iset<nat>)
    returns (bad: seq<Request>)
    requires next > 0 && Filling(c, State(c, trace), first, next, |trace|)
    requires Sized(trace, sizes) && bytes in sizes
    requires 0 < bytes && Promotable(c, bytes) && first + bytes > c.warm
    ensures |bad| > 0 && Sized(bad, sizes) && OvercommitsAt(c, bad, |bad| - 1)
    decreases c.hot - State(c, trace).hotBytes
  {
    hide Run, Serve, Waiting, Overcommits;
    var request := Request(next, bytes);
    var s := State(c, trace);
    var waiting := Wait(c, trace, request, UsesToPromote(c) - 1);
    var t := State(c, waiting);
    var used := waiting + [request];
    assert Filling(c, s, first, next, |waiting|);
    RunOneMore(c, waiting, request);
    if s.hotBytes + bytes <= c.hot {
      Promotes(c, s, t, request, first, |waiting|);
      bad := Overfill(c, used, first, bytes, next + 1, sizes);
    } else {
      Overflows(c, s, t, request, first, |waiting|);
      RunPrefix(c, waiting, [request], |waiting|);
      bad := used;
    }
  }

  lemma Breaks(c: Capacities, first: nat, bytes: nat, sizes: iset<nat>) returns (bad: seq<Request>)
    requires first in sizes && bytes in sizes && Promotable(c, first) && Promotable(c, bytes)
    requires first + bytes > c.warm
    ensures |bad| > 0 && Sized(bad, sizes) && OvercommitsAt(c, bad, |bad| - 1)
  {
    hide Serve, Waiting, Overcommits;
    var request := Request(0, first);
    assert State(c, []) == EMPTY;
    var waiting := Wait(c, [], request, UsesToPromote(c) - 1);
    RunOneMore(c, waiting, request);
    Promotes(c, EMPTY, State(c, waiting), request, first, |waiting|);
    bad := Overfill(c, waiting + [request], first, bytes, 1, sizes);
  }

  /** Every run over tensors of these sizes keeps the accounting if and only if any two sizes that
      fit in either tier alone fit in WARM together. */
  lemma KeepsBooksExactly(c: Capacities, sizes: iset<nat>)
    ensures KeepsBooks(c, sizes) <==> PromotablesFit(c, sizes)
  {
    hide Overcommits, Run, Sized, Valid;
    if PromotablesFit(c, sizes) {
      forall trace: seq<Request>, n: nat | n <= |trace| && Sized(trace, sizes)
        ensures ValidAt(c, trace, n)
      {
        FittingKeepsBooks(c, sizes, trace, n);
      }
    } else {
      var a, b :| a in sizes && b in sizes && Promotable(c, a) && Promotable(c, b) && a + b > c.warm;
      var bad := Breaks(c, a, b, sizes);
      if KeepsBooks(c, sizes) {
        assert ValidAt(c, bad, |bad| - 1) && ValidAt(c, bad, |bad|);
        ServeAtExactly(c, bad, |bad| - 1);
        assert false;
      }
    }
  }
}
