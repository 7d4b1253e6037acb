/** What the counters and the entries of the two-tier replay say about the requests so far. The
    statements are about positions of the trace and the stores between requests. */
module TieredHistory {
  import opened Tiered

  // ---------------------------------------------------------------- what making room leaves alone

  /** The same counters of requests, and the same drops for every entry gone. */
  ghost predicate Roomier(s: Store, t: Store) {
    && t.misses == s.misses && t.hotHits == s.hotHits && t.warmHits == s.warmHits
    && t.warmAdmissions == s.warmAdmissions && t.promotions == s.promotions
    && t.warmEvictions + |t.entries| == s.warmEvictions + |s.entries|
    && t.entries.Keys <= s.entries.Keys
    && forall r :: r in t.entries ==> t.entries[r] == s.entries[r].(tier := t.entries[r].tier)
  }

  lemma DropRoomier(s: Store, v: nat)
    requires v in s.entries
    ensures Roomier(s, Drop(s, v))
  {
    assert (s.entries - {v}).Keys == s.entries.Keys - {v};
    assert |(s.entries - {v}).Keys| == |s.entries.Keys| - 1;
  }

  lemma DemoteRoomier(s: Store, v: nat)
    requires v in s.entries
    ensures Roomier(s, Demote(s, v))
  {
    assert Demote(s, v).entries.Keys == s.entries.Keys;
    assert |Demote(s, v).entries.Keys| == |s.entries.Keys|;
  }

  lemma RoomierTransitive(s: Store, t: Store, u: Store)
    requires Roomier(s, t) && Roomier(t, u)
    ensures Roomier(s, u)
  {
  }

  lemma {:induction false} EvictWarmRoomier(c: Capacities, s: Store, required: nat)
    ensures Roomier(s, EvictWarm(c, s, required).0)
    decreases |s.entries|
  {
    hide Roomier, EvictWarm, Oldest, Drop;
    if s.warmBytes + required <= c.warm || InTier(s.entries, WARM) == {} {
      EvictWarmDone(c, s, required);
      SameRoom(s);
    } else {
      var v := Oldest(s.entries, InTier(s.entries, WARM));
      EvictWarmRound(c, s, required, v);
      DropRoomier(s, v);
      EvictWarmRoomier(c, Drop(s, v), required);
      RoomierTransitive(s, Drop(s, v), EvictWarm(c, s, required).0);
    }
  }

  lemma SameRoom(s: Store)
    ensures Roomier(s, s)
  {
  }

  lemma {:induction false} MakeHotRoomRoomier(c: Capacities, s: Store, required: nat)
    ensures Roomier(s, MakeHotRoom(c, s, required).0)
    decreases |InTier(s.entries, HOT)|
  {
    hide Roomier, EvictWarm, MakeHotRoom, Oldest, Demote;
    var hot := InTier(s.entries, HOT);
    if s.hotBytes + required <= c.hot || hot == {} {
      MakeHotRoomDone(c, s, required);
      SameRoom(s);
    } else {
      var v := Oldest(s.entries, hot);
      var (t, ok) := EvictWarm(c, s, s.entries[v].bytes);
      EvictWarmRoomier(c, s, s.entries[v].bytes);
      MakeHotRoomRound(c, s, required, v, t, ok);
      if ok {
        DemoteRoomier(t, v);
        RoomierTransitive(s, t, Demote(t, v));
        assert |hot - {v}| < |hot|;
        MakeHotRoomRoomier(c, Demote(t, v), required);
        RoomierTransitive(s, Demote(t, v), MakeHotRoom(c, s, required).0);
      }
    }
  }

  // ---------------------------------------------------------------- one request

  /** The counters and entries after a request, by whether its tensor was stored before it and is
      stored after it. */
  ghost predicate CountersMoved(s: Store, request: Request, t: Store) {
    var r := request.ref;
    && t.misses == s.misses + (if r in s.entries then 0 else 1)
    && t.hotHits == s.hotHits + (if r in s.entries && s.entries[r].tier == HOT then 1 else 0)
    && t.warmHits == s.warmHits + (if r in s.entries && s.entries[r].tier == WARM then 1 else 0)
    && t.warmAdmissions == s.warmAdmissions + (if r !in s.entries && r in t.entries then 1 else 0)
    && (s.warmAdmissions == |s.entries| + s.warmEvictions ==>
          t.warmAdmissions == |t.entries| + t.warmEvictions)
  }

  ghost predicate EntriesMoved(s: Store, request: Request, clock: nat, t: Store) {
    var r := request.ref;
    && t.entries.Keys <= s.entries.Keys + {r}
    && (forall q :: q in t.entries && q != r ==> t.entries[q] == s.entries[q].(tier := t.entries[q].tier))
    && (r in t.entries ==>
          && t.entries[r].last == clock
          && t.entries[r].bytes == (if r in s.entries then s.entries[r].bytes else request.bytes)
          && t.entries[r].count == (if r in s.entries then s.entries[r].count + 1 else 1))
  }

  lemma MissMoves(c: Capacities, s: Store, request: Request, clock: nat)
    requires request.ref !in s.entries
    ensures CountersMoved(s, request, Serve(c, s, request, clock))
    ensures EntriesMoved(s, request, clock, Serve(c, s, request, clock))
  {
    hide EvictWarm;
    var missed := s.(misses := s.misses + 1);
    EvictWarmRoomier(c, missed, request.bytes);
    var (t, ok) := EvictWarm(c, missed, request.bytes);
    if ok {
      AdmitMoves(s, t, request, clock);
    }
  }

  lemma AdmitMoves(s: Store, t: Store, request: Request, clock: nat)
    requires request.ref !in s.entries && Roomier(s.(misses := s.misses + 1), t)
    ensures CountersMoved(s, request, Admit(t, request, clock))
    ensures EntriesMoved(s, request, clock, Admit(t, request, clock))
  {
    var u := Admit(t, request, clock);
    assert u.entries.Keys == t.entries.Keys + {request.ref};
    assert |u.entries.Keys| == |t.entries.Keys| + 1;
  }

  lemma HitMoves(c: Capacities, s: Store, request: Request, clock: nat)
    requires request.ref in s.entries
    ensures CountersMoved(s, request, Serve(c, s, request, clock))
    ensures EntriesMoved(s, request, clock, Serve(c, s, request, clock))
  {
    hide MakeHotRoom;
    var r := request.ref;
    var t := Touch(c, s, r, clock);
    assert t.entries.Keys == s.entries.Keys;
    assert |t.entries.Keys| == |s.entries.Keys|;
    var item := t.entries[r];
    if item.tier == WARM && item.generation == OLD {
      MakeHotRoomRoomier(c, t, item.bytes);
      var (u, ok) := MakeHotRoom(c, t, item.bytes);
      if ok && r in u.entries {
        assert Promote(u, r, item.bytes).entries.Keys == u.entries.Keys;
        assert |Promote(u, r, item.bytes).entries.Keys| == |u.entries.Keys|;
      }
    }
  }

  lemma ServeMoves(c: Capacities, s: Store, request: Request, clock: nat)
    ensures CountersMoved(s, request, Serve(c, s, request, clock))
    ensures EntriesMoved(s, request, clock, Serve(c, s, request, clock))
  {
    hide *;
    if request.ref in s.entries {
      HitMoves(c, s, request, clock);
    } else {
      MissMoves(c, s, request, clock);
    }
  }

  // ---------------------------------------------------------------- the request counters of a run

  ghost predicate Stored(c: Capacities, trace: seq<Request>, n: nat, r: nat)
    requires n <= |trace|
  {
    r in Run(c, trace, n).entries
  }

  ghost predicate StoredIn(c: Capacities, trace: seq<Request>, n: nat, r: nat, tier: Tier)
    requires n <= |trace|
  {
    Stored(c, trace, n, r) && Run(c, trace, n).entries[r].tier == tier
  }

  /** The first `n` requests whose tensor was not stored when they arrived. */
  ghost function Missed(c: Capacities, trace: seq<Request>, n: nat): set<nat>
    requires n <= |trace|
  {
    set k | 0 <= k < n && !Stored(c, trace, k, trace[k].ref)
  }

  ghost function Found(c: Capacities, trace: seq<Request>, n: nat, tier: Tier): set<nat>
    requires n <= |trace|
  {
    set k | 0 <= k < n && StoredIn(c, trace, k, trace[k].ref, tier)
  }

  /** The first `n` requests that brought their tensor into the store. */
  ghost function Admitted(c: Capacities, trace: seq<Request>, n: nat): set<nat>
    requires n <= |trace|
  {
    set k | 0 <= k < n && !Stored(c, trace, k, trace[k].ref) && Stored(c, trace, k + 1, trace[k].ref)
  }

  lemma CountNext(before: set<nat>, after: set<nat>, n: nat, inside: bool)
    requires n !in before && after == before + (if inside then {n} else {})
    ensures |after| == |before| + if inside then 1 else 0
  {
  }

  lemma MissedGrows(c: Capacities, trace: seq<Request>, n: nat)
    requires n < |trace|
    ensures |Missed(c, trace, n + 1)|
            == |Missed(c, trace, n)| + if Stored(c, trace, n, trace[n].ref) then 0 else 1
  {
    hide Stored;
    CountNext(Missed(c, trace, n), Missed(c, trace, n + 1), n, !Stored(c, trace, n, trace[n].ref));
  }

  lemma FoundGrows(c: Capacities, trace: seq<Request>, n: nat, tier: Tier)
    requires n < |trace|
    ensures |Found(c, trace, n + 1, tier)|
            == |Found(c, trace, n, tier)| + if StoredIn(c, trace, n, trace[n].ref, tier) then 1 else 0
  {
    hide StoredIn;
    CountNext(Found(c, trace, n, tier), Found(c, trace, n + 1, tier), n,
              StoredIn(c, trace, n, trace[n].ref, tier));
  }

  lemma AdmittedGrows(c: Capacities, trace: seq<Request>, n: nat)
    requires n < |trace|
    ensures |Admitted(c, trace, n + 1)| == |Admitted(c, trace, n)|
              + if !Stored(c, trace, n, trace[n].ref) && Stored(c, trace, n + 1, trace[n].ref) then 1 else 0
  {
    hide Stored;
    CountNext(Admitted(c, trace, n), Admitted(c, trace, n + 1), n,
              !Stored(c, trace, n, trace[n].ref) && Stored(c, trace, n + 1, trace[n].ref));
  }

  /** Misses, hits in either tier and admissions are the numbers of requests of each kind, and every
      tensor admitted is still stored or was dropped. */
  lemma {:induction false} CountersExactly(c: Capacities, trace: seq<Request>, n: nat)
    requires n <= |trace|
    ensures var s := Run(c, trace, n);
            && s.misses == |Missed(c, trace, n)|
            && s.hotHits == |Found(c, trace, n, HOT)|
            && s.warmHits == |Found(c, trace, n, WARM)|
            && s.warmAdmissions == |Admitted(c, trace, n)| == |s.entries| + s.warmEvictions
            && s.misses + s.hotHits + s.warmHits == n
  {
    hide *;
    if n == 0 {
      NothingCounted(c, trace);
    } else {
      CountersExactly(c, trace, n - 1);
      CountersNext(c, trace, n - 1);
      MissedGrows(c, trace, n - 1);
      FoundGrows(c, trace, n - 1, HOT);
      FoundGrows(c, trace, n - 1, WARM);
      AdmittedGrows(c, trace, n - 1);
    }
  }

  lemma CountersNext(c: Capacities, trace: seq<Request>, n: nat)
    requires n < |trace|
    requires Run(c, trace, n).warmAdmissions == |Run(c, trace, n).entries| + Run(c, trace, n).warmEvictions
    ensures var s, t, r := Run(c, trace, n), Run(c, trace, n + 1), trace[n].ref;
            && t.misses == s.misses + (if Stored(c, trace, n, r) then 0 else 1)
            && t.hotHits == s.hotHits + (if StoredIn(c, trace, n, r, HOT) then 1 else 0)
            && t.warmHits == s.warmHits + (if StoredIn(c, trace, n, r, WARM) then 1 else 0)
            && t.misses + t.hotHits + t.warmHits == s.misses + s.hotHits + s.warmHits + 1
            && t.warmAdmissions == s.warmAdmissions
                 + (if !Stored(c, trace, n, r) && Stored(c, trace, n + 1, r) then 1 else 0)
            && t.warmAdmissions == |t.entries| + t.warmEvictions
  {
    hide Serve, Run, EntriesMoved;
    RunServes(c, trace, n);
    ServeMoves(c, Run(c, trace, n), trace[n], n + 1);
  }

  lemma RunServes(c: Capacities, trace: seq<Request>, n: nat)
    requires n < |trace|
    ensures Run(c, trace, n + 1) == Serve(c, Run(c, trace, n), trace[n], n + 1)
  {
    hide Serve;
  }

  lemma NothingCounted(c: Capacities, trace: seq<Request>)
    ensures |Missed(c, trace, 0)| == |Admitted(c, trace, 0)| == 0
    ensures |Found(c, trace, 0, HOT)| == |Found(c, trace, 0, WARM)| == 0
    ensures var s := Run(c, trace, 0);
            s.misses == s.hotHits == s.warmHits == s.warmAdmissions == s.warmEvictions == |s.entries| == 0
  {
    assert Missed(c, trace, 0) == {} && Admitted(c, trace, 0) == {};
    assert Found(c, trace, 0, HOT) == {} && Found(c, trace, 0, WARM) == {};
  }

  // ---------------------------------------------------------------- what an entry records

  /** Requests for `r` since it was last brought into the store. */
  ghost function Uses(c: Capacities, trace: seq<Request>, n: nat, r: nat): nat
    requires n <= |trace|
  {
    if n == 0 || !Stored(c, trace, n, r) then 0
    else Uses(c, trace, n - 1, r) + if trace[n - 1].ref == r then 1 else 0
  }

  /** The size of the request that brought `r` into the store. */
  ghost function Size(c: Capacities, trace: seq<Request>, n: nat, r: nat): nat
    requires n <= |trace|
  {
    if n == 0 then 0
    else if Stored(c, trace, n - 1, r) then Size(c, trace, n - 1, r)
    else trace[n - 1].bytes
  }

  /** `last` is the clock of the latest request for `r`. */
  ghost predicate Latest(trace: seq<Request>, n: nat, r: nat, last: nat)
    requires n <= |trace|
  {
    && 0 < last <= n && trace[last - 1].ref == r
    && forall k :: last <= k < n ==> trace[k].ref != r
  }

  /** The age of a tensor by its uses: new, then young, and old from one use past the limit on. */
  function Age(uses: nat, oldAfter: nat): Generation {
    if uses <= 1 then NEW else if uses > oldAfter then OLD else YOUNG
  }

  ghost predicate Records(c: Capacities, trace: seq<Request>, n: nat, r: nat, item: Item)
    requires n <= |trace|
  {
    && item.count == Uses(c, trace, n, r) >= 1
    && item.bytes == Size(c, trace, n, r)
    && Latest(trace, n, r, item.last)
    && item.generation == Age(item.count, c.oldAfter)
  }

  lemma UsesNext(c: Capacities, trace: seq<Request>, n: nat, r: nat)
    requires n < |trace| && Stored(c, trace, n + 1, r)
    ensures Uses(c, trace, n + 1, r) == Uses(c, trace, n, r) + if trace[n].ref == r then 1 else 0
    ensures !Stored(c, trace, n, r) ==> Uses(c, trace, n, r) == 0
    ensures Size(c, trace, n + 1, r) == if Stored(c, trace, n, r) then Size(c, trace, n, r) else trace[n].bytes
  {
    hide Stored;
  }

  lemma GenerationServed(c: Capacities, s: Store, request: Request, clock: nat)
    ensures var t := Serve(c, s, request, clock);
            request.ref in t.entries ==>
              t.entries[request.ref].generation
              == if request.ref in s.entries then Reused(s.entries[request.ref], c.oldAfter, clock).generation
                 else NEW
  {
    hide EvictWarm, MakeHotRoom;
    if request.ref in s.entries {
      var t := Touch(c, s, request.ref, clock);
      MakeHotRoomRoomier(c, t, t.entries[request.ref].bytes);
    } else {
      EvictWarmRoomier(c, s.(misses := s.misses + 1), request.bytes);
    }
  }

  lemma Ages(item: Item, oldAfter: nat, clock: nat)
    requires item.count >= 1 && item.generation == Age(item.count, oldAfter)
    ensures Reused(item, oldAfter, clock).generation == Age(item.count + 1, oldAfter)
  {
  }

  lemma RecordsNext(c: Capacities, trace: seq<Request>, n: nat, r: nat)
    requires n < |trace| && Stored(c, trace, n + 1, r)
    requires Stored(c, trace, n, r) ==> Records(c, trace, n, r, Run(c, trace, n).entries[r])
    ensures Records(c, trace, n + 1, r, Run(c, trace, n + 1).entries[r])
  {
    hide Serve, Uses, Size, Reused, Run, CountersMoved;
    var s, request := Run(c, trace, n), trace[n];
    RunServes(c, trace, n);
    ServeMoves(c, s, request, n + 1);
    GenerationServed(c, s, request, n + 1);
    UsesNext(c, trace, n, r);
    if r in s.entries {
      Ages(s.entries[r], c.oldAfter, n + 1);
    }
  }

  /** Every entry records how often and when its tensor was last requested since it came in, how
      large it was then, and the age that follows from its uses. */
  lemma {:induction false} EntriesRecord(c: Capacities, trace: seq<Request>, n: nat, r: nat)
    requires n <= |trace| && Stored(c, trace, n, r)
    ensures Records(c, trace, n, r, Run(c, trace, n).entries[r])
  {
    hide Records, Serve;
    if n > 0 {
      if Stored(c, trace, n - 1, r) {
        EntriesRecord(c, trace, n - 1, r);
      }
      RecordsNext(c, trace, n - 1, r);
    }
  }
}
