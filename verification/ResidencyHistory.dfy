/** What the counters and the entries of the flat replay say about the requests so far, and what each
    policy evicts. The statements are about positions of the trace and the residents between
    requests, for every policy and lease schedule. */
module ResidencyHistory {
  import opened Common
  import opened Residency
  import opened ResidencyAccounting

  // ---------------------------------------------------------------- one request

  ghost predicate EntriesMoved(s: State, request: Request, n: nat, t: State) {
    var r := request.ref;
    && (forall q :: q in t.resident && q != r ==> q in s.resident && t.resident[q] == s.resident[q])
    && (r in t.resident ==>
          t.resident[r] == if r in s.resident then Entry(s.resident[r].bytes, n, s.resident[r].uses + 1)
                           else Entry(request.bytes, n, 1))
  }

  ghost predicate CountersMoved(s: State, request: Request, n: nat, t: State) {
    var hit := request.ref in s.resident;
    var load := !hit && request.ref in t.resident;
    var again := load && request.ref in s.seen;
    && t.hits == s.hits + (if hit then 1 else 0)
    && t.loads == s.loads + (if load then 1 else 0)
    && t.reloads == s.reloads + (if again then 1 else 0)
    && t.loadBytes == s.loadBytes + (if load then request.bytes else 0)
    && t.reloadBytes == s.reloadBytes + (if again then request.bytes else 0)
    && t.seen == s.seen + (if load then {request.ref} else {})
    && t.loaded == s.loaded + (if load then [n] else [])
  }

  lemma StepMoves(cfg: Config, n: nat, s: State)
    requires cfg.Valid() && n < |cfg.trace|
    ensures EntriesMoved(s, cfg.trace[n], n, Step(cfg, n, s))
    ensures CountersMoved(s, cfg.trace[n], n, Step(cfg, n, s))
  {
    hide EvictLoop, TotalBytes, EntriesMoved, CountersMoved, Hit, Refuse, Admit, EvictFrame;
    var Request(ref, size) := cfg.trace[n];
    if ref in s.resident {
      HitMoves(s, cfg.trace[n], n);
    } else {
      var (kept, victims) := EvictLoop(cfg, n, s.resident, size);
      EvictLoopFrame(cfg, n, s.resident, size);
      KeptEntries(cfg, n, s.resident, size, kept, victims);
      MissMoves(s, cfg.trace[n], n, kept, victims);
    }
  }

  lemma HitMoves(s: State, request: Request, n: nat)
    requires request.ref in s.resident
    ensures var t := Hit(s, request.ref, n);
            EntriesMoved(s, request, n, t) && CountersMoved(s, request, n, t)
  {
  }

  lemma KeptEntries(cfg: Config, n: nat, resident: Store, size: nat, kept: Store, victims: nat)
    requires cfg.Valid() && n < |cfg.trace| && EvictFrame(cfg, n, resident, size, kept, victims)
    ensures SubStore(kept, resident)
  {
  }

  lemma MissMoves(s: State, request: Request, n: nat, kept: Store, victims: nat)
    requires request.ref !in s.resident && SubStore(kept, s.resident)
    ensures var t := Refuse(s, kept, victims);
            EntriesMoved(s, request, n, t) && CountersMoved(s, request, n, t)
    ensures var t := Admit(s, request.ref, request.bytes, n, kept, victims);
            EntriesMoved(s, request, n, t) && CountersMoved(s, request, n, t)
  {
  }

  lemma ReplayMoves(cfg: Config, n: nat)
    requires cfg.Valid() && n < |cfg.trace|
    ensures EntriesMoved(Replay(cfg, n), cfg.trace[n], n, Replay(cfg, n + 1))
    ensures CountersMoved(Replay(cfg, n), cfg.trace[n], n, Replay(cfg, n + 1))
  {
    hide Step, EntriesMoved, CountersMoved;
    StepMoves(cfg, n, Replay(cfg, n));
  }

  // ---------------------------------------------------------------- what an entry records

  ghost predicate Resident(cfg: Config, n: nat, r: nat)
    requires cfg.Valid() && n <= |cfg.trace|
  {
    r in Replay(cfg, n).resident
  }

  /** Requests for `r` since it was last loaded. */
  ghost function Uses(cfg: Config, n: nat, r: nat): nat
    requires cfg.Valid() && n <= |cfg.trace|
  {
    if n == 0 || !Resident(cfg, n, r) then 0
    else Uses(cfg, n - 1, r) + if cfg.trace[n - 1].ref == r then 1 else 0
  }

  /** The size of the request that loaded `r`. */
  ghost function Size(cfg: Config, n: nat, r: nat): nat
    requires cfg.Valid() && n <= |cfg.trace|
  {
    if n == 0 then 0
    else if Resident(cfg, n - 1, r) then Size(cfg, n - 1, r)
    else cfg.trace[n - 1].bytes
  }

  ghost predicate Records(cfg: Config, n: nat, r: nat, e: Entry)
    requires cfg.Valid() && n <= |cfg.trace|
  {
    && e.uses == Uses(cfg, n, r) >= 1 && e.bytes == Size(cfg, n, r)
    && e.last < n && cfg.trace[e.last].ref == r
    && forall k :: e.last < k < n ==> cfg.trace[k].ref != r
  }

  lemma RecordsNext(cfg: Config, n: nat, r: nat)
    requires cfg.Valid() && n < |cfg.trace| && Resident(cfg, n + 1, r)
    requires Resident(cfg, n, r) ==> Records(cfg, n, r, Replay(cfg, n).resident[r])
    ensures Records(cfg, n + 1, r, Replay(cfg, n + 1).resident[r])
  {
    hide Replay, CountersMoved, Uses, Size;
    ReplayMoves(cfg, n);
    UsesNext(cfg, n, r);
  }

  lemma UsesNext(cfg: Config, n: nat, r: nat)
    requires cfg.Valid() && n < |cfg.trace| && Resident(cfg, n + 1, r)
    ensures Uses(cfg, n + 1, r) == Uses(cfg, n, r) + if cfg.trace[n].ref == r then 1 else 0
    ensures !Resident(cfg, n, r) ==> Uses(cfg, n, r) == 0
    ensures Size(cfg, n + 1, r) == if Resident(cfg, n, r) then Size(cfg, n, r) else cfg.trace[n].bytes
  {
    hide Resident;
  }

  /** Every resident's entry records its size when loaded, how often it was requested since, and the
      position of its latest request. */
  lemma {:induction false} EntriesRecord(cfg: Config, n: nat, r: nat)
    requires cfg.Valid() && n <= |cfg.trace| && Resident(cfg, n, r)
    ensures Records(cfg, n, r, Replay(cfg, n).resident[r])
  {
    hide Records, Step;
    if n > 0 {
      if Resident(cfg, n - 1, r) {
        EntriesRecord(cfg, n - 1, r);
      }
      RecordsNext(cfg, n - 1, r);
    }
  }

  // ---------------------------------------------------------------- the counters

  ghost predicate HitAt(cfg: Config, k: nat)
    requires cfg.Valid() && k < |cfg.trace|
  {
    Resident(cfg, k, cfg.trace[k].ref)
  }

  ghost predicate LoadAt(cfg: Config, k: nat)
    requires cfg.Valid() && k < |cfg.trace|
  {
    !Resident(cfg, k, cfg.trace[k].ref) && Resident(cfg, k + 1, cfg.trace[k].ref)
  }

  /** A load of a tensor that was loaded before. */
  ghost predicate ReloadAt(cfg: Config, k: nat)
    requires cfg.Valid() && k < |cfg.trace|
  {
    LoadAt(cfg, k) && exists j :: 0 <= j < k && LoadAt(cfg, j) && cfg.trace[j].ref == cfg.trace[k].ref
  }

  ghost function Hits(cfg: Config, n: nat): set<nat>
    requires cfg.Valid() && n <= |cfg.trace|
  {
    set k | 0 <= k < n && HitAt(cfg, k)
  }

  ghost function Loads(cfg: Config, n: nat): set<nat>
    requires cfg.Valid() && n <= |cfg.trace|
  {
    set k | 0 <= k < n && LoadAt(cfg, k)
  }

  ghost function Reloads(cfg: Config, n: nat): set<nat>
    requires cfg.Valid() && n <= |cfg.trace|
  {
    set k | 0 <= k < n && ReloadAt(cfg, k)
  }

  /** The bytes of the requests among the first `n` at the chosen positions. */
  ghost function BytesOver(trace: seq<Request>, chosen: set<nat>, n: nat): nat
    requires n <= |trace|
  {
    if n == 0 then 0 else BytesOver(trace, chosen, n - 1) + if n - 1 in chosen then trace[n - 1].bytes else 0
  }

  lemma {:induction false} BytesSame(trace: seq<Request>, a: set<nat>, b: set<nat>, n: nat)
    requires n <= |trace| && forall k :: 0 <= k < n ==> (k in a <==> k in b)
    ensures BytesOver(trace, a, n) == BytesOver(trace, b, n)
  {
    if n > 0 {
      BytesSame(trace, a, b, n - 1);
    }
  }

  /** A set that may gain position `n`: its size, and its bytes. */
  lemma OneMorePosition(trace: seq<Request>, before: set<nat>, after: set<nat>, n: nat, inside: bool)
    requires n < |trace| && n !in before && after == before + (if inside then {n} else {})
    ensures |after| == |before| + (if inside then 1 else 0)
    ensures BytesOver(trace, after, n + 1)
            == BytesOver(trace, before, n) + if inside then trace[n].bytes else 0
  {
    BytesSame(trace, before, after, n);
  }

  lemma HitsNext(cfg: Config, n: nat)
    requires cfg.Valid() && n < |cfg.trace|
    ensures |Hits(cfg, n + 1)| == |Hits(cfg, n)| + if HitAt(cfg, n) then 1 else 0
  {
    hide HitAt;
    OneMorePosition(cfg.trace, Hits(cfg, n), Hits(cfg, n + 1), n, HitAt(cfg, n));
  }

  lemma LoadsNext(cfg: Config, n: nat)
    requires cfg.Valid() && n < |cfg.trace|
    ensures |Loads(cfg, n + 1)| == |Loads(cfg, n)| + (if LoadAt(cfg, n) then 1 else 0)
    ensures BytesOver(cfg.trace, Loads(cfg, n + 1), n + 1)
            == BytesOver(cfg.trace, Loads(cfg, n), n) + if LoadAt(cfg, n) then cfg.trace[n].bytes else 0
  {
    hide LoadAt;
    OneMorePosition(cfg.trace, Loads(cfg, n), Loads(cfg, n + 1), n, LoadAt(cfg, n));
  }

  lemma ReloadsNext(cfg: Config, n: nat)
    requires cfg.Valid() && n < |cfg.trace|
    ensures |Reloads(cfg, n + 1)| == |Reloads(cfg, n)| + (if ReloadAt(cfg, n) then 1 else 0)
    ensures BytesOver(cfg.trace, Reloads(cfg, n + 1), n + 1)
            == BytesOver(cfg.trace, Reloads(cfg, n), n) + if ReloadAt(cfg, n) then cfg.trace[n].bytes else 0
  {
    hide ReloadAt;
    OneMorePosition(cfg.trace, Reloads(cfg, n), Reloads(cfg, n + 1), n, ReloadAt(cfg, n));
  }

  /** A ref has been seen exactly if one of its requests loaded it. */
  lemma {:induction false} SeenExactly(cfg: Config, n: nat, r: nat)
    requires cfg.Valid() && n <= |cfg.trace|
    ensures r in Replay(cfg, n).seen <==> exists j :: 0 <= j < n && LoadAt(cfg, j) && cfg.trace[j].ref == r
  {
    hide Step, EntriesMoved;
    if n > 0 {
      SeenExactly(cfg, n - 1, r);
      ReplayMoves(cfg, n - 1);
    }
  }

  ghost predicate Counted(cfg: Config, n: nat, s: State)
    requires cfg.Valid() && n <= |cfg.trace|
  {
    && s.hits == |Hits(cfg, n)| && s.loads == |Loads(cfg, n)| && s.reloads == |Reloads(cfg, n)|
    && s.loadBytes == BytesOver(cfg.trace, Loads(cfg, n), n)
    && s.reloadBytes == BytesOver(cfg.trace, Reloads(cfg, n), n)
  }

  lemma NothingCounted(cfg: Config)
    requires cfg.Valid()
    ensures Counted(cfg, 0, Replay(cfg, 0)) && Loads(cfg, 0) == {}
  {
    assert Hits(cfg, 0) == {} && Loads(cfg, 0) == {} && Reloads(cfg, 0) == {};
  }

  lemma CountedNext(cfg: Config, n: nat)
    requires cfg.Valid() && n < |cfg.trace| && Counted(cfg, n, Replay(cfg, n))
    ensures Counted(cfg, n + 1, Replay(cfg, n + 1))
  {
    hide Replay, EntriesMoved, Hits, Loads, Reloads, BytesOver;
    ReplayMoves(cfg, n);
    HitsNext(cfg, n);
    LoadsNext(cfg, n);
    ReloadsNext(cfg, n);
    SeenExactly(cfg, n, cfg.trace[n].ref);
  }

  /** Hits, loads and reloads are the numbers of requests that hit, load, and load again, and the byte
      counters add up the sizes of these requests. */
  lemma {:induction false} CountersExactly(cfg: Config, n: nat)
    requires cfg.Valid() && n <= |cfg.trace|
    ensures Counted(cfg, n, Replay(cfg, n))
  {
    hide *;
    if n == 0 {
      NothingCounted(cfg);
    } else {
      CountersExactly(cfg, n - 1);
      CountedNext(cfg, n - 1);
    }
  }

  /** The listed positions are those of the loads, in increasing order. */
  lemma {:induction false} LoadedInOrder(cfg: Config, n: nat)
    requires cfg.Valid() && n <= |cfg.trace|
    ensures var loaded := Replay(cfg, n).loaded;
            && (forall i, j :: 0 <= i < j < |loaded| ==> loaded[i] < loaded[j])
            && (forall k :: k in loaded <==> k in Loads(cfg, n))
  {
    hide Step, EntriesMoved, Loads;
    if n == 0 {
      NothingCounted(cfg);
    } else {
      LoadedInOrder(cfg, n - 1);
      ReplayMoves(cfg, n - 1);
      LoadsGrow(cfg, n - 1);
      LaterAppended(Replay(cfg, n - 1).loaded, n - 1);
    }
  }

  lemma LaterAppended(s: seq<nat>, n: nat)
    requires forall i, j :: 0 <= i < j < |s| ==> s[i] < s[j]
    requires forall k :: k in s ==> k < n
    ensures forall i, j :: 0 <= i < j < |s + [n]| ==> (s + [n])[i] < (s + [n])[j]
  {
    forall i | 0 <= i < |s| ensures s[i] < n {
      assert s[i] in s;
    }
  }

  lemma LoadsGrow(cfg: Config, n: nat)
    requires cfg.Valid() && n < |cfg.trace|
    ensures forall k :: k in Loads(cfg, n) ==> k < n
    ensures Loads(cfg, n + 1) == Loads(cfg, n) + if LoadAt(cfg, n) then {n} else {}
  {
    hide LoadAt;
  }

  // ---------------------------------------------------------------- what is evicted

  /** The position of the next request for `r` after `index`, or 10^9. */
  function NextUse(trace: seq<Request>, index: nat, r: nat): nat {
    match NextAt(trace, index + 1, r)
    case Some(p) => p
    case None => 1_000_000_000
  }

  /** LRU evicts what was requested least recently, LFU what was used least and of these the least
      recent, MIN what is requested latest and of these the greatest ref, a score the least score. All
      other ties go to the least ref. */
  lemma VictimExactly(cfg: Config, index: nat, resident: Store, eligible: set<nat>, v: nat)
    requires eligible <= resident.Keys && v in eligible
    ensures IsVictim(cfg, index, resident, eligible, v)
       <==> forall r :: r in eligible && r != v ==>
              var a, b := resident[v], resident[r];
              match cfg.policy
              case Lru => a.last < b.last || (a.last == b.last && v < r)
              case Lfu => a.uses < b.uses
                          || (a.uses == b.uses && (a.last < b.last || (a.last == b.last && v < r)))
              case Min => NextUse(cfg.trace, index, v) > NextUse(cfg.trace, index, r)
                          || (NextUse(cfg.trace, index, v) == NextUse(cfg.trace, index, r) && v > r)
              case Scored(score) =>
                var p, q := score(index, FactsOf(resident), eligible, v), score(index, FactsOf(resident), eligible, r);
                p < q || (p == q && v < r)
  {
    assert forall r :: FutureKey(cfg.trace, index, r) == NextUse(cfg.trace, index, r);
  }
}
