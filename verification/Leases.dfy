/**
 The lease schedule replayed from a run's event log: for every request, the refs that are
 resident with at least one outstanding lease.
 */
module LeaseSchedules {

  datatype Kind = REQUEST | INSERT | EVICT | LEASE_ACQUIRE | LEASE_RELEASE | OTHER

  datatype Event = Event(kind: Kind, ref: nat)

  /** Leases of `ref` outstanding after the first `n` events: an eviction forgets them, and a
      release without a lease is ignored. */
  function Outstanding(events: seq<Event>, n: nat, ref: nat): nat
    requires n <= |events|
  {
    if n == 0 then 0
    else
      var before, e := Outstanding(events, n - 1, ref), events[n - 1];
      if e.ref != ref then before
      else match e.kind
        case EVICT => 0
        case LEASE_ACQUIRE => before + 1
        case LEASE_RELEASE => if before == 0 then 0 else before - 1
        case _ => before
  }

  /** The positions of the requests among the first `n` events, in order. */
  function RequestPositions(events: seq<Event>, n: nat): (positions: seq<nat>)
    requires n <= |events|
    ensures forall k :: 0 <= k < |positions| ==> positions[k] < n
  {
    if n == 0 then []
    else RequestPositions(events, n - 1) + if events[n - 1].kind.REQUEST? then [n - 1] else []
  }

  /** Acquires less releases of `ref` from event `j` up to, not including, event `n`. */
  function Net(events: seq<Event>, j: nat, n: nat, ref: nat): int
    requires j <= n <= |events|
  {
    if j == n then 0
    else
      Net(events, j, n - 1, ref)
      + if events[n - 1] == Event(LEASE_ACQUIRE, ref) then 1
        else if events[n - 1] == Event(LEASE_RELEASE, ref) then -1 else 0
  }

  predicate Undisturbed(events: seq<Event>, j: nat, n: nat, ref: nat)
    requires j <= n <= |events|
  {
    forall k :: j <= k < n ==> events[k] != Event(EVICT, ref)
  }

  /** The outstanding leases are the largest surplus of acquires over releases in any stretch of events
      that ends here and contains no eviction: one release cancels one acquire before it, and no more. */
  lemma {:induction false} OutstandingExactly(events: seq<Event>, n: nat, ref: nat)
    requires n <= |events|
    ensures forall j: nat :: j <= n && Undisturbed(events, j, n, ref) ==>
              Outstanding(events, n, ref) >= Net(events, j, n, ref)
    ensures exists j: nat :: j <= n && Undisturbed(events, j, n, ref)
              && Outstanding(events, n, ref) == Net(events, j, n, ref)
    decreases n
  {
    NothingYet(events, n, ref);
    if n > 0 {
      OutstandingExactly(events, n - 1, ref);
      var best: nat :| best <= n - 1 && Undisturbed(events, best, n - 1, ref)
                       && Outstanding(events, n - 1, ref) == Net(events, best, n - 1, ref);
      forall j: nat | j <= n && Undisturbed(events, j, n, ref)
        ensures Outstanding(events, n, ref) >= Net(events, j, n, ref)
      {
        if j < n {
          assert Undisturbed(events, j, n - 1, ref);
        }
      }
      if Outstanding(events, n, ref) > 0 {
        assert Undisturbed(events, best, n, ref);
      }
    }
  }

  lemma NothingYet(events: seq<Event>, n: nat, ref: nat)
    requires n <= |events|
    ensures Undisturbed(events, n, n, ref) && Net(events, n, n, ref) == 0
  {
  }

  /** The listed positions are those of the requests, in increasing order. */
  lemma {:induction false} PositionsExactly(events: seq<Event>, n: nat)
    requires n <= |events|
    ensures var positions := RequestPositions(events, n);
            && (forall i, j :: 0 <= i < j < |positions| ==> positions[i] < positions[j])
            && (forall k :: k in positions <==> 0 <= k < n && events[k].kind.REQUEST?)
  {
    if n > 0 {
      PositionsExactly(events, n - 1);
    }
  }

  function Count(leases: map<nat, nat>, ref: nat): nat {
    if ref in leases then leases[ref] else 0
  }

  /** The scan over the log: one set per request, holding exactly the refs with an
      outstanding lease at that point. */
  method ActiveSets(events: seq<Event>) returns (result: seq<set<nat>>)
    ensures |result| == |RequestPositions(events, |events|)|
    ensures forall k, ref :: 0 <= k < |result| ==>
              (ref in result[k] <==> Outstanding(events, RequestPositions(events, |events|)[k], ref) > 0)
  {
    var resident: set<nat> := {};
    var leases: map<nat, nat> := map[];
    result := [];
    for n := 0 to |events|
      invariant forall ref :: Count(leases, ref) == Outstanding(events, n, ref)
      invariant forall ref :: Count(leases, ref) > 0 ==> ref in resident
      invariant |result| == |RequestPositions(events, n)|
      invariant forall k, ref :: 0 <= k < |result| ==>
                  (ref in result[k] <==> Outstanding(events, RequestPositions(events, n)[k], ref) > 0)
    {
      var ref := events[n].ref;
      match events[n].kind {
        case REQUEST =>
          result := result + [set r | r in resident && Count(leases, r) != 0];
        case INSERT =>
          resident := resident + {ref};
        case EVICT =>
          resident := resident - {ref};
          leases := leases - {ref};
        case LEASE_ACQUIRE =>
          resident := resident + {ref};
          leases := leases[ref := Count(leases, ref) + 1];
        case LEASE_RELEASE =>
          if Count(leases, ref) != 0 {
            leases := leases[ref := Count(leases, ref) - 1];
          }
        case OTHER =>
      }
    }
  }
}
