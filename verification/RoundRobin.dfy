/** The choice of the next process as a value (kernel/process/schedule.c): positions on a ring, and who is waiting. */
module RoundRobin {
  /** How many places after position from position to comes, once around at most. */
  function Distance(from: nat, to: nat, n: nat): (d: nat)
    requires from < n && to < n
    ensures 1 <= d <= n
  {
    if to > from then to - from else to + n - from
  }

  function Forward(from: nat, k: nat, n: nat): nat
    requires from < n && k <= n
  {
    if from + k < n then from + k else from + k - n
  }

  lemma WrapForward(from: nat, k: nat, n: nat)
    requires from < n && k <= n
    ensures Forward(from, k, n) == (from + k) % n
  {}

  lemma ForwardDistance(from: nat, k: nat, n: nat)
    requires from < n && 1 <= k <= n
    ensures Forward(from, k, n) < n && Distance(from, Forward(from, k, n), n) == k
  {}

  lemma DistanceForward(from: nat, to: nat, n: nat)
    requires from < n && to < n
    ensures Forward(from, Distance(from, to, n), n) == to
  {}

  /** Somebody is waiting k or more places after from. */
  ghost predicate Ahead(waits: seq<bool>, from: nat, k: nat)
    requires from < |waits|
  {
    exists p :: 0 <= p < |waits| && waits[p] && Distance(from, p, |waits|) >= k
  }

  /** The first waiting position k or more places after from. */
  ghost function NextWaiting(waits: seq<bool>, from: nat, k: nat): (to: nat)
    requires from < |waits| && 1 <= k <= |waits| && Ahead(waits, from, k)
    ensures to < |waits| && waits[to] && Distance(from, to, |waits|) >= k
    ensures forall p :: 0 <= p < |waits| && waits[p] && Distance(from, p, |waits|) >= k ==>
              Distance(from, to, |waits|) <= Distance(from, p, |waits|)
    decreases |waits| - k
  {
    ForwardDistance(from, k, |waits|);
    var p := Forward(from, k, |waits|);
    if waits[p] then p
    else
      assert forall q :: 0 <= q < |waits| && Distance(from, q, |waits|) == k ==> q == p by {
        forall q | 0 <= q < |waits| && Distance(from, q, |waits|) == k ensures q == p { DistanceForward(from, q, |waits|); }
      }
      NextWaiting(waits, from, k + 1)
  }

  /** find_next_live_process: the first waiting process after the current one, which itself comes last. */
  ghost function Chosen(waits: seq<bool>, current: nat): (to: nat)
    requires current < |waits| && true in waits
    ensures to < |waits| && waits[to]
    ensures forall p :: 0 <= p < |waits| && waits[p] ==> Distance(current, to, |waits|) <= Distance(current, p, |waits|)
  {
    var p :| 0 <= p < |waits| && waits[p];
    NextWaiting(waits, current, 1)
  }

  /** Choosing somebody else brings the turn of a waiting process nearer. */
  lemma TurnComesNearer(waits: seq<bool>, current: nat, q: nat)
    requires current < |waits| && q < |waits| && waits[q]
    ensures true in waits
    ensures var to := Chosen(waits, current);
            to == q || Distance(to, q, |waits|) < Distance(current, q, |waits|)
  {}
}
