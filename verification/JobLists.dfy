/** The lists of jobs that the I/O pools keep, and the one worker thread that serves a queue. */
module JobLists {

  /** The worker took a job off the queue, executed it, handed it on and is returning to the queue. */
  datatype Worker = Idle | Took(job: nat) | Did(job: nat) | Returning

  function WorkerJobs(w: Worker): seq<nat> {
    if w.Took? || w.Did? then [w.job] else []
  }

  /** The last entry replaces entry `i`. */
  function SwapRemove(q: seq<nat>, i: nat): seq<nat>
    requires i < |q|
  {
    q[i := q[|q| - 1]][..|q| - 1]
  }

  // ---- Counting a job in a list ----

  function Count(q: seq<nat>, j: nat): nat {
    multiset(q)[j]
  }

  lemma CountCons(q: seq<nat>, j: nat)
    requires q != []
    ensures Count(q, j) == Count([q[0]], j) + Count(q[1..], j)
  {
    assert q == [q[0]] + q[1..];
  }

  lemma CountSnoc(q: seq<nat>, last: nat, j: nat)
    ensures Count(q + [last], j) == Count(q, j) + Count([last], j)
  {
  }

  lemma CountConcat(q: seq<nat>, r: seq<nat>, j: nat)
    ensures Count(q + r, j) == Count(q, j) + Count(r, j)
  {
  }

  lemma SwapRemoveLength(q: seq<nat>, i: nat)
    requires i < |q|
    ensures |SwapRemove(q, i)| + 1 == |q|
  {
  }

  lemma CountSwapRemove(q: seq<nat>, i: nat, j: nat)
    requires i < |q|
    ensures Count(q, j) == Count(SwapRemove(q, i), j) + Count([q[i]], j)
  {
    var n := |q| - 1;
    assert q == q[..n] + [q[n]];
    if i < n {
      assert q[..n] == q[..i] + [q[i]] + q[i + 1..n];
      assert SwapRemove(q, i) == q[..i] + [q[n]] + q[i + 1..n];
    }
  }

  lemma {:induction false} IdentityOnce(n: nat, j: nat)
    ensures Count(seq(n, i => i), j) == if j < n then 1 else 0
  {
    if 0 < n {
      IdentityOnce(n - 1, j);
      assert seq(n, i => i) == seq(n - 1, i => i) + [n - 1];
    }
  }
}
