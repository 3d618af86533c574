/** The job queue as the recovery pass sees it: an append of a named job that the
    queue may refuse. Execution of the jobs is not part of this model. */
module JobQueue {
  import opened Wrappers
  import opened Errors
  import opened CertificateModel

  /** The zero-argument action a job runs; the only one enqueued here is a
      certificate's `Request`, bound to that certificate. */
  datatype Action = Request(certificate: Row)

  datatype Job = Job(name: string, action: Action)

  /** One call of `AddJob` and what the queue answered. */
  datatype Attempt = Attempt(job: Job, outcome: Option<Error>)

  /** The jobs of the attempts the queue accepted, in attempt order. */
  function Accepted(attempts: seq<Attempt>): (jobs: seq<Job>)
    ensures |jobs| <= |attempts|
  {
    if attempts == [] then []
    else (if attempts[0].outcome.None? then [attempts[0].job] else []) + Accepted(attempts[1..])
  }

  lemma {:induction false} AcceptedAppend(a: seq<Attempt>, b: seq<Attempt>)
    ensures Accepted(a + b) == Accepted(a) + Accepted(b)
  {
    if a == [] {
      assert a + b == b;
    } else {
      var head := if a[0].outcome.None? then [a[0].job] else [];
      assert (a + b)[0] == a[0];
      assert (a + b)[1..] == a[1..] + b;
      AcceptedAppend(a[1..], b);
      calc {
        Accepted(a + b);
        head + Accepted(a[1..] + b);
        head + (Accepted(a[1..]) + Accepted(b));
        { assert head + (Accepted(a[1..]) + Accepted(b)) == (head + Accepted(a[1..])) + Accepted(b); }
        Accepted(a) + Accepted(b);
      }
    }
  }

  /** A job is accepted exactly when some attempt carried it and was not refused. */
  lemma {:induction false} AcceptedMembership(attempts: seq<Attempt>, job: Job)
    ensures job in Accepted(attempts) <==>
      exists k :: 0 <= k < |attempts| && attempts[k].job == job && attempts[k].outcome.None?
  {
    if attempts != [] {
      AcceptedMembership(attempts[1..], job);
      if job in Accepted(attempts[1..]) {
        var k :| 0 <= k < |attempts[1..]| && attempts[1..][k].job == job && attempts[1..][k].outcome.None?;
        assert attempts[k + 1] == attempts[1..][k];
      }
      if exists k :: 0 <= k < |attempts| && attempts[k].job == job && attempts[k].outcome.None? {
        var k :| 0 <= k < |attempts| && attempts[k].job == job && attempts[k].outcome.None?;
        if k > 0 {
          assert attempts[1..][k - 1] == attempts[k];
        }
      }
    }
  }

  /** When the queue refuses nothing, every attempted job is accepted, in order. */
  lemma {:induction false} AcceptedWhenNothingRefused(attempts: seq<Attempt>)
    requires forall k :: 0 <= k < |attempts| ==> attempts[k].outcome.None?
    ensures Accepted(attempts) == seq(|attempts|, k requires 0 <= k < |attempts| => attempts[k].job)
  {
    if attempts != [] {
      AcceptedWhenNothingRefused(attempts[1..]);
    }
  }

  /** No two jobs request the same certificate. */
  predicate DistinctTargets(jobs: seq<Job>)
  {
    forall i, j :: 0 <= i < j < |jobs| ==> jobs[i].action.certificate.id != jobs[j].action.certificate.id
  }

  /** Dropping refused attempts keeps the targets of the remaining jobs distinct. */
  lemma {:induction false} AcceptedKeepsTargetsDistinct(attempts: seq<Attempt>)
    requires forall i, j :: 0 <= i < j < |attempts| ==>
      attempts[i].job.action.certificate.id != attempts[j].job.action.certificate.id
    ensures DistinctTargets(Accepted(attempts))
  {
    if attempts != [] {
      var tail := attempts[1..];
      assert forall i, j :: 0 <= i < j < |tail| ==>
        tail[i].job.action.certificate.id != tail[j].job.action.certificate.id by {
        forall i, j | 0 <= i < j < |tail|
          ensures tail[i].job.action.certificate.id != tail[j].job.action.certificate.id
        {
          assert tail[i] == attempts[i + 1] && tail[j] == attempts[j + 1];
        }
      }
      AcceptedKeepsTargetsDistinct(tail);
      var rest := Accepted(tail);
      forall job | job in rest
        ensures job.action.certificate.id != attempts[0].job.action.certificate.id
      {
        AcceptedMembership(tail, job);
        var k :| 0 <= k < |tail| && tail[k].job == job && tail[k].outcome.None?;
        assert attempts[k + 1] == tail[k];
      }
      var head := if attempts[0].outcome.None? then [attempts[0].job] else [];
      assert Accepted(attempts) == head + rest;
      forall i, j | 0 <= i < j < |head + rest|
        ensures (head + rest)[i].action.certificate.id != (head + rest)[j].action.certificate.id
      {
        if i < |head| {
          assert (head + rest)[j] in rest;
        }
      }
    }
  }

  /** The queue: the jobs it holds, and (for the proofs only) every attempt made on it. */
  class Queue {
    var jobs: seq<Job>
    ghost var attempts: seq<Attempt>

    constructor ()
      ensures jobs == [] && attempts == []
    {
      jobs := [];
      attempts := [];
    }

    /** `jobqueue.AddJob`: `refusal` is the queue's answer to this call, nil when it accepts. */
    method AddJob(job: Job, refusal: Option<Error>) returns (err: Option<Error>)
      modifies this
      ensures err == refusal
      ensures attempts == old(attempts) + [Attempt(job, err)]
      ensures jobs == if err.None? then old(jobs) + [job] else old(jobs)
    {
      err := refusal;
      attempts := attempts + [Attempt(job, err)];
      if err.None? {
        jobs := jobs + [job];
      }
    }
  }
}
