/**
 What the operations on the lease achieve: a renewal or an acquisition that is executed in time makes
 its client the holder for exactly its time to live from the moment it was sent, a lease that has not
 run out keeps others from asking for it, and a release makes room for the next one.
 */
module LeaseProgress {
  import opened Pages
  import opened S3Lease

  // --- What is sent ---------------------------------------------------------------------------

  // A renewal asks for the same generation, with the time to live counted from now.
  function Renewal(st: State, c: nat, ttl: nat -> nat): Request
    requires c in st.held && st.held[c] < |st.log|
  {
    Put(c, Lease(st.log[st.held[c]].generation, st.now + ttl(c), c), Some(st.held[c]))
  }

  lemma RenewSends(st: State, c: nat, ttl: nat -> nat)
    requires Enabled(st, SendRenew(c))
    ensures Next(st, SendRenew(c), ttl) == st.(requests := st.requests + {Renewal(st, c, ttl)})
  {
  }

  // The lease that a client read does not keep it from asking for it.
  predicate Free(st: State, c: nat) {
    c in st.seen && (st.seen[c].Some? ==> st.now > st.seen[c].value.lease.expiresAt)
  }

  // An acquisition asks for a first lease when none was there, and for the next generation otherwise.
  function Acquisition(st: State, c: nat, ttl: nat -> nat): Request
    requires Free(st, c)
  {
    match st.seen[c]
    case None => Put(c, Lease(1, st.now + ttl(c), c), None)
    case Some(o) => Put(c, Lease(o.lease.generation + 1, st.now + ttl(c), c), Some(o.etag))
  }

  // A lease that has not run out makes acquiring give up without a request.
  lemma AcquireSends(st: State, c: nat, ttl: nat -> nat)
    requires Enabled(st, SendAcquire(c))
    ensures Next(st, SendAcquire(c), ttl) ==
              st.(seen := st.seen - {c},
                  requests := if Free(st, c) then st.requests + {Acquisition(st, c, ttl)} else st.requests)
  {
  }

  // --- What stays -----------------------------------------------------------------------------

  // What was written under an ETag stays, and requests stay until they are executed, however often.
  lemma {:induction false} LogStays(run: seq<State>, steps: seq<Step>, ttl: nat -> nat, i: nat, j: nat)
    requires IsRun(run, steps, ttl) && i <= j < |run|
    ensures run[i].log <= run[j].log && run[i].requests <= run[j].requests && run[i].now <= run[j].now
    decreases j
  {
    if i < j {
      LogStays(run, steps, ttl, i, j - 1);
      LogStep(run[j - 1], steps[j - 1], ttl);
    }
  }

  lemma LogStep(st: State, step: Step, ttl: nat -> nat)
    requires Enabled(st, step)
    ensures var st' := Next(st, step, ttl); st.log <= st'.log && st.requests <= st'.requests && st.now <= st'.now
  {
  }

  // The step changes what client c has in hand.
  predicate ChangesHand(st: State, step: Step, c: nat) {
    step == SendRelease(c) || step == Forget(c) ||
    (step.Receive? && step.etag < |st.log| && st.log[step.etag].owner == c)
  }

  ghost predicate HandUntouched(run: seq<State>, steps: seq<Step>, c: nat, i: nat, j: nat)
    requires j <= |steps| <= |run|
  {
    forall k {:trigger steps[k]} :: i <= k < j ==> !ChangesHand(run[k], steps[k], c)
  }

  lemma {:induction false} HandStays(run: seq<State>, steps: seq<Step>, ttl: nat -> nat, c: nat, i: nat, j: nat)
    requires IsRun(run, steps, ttl) && i <= j < |run| && HandUntouched(run, steps, c, i, j) && c in run[i].held
    ensures c in run[j].held && run[j].held[c] == run[i].held[c]
    decreases j
  {
    if i < j {
      HandStays(run, steps, ttl, c, i, j - 1);
      assert !ChangesHand(run[j - 1], steps[j - 1], c);
    }
  }

  ghost predicate NoneOf(steps: seq<Step>, bad: set<Step>, i: nat, j: nat)
    requires j <= |steps|
  {
    forall k {:trigger steps[k]} :: i <= k < j ==> steps[k] !in bad
  }

  // What a client read stays in its mind until it reads again or acts on it.
  lemma {:induction false} ReadStays(run: seq<State>, steps: seq<Step>, ttl: nat -> nat, c: nat, m: nat, n: nat)
    requires IsRun(run, steps, ttl) && m < n < |run| && steps[m] == Read(c)
    requires NoneOf(steps, {Read(c), SendAcquire(c)}, m + 1, n)
    ensures c in run[n].seen && run[n].seen[c] == run[m].stored
    decreases n
  {
    if m + 1 < n {
      ReadStays(run, steps, ttl, c, m, n - 1);
      assert steps[n - 1] !in {Read(c), SendAcquire(c)};
    }
    assert run[n] == Next(run[n - 1], steps[n - 1], ttl);
  }

  // The answer to a write that took effect can arrive at any time until it does.
  lemma {:induction false} AnswerWaits(run: seq<State>, steps: seq<Step>, ttl: nat -> nat, r: Request, i: nat, j: nat)
    requires IsRun(run, steps, ttl) && i < j < |run| && r.Put? && steps[i] == Execute(r) && Matches(run[i].stored, r)
    requires NoneOf(steps, {Receive(|run[i].log|)}, i + 1, j)
    ensures Enabled(run[j], Receive(|run[i].log|))
    decreases j
  {
    if i + 1 < j {
      AnswerWaits(run, steps, ttl, r, i, j - 1);
      assert steps[j - 1] !in {Receive(|run[i].log|)};
      LogStep(run[j - 1], steps[j - 1], ttl);
    }
    assert run[j] == Next(run[j - 1], steps[j - 1], ttl);
  }

  // --- What is achieved -----------------------------------------------------------------------

  // A write that took effect at step i and was reported at step j: its client holds the lease until it
  // runs out, whatever the others do.
  lemma WrittenIsHeld(run: seq<State>, steps: seq<Step>, ttl: nat -> nat, r: Request, i: nat, j: nat, k: nat)
    requires IsRun(run, steps, ttl) && i < j < k < |run| && r.Put? && r.lease.owner == r.client
    requires steps[i] == Execute(r) && Matches(run[i].stored, r) && steps[j] == Receive(|run[i].log|)
    requires HandUntouched(run, steps, r.client, j + 1, k)
    ensures Holds(run[k], r.client) <==> run[k].now <= r.lease.expiresAt
  {
    var e := |run[i].log|;
    assert run[i + 1] == Next(run[i], steps[i], ttl);
    assert run[i + 1].log[e] == r.lease;
    LogStays(run, steps, ttl, i + 1, j);
    LogStays(run, steps, ttl, j, k);
    assert run[j].log[e] == r.lease && run[k].log[e] == r.lease;
    assert run[j + 1] == Next(run[j], steps[j], ttl);
    HandStays(run, steps, ttl, r.client, j + 1, k);
  }

  // A renewal sent at step n that is executed while the renewed version is still the stored one, and
  // whose answer arrives, lets the client hold the lease exactly up to its time to live from step n on.
  lemma RenewalIsHeld(run: seq<State>, steps: seq<Step>, ttl: nat -> nat, c: nat, n: nat, i: nat, j: nat, k: nat)
    requires IsRun(run, steps, ttl) && n < i < j < k < |run| && steps[n] == SendRenew(c)
    ensures c in run[n].held && run[n].held[c] < |run[n].log| && Renewal(run[n], c, ttl) in run[i].requests
    ensures steps[i] == Execute(Renewal(run[n], c, ttl)) && steps[j] == Receive(|run[i].log|) &&
            run[i].stored.Some? && run[i].stored.value.etag == run[n].held[c] &&
            HandUntouched(run, steps, c, j + 1, k) ==>
              (Holds(run[k], c) <==> run[k].now <= run[n].now + ttl(c))
  {
    assert Enabled(run[n], steps[n]) && run[n + 1] == Next(run[n], steps[n], ttl);
    RenewSends(run[n], c, ttl);
    LogStays(run, steps, ttl, n + 1, i);
    var r := Renewal(run[n], c, ttl);
    if steps[i] == Execute(r) && Matches(run[i].stored, r) && steps[j] == Receive(|run[i].log|) {
      if HandUntouched(run, steps, c, j + 1, k) {
        WrittenIsHeld(run, steps, ttl, r, i, j, k);
      }
    }
  }

  // An acquisition sent at step n, after reading no lease or one that had run out, that is executed
  // before anything else is written, does the same.
  lemma AcquisitionIsHeld(run: seq<State>, steps: seq<Step>, ttl: nat -> nat, c: nat, n: nat, i: nat, j: nat, k: nat)
    requires IsRun(run, steps, ttl) && n < i < j < k < |run| && steps[n] == SendAcquire(c) && Free(run[n], c)
    ensures Acquisition(run[n], c, ttl) in run[i].requests
    ensures steps[i] == Execute(Acquisition(run[n], c, ttl)) && steps[j] == Receive(|run[i].log|) &&
            run[i].stored == run[n].seen[c] && HandUntouched(run, steps, c, j + 1, k) ==>
              (Holds(run[k], c) <==> run[k].now <= run[n].now + ttl(c))
  {
    assert Enabled(run[n], steps[n]) && run[n + 1] == Next(run[n], steps[n], ttl);
    AcquireSends(run[n], c, ttl);
    LogStays(run, steps, ttl, n + 1, i);
    var r := Acquisition(run[n], c, ttl);
    if steps[i] == Execute(r) && Matches(run[i].stored, r) && steps[j] == Receive(|run[i].log|) {
      if HandUntouched(run, steps, c, j + 1, k) {
        WrittenIsHeld(run, steps, ttl, r, i, j, k);
      }
    }
  }

  // Acquiring is refused exactly when the lease stored at the read has not run out when the client acts on
  // it; the refusal names the owner and the expiry of that lease, and nothing is sent.
  lemma RefusedIff(run: seq<State>, steps: seq<Step>, ttl: nat -> nat, c: nat, m: nat, n: nat)
    requires IsRun(run, steps, ttl) && m < n < |steps| && steps[m] == Read(c) && steps[n] == SendAcquire(c)
    requires NoneOf(steps, {Read(c), SendAcquire(c)}, m + 1, n)
    ensures c in run[n].seen && run[n].seen[c] == run[m].stored
    ensures var answer, at := Acquire(c, run[n].seen[c], run[n].now, ttl(c)), run[m].stored;
            if at.Some? && run[n].now <= at.value.lease.expiresAt
            then answer == Exists(at.value.lease.owner, at.value.lease.expiresAt) &&
                 run[n + 1].requests == run[n].requests
            else answer == Write(Acquisition(run[n], c, ttl)) && Acquisition(run[n], c, ttl) in run[n + 1].requests
  {
    ReadStays(run, steps, ttl, c, m, n);
    assert run[n + 1] == Next(run[n], steps[n], ttl);
  }

  // A release that is executed while the released version is stored removes it.
  lemma ReleaseMakesRoom(run: seq<State>, steps: seq<Step>, ttl: nat -> nat, c: nat, n: nat, i: nat)
    requires IsRun(run, steps, ttl) && n < i < |steps| && steps[n] == SendRelease(c) && c in run[n].held
    ensures c !in run[n + 1].held && Delete(c, run[n].held[c]) in run[i].requests
    ensures steps[i] == Execute(Delete(c, run[n].held[c])) &&
            run[i].stored.Some? && run[i].stored.value.etag == run[n].held[c] ==>
              run[i + 1].stored == None
  {
    assert run[n + 1] == Next(run[n], steps[n], ttl);
    LogStays(run, steps, ttl, n + 1, i);
    assert run[i + 1] == Next(run[i], steps[i], ttl);
  }
}
