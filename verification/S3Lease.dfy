/**
 The lease protocol over one remote object with conditional requests. Acquiring is a read and a
 later conditional write; renewing and releasing are one conditional request each. Requests may be
 executed late, repeatedly or never, and answers may get lost; time passes in between.
 */
module S3Lease {
  import opened Pages

  // The owner is the client that wrote the lease.
  datatype Lease = Lease(generation: nat, expiresAt: int, owner: nat)

  datatype Version = Version(etag: nat, lease: Lease)

  datatype Request =
    | Put(client: nat, lease: Lease, ifMatch: Option<nat>)
    | Delete(client: nat, etag: nat)

  // `log[e]` is the lease written under ETag e: ETags are never reused. `seen` is what a client read
  // when it started to acquire, `answers` the ETags of writes whose success is not reported yet, and
  // `held` the ETag of the lease a client has in hand.
  datatype State = State(
    now: int,
    stored: Option<Version>,
    log: seq<Lease>,
    seen: map<nat, Option<Version>>,
    requests: set<Request>,
    answers: set<nat>,
    held: map<nat, nat>)

  predicate Expired(l: Lease, now: int) {
    now > l.expiresAt
  }

  datatype Decision = Exists(owner: nat, expiresAt: int) | Write(request: Request)

  // What acquiring does with what it read.
  function Acquire(c: nat, existing: Option<Version>, now: int, ttl: nat): Decision {
    match existing
    case None => Write(Put(c, Lease(1, now + ttl, c), None))
    case Some(o) =>
      if !Expired(o.lease, now) then Exists(o.lease.owner, o.lease.expiresAt)
      else Write(Put(c, Lease(o.lease.generation + 1, now + ttl, c), Some(o.etag)))
  }

  function Renew(c: nat, etag: nat, lease: Lease, now: int, ttl: nat): Request {
    Put(c, Lease(lease.generation, now + ttl, c), Some(etag))
  }

  // The condition a request carries: no object at all, or exactly that version.
  predicate Matches(stored: Option<Version>, r: Request) {
    match r
    case Put(_, _, None) => stored == None
    case Put(_, _, Some(etag)) => stored.Some? && stored.value.etag == etag
    case Delete(_, etag) => stored.Some? && stored.value.etag == etag
  }

  datatype Step =
    | Tick(ticks: nat)
    | Read(client: nat)
    | SendAcquire(client: nat)
    | SendRenew(client: nat)
    | SendRelease(client: nat)
    | Execute(request: Request)
    | Receive(etag: nat)
    | Forget(client: nat)

  predicate Enabled(st: State, step: Step) {
    match step
    case SendAcquire(c) => c in st.seen
    case SendRenew(c) => c in st.held && st.held[c] < |st.log|
    case SendRelease(c) => c in st.held
    case Execute(r) => r in st.requests
    case Receive(e) => e in st.answers && e < |st.log|
    case _ => true
  }

  function Performed(st: State, r: Request): State {
    if !Matches(st.stored, r) then st
    else
      match r
      case Put(_, lease, _) =>
        var e := |st.log|;
        st.(stored := Some(Version(e, lease)), log := st.log + [lease], answers := st.answers + {e})
      case Delete(_, _) => st.(stored := None)
  }

  function Next(st: State, step: Step, ttl: nat -> nat): State
    requires Enabled(st, step)
  {
    match step
    case Tick(ticks) => st.(now := st.now + ticks)
    case Read(c) => st.(seen := st.seen[c := st.stored])
    case SendAcquire(c) =>
      (match Acquire(c, st.seen[c], st.now, ttl(c))
       case Exists(_, _) => st.(seen := st.seen - {c})
       case Write(r) => st.(seen := st.seen - {c}, requests := st.requests + {r}))
    case SendRenew(c) =>
      st.(requests := st.requests + {Renew(c, st.held[c], st.log[st.held[c]], st.now, ttl(c))})
    case SendRelease(c) => st.(requests := st.requests + {Delete(c, st.held[c])}, held := st.held - {c})
    case Execute(r) => Performed(st, r)
    case Receive(e) => st.(answers := st.answers - {e}, held := st.held[st.log[e].owner := e])
    case Forget(c) => st.(held := st.held - {c})
  }

  ghost predicate Init(st: State) {
    st.stored == None && st.log == [] && st.seen == map[] && st.requests == {} && st.answers == {} && st.held == map[]
  }

  // --- Invariant ------------------------------------------------------------------------------

  // The lease written under ETag e has not run out.
  predicate Live(st: State, e: nat) {
    e < |st.log| && !Expired(st.log[e], st.now)
  }

  // A stored or read object is what was written under its ETag.
  predicate Genuine(st: State, o: Option<Version>) {
    o.Some? ==> o.value.etag < |st.log| && o.value.lease == st.log[o.value.etag]
  }

  // A conditional write either takes over a lease that ran out, with a higher generation, or extends
  // the writer's own lease.
  predicate PutOk(st: State, client: nat, lease: Lease, e: nat) {
    && e < |st.log|
    && ((!Live(st, e) && st.log[e].generation < lease.generation)
        || (&& st.log[e].owner == client && e !in st.answers
            && st.log[e].generation == lease.generation && st.log[e].expiresAt <= lease.expiresAt))
  }

  predicate RequestOk(st: State, r: Request, ttl: nat -> nat) {
    match r
    case Put(c, lease, ifMatch) =>
      && lease.owner == c && lease.expiresAt <= st.now + ttl(c)
      && (ifMatch.Some? ==> PutOk(st, c, lease, ifMatch.value))
    case Delete(c, e) =>
      && e < |st.log| && st.log[e].owner == c && e !in st.answers
      && (c in st.held && Live(st, st.held[c]) ==> e < st.held[c])
  }

  // A lease in hand that has not run out is the stored one, or the stored one is the same client's
  // and lasts at least as long.
  predicate HeldOk(st: State, c: nat, e: nat) {
    && e < |st.log| && st.log[e].owner == c && e !in st.answers
    && (Live(st, e) ==> st.stored.Some? && st.stored.value.lease.owner == c
                        && st.log[e].expiresAt <= st.stored.value.lease.expiresAt)
  }

  // A lease whose writer has not heard of it yet is still the stored one, unless it ran out.
  predicate AnswerOk(st: State, e: nat) {
    e < |st.log| && (Live(st, e) ==> st.stored.Some? && st.stored.value.etag == e)
  }

  ghost predicate Inv(st: State, ttl: nat -> nat) {
    && Genuine(st, st.stored) && (st.stored.Some? ==> st.stored.value.etag == |st.log| - 1)
    && (forall c :: c in st.seen ==> Genuine(st, st.seen[c]))
    && (forall e :: 0 <= e < |st.log| ==> st.log[e].expiresAt <= st.now + ttl(st.log[e].owner))
    && (forall r :: r in st.requests ==> RequestOk(st, r, ttl))
    && (forall e :: e in st.answers ==> AnswerOk(st, e))
    && (forall c :: c in st.held ==> HeldOk(st, c, st.held[c]))
  }

  lemma PutKeepsInv(st: State, r: Request, ttl: nat -> nat)
    requires Inv(st, ttl) && r in st.requests && r.Put? && Matches(st.stored, r)
    ensures Inv(Performed(st, r), ttl)
  {
    var st', e := Performed(st, r), |st.log|;
    assert RequestOk(st, r, ttl);
    assert forall k :: 0 <= k < e ==> st'.log[k] == st.log[k];
    assert forall k: nat :: k < e ==> Live(st', k) == Live(st, k);
    assert forall k :: k in st.answers ==> AnswerOk(st, k) && k < e;
    forall q | q in st'.requests ensures RequestOk(st', q, ttl) {
      assert RequestOk(st, q, ttl);
    }
    forall k | k in st'.answers ensures AnswerOk(st', k) {
      assert k != e ==> AnswerOk(st, k);
    }
    forall c | c in st'.held ensures HeldOk(st', c, st'.held[c]) {
      assert HeldOk(st, c, st.held[c]);
    }
  }

  lemma DeleteKeepsInv(st: State, r: Request, ttl: nat -> nat)
    requires Inv(st, ttl) && r in st.requests && r.Delete? && Matches(st.stored, r)
    ensures Inv(Performed(st, r), ttl)
  {
    var st' := Performed(st, r);
    assert RequestOk(st, r, ttl);
    forall q | q in st'.requests ensures RequestOk(st', q, ttl) {
      assert RequestOk(st, q, ttl);
    }
    forall k | k in st'.answers ensures AnswerOk(st', k) {
      assert AnswerOk(st, k);
    }
    forall c | c in st'.held ensures HeldOk(st', c, st'.held[c]) {
      assert HeldOk(st, c, st.held[c]);
    }
  }

  lemma ReceiveKeepsInv(st: State, e: nat, ttl: nat -> nat)
    requires Inv(st, ttl) && e in st.answers && e < |st.log|
    ensures Inv(Next(st, Receive(e), ttl), ttl)
  {
    var st' := Next(st, Receive(e), ttl);
    assert AnswerOk(st, e);
    forall q | q in st'.requests ensures RequestOk(st', q, ttl) {
      assert RequestOk(st, q, ttl);
    }
    forall k | k in st'.answers ensures AnswerOk(st', k) {
      assert AnswerOk(st, k);
    }
    forall c | c in st'.held ensures HeldOk(st', c, st'.held[c]) {
      assert st'.held[c] != e ==> HeldOk(st, c, st.held[c]);
    }
  }

  lemma TickKeepsInv(st: State, ticks: nat, ttl: nat -> nat)
    requires Inv(st, ttl)
    ensures Inv(Next(st, Tick(ticks), ttl), ttl)
  {
    var st' := Next(st, Tick(ticks), ttl);
    forall q | q in st'.requests ensures RequestOk(st', q, ttl) {
      assert RequestOk(st, q, ttl);
    }
    forall k | k in st'.answers ensures AnswerOk(st', k) {
      assert AnswerOk(st, k);
    }
    forall c | c in st'.held ensures HeldOk(st', c, st'.held[c]) {
      assert HeldOk(st, c, st.held[c]);
    }
  }

  // Sending a request, which must be in order, and possibly letting go of the lease in hand.
  lemma SendKeepsInv(st: State, r: Request, seen: map<nat, Option<Version>>, held: map<nat, nat>, ttl: nat -> nat)
    requires Inv(st, ttl) && seen.Items <= st.seen.Items && held.Items <= st.held.Items
    requires RequestOk(st.(seen := seen, held := held), r, ttl)
    ensures Inv(st.(seen := seen, held := held, requests := st.requests + {r}), ttl)
  {
    var st' := st.(seen := seen, held := held, requests := st.requests + {r});
    assert forall c :: c in held ==> (c, held[c]) in held.Items;
    assert forall c :: c in seen ==> (c, seen[c]) in seen.Items;
    forall q | q in st'.requests ensures RequestOk(st', q, ttl) {
      assert q != r ==> RequestOk(st, q, ttl);
    }
    forall k | k in st'.answers ensures AnswerOk(st', k) {
      assert AnswerOk(st, k);
    }
    forall c | c in st'.held ensures HeldOk(st', c, st'.held[c]) {
      assert HeldOk(st, c, st.held[c]);
    }
  }

  lemma AcquiringKeepsInv(st: State, c: nat, ttl: nat -> nat)
    requires Inv(st, ttl) && c in st.seen
    ensures Inv(Next(st, SendAcquire(c), ttl), ttl)
  {
    assert Genuine(st, st.seen[c]);
    match Acquire(c, st.seen[c], st.now, ttl(c))
    case Exists(_, _) =>
    case Write(r) => SendKeepsInv(st, r, st.seen - {c}, st.held, ttl);
  }

  lemma SendingKeepsInv(st: State, step: Step, ttl: nat -> nat)
    requires Inv(st, ttl) && Enabled(st, step) && (step.SendAcquire? || step.SendRenew? || step.SendRelease?)
    ensures Inv(Next(st, step, ttl), ttl)
  {
    var c := step.client;
    match step
    case SendAcquire(_) => AcquiringKeepsInv(st, c, ttl);
    case SendRenew(_) =>
      assert HeldOk(st, c, st.held[c]);
      SendKeepsInv(st, Renew(c, st.held[c], st.log[st.held[c]], st.now, ttl(c)), st.seen, st.held, ttl);
    case SendRelease(_) =>
      assert HeldOk(st, c, st.held[c]);
      SendKeepsInv(st, Delete(c, st.held[c]), st.seen, st.held - {c}, ttl);
  }

  lemma StepKeepsInv(st: State, step: Step, ttl: nat -> nat)
    requires Inv(st, ttl) && Enabled(st, step)
    ensures Inv(Next(st, step, ttl), ttl)
  {
    match step
    case Tick(ticks) => TickKeepsInv(st, ticks, ttl);
    case Execute(r) =>
      if Matches(st.stored, r) {
        if r.Put? {
          PutKeepsInv(st, r, ttl);
        } else {
          DeleteKeepsInv(st, r, ttl);
        }
      }
    case Receive(e) => ReceiveKeepsInv(st, e, ttl);
    case Read(_) => ReadKeepsInv(st, step, ttl);
    case Forget(_) => ReadKeepsInv(st, step, ttl);
    case _ => SendingKeepsInv(st, step, ttl);
  }

  lemma ReadKeepsInv(st: State, step: Step, ttl: nat -> nat)
    requires Inv(st, ttl) && (step.Read? || step.Forget?)
    ensures Inv(Next(st, step, ttl), ttl)
  {
    var st' := Next(st, step, ttl);
    forall q | q in st'.requests ensures RequestOk(st', q, ttl) {
      assert RequestOk(st, q, ttl);
    }
    forall k | k in st'.answers ensures AnswerOk(st', k) {
      assert AnswerOk(st, k);
    }
    forall c | c in st'.held ensures HeldOk(st', c, st'.held[c]) {
      assert HeldOk(st, c, st.held[c]);
    }
  }

  // --- Whole runs -----------------------------------------------------------------------------

  ghost predicate IsRun(run: seq<State>, steps: seq<Step>, ttl: nat -> nat) {
    && |run| == |steps| + 1 && Init(run[0])
    && forall i {:trigger steps[i]} :: 0 <= i < |steps| ==>
         Enabled(run[i], steps[i]) && run[i + 1] == Next(run[i], steps[i], ttl)
  }

  lemma {:induction false} RunKeepsInv(run: seq<State>, steps: seq<Step>, ttl: nat -> nat, i: nat)
    requires IsRun(run, steps, ttl) && i < |run|
    ensures Inv(run[i], ttl)
  {
    if i > 0 {
      RunKeepsInv(run, steps, ttl, i - 1);
      StepKeepsInv(run[i - 1], steps[i - 1], ttl);
    }
  }

  // The client has a lease in hand that it may rely on.
  predicate Holds(st: State, c: nat) {
    c in st.held && Live(st, st.held[c])
  }

  // In no state of any run do two clients hold unexpired leases.
  lemma AtMostOneHolder(run: seq<State>, steps: seq<Step>, ttl: nat -> nat, i: nat, c: nat, d: nat)
    requires IsRun(run, steps, ttl) && i < |run|
    requires Holds(run[i], c) && Holds(run[i], d)
    ensures c == d
  {
    RunKeepsInv(run, steps, ttl, i);
    assert HeldOk(run[i], c, run[i].held[c]) && HeldOk(run[i], d, run[i].held[d]);
  }

  // One step leaves the stored lease alone, removes it, extends it for its owner, or replaces it
  // after it ran out by one of a higher generation.
  lemma StoredStep(st: State, step: Step, ttl: nat -> nat)
    requires Inv(st, ttl) && Enabled(st, step) && st.stored.Some? && Next(st, step, ttl).stored.Some?
    ensures var l, l' := st.stored.value.lease, Next(st, step, ttl).stored.value.lease;
            || l' == l
            || (l'.generation == l.generation && l'.owner == l.owner && l'.expiresAt >= l.expiresAt)
            || (l'.generation > l.generation && Expired(l, st.now))
  {
    if step.Execute? {
      assert RequestOk(st, step.request, ttl);
    }
  }

  // While the lease is not released, its generation never falls, and it rises whenever the lease
  // changes hands.
  lemma {:induction false} GenerationRises(run: seq<State>, steps: seq<Step>, ttl: nat -> nat, i: nat, j: nat)
    requires IsRun(run, steps, ttl) && i <= j < |run|
    requires forall k :: i <= k <= j ==> run[k].stored.Some?
    ensures var l, l' := run[i].stored.value.lease, run[j].stored.value.lease;
            l.generation <= l'.generation && (l.owner != l'.owner ==> l.generation < l'.generation)
    decreases j - i
  {
    if i < j {
      GenerationRises(run, steps, ttl, i, j - 1);
      RunKeepsInv(run, steps, ttl, j - 1);
      assert Enabled(run[j - 1], steps[j - 1]) && run[j - 1].stored.Some? && run[j].stored.Some?;
      StoredStep(run[j - 1], steps[j - 1], ttl);
    }
  }

  // The stored lease disappears only when its own writer releases exactly that version, and then
  // nobody holds an unexpired lease.
  lemma OnlyReleaseRemoves(run: seq<State>, steps: seq<Step>, ttl: nat -> nat, i: nat, c: nat)
    requires IsRun(run, steps, ttl) && i < |steps|
    requires run[i].stored.Some? && run[i + 1].stored == None
    ensures steps[i] == Execute(Delete(run[i].stored.value.lease.owner, run[i].stored.value.etag))
    ensures !Holds(run[i + 1], c)
  {
    RunKeepsInv(run, steps, ttl, i);
    RunKeepsInv(run, steps, ttl, i + 1);
    assert Enabled(run[i], steps[i]) && run[i + 1] == Next(run[i], steps[i], ttl);
    if steps[i].Execute? {
      assert RequestOk(run[i], steps[i].request, ttl);
    }
    assert c in run[i + 1].held ==> HeldOk(run[i + 1], c, run[i + 1].held[c]);
  }

  // When a renewal is refused although the client's lease has not run out, nobody else has it: an
  // earlier renewal of the same client took effect unheard.
  lemma RefusedWhileHolding(run: seq<State>, steps: seq<Step>, ttl: nat -> nat, i: nat, c: nat, lease: Lease)
    requires IsRun(run, steps, ttl) && i < |run| && Holds(run[i], c)
    requires !Matches(run[i].stored, Put(c, lease, Some(run[i].held[c])))
    ensures run[i].stored.Some? && run[i].stored.value.lease.owner == c
    ensures run[i].held[c] < run[i].stored.value.etag && !Expired(run[i].stored.value.lease, run[i].now)
  {
    RunKeepsInv(run, steps, ttl, i);
    assert HeldOk(run[i], c, run[i].held[c]);
  }
}
