/** What holds in every run of the encryption pipeline. */
module PipelineTheorems {
  import opened CryptPipeline

  /** Delivery is in enqueue order, each batch at most once, none is lost, and exactly the
      encrypted ones are sent: whatever the interleaving, what left a peer's ring is a prefix
      of what was put in, and the rest is still there. */
  lemma Delivery(t: State, p: nat)
    requires Reachable(t)
    ensures PeerAt(t, p).enqueued == Batches(PeerAt(t, p).taken) + PeerAt(t, p).ring
    ensures NoDuplicates(PeerAt(t, p).enqueued)
    ensures forall d :: d in PeerAt(t, p).taken ==> d.batch in t.status && t.status[d.batch] == (if d.sent then Crypted else Dead)
  {
    ReachableInv(t);
    assert Fifo(t) && Homes(t) && DeparturesRight(t);
  }

  // ------------------------------------------------------------ which batches are sent

  /** A worker ends the encryption of `b` with success. */
  ghost predicate Succeeds(s: State, step: Step, b: Batch) { step.WorkerDone? && step.ok && BusyWith(s, step.cpu, b) }

  /** Some worker does so in the run. */
  ghost predicate Succeeded(s: State, steps: seq<Step>, b: Batch)
    decreases |steps|
  {
    steps != [] && Enabled(s, steps[0]) && (Succeeds(s, steps[0], b) || Succeeded(Next(s, steps[0]), steps[1..], b))
  }

  ghost predicate IsCrypted(s: State, b: Batch) { b in s.status && s.status[b].Crypted? }

  lemma {:induction false} CryptedNext(s: State, step: Step, b: Batch)
    requires Inv(s) && Enabled(s, step)
    ensures IsCrypted(Next(s, step), b) <==> IsCrypted(s, b) || Succeeds(s, step, b)
  {
    if step.Kill? || step.KillUnheard? {
      assert Owned(s, step.b) && Waiting(s, step.b);
    } else if step.WorkerDone? {
      var done := CpuAt(s, step.cpu).worker.b;
      assert BusyWith(s, step.cpu, done);
      assert Owned(s, done) && Waiting(s, done);
    }
  }

  lemma {:induction false} CryptedIff(s: State, steps: seq<Step>, t: State, b: Batch)
    requires Inv(s) && Reaches(s, steps, t)
    ensures IsCrypted(t, b) <==> IsCrypted(s, b) || Succeeded(s, steps, b)
    decreases |steps|
  {
    if steps != [] {
      CryptedNext(s, steps[0], b);
      StepInv(s, steps[0]);
      CryptedIff(Next(s, steps[0]), steps[1..], t, b);
    }
  }

  /** Of the batches that left a ring exactly those were sent whose encryption succeeded. */
  lemma {:induction false} SentIffSucceeded(steps: seq<Step>, t: State, p: nat, d: Departure)
    requires Reaches(INITIAL, steps, t) && d in PeerAt(t, p).taken
    ensures d.sent <==> Succeeded(INITIAL, steps, d.batch)
  {
    InitialInv();
    ReachesInv(INITIAL, steps, t);
    CryptedIff(INITIAL, steps, t, d.batch);
    assert DeparturesRight(t);
  }

  // ------------------------------------------------------------ owners

  /** A batch in a ring that is not encrypted yet is owned by exactly one of its enqueuer,
      the device ring and one worker; any other batch by none of them. */
  lemma Ownership(t: State, b: Batch)
    requires Reachable(t)
    ensures Waiting(t, b) <==> Owned(t, b)
    ensures Owned(t, b) ==> (if b in t.entering then 1 else 0) + (if b in t.refused then 1 else 0)
                            + (if b in t.device then 1 else 0) + (if InWork(t, b) then 1 else 0) == 1
    ensures forall c, d :: BusyWith(t, c, b) && BusyWith(t, d, b) ==> c == d
    ensures NoDuplicates(t.device)
  {
    ReachableInv(t);
    assert OneOwner(t) && OwnedExactly(t);
    if c :| BusyWith(t, c, b) {
      assert b !in t.entering && b !in t.refused && b !in t.device;
    }
  }

  // ------------------------------------------------------------ at rest

  /** Every thread is done and no work is queued. */
  ghost predicate Quiet(t: State) {
    t.entering == {} && t.refused == {} && t.kicking == {} && t.announcing == {}
    && (forall c :: CpuAt(t, c) == Cpu(Off, false))
    && (forall p :: PeerAt(t, p).consumer.Idle? && !PeerAt(t, p).pending)
  }

  /** Somebody is on the way to the batch at the head of a ring. */
  lemma HeadMoves(t: State, p: nat)
    requires Inv(t) && PeerAt(t, p).ring != []
    ensures Owned(t, PeerAt(t, p).ring[0]) || Announced(t, p, PeerAt(t, p).ring[0])
  {
    var q := PeerAt(t, p);
    var b := q.ring[0];
    assert q.enqueued == Batches(q.taken) + q.ring;
    assert b in q.enqueued;
    assert Owned(t, b) <==> Waiting(t, b);
  }

  /** When everything has come to rest the device ring is empty, and so is every peer's ring
      unless a batch given up without a wake-up is at its head. */
  lemma AtRest(t: State, p: nat)
    requires Reachable(t) && Quiet(t)
    ensures t.device == [] && (PeerAt(t, p).ring == [] || PeerAt(t, p).ring[0] in t.unheard)
  {
    ReachableInv(t);
    if PeerAt(t, p).ring != [] {
      HeadMoves(t, p);
    }
  }

  /** A run of one side only. */
  ghost predicate AllOn(steps: seq<Step>, side: Side) { forall i :: 0 <= i < |steps| ==> OnSide(steps[i], side) }

  lemma {:induction false} SendingHeard(s: State, steps: seq<Step>, t: State)
    requires Reaches(s, steps, t) && AllOn(steps, Sending)
    ensures t.unheard == s.unheard
    decreases |steps|
  {
    if steps != [] {
      SendingHeard(Next(s, steps[0]), steps[1..], t);
    }
  }

  /** Sending, no batch is ever stranded: when everything has come to rest, both kinds of ring
      are empty and each enqueued batch has been sent or freed. */
  lemma NothingStranded(steps: seq<Step>, t: State, p: nat)
    requires Reaches(INITIAL, steps, t) && AllOn(steps, Sending) && Quiet(t)
    ensures t.device == [] && PeerAt(t, p).ring == [] && Batches(PeerAt(t, p).taken) == PeerAt(t, p).enqueued
  {
    SendingHeard(INITIAL, steps, t);
    AtRest(t, p);
    Delivery(t, p);
  }
}
