/** The receiving side of the pipeline, with rings that refuse only when they are full: exactly
    when it leaves a batch behind. */
module PipelineReceiving {
  import opened CryptPipeline
  import opened PipelineTheorems
  import opened PipelineProgress

  /** A ring that refuses is full. */
  ghost predicate FullIfRefused(s: State, step: Step) {
    (step.DeviceFull? ==> |s.device| == MAX_QUEUED_PACKETS)
    && (step.Reject? ==> |PeerAt(s, step.b.peer).ring| == MAX_QUEUED_PACKETS)
  }

  ghost predicate RefusesFull(s: State, steps: seq<Step>)
    decreases |steps|
  {
    steps == [] || (Enabled(s, steps[0]) && FullIfRefused(s, steps[0]) && RefusesFull(Next(s, steps[0]), steps[1..]))
  }

  /** A run of the receiving side from the start. */
  ghost predicate Received(steps: seq<Step>, t: State) {
    Reaches(INITIAL, steps, t) && AllOn(steps, Receiving) && RefusesFull(INITIAL, steps)
  }

  /** Receiving, runs in which the device ring refuses at most `n` batches leave nothing behind. */
  ghost predicate ReceivesAll(n: nat) {
    forall steps, t, p :: Received(steps, t) && Quiet(t) && |t.unheard| <= n ==> PeerAt(t, p).ring == []
  }

  // ------------------------------------------------------------ building a run

  lemma {:induction false} ReachesSnoc(s: State, steps: seq<Step>, t: State, step: Step)
    requires Reaches(s, steps, t) && RefusesFull(s, steps) && Enabled(t, step) && FullIfRefused(t, step)
    ensures Reaches(s, steps + [step], Next(t, step)) && RefusesFull(s, steps + [step])
    decreases |steps|
  {
    if steps == [] {
      assert (steps + [step])[1..] == [];
    } else {
      ReachesSnoc(Next(s, steps[0]), steps[1..], t, step);
      assert (steps + [step])[1..] == steps[1..] + [step];
    }
  }

  lemma {:induction false} Extend(steps: seq<Step>, t: State, step: Step)
    requires Received(steps, t) && Enabled(t, step) && FullIfRefused(t, step) && OnSide(step, Receiving)
    ensures Received(steps + [step], Next(t, step))
  {
    ReachesSnoc(INITIAL, steps, t, step);
  }

  // ------------------------------------------------------------ filling the device ring

  /** `n` batches of another peer wait in the device ring, and nothing else has happened. */
  ghost predicate Filled(t: State, other: nat, n: nat) {
    |t.device| == n && |PeerAt(t, other).ring| == n
    && (forall i :: 0 <= i < n ==> t.device[i].peer == other)
    && (forall b :: b in t.status ==> b.peer == other && b.id < n)
    && t.entering == {} && t.refused == {} && t.announcing == {} && t.rejected == {} && t.unheard == {}
    && (forall c :: CpuAt(t, c) == Cpu(Off, false))
    && forall p :: p != other ==> PeerAt(t, p) == Peer([], Idle, false, [], [])
  }

  lemma FillOne(t: State, other: nat, n: nat) returns (u: State)
    requires Filled(t, other, n) && n < MAX_QUEUED_PACKETS
    ensures var b := Batch(n, other);
            Enabled(t, Enter(b)) && Enabled(Next(t, Enter(b)), ToDevice(b)) && u == Next(Next(t, Enter(b)), ToDevice(b))
    ensures Filled(u, other, n + 1)
  {
    var b := Batch(n, other);
    u := Next(Next(t, Enter(b)), ToDevice(b));
    assert u.entering == {};
    assert u.device == t.device + [b];
    assert PeerAt(u, other).ring == PeerAt(t, other).ring + [b];
    assert forall c :: CpuAt(u, c) == CpuAt(t, c);
    assert forall p :: p != other ==> PeerAt(u, p) == PeerAt(t, p);
  }

  lemma {:induction false} Fill(other: nat, n: nat) returns (steps: seq<Step>, t: State)
    requires n <= MAX_QUEUED_PACKETS
    ensures Received(steps, t) && Filled(t, other, n)
    decreases n
  {
    if n == 0 {
      steps, t := [], INITIAL;
    } else {
      steps, t := Fill(other, n - 1);
      var b := Batch(n - 1, other);
      var u := FillOne(t, other, n - 1);
      Extend(steps, t, Enter(b));
      Extend(steps + [Enter(b)], Next(t, Enter(b)), ToDevice(b));
      steps, t := steps + [Enter(b)] + [ToDevice(b)], u;
    }
  }

  // ------------------------------------------------------------ the batch that stays

  /** The batch is alone in its peer's ring, and nobody has anything to do with that peer. */
  ghost predicate Abandoned(t: State, b: Batch) {
    PeerAt(t, b.peer).ring == [b] && PeerAt(t, b.peer).consumer.Idle? && !PeerAt(t, b.peer).pending
    && t.entering == {} && t.refused == {} && t.unheard == {b}
    && (forall i :: 0 <= i < |t.device| ==> t.device[i].peer != b.peer)
    && (forall x :: x in t.announcing ==> x.peer != b.peer)
    && (forall c :: CpuAt(t, c).worker.Busy? || CpuAt(t, c).worker.Telling? ==> CpuAt(t, c).worker.b.peer != b.peer)
  }

  /** A batch that comes while the device ring is full. */
  lemma Refuse(t: State, b: Batch, other: nat) returns (u: State)
    requires Filled(t, other, MAX_QUEUED_PACKETS) && other != b.peer
    ensures Enabled(t, Enter(b)) && FullIfRefused(Next(t, Enter(b)), DeviceFull(b))
    ensures Enabled(Next(t, Enter(b)), DeviceFull(b)) && Enabled(Next(Next(t, Enter(b)), DeviceFull(b)), KillUnheard(b))
    ensures u == Next(Next(Next(t, Enter(b)), DeviceFull(b)), KillUnheard(b)) && Abandoned(u, b)
  {
    u := Next(Next(Next(t, Enter(b)), DeviceFull(b)), KillUnheard(b));
    assert PeerAt(t, b.peer) == Peer([], Idle, false, [], []);
    assert PeerAt(u, b.peer).ring == [] + [b];
    assert forall c :: CpuAt(u, c) == CpuAt(t, c);
    assert u.entering == {} && u.refused == {} && u.unheard == {b};
  }

  /** Whatever goes on inside leaves it there. */
  lemma StaysAbandoned(t: State, b: Batch, step: Step)
    requires Abandoned(t, b) && Enabled(t, step) && Internal(step)
    ensures Abandoned(Next(t, step), b) && !step.DeviceFull?
  {
    var u := Next(t, step);
    assert PeerAt(u, b.peer) == PeerAt(t, b.peer);
    forall c | CpuAt(u, c).worker.Busy? || CpuAt(u, c).worker.Telling? ensures CpuAt(u, c).worker.b.peer != b.peer {
      assert CpuAt(u, c).worker == CpuAt(t, c).worker || step == WorkerTake(c) || (step.WorkerDone? && step.cpu == c);
    }
  }

  lemma {:induction false} ComeToRest(steps: seq<Step>, t: State, b: Batch) returns (steps': seq<Step>, u: State)
    requires Received(steps, t) && Abandoned(t, b)
    ensures Received(steps', u) && Abandoned(u, b) && Quiet(u)
    decreases Work(t)
  {
    if Quiet(t) {
      return steps, t;
    }
    var step := Progress(t, Receiving);
    StaysAbandoned(t, b, step);
    Extend(steps, t, step);
    OneStep(t, step);
    steps', u := ComeToRest(steps + [step], Next(t, step), b);
  }

  lemma OneStep(t: State, step: Step)
    requires Enabled(t, step) && Internal(step)
    ensures Work(Next(t, step)) < Work(t)
  {
    assert Reaches(Next(t, step), [step][1..], Next(t, step));
    Drains(t, [step], Next(t, step));
  }

  /** A full device ring, one batch of any peer, and then rest: the batch is still there. */
  lemma Stranding(b: Batch) returns (steps: seq<Step>, t: State)
    ensures Received(steps, t) && Quiet(t) && t.unheard == {b} && PeerAt(t, b.peer).ring == [b]
  {
    var other := b.peer + 1;
    steps, t := Fill(other, MAX_QUEUED_PACKETS);
    var u := Refuse(t, b, other);
    var s1 := Next(t, Enter(b));
    Extend(steps, t, Enter(b));
    Extend(steps + [Enter(b)], s1, DeviceFull(b));
    Extend(steps + [Enter(b)] + [DeviceFull(b)], Next(s1, DeviceFull(b)), KillUnheard(b));
    steps, t := ComeToRest(steps + [Enter(b)] + [DeviceFull(b)] + [KillUnheard(b)], u, b);
  }

  /** The receiving side leaves a batch behind exactly when the device ring has refused one. */
  lemma ReceivesAllIff(n: nat)
    ensures ReceivesAll(n) <==> n == 0
  {
    if n == 0 {
      forall steps, t, p | Received(steps, t) && Quiet(t) && |t.unheard| <= 0 ensures PeerAt(t, p).ring == [] {
        assert Reachable(t);
        AtRest(t, p);
      }
    } else {
      var steps, t := Stranding(Batch(0, 0));
      assert PeerAt(t, 0).ring != [];
    }
  }
}
