/** The parallel encryption and decryption pipeline as a state machine.

    A batch is put into its peer's ring first and into the device ring second.  Workers on
    any CPU take batches from the device ring, finish in any order and only set a batch's
    status; one consumer per peer removes batches from the peer's ring in order, once their
    status allows it.  Every step below is one atomic action of one thread, and a run is any
    interleaving of them.  A ring may refuse a batch before it is full. */
module CryptPipeline {

  datatype Status = Uncrypted | Crypted | Dead

  /** A list of packets that travels as one unit. */
  datatype Batch = Batch(id: nat, peer: nat)

  /** What the consumer did with a batch: transmit it, or free it. */
  datatype Departure = Departure(batch: Batch, sent: bool)

  /** Where the transmit worker of a peer is in its loop. */
  datatype Consumer = Idle | Top | Peeked(b: Batch) | Ready(b: Batch, status: Status)

  /** Where an encryption worker is: not running, about to consume, encrypting, or about to
      wake the consumer of the batch it has just released. */
  datatype Worker = Off | Loop | Busy(b: Batch) | Telling(b: Batch)

  datatype Cpu = Cpu(worker: Worker, queued: bool)

  /** `enqueued` and `taken` record the history of the ring. */
  datatype Peer = Peer(ring: seq<Batch>, consumer: Consumer, pending: bool, enqueued: seq<Batch>, taken: seq<Departure>)

  /** The sets name the enqueuing threads by the batch they carry: `entering` is in the
      peer's ring only, `refused` met a full device ring, `kicking` has yet to wake a worker
      and `announcing` has yet to wake the consumer.  `unheard` records the batches that were
      given up without waking it. */
  datatype State = State(
    peers: map<nat, Peer>, cpus: map<nat, Cpu>, device: seq<Batch>, status: map<Batch, Status>,
    entering: set<Batch>, refused: set<Batch>, kicking: set<Batch>, announcing: set<Batch>, rejected: set<Batch>, unheard: set<Batch>)

  const MAX_QUEUED_PACKETS: nat := 1024

  datatype Step =
    | Enter(b: Batch) | Reject(b: Batch)
    | ToDevice(b: Batch) | DeviceFull(b: Batch) | Kick(b: Batch, cpu: nat)
    | Kill(b: Batch) | KillUnheard(b: Batch) | Announce(b: Batch)
    | WorkerStart(cpu: nat) | WorkerTake(cpu: nat) | WorkerDone(cpu: nat, ok: bool) | WorkerTell(cpu: nat) | WorkerStop(cpu: nat)
    | ConsumerStart(p: nat) | ConsumerPeek(p: nat) | ConsumerRead(p: nat) | ConsumerTake(p: nat)

  /** The sending side wakes the consumer of a batch it gives up; the receiving side queues a
      work item that has no function instead. */
  datatype Side = Sending | Receiving

  predicate OnSide(step: Step, side: Side) { if side.Sending? then !step.KillUnheard? else !step.Kill? }

  const INITIAL := State(map[], map[], [], map[], {}, {}, {}, {}, {}, {})

  function PeerAt(s: State, p: nat): Peer { if p in s.peers then s.peers[p] else Peer([], Idle, false, [], []) }

  function CpuAt(s: State, c: nat): Cpu { if c in s.cpus then s.cpus[c] else Cpu(Off, false) }

  ghost function Batches(ds: seq<Departure>): seq<Batch> { seq(|ds|, i requires 0 <= i < |ds| => ds[i].batch) }

  // ------------------------------------------------------------ steps

  ghost predicate Enabled(s: State, step: Step) {
    match step
    case Enter(b) => b !in s.status && b !in s.rejected && |PeerAt(s, b.peer).ring| < MAX_QUEUED_PACKETS
    case Reject(b) => b !in s.status && b !in s.rejected
    case ToDevice(b) => b in s.entering && |s.device| < MAX_QUEUED_PACKETS
    case DeviceFull(b) => b in s.entering
    case Kick(b, _) => b in s.kicking
    case Kill(b) => b in s.refused
    case KillUnheard(b) => b in s.refused
    case Announce(b) => b in s.announcing
    case WorkerStart(c) => CpuAt(s, c).queued && CpuAt(s, c).worker.Off?
    case WorkerTake(c) => CpuAt(s, c).worker.Loop? && s.device != []
    case WorkerDone(c, _) => CpuAt(s, c).worker.Busy?
    case WorkerTell(c) => CpuAt(s, c).worker.Telling?
    case WorkerStop(c) => CpuAt(s, c).worker.Loop? && s.device == []
    case ConsumerStart(p) => PeerAt(s, p).pending && PeerAt(s, p).consumer.Idle?
    case ConsumerPeek(p) => PeerAt(s, p).consumer.Top?
    case ConsumerRead(p) => PeerAt(s, p).consumer.Peeked? && PeerAt(s, p).consumer.b in s.status
    case ConsumerTake(p) => PeerAt(s, p).consumer.Ready? && PeerAt(s, p).ring != []
  }

  ghost function SetPeer(s: State, p: nat, q: Peer): State { s.(peers := s.peers[p := q]) }

  ghost function SetCpu(s: State, c: nat, q: Cpu): State { s.(cpus := s.cpus[c := q]) }

  /** queue_work_on for the consumer of a peer. */
  ghost function Wake(s: State, p: nat): State { SetPeer(s, p, PeerAt(s, p).(pending := true)) }

  ghost function Next(s: State, step: Step): State
    requires Enabled(s, step)
  {
    match step
    case Enter(b) =>
      var q := PeerAt(s, b.peer);
      SetPeer(s, b.peer, q.(ring := q.ring + [b], enqueued := q.enqueued + [b]))
        .(status := s.status[b := Uncrypted], entering := s.entering + {b})
    case Reject(b) => s.(rejected := s.rejected + {b})
    case ToDevice(b) => s.(entering := s.entering - {b}, device := s.device + [b], kicking := s.kicking + {b})
    case DeviceFull(b) => s.(entering := s.entering - {b}, refused := s.refused + {b})
    case Kick(b, c) => SetCpu(s, c, CpuAt(s, c).(queued := true)).(kicking := s.kicking - {b})
    case Kill(b) => s.(refused := s.refused - {b}, status := s.status[b := Dead], announcing := s.announcing + {b})
    case KillUnheard(b) => s.(refused := s.refused - {b}, status := s.status[b := Dead], unheard := s.unheard + {b})
    case Announce(b) => Wake(s, b.peer).(announcing := s.announcing - {b})
    case WorkerStart(c) => SetCpu(s, c, Cpu(Loop, false))
    case WorkerTake(c) => SetCpu(s, c, CpuAt(s, c).(worker := Busy(s.device[0]))).(device := s.device[1..])
    case WorkerDone(c, ok) =>
      var b := CpuAt(s, c).worker.b;
      SetCpu(s, c, CpuAt(s, c).(worker := Telling(b))).(status := s.status[b := if ok then Crypted else Dead])
    case WorkerTell(c) => Wake(SetCpu(s, c, CpuAt(s, c).(worker := Loop)), CpuAt(s, c).worker.b.peer)
    case WorkerStop(c) => SetCpu(s, c, CpuAt(s, c).(worker := Off))
    case ConsumerStart(p) => SetPeer(s, p, PeerAt(s, p).(pending := false, consumer := Top))
    case ConsumerPeek(p) =>
      var q := PeerAt(s, p);
      SetPeer(s, p, q.(consumer := if q.ring == [] then Idle else Peeked(q.ring[0])))
    case ConsumerRead(p) =>
      var q := PeerAt(s, p);
      var st := s.status[q.consumer.b];
      SetPeer(s, p, q.(consumer := if st.Uncrypted? then Idle else Ready(q.consumer.b, st)))
    case ConsumerTake(p) =>
      var q := PeerAt(s, p);
      SetPeer(s, p, q.(ring := q.ring[1..], consumer := Top,
                       taken := q.taken + [Departure(q.consumer.b, q.consumer.status.Crypted?)]))
  }

  /** The state a run of steps leads to. */
  ghost predicate Reaches(s: State, steps: seq<Step>, t: State)
    decreases |steps|
  {
    if steps == [] then s == t else Enabled(s, steps[0]) && Reaches(Next(s, steps[0]), steps[1..], t)
  }

  // ------------------------------------------------------------ the invariant

  ghost predicate NoDuplicates(bs: seq<Batch>) { forall i, j :: 0 <= i < j < |bs| ==> bs[i] != bs[j] }

  /** What left the ring, followed by what is in it, is what was put in. */
  ghost predicate Fifo(s: State) {
    forall p :: PeerAt(s, p).enqueued == Batches(PeerAt(s, p).taken) + PeerAt(s, p).ring
  }

  ghost predicate Homes(s: State) {
    forall p :: NoDuplicates(PeerAt(s, p).enqueued)
                && forall b :: b in PeerAt(s, p).enqueued ==> b.peer == p && b in s.status
  }

  ghost predicate BusyWith(s: State, c: nat, b: Batch) { CpuAt(s, c).worker == Busy(b) }

  ghost predicate Owned(s: State, b: Batch) {
    b in s.entering || b in s.refused || b in s.device || InWork(s, b)
  }

  /** No batch has two owners. */
  ghost predicate OneOwner(s: State) {
    s.entering !! s.refused
    && (forall b :: b in s.device ==> b !in s.entering && b !in s.refused)
    && NoDuplicates(s.device)
    && (forall c, b :: BusyWith(s, c, b) ==> b !in s.entering && b !in s.refused && b !in s.device)
    && (forall c, d, b :: BusyWith(s, c, b) && BusyWith(s, d, b) ==> c == d)
  }

  ghost predicate Waiting(s: State, b: Batch) {
    b in PeerAt(s, b.peer).ring && b in s.status && s.status[b].Uncrypted?
  }

  /** Exactly the queued batches that are not encrypted yet have an owner. */
  ghost predicate OwnedExactly(s: State) {
    forall b :: Owned(s, b) <==> Waiting(s, b)
  }

  /** What the consumer believes about the head of its ring is true. */
  ghost predicate ConsumerRight(s: State, p: nat) {
    var q := PeerAt(s, p);
    (q.consumer.Peeked? || q.consumer.Ready? ==> q.ring != [] && q.ring[0] == q.consumer.b)
    && (q.consumer.Ready? ==> q.consumer.b in s.status && s.status[q.consumer.b] == q.consumer.status && !q.consumer.status.Uncrypted?)
  }

  ghost predicate ConsumersRight(s: State) { forall p {:trigger PeerAt(s, p)} :: ConsumerRight(s, p) }

  /** Sent batches are encrypted, freed ones failed. */
  ghost predicate DeparturesRight(s: State) {
    forall p, d :: d in PeerAt(s, p).taken ==>
      d.batch in s.status && s.status[d.batch] == (if d.sent then Crypted else Dead)
  }

  /** Somebody is on the way to the consumer, or nobody ever was. */
  ghost predicate Announced(s: State, p: nat, b: Batch) {
    PeerAt(s, p).pending || !PeerAt(s, p).consumer.Idle? || b in s.announcing || b in s.unheard
    || exists c :: CpuAt(s, c).worker == Telling(b)
  }

  /** The consumer could take the batch at the head of the ring. */
  ghost predicate HeadDone(s: State, p: nat) {
    var ring := PeerAt(s, p).ring;
    ring != [] && ring[0] in s.status && !s.status[ring[0]].Uncrypted?
  }

  /** No lost wake-up of a consumer. */
  ghost predicate ConsumersWoken(s: State) {
    forall p {:trigger PeerAt(s, p)} :: HeadDone(s, p) ==> Announced(s, p, PeerAt(s, p).ring[0])
  }

  /** No lost wake-up of the workers. */
  ghost predicate WorkersWoken(s: State) {
    s.device != [] ==> s.kicking != {} || exists c :: CpuAt(s, c) != Cpu(Off, false)
  }

  ghost predicate Inv(s: State) {
    Fifo(s) && Homes(s) && OneOwner(s) && OwnedExactly(s) && ConsumersRight(s) && DeparturesRight(s)
    && ConsumersWoken(s) && WorkersWoken(s)
  }

  // ------------------------------------------------------------ every step keeps it

  /** How the record of a peer changes. */
  lemma PeerNext(s: State, step: Step, p: nat)
    requires Enabled(s, step)
    ensures var q, r := PeerAt(s, p), PeerAt(Next(s, step), p);
            if step.Enter? && step.b.peer == p
            then r.ring == q.ring + [step.b] && r.enqueued == q.enqueued + [step.b] && r.taken == q.taken && r.consumer == q.consumer
            else if step == ConsumerTake(p)
            then r.ring == q.ring[1..] && r.enqueued == q.enqueued && r.consumer == Top
                 && r.taken == q.taken + [Departure(q.consumer.b, q.consumer.status.Crypted?)]
            else r.ring == q.ring && r.enqueued == q.enqueued && r.taken == q.taken
                 && (step in {ConsumerStart(p), ConsumerPeek(p), ConsumerRead(p)} || r.consumer == q.consumer)
  {
  }

  lemma StepFifo(s: State, step: Step)
    requires Fifo(s) && ConsumersRight(s) && Enabled(s, step)
    ensures Fifo(Next(s, step))
  {
    var t := Next(s, step);
    forall p ensures PeerAt(t, p).enqueued == Batches(PeerAt(t, p).taken) + PeerAt(t, p).ring {
      PeerNext(s, step, p);
      FifoKept(PeerAt(s, p), PeerAt(t, p));
    }
  }

  lemma FifoKept(q: Peer, r: Peer)
    requires q.enqueued == Batches(q.taken) + q.ring
    requires (r.ring == q.ring && r.enqueued == q.enqueued && r.taken == q.taken)
             || (exists b :: r.ring == q.ring + [b] && r.enqueued == q.enqueued + [b] && r.taken == q.taken)
             || (q.ring != [] && r.ring == q.ring[1..] && r.enqueued == q.enqueued
                 && exists sent :: r.taken == q.taken + [Departure(q.ring[0], sent)])
    ensures r.enqueued == Batches(r.taken) + r.ring
  {
    if q.ring != [] && r.ring == q.ring[1..] {
      assert q.ring == [q.ring[0]] + q.ring[1..];
      if sent :| r.taken == q.taken + [Departure(q.ring[0], sent)] {
        assert Batches(r.taken) == Batches(q.taken) + [q.ring[0]];
      }
    }
  }

  lemma StepHomes(s: State, step: Step)
    requires Homes(s) && Enabled(s, step)
    ensures Homes(Next(s, step))
  {
    var t := Next(s, step);
    forall p ensures NoDuplicates(PeerAt(t, p).enqueued)
                     && forall b :: b in PeerAt(t, p).enqueued ==> b.peer == p && b in t.status {
      PeerNext(s, step, p);
      var q := PeerAt(s, p);
      assert NoDuplicates(q.enqueued) && forall b :: b in q.enqueued ==> b.peer == p && b in s.status;
    }
  }

  /** How the workers' batches change. */
  lemma BusyNext(s: State, step: Step, c: nat, b: Batch)
    requires Enabled(s, step)
    ensures BusyWith(Next(s, step), c, b)
       <==> (step == WorkerTake(c) && b == s.device[0]) || (BusyWith(s, c, b) && !(step.WorkerDone? && step.cpu == c))
  {
  }

  lemma StepOwners(s: State, step: Step)
    requires OneOwner(s) && OwnedExactly(s) && Enabled(s, step)
    ensures OneOwner(Next(s, step))
  {
    var t := Next(s, step);
    if step.Enter? {
      assert !Owned(s, step.b);
    }
    forall c, b | BusyWith(t, c, b) ensures b !in t.entering && b !in t.refused && b !in t.device {
      BusyNext(s, step, c, b);
      assert step == WorkerTake(c) || BusyWith(s, c, b);
    }
    forall c, d, b | BusyWith(t, c, b) && BusyWith(t, d, b) ensures c == d {
      BusyNext(s, step, c, b);
      BusyNext(s, step, d, b);
    }
  }

  /** The step ends the encryption of `b`. */
  ghost predicate Releases(s: State, step: Step, b: Batch) {
    step == Kill(b) || step == KillUnheard(b) || (step.WorkerDone? && BusyWith(s, step.cpu, b))
  }

  ghost predicate InWork(s: State, b: Batch) { exists c :: BusyWith(s, c, b) }

  lemma InWorkNext(s: State, step: Step, b: Batch)
    requires OneOwner(s) && Enabled(s, step)
    ensures InWork(Next(s, step), b)
       <==> (step.WorkerTake? && b == s.device[0]) || (InWork(s, b) && !(step.WorkerDone? && BusyWith(s, step.cpu, b)))
  {
    var t := Next(s, step);
    if c :| BusyWith(s, c, b) {
      BusyNext(s, step, c, b);
    }
    if c :| BusyWith(t, c, b) {
      BusyNext(s, step, c, b);
    }
    if step.WorkerTake? {
      BusyNext(s, step, step.cpu, b);
    }
  }

  lemma OwnedNext(s: State, step: Step, b: Batch)
    requires OneOwner(s) && OwnedExactly(s) && Enabled(s, step)
    ensures Owned(Next(s, step), b) <==> (Owned(s, b) || step == Enter(b)) && !Releases(s, step, b)
  {
    InWorkNext(s, step, b);
    if step.Enter? {
      assert !Waiting(s, step.b);
    }
  }

  lemma WaitingNext(s: State, step: Step, b: Batch)
    requires Fifo(s) && Homes(s) && OwnedExactly(s) && ConsumersRight(s) && Enabled(s, step)
    ensures Waiting(Next(s, step), b) <==> (Waiting(s, b) || step == Enter(b)) && !Releases(s, step, b)
  {
    var q := PeerAt(s, b.peer);
    PeerNext(s, step, b.peer);
    UncryptedNext(s, step, b);
    assert q.enqueued == Batches(q.taken) + q.ring;
    assert b in q.ring ==> b in q.enqueued;
    if step == ConsumerTake(b.peer) {
      assert q.ring == [q.ring[0]] + q.ring[1..];
      assert ConsumerRight(s, b.peer);
    }
  }

  lemma UncryptedNext(s: State, step: Step, b: Batch)
    requires Enabled(s, step)
    requires OwnedExactly(s)
    ensures var t := Next(s, step);
            b in t.status && t.status[b].Uncrypted? <==>
              (b in s.status && s.status[b].Uncrypted? && !Releases(s, step, b)) || step == Enter(b)
  {
    if step.Kill? || step.KillUnheard? || step.WorkerDone? {
      var d := if !step.WorkerDone? then step.b else CpuAt(s, step.cpu).worker.b;
      assert step.WorkerDone? ==> BusyWith(s, step.cpu, d);
      assert Owned(s, d);
      assert Waiting(s, d);
    }
  }

  lemma StepOwned(s: State, step: Step)
    requires Inv(s) && Enabled(s, step)
    ensures OwnedExactly(Next(s, step))
  {
    forall b ensures Owned(Next(s, step), b) <==> Waiting(Next(s, step), b) {
      OwnedNext(s, step, b);
      WaitingNext(s, step, b);
      assert Owned(s, b) <==> Waiting(s, b);
    }
  }

  /** The status of a batch changes only while it waits in its ring. */
  lemma StatusNext(s: State, step: Step, b: Batch)
    requires OwnedExactly(s) && Enabled(s, step) && b in s.status && !s.status[b].Uncrypted?
    ensures b in Next(s, step).status && Next(s, step).status[b] == s.status[b]
  {
    assert !Waiting(s, b);
    assert !Owned(s, b);
    if step.WorkerDone? {
      assert !BusyWith(s, step.cpu, b);
    }
  }

  lemma StepConsumers(s: State, step: Step)
    requires ConsumersRight(s) && OwnedExactly(s) && Enabled(s, step)
    ensures ConsumersRight(Next(s, step))
  {
    forall p ensures ConsumerRight(Next(s, step), p) {
      StepConsumer(s, step, p);
    }
  }

  lemma StepConsumer(s: State, step: Step, p: nat)
    requires ConsumerRight(s, p) && OwnedExactly(s) && Enabled(s, step)
    ensures ConsumerRight(Next(s, step), p)
  {
    PeerNext(s, step, p);
    if PeerAt(s, p).consumer.Ready? {
      StatusNext(s, step, PeerAt(s, p).consumer.b);
    }
  }

  lemma StepDepartures(s: State, step: Step)
    requires ConsumersRight(s) && OwnedExactly(s) && DeparturesRight(s) && Enabled(s, step)
    ensures DeparturesRight(Next(s, step))
  {
    var t := Next(s, step);
    forall p, d | d in PeerAt(t, p).taken
      ensures d.batch in t.status && t.status[d.batch] == (if d.sent then Crypted else Dead)
    {
      PeerNext(s, step, p);
      if d in PeerAt(s, p).taken {
        StatusNext(s, step, d.batch);
      } else {
        assert step == ConsumerTake(p) && PeerAt(s, p).consumer.Ready?;
        StatusNext(s, step, d.batch);
      }
    }
  }

  lemma StepWoken(s: State, step: Step)
    requires Inv(s) && Enabled(s, step)
    ensures ConsumersWoken(Next(s, step)) && WorkersWoken(Next(s, step))
  {
    var t := Next(s, step);
    forall p ensures HeadDone(t, p) ==> Announced(t, p, PeerAt(t, p).ring[0]) {
      HeadAnnounced(s, step, p);
    }
    DeviceWatched(s, step);
  }

  lemma HeadAnnounced(s: State, step: Step, p: nat)
    requires Inv(s) && Enabled(s, step)
    ensures var t := Next(s, step); HeadDone(t, p) ==> Announced(t, p, PeerAt(t, p).ring[0])
  {
    var t := Next(s, step);
    if HeadDone(t, p) {
      var q := PeerAt(s, p);
      var b := PeerAt(t, p).ring[0];
      PeerNext(s, step, p);
      UncryptedNext(s, step, b);
      assert q.enqueued == Batches(q.taken) + q.ring;
      if step != ConsumerTake(p) && !(step.Enter? && step.b == b) {
        assert q.ring != [] && q.ring[0] == b;
        assert b in q.enqueued;
        assert b.peer == p && b in s.status;
        if Releases(s, step, b) {
          ReleaseAnnounces(s, step, p, b);
        } else {
          assert Announced(s, p, b);
          StillAnnounced(s, step, p, b);
        }
      }
    }
  }

  lemma ReleaseAnnounces(s: State, step: Step, p: nat, b: Batch)
    requires Enabled(s, step) && Releases(s, step, b)
    ensures Announced(Next(s, step), p, b)
  {
    assert step.Kill? || step.KillUnheard? || CpuAt(Next(s, step), step.cpu).worker == Telling(b);
  }

  lemma StillAnnounced(s: State, step: Step, p: nat, b: Batch)
    requires Inv(s) && Enabled(s, step) && Announced(s, p, b) && b.peer == p && HeadDone(s, p) && PeerAt(s, p).ring[0] == b
    ensures Announced(Next(s, step), p, b)
  {
    var t := Next(s, step);
    if c :| CpuAt(s, c).worker == Telling(b) {
      if step != WorkerTell(c) {
        assert CpuAt(t, c).worker == Telling(b);
      }
    }
  }

  lemma DeviceWatched(s: State, step: Step)
    requires WorkersWoken(s) && Enabled(s, step)
    ensures WorkersWoken(Next(s, step))
  {
    var t := Next(s, step);
    match step
    case Kick(_, c) =>
      assert CpuAt(t, c).queued;
    case WorkerStart(c) =>
      assert CpuAt(t, c).worker == Loop;
    case WorkerTake(c) =>
      assert CpuAt(t, c).worker.Busy?;
    case WorkerDone(c, _) =>
      assert CpuAt(t, c).worker.Telling?;
    case WorkerTell(c) =>
      assert CpuAt(t, c).worker == Loop;
    case WorkerStop(_) =>
    case _ =>
      assert forall c :: CpuAt(t, c) == CpuAt(s, c);
  }

  lemma StepInv(s: State, step: Step)
    requires Inv(s) && Enabled(s, step)
    ensures Inv(Next(s, step))
  {
    StepFifo(s, step);
    StepHomes(s, step);
    StepOwners(s, step);
    StepOwned(s, step);
    StepConsumers(s, step);
    StepDepartures(s, step);
    StepWoken(s, step);
  }

  lemma {:induction false} ReachesInv(s: State, steps: seq<Step>, t: State)
    requires Inv(s) && Reaches(s, steps, t)
    ensures Inv(t)
    decreases |steps|
  {
    if steps != [] {
      StepInv(s, steps[0]);
      ReachesInv(Next(s, steps[0]), steps[1..], t);
    }
  }

  lemma InitialInv()
    ensures Inv(INITIAL)
  {
    forall p ensures ConsumerRight(INITIAL, p) {
      assert PeerAt(INITIAL, p).consumer.Idle?;
    }
  }

  /** A state that some run from the start leads to. */
  ghost predicate Reachable(t: State) { exists steps :: Reaches(INITIAL, steps, t) }

  lemma ReachableInv(t: State)
    requires Reachable(t)
    ensures Inv(t)
  {
    var steps :| Reaches(INITIAL, steps, t);
    InitialInv();
    ReachesInv(INITIAL, steps, t);
  }
}
