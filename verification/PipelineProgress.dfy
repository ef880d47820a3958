/** The encryption pipeline drains: without new batches only boundedly many steps remain. */
module PipelineProgress {
  import opened CryptPipeline
  import opened PipelineTheorems

  // ------------------------------------------------------------ sums over a map

  ghost function Total(m: map<nat, nat>): nat
    decreases |m|
  {
    if m == map[] then 0 else
      var k :| k in m;
      assert |m - {k}| < |m| by { Smaller(m, k); }
      m[k] + Total(m - {k})
  }

  lemma Smaller(m: map<nat, nat>, k: nat)
    requires k in m
    ensures |m - {k}| < |m|
  {
    assert (m - {k}).Keys == m.Keys - {k};
    assert |(m - {k}).Keys| == |m.Keys| - 1;
  }

  lemma {:induction false} TotalRemove(m: map<nat, nat>, k: nat)
    requires k in m
    ensures Total(m) == m[k] + Total(m - {k})
    decreases |m|
  {
    var j :| j in m && Total(m) == m[j] + Total(m - {j});
    if j != k {
      Smaller(m, j);
      Smaller(m, k);
      TotalRemove(m - {j}, k);
      TotalRemove(m - {k}, j);
      assert m - {j} - {k} == m - {k} - {j};
    }
  }

  ghost function Value(m: map<nat, nat>, k: nat): nat { if k in m then m[k] else 0 }

  lemma TotalUpdate(m: map<nat, nat>, k: nat, v: nat)
    ensures Total(m[k := v]) == Total(m) - Value(m, k) + v
  {
    TotalRemove(m[k := v], k);
    if k in m {
      TotalRemove(m, k);
      assert m[k := v] - {k} == m - {k};
    } else {
      assert m[k := v] - {k} == m;
    }
  }

  // ------------------------------------------------------------ the measure

  ghost function ConsumerWeight(c: Consumer): nat {
    match c
    case Idle => 0
    case Top => 3
    case Peeked(_) => 2
    case Ready(_, _) => 1
  }

  ghost function PeerWeight(q: Peer): nat { 3 * |q.ring| + ConsumerWeight(q.consumer) + if q.pending then 4 else 0 }

  ghost function CpuWeight(c: Cpu): nat {
    (match c.worker case Off => 0 case Loop => 1 case Busy(_) => 7 case Telling(_) => 6) + if c.queued then 2 else 0
  }

  ghost function PeerWeights(s: State): map<nat, nat> { map p | p in s.peers :: PeerWeight(s.peers[p]) }

  ghost function CpuWeights(s: State): map<nat, nat> { map c | c in s.cpus :: CpuWeight(s.cpus[c]) }

  /** Bounds the number of steps left. */
  ghost function Work(s: State): nat {
    Total(PeerWeights(s)) + Total(CpuWeights(s))
    + 7 * |s.device| + 11 * |s.entering| + 6 * |s.refused| + 3 * |s.kicking| + 5 * |s.announcing|
  }

  lemma PeerUpdate(s: State, p: nat, q: Peer)
    ensures Total(PeerWeights(SetPeer(s, p, q))) == Total(PeerWeights(s)) - PeerWeight(PeerAt(s, p)) + PeerWeight(q)
  {
    TotalUpdate(PeerWeights(s), p, PeerWeight(q));
    assert PeerWeights(SetPeer(s, p, q)) == PeerWeights(s)[p := PeerWeight(q)];
  }

  lemma CpuUpdate(s: State, c: nat, q: Cpu)
    ensures Total(CpuWeights(SetCpu(s, c, q))) == Total(CpuWeights(s)) - CpuWeight(CpuAt(s, c)) + CpuWeight(q)
  {
    TotalUpdate(CpuWeights(s), c, CpuWeight(q));
    assert CpuWeights(SetCpu(s, c, q)) == CpuWeights(s)[c := CpuWeight(q)];
  }

  // ------------------------------------------------------------ every step uses some of it

  ghost predicate Internal(step: Step) { !step.Enter? && !step.Reject? }

  lemma EnqueuerStep(s: State, step: Step)
    requires Enabled(s, step) && (step.ToDevice? || step.DeviceFull? || step.Kick? || step.Kill? || step.KillUnheard? || step.Announce?)
    ensures Work(Next(s, step)) < Work(s)
  {
    var t := Next(s, step);
    if step.Kick? {
      CpuUpdate(s, step.cpu, CpuAt(s, step.cpu).(queued := true));
    }
    if step.Announce? {
      PeerUpdate(s, step.b.peer, PeerAt(s, step.b.peer).(pending := true));
    }
  }

  lemma WorkerStep(s: State, step: Step)
    requires Enabled(s, step)
    requires step.WorkerStart? || step.WorkerTake? || step.WorkerDone? || step.WorkerTell? || step.WorkerStop?
    ensures Work(Next(s, step)) < Work(s)
  {
    var c := step.cpu;
    var u := CpuAt(Next(s, step), c);
    CpuUpdate(s, c, u);
    if step.WorkerTell? {
      var v := SetCpu(s, c, u);
      var p := CpuAt(s, c).worker.b.peer;
      PeerUpdate(v, p, PeerAt(v, p).(pending := true));
    }
  }

  lemma ConsumerStep(s: State, step: Step)
    requires Enabled(s, step)
    requires step.ConsumerStart? || step.ConsumerPeek? || step.ConsumerRead? || step.ConsumerTake?
    ensures Work(Next(s, step)) < Work(s)
  {
    PeerUpdate(s, step.p, PeerAt(Next(s, step), step.p));
  }

  /** Any run of internal steps, in any order, is at most `Work(s)` steps long. */
  lemma {:induction false} Drains(s: State, steps: seq<Step>, t: State)
    requires Reaches(s, steps, t) && forall x :: x in steps ==> Internal(x)
    ensures |steps| + Work(t) <= Work(s)
    decreases |steps|
  {
    if steps != [] {
      var x := steps[0];
      assert Internal(x);
      if x.ConsumerStart? || x.ConsumerPeek? || x.ConsumerRead? || x.ConsumerTake? {
        ConsumerStep(s, x);
      } else if x.WorkerStart? || x.WorkerTake? || x.WorkerDone? || x.WorkerTell? || x.WorkerStop? {
        WorkerStep(s, x);
      } else {
        EnqueuerStep(s, x);
      }
      Drains(Next(s, x), steps[1..], t);
    }
  }

  /** As long as not everything is at rest some internal step of the side is possible. */
  lemma Progress(t: State, side: Side) returns (step: Step)
    requires Reachable(t) && !Quiet(t)
    ensures Internal(step) && OnSide(step, side) && Enabled(t, step)
  {
    ReachableInv(t);
    if b :| b in t.entering {
      step := if |t.device| < MAX_QUEUED_PACKETS then ToDevice(b) else DeviceFull(b);
    } else if b :| b in t.refused {
      step := if side.Sending? then Kill(b) else KillUnheard(b);
    } else if b :| b in t.kicking {
      step := Kick(b, 0);
    } else if b :| b in t.announcing {
      step := Announce(b);
    } else if c :| CpuAt(t, c) != Cpu(Off, false) {
      step := match CpuAt(t, c).worker
        case Off => WorkerStart(c)
        case Loop => if t.device == [] then WorkerStop(c) else WorkerTake(c)
        case Busy(_) => WorkerDone(c, true)
        case Telling(_) => WorkerTell(c);
    } else {
      var p :| !PeerAt(t, p).consumer.Idle? || PeerAt(t, p).pending;
      var q := PeerAt(t, p);
      assert q.consumer.Peeked? || q.consumer.Ready? ==> q.ring != [] && q.ring[0] == q.consumer.b;
      assert q.enqueued == Batches(q.taken) + q.ring;
      assert q.ring != [] ==> q.ring[0] in q.enqueued;
      step := match q.consumer
        case Idle => ConsumerStart(p)
        case Top => ConsumerPeek(p)
        case Peeked(_) => ConsumerRead(p)
        case Ready(_, _) => ConsumerTake(p);
    }
  }
}
