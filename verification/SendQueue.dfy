/** What becomes of the packets in a peer's staged queue: none is lost, none is sent twice, and
    a batch that cannot be sent comes back where it was. */
module SendQueue {
  import ReplayWindow
  import opened SendNonces

  ghost function Added(step: Step): seq<nat> { if step.Enqueue? then [step.packet] else [] }

  /** The packets that the steps of a run add to the queue, in order. */
  ghost function Enqueued(steps: seq<Step>): seq<nat> {
    if steps == [] then [] else Added(steps[0]) + Enqueued(steps[1..])
  }

  ghost function PacketsOf(sent: seq<Sent>): seq<nat> { seq(|sent|, i requires 0 <= i < |sent| => sent[i].packet) }

  /** The packets a thread holds. */
  ghost function Carried(x: Sender): seq<nat> { if x.Idle? then [] else x.packets }

  lemma {:induction false} PairedPackets(sent: seq<Sent>, packets: seq<nat>, nonces: seq<nat>)
    requires |nonces| == |packets|
    ensures PacketsOf(sent + Paired(packets, nonces)) == PacketsOf(sent) + packets
  {
  }

  // ------------------------------------------------------------ conservation

  /** The packets held by the threads below `n`. */
  ghost function HeldBelow(s: State, n: nat): multiset<nat> {
    if n == 0 then multiset{} else HeldBelow(s, n - 1) + multiset(Carried(At(s, n - 1)))
  }

  /** Everything that is in the queue, held by a thread below `n`, or sent. */
  ghost function Everything(s: State, n: nat): multiset<nat> {
    multiset(s.staged) + HeldBelow(s, n) + multiset(PacketsOf(s.sent))
  }

  lemma {:induction false} HeldSame(s: State, u: State, n: nat)
    requires forall t :: 0 <= t < n ==> At(u, t) == At(s, t)
    ensures HeldBelow(u, n) == HeldBelow(s, n)
  {
    if n > 0 {
      HeldSame(s, u, n - 1);
    }
  }

  lemma {:induction false} HeldMoved(s: State, u: State, n: nat, t: nat)
    requires t < n && forall x :: x != t ==> At(u, x) == At(s, x)
    ensures HeldBelow(u, n) + multiset(Carried(At(s, t))) == HeldBelow(s, n) + multiset(Carried(At(u, t)))
  {
    if t == n - 1 {
      HeldSame(s, u, n - 1);
    } else {
      HeldMoved(s, u, n - 1, t);
    }
  }

  /** What one step moves where. */
  lemma {:induction false} StepMoves(s: State, step: Step, limit: nat)
    requires Enabled(s, step, limit) && !step.Enqueue?
    ensures var u, t := Next(s, step, limit), step.t;
            multiset(u.staged) + multiset(Carried(At(u, t))) + multiset(PacketsOf(u.sent))
            == multiset(s.staged) + multiset(Carried(At(s, t))) + multiset(PacketsOf(s.sent))
  {
    if step.HandOver? {
      PairedPackets(s.sent, At(s, step.t).packets, At(s, step.t).nonces);
    }
  }

  lemma {:induction false} StepKeepsAll(s: State, step: Step, limit: nat, n: nat)
    requires Enabled(s, step, limit) && (!step.Enqueue? ==> step.t < n)
    ensures Everything(Next(s, step, limit), n) == Everything(s, n) + multiset(Added(step))
  {
    var u := Next(s, step, limit);
    if step.Enqueue? {
      HeldSame(s, u, n);
      Joined(multiset(s.staged), multiset(Added(step)), HeldBelow(s, n), multiset(PacketsOf(s.sent)));
    } else {
      StepMoved(s, step, u, n, step.t, limit);
    }
  }

  lemma {:induction false} StepMoved(s: State, step: Step, u: State, n: nat, t: nat, limit: nat)
    requires Enabled(s, step, limit) && !step.Enqueue? && u == Next(s, step, limit) && t == step.t < n
    ensures Everything(u, n) == Everything(s, n)
  {
    assert forall x :: x != t ==> At(u, x) == At(s, x);
    HeldMoved(s, u, n, t);
    StepMoves(s, step, limit);
    Exchange(multiset(s.staged), HeldBelow(s, n), multiset(Carried(At(s, t))), multiset(PacketsOf(s.sent)),
             multiset(u.staged), HeldBelow(u, n), multiset(Carried(At(u, t))), multiset(PacketsOf(u.sent)));
  }

  lemma {:induction false} Joined(q: multiset<nat>, a: multiset<nat>, h: multiset<nat>, p: multiset<nat>)
    ensures (q + a) + h + p == q + h + p + a
  {
  }

  /** Queue, all threads, one thread and what was sent, before and after. */
  lemma {:induction false} Exchange(q: multiset<nat>, h: multiset<nat>, c: multiset<nat>, p: multiset<nat>,
                                    q': multiset<nat>, h': multiset<nat>, c': multiset<nat>, p': multiset<nat>)
    requires h' + c == h + c' && q' + c' + p' == q + c + p
    ensures q' + h' + p' == q + h + p
  {
    forall x ensures (q' + h' + p')[x] == (q + h + p)[x] {
      assert (h' + c)[x] == (h + c')[x] && (q' + c' + p')[x] == (q + c + p)[x];
    }
  }

  lemma {:induction false} RunKeepsAll(s: State, steps: seq<Step>, limit: nat, u: State, n: nat)
    requires Reaches(s, steps, limit, u) && forall x :: x in steps && !x.Enqueue? ==> x.t < n
    ensures Everything(u, n) == Everything(s, n) + multiset(Enqueued(steps))
    decreases |steps|
  {
    if steps != [] {
      assert steps[0] in steps;
      StepKeepsAll(s, steps[0], limit, n);
      RunKeepsAll(Next(s, steps[0], limit), steps[1..], limit, u, n);
    }
  }

  lemma {:induction false} NothingHeld(n: nat)
    ensures HeldBelow(INITIAL, n) == multiset{}
  {
    if n > 0 {
      NothingHeld(n - 1);
    }
  }

  /** In every run, with any number of threads, the packets ever enqueued are those in the
      queue, those the threads hold and those sent, each as often as it was enqueued. */
  lemma {:induction false} NothingLost(steps: seq<Step>, limit: nat, u: State, n: nat)
    requires Reaches(INITIAL, steps, limit, u) && forall x :: x in steps && !x.Enqueue? ==> x.t < n
    ensures multiset(Enqueued(steps)) == multiset(u.staged) + HeldBelow(u, n) + multiset(PacketsOf(u.sent))
  {
    RunKeepsAll(INITIAL, steps, limit, u, n);
    NothingHeld(n);
    assert PacketsOf(INITIAL.sent) == [];
  }

  // ------------------------------------------------------------ a failed batch comes back

  ghost predicate LeavesQueue(step: Step) { !step.Start? && !step.PutBack? }

  lemma {:induction false} QueueGrows(s: State, steps: seq<Step>, limit: nat, u: State, t: nat, ps: seq<nat>)
    requires Reaches(s, steps, limit, u) && (forall x :: x in steps ==> LeavesQueue(x))
    requires !At(s, t).Idle? ==> At(s, t).packets == ps
    ensures u.staged == s.staged + Enqueued(steps) && (!At(u, t).Idle? ==> At(u, t).packets == ps)
    decreases |steps|
  {
    if steps != [] {
      assert LeavesQueue(steps[0]);
      var v, rest := Next(s, steps[0], limit), steps[1..];
      QueueStep(s, steps[0], limit, t, ps);
      QueueGrows(v, rest, limit, u, t, ps);
      assert s.staged + Added(steps[0]) + Enqueued(rest) == s.staged + (Added(steps[0]) + Enqueued(rest));
    }
  }

  lemma {:induction false} QueueStep(s: State, step: Step, limit: nat, t: nat, ps: seq<nat>)
    requires Enabled(s, step, limit) && LeavesQueue(step) && (!At(s, t).Idle? ==> At(s, t).packets == ps)
    ensures var u := Next(s, step, limit);
            u.staged == s.staged + Added(step) && (!At(u, t).Idle? ==> At(u, t).packets == ps)
  {
  }

  /** A batch that cannot be sent returns whole and in order to the head of the queue: unless
      others took from it or put back meanwhile, the queue is what it was, followed by the
      packets enqueued since. */
  lemma FailureRestores(s: State, t: nat, steps: seq<Step>, limit: nat, u: State)
    requires Enabled(s, Start(t), limit) && (forall x :: x in steps ==> LeavesQueue(x))
    requires Reaches(Next(s, Start(t), limit), steps, limit, u) && Enabled(u, PutBack(t), limit)
    ensures Next(u, PutBack(t), limit).staged == s.staged + Enqueued(steps)
  {
    QueueGrows(Next(s, Start(t), limit), steps, limit, u, t, s.staged);
    assert [] + Enqueued(steps) == Enqueued(steps);
  }

  // ------------------------------------------------------------ one sender at a time

  /** Only thread `t` may hold packets; what was sent, what it holds and what waits is `all` in
      order, and the nonces go up. */
  ghost predicate InLine(s: State, t: nat, all: seq<nat>) {
    (forall x :: x != t ==> At(s, x).Idle?)
    && PacketsOf(s.sent) + Carried(At(s, t)) + s.staged == all
    && (forall i, j :: 0 <= i < j < |s.sent| ==> s.sent[i].nonce < s.sent[j].nonce)
    && (forall i, n :: 0 <= i < |s.sent| && Holds(s, t, n) ==> s.sent[i].nonce < n)
  }

  /** The thread that holds packets after a step. */
  ghost function Turn(step: Step, t: nat): nat { if step.Start? then step.t else t }

  lemma {:induction false} StepOrder(s: State, step: Step, t: nat, all: seq<nat>)
    requires Inv(s, 1) && Enabled(s, step, 1) && InLine(s, t, all) && (step.Start? ==> forall x :: At(s, x).Idle?)
    requires !step.Enqueue? && !step.Start? ==> step.t == t
    ensures var u := Next(s, step, 1);
            PacketsOf(u.sent) + Carried(At(u, Turn(step, t))) + u.staged == all + Added(step)
  {
    var u := Next(s, step, 1);
    match step
    case Enqueue(p) => assert PacketsOf(s.sent) + Carried(At(s, t)) + (s.staged + [p]) == all + [p];
    case HandOver(_) => PairedPackets(s.sent, At(s, t).packets, At(s, t).nonces);
    case _ =>
  }

  lemma {:induction false} StepNonces(s: State, step: Step, t: nat, all: seq<nat>)
    requires Inv(s, 1) && Enabled(s, step, 1) && InLine(s, t, all) && (!step.Enqueue? && !step.Start? ==> step.t == t)
    ensures var u := Next(s, step, 1);
            (forall i, j :: 0 <= i < j < |u.sent| ==> u.sent[i].nonce < u.sent[j].nonce)
            && (forall i, n :: 0 <= i < |u.sent| && Holds(u, Turn(step, t), n) ==> u.sent[i].nonce < n)
  {
    var u, x := Next(s, step, 1), Turn(step, t);
    if step.Assign? {
      CounterBelow(s, 1, t);
    }
    forall i, j | 0 <= i < j < |u.sent| ensures u.sent[i].nonce < u.sent[j].nonce {
      if j >= |s.sent| {
        SentNext(s, step, 1, j);
        if i >= |s.sent| {
          SentNext(s, step, 1, i);
          assert Increasing(At(s, t).nonces, s.total);
        } else {
          SentBefore(s, step, 1, i);
        }
      }
    }
    forall i, n | 0 <= i < |u.sent| && Holds(u, x, n) ensures u.sent[i].nonce < n {
      HoldsNext(s, step, 1, x, n);
      assert !step.HandOver?;
    }
  }

  lemma {:induction false} StepInLine(s: State, step: Step, t: nat, all: seq<nat>)
    requires Inv(s, 1) && Enabled(s, step, 1) && InLine(s, t, all)
    ensures InLine(Next(s, step, 1), Turn(step, t), all + Added(step))
  {
    var u := Next(s, step, 1);
    forall x | step.Start? ensures At(s, x).Idle? {
      assert Active(s) == {};
      assert x !in Active(s);
    }
    if !step.Enqueue? && !step.Start? {
      assert !At(s, step.t).Idle?;
    }
    StepOrder(s, step, t, all);
    StepNonces(s, step, t, all);
    forall x | x != Turn(step, t) ensures At(u, x).Idle? {
      assert At(u, x) == At(s, x);
    }
  }

  lemma {:induction false} StepBoth(s: State, step: Step, t: nat, all: seq<nat>, v: State)
    requires Inv(s, 1) && Enabled(s, step, 1) && InLine(s, t, all) && v == Next(s, step, 1)
    ensures Inv(v, 1) && InLine(v, Turn(step, t), all + Added(step))
  {
    StepHeadroom(s, step, 1);
    StepDistinct(s, step, 1);
    StepInLine(s, step, t, all);
  }

  lemma {:induction false} RunInLine(s: State, steps: seq<Step>, u: State, t: nat, all: seq<nat>) returns (x: nat)
    requires Inv(s, 1) && Reaches(s, steps, 1, u) && InLine(s, t, all)
    ensures InLine(u, x, all + Enqueued(steps))
    decreases |steps|
  {
    if steps == [] {
      x := t;
      assert all + [] == all;
    } else {
      var step, rest, v := steps[0], steps[1..], Next(s, steps[0], 1);
      StepBoth(s, step, t, all, v);
      x := RunInLine(v, rest, u, Turn(step, t), all + Added(step));
      assert (all + Added(step)) + Enqueued(rest) == all + (Added(step) + Enqueued(rest));
    }
  }

  /** With one sender at a time packets leave in the order in which they were enqueued, with
      nonces that go up, whatever fails in between. */
  lemma {:induction false} FirstInFirstOut(steps: seq<Step>, u: State) returns (t: nat)
    requires Reaches(INITIAL, steps, 1, u)
    ensures PacketsOf(u.sent) + Carried(At(u, t)) + u.staged == Enqueued(steps) && forall x :: x != t ==> At(u, x).Idle?
    ensures forall i, j :: 0 <= i < j < |u.sent| ==> u.sent[i].nonce < u.sent[j].nonce
  {
    assert Inv(INITIAL, 1) by {
      assert Active(INITIAL) == {} && SpoiledSet(INITIAL) == {};
    }
    assert InLine(INITIAL, 0, []);
    t := RunInLine(INITIAL, steps, u, 0, []);
    assert [] + Enqueued(steps) == Enqueued(steps);
  }

  // ------------------------------------------------------------ keys that are used up

  /** The key is no longer valid, and no thread is past the test of it. */
  ghost predicate Shut(s: State) { !s.valid && forall t :: !At(s, t).Assigning? }

  lemma {:induction false} ShutStep(s: State, step: Step, limit: nat)
    requires Shut(s) && Enabled(s, step, limit)
    ensures Shut(Next(s, step, limit)) && Next(s, step, limit).sent == s.sent && Next(s, step, limit).counter == s.counter
  {
    var u := Next(s, step, limit);
    forall t ensures !At(u, t).Assigning? {
      assert !At(s, t).Assigning?;
    }
  }

  /** From then on nothing is sent and no nonce is taken, whatever happens. */
  lemma {:induction false} InvalidSendsNothing(s: State, steps: seq<Step>, limit: nat, u: State)
    requires Shut(s) && Reaches(s, steps, limit, u)
    ensures Shut(u) && u.sent == s.sent && u.counter == s.counter
    decreases |steps|
  {
    if steps != [] {
      ShutStep(s, steps[0], limit);
      InvalidSendsNothing(Next(s, steps[0], limit), steps[1..], limit, u);
    }
  }

  /** The batch of a thread that found the key invalid, expired or used up. */
  ghost predicate Failing(s: State, t: nat, ps: seq<nat>) {
    var x := At(s, t);
    (x.Returning? && x.packets == ps && !s.valid) || (x.Spoiled? && x.packets == ps)
  }

  lemma {:induction false} FailingStep(s: State, step: Step, limit: nat, t: nat, ps: seq<nat>)
    requires Failing(s, t, ps) && Enabled(s, step, limit)
    ensures var u := Next(s, step, limit);
            Failing(u, t, ps) || (step == PutBack(t) && At(u, t).Idle? && !u.valid && u.staged == ps + s.staged && u.sent == s.sent)
  {
  }

  /** A thread that finds the key invalid or too old, or no nonce left, fails: until it puts its
      whole batch back it does nothing else, and by then the key is invalid. */
  lemma {:induction false} BadKeyFails(s: State, step: Step, limit: nat, t: nat, steps: seq<Step>, u: State)
    requires Enabled(s, step, limit) && Reaches(Next(s, step, limit), steps, limit, u) && PutBack(t) !in steps
    requires (step.CheckKey? && step.t == t && (!s.valid || step.expired)) || (step == Assign(t) && s.counter >= ReplayWindow.REJECT_AFTER_MESSAGES)
    ensures Failing(u, t, At(s, t).packets)
  {
    KeepsFailing(Next(s, step, limit), limit, t, At(s, t).packets, steps, u);
  }

  lemma {:induction false} KeepsFailing(s: State, limit: nat, t: nat, ps: seq<nat>, steps: seq<Step>, u: State)
    requires Failing(s, t, ps) && Reaches(s, steps, limit, u) && PutBack(t) !in steps
    ensures Failing(u, t, ps)
    decreases |steps|
  {
    if steps != [] {
      assert steps[0] in steps;
      FailingStep(s, steps[0], limit, t, ps);
      KeepsFailing(Next(s, steps[0], limit), limit, t, ps, steps[1..], u);
    }
  }
}
