/** Nonces of outgoing packets: many threads send from one peer's staged queue under one
    sending key and take nonces from one shared 64-bit counter.  A run is any interleaving
    of the atomic actions below. */
module SendNonces {
  import opened ReplayWindow

  const U64: nat := 0x1_0000_0000_0000_0000

  /** The thread between two of its actions: it holds the packets it took from the queue. */
  datatype Sender =
    | Idle
    | Loaded(packets: seq<nat>)                         // before the key is looked at
    | Assigning(packets: seq<nat>, nonces: seq<nat>)    // in the loop
    | Spoiled(packets: seq<nat>)                        // about to mark the key invalid
    | Returning(packets: seq<nat>)                      // about to put the packets back

  datatype Sent = Sent(packet: nat, nonce: nat)

  /** `total` records how often the counter was incremented. */
  datatype State = State(counter: nat, valid: bool, staged: seq<nat>, senders: map<nat, Sender>, sent: seq<Sent>, total: nat)

  datatype Step =
    | Enqueue(packet: nat)
    | Start(t: nat)                    // take the whole queue
    | CheckKey(t: nat, expired: bool)
    | Assign(t: nat)                   // one turn of the loop
    | HandOver(t: nat)                 // to encryption
    | Invalidate(t: nat)
    | PutBack(t: nat)

  /** The values of the counter from the limit on. */
  const MAX_SENDERS: nat := U64 - REJECT_AFTER_MESSAGES

  const INITIAL := State(0, true, [], map[], [], 0)

  ghost function At(s: State, t: nat): Sender { if t in s.senders then s.senders[t] else Idle }

  ghost function Active(s: State): set<nat> { set t | t in s.senders && !s.senders[t].Idle? }

  /** At most `limit` threads are in the function at the same time. */
  ghost predicate Enabled(s: State, step: Step, limit: nat) {
    match step
    case Enqueue(_) => true
    case Start(t) => At(s, t).Idle? && s.staged != [] && |Active(s)| < limit
    case CheckKey(t, _) => At(s, t).Loaded?
    case Assign(t) => At(s, t).Assigning? && |At(s, t).nonces| < |At(s, t).packets|
    case HandOver(t) => At(s, t).Assigning? && |At(s, t).nonces| == |At(s, t).packets|
    case Invalidate(t) => At(s, t).Spoiled?
    case PutBack(t) => At(s, t).Returning?
  }

  ghost function Put(s: State, t: nat, x: Sender): State { s.(senders := s.senders[t := x]) }

  ghost function Paired(packets: seq<nat>, nonces: seq<nat>): seq<Sent>
    requires |nonces| <= |packets|
  {
    seq(|nonces|, i requires 0 <= i < |nonces| => Sent(packets[i], nonces[i]))
  }

  ghost function Next(s: State, step: Step, limit: nat): State
    requires Enabled(s, step, limit)
  {
    match step
    case Enqueue(p) => s.(staged := s.staged + [p])
    case Start(t) => Put(s, t, Loaded(s.staged)).(staged := [])
    case CheckKey(t, expired) =>
      var ps := At(s, t).packets;
      Put(s, t, if !s.valid then Returning(ps) else if expired then Spoiled(ps) else Assigning(ps, []))
    case Assign(t) =>
      var x := At(s, t);
      Put(s, t, if s.counter >= REJECT_AFTER_MESSAGES then Spoiled(x.packets) else x.(nonces := x.nonces + [s.counter]))
        .(counter := (s.counter + 1) % U64, total := s.total + 1)
    case HandOver(t) => Put(s, t, Idle).(sent := s.sent + Paired(At(s, t).packets, At(s, t).nonces))
    case Invalidate(t) => Put(s, t, Returning(At(s, t).packets)).(valid := false)
    case PutBack(t) => Put(s, t, Idle).(staged := At(s, t).packets + s.staged)
  }

  ghost predicate Reaches(s: State, steps: seq<Step>, limit: nat, u: State)
    decreases |steps|
  {
    if steps == [] then s == u else Enabled(s, steps[0], limit) && Reaches(Next(s, steps[0], limit), steps[1..], limit, u)
  }

  // ------------------------------------------------------------ the counter never wraps

  ghost function SpoiledSet(s: State): set<nat> { set t | t in s.senders && s.senders[t].Spoiled? }
  ghost function AssigningSet(s: State): set<nat> { set t | t in s.senders && s.senders[t].Assigning? }

  /** While the key is valid every increment beyond the limit belongs to a thread that will
      mark it invalid; afterwards only threads already in the loop can increment. */
  ghost predicate Headroom(s: State, limit: nat) {
    |Active(s)| <= limit && s.counter == s.total % U64
    && (s.valid ==> s.total <= REJECT_AFTER_MESSAGES + |SpoiledSet(s)|)
    && (!s.valid ==> s.total + |AssigningSet(s)| <= REJECT_AFTER_MESSAGES + limit)
  }

  // ------------------------------------------------------------ no nonce twice

  ghost predicate Increasing(ns: seq<nat>, bound: nat) {
    (forall i :: 0 <= i < |ns| ==> ns[i] < bound && ns[i] < REJECT_AFTER_MESSAGES)
    && forall i, j :: 0 <= i < j < |ns| ==> ns[i] < ns[j]
  }

  ghost predicate Holds(s: State, t: nat, n: nat) { At(s, t).Assigning? && n in At(s, t).nonces }

  /** No two packets handed over have the same nonce. */
  ghost predicate Unique(s: State) { forall i, j :: 0 <= i < j < |s.sent| ==> s.sent[i].nonce != s.sent[j].nonce }

  ghost predicate Distinct(s: State) {
    (forall t :: At(s, t).Assigning? ==> Increasing(At(s, t).nonces, s.total) && |At(s, t).nonces| <= |At(s, t).packets|)
    && (forall t, u, n :: Holds(s, t, n) && Holds(s, u, n) ==> t == u)
    && (forall i :: 0 <= i < |s.sent| ==> s.sent[i].nonce < s.total && s.sent[i].nonce < REJECT_AFTER_MESSAGES)
    && (forall i, t :: 0 <= i < |s.sent| ==> !Holds(s, t, s.sent[i].nonce))
    && Unique(s)
  }

  ghost predicate Inv(s: State, limit: nat) { Headroom(s, limit) && Distinct(s) }

  // ------------------------------------------------------------ every step keeps it

  lemma Subset(a: set<nat>, b: set<nat>)
    requires a <= b
    ensures |a| <= |b|
  {
    assert b == a + (b - a);
  }

  lemma Disjoint(a: set<nat>, b: set<nat>, c: set<nat>)
    requires a <= c && b <= c && a !! b
    ensures |a| + |b| <= |c|
  {
    assert |a + b| == |a| + |b|;
    Subset(a + b, c);
  }

  /** The sets after one thread moved on. */
  lemma Moved(s: State, t: nat, x: Sender)
    ensures var u := Put(s, t, x);
            |SpoiledSet(u)| == |SpoiledSet(s)| + One(x.Spoiled?) - One(At(s, t).Spoiled?)
            && |AssigningSet(u)| == |AssigningSet(s)| + One(x.Assigning?) - One(At(s, t).Assigning?)
            && |Active(u)| == |Active(s)| + One(!x.Idle?) - One(!At(s, t).Idle?)
  {
    var u := Put(s, t, x);
    Resized(SpoiledSet(s), SpoiledSet(u), t, At(s, t).Spoiled?, x.Spoiled?);
    Resized(AssigningSet(s), AssigningSet(u), t, At(s, t).Assigning?, x.Assigning?);
    Resized(Active(s), Active(u), t, !At(s, t).Idle?, !x.Idle?);
  }

  lemma Resized(a: set<nat>, b: set<nat>, t: nat, was: bool, now: bool)
    requires (t in a <==> was) && (t in b <==> now) && forall x :: x != t ==> (x in a <==> x in b)
    ensures |b| == |a| + One(now) - One(was)
  {
    assert b == if now then a + {t} else a - {t};
  }

  ghost function One(b: bool): nat { if b then 1 else 0 }

  lemma StepHeadroom(s: State, step: Step, limit: nat)
    requires limit <= MAX_SENDERS && Headroom(s, limit) && Enabled(s, step, limit)
    ensures Headroom(Next(s, step, limit), limit)
  {
    Disjoint(SpoiledSet(s), AssigningSet(s), Active(s));
    if step.Assign? {
      CounterBelow(s, limit, step.t);
    }
    if !step.Enqueue? {
      var x := At(Next(s, step, limit), step.t);
      Moved(s, step.t, x);
      SameSets(Next(s, step, limit), Put(s, step.t, x));
    }
  }

  /** The sets depend on the threads only. */
  lemma SameSets(u: State, v: State)
    requires u.senders == v.senders
    ensures SpoiledSet(u) == SpoiledSet(v) && AssigningSet(u) == AssigningSet(v) && Active(u) == Active(v)
  {
  }

  /** A thread in the loop finds a counter that has not wrapped. */
  lemma CounterBelow(s: State, limit: nat, t: nat)
    requires limit <= MAX_SENDERS && Headroom(s, limit) && At(s, t).Assigning?
    ensures s.total < U64 && s.counter == s.total
  {
    Disjoint(SpoiledSet(s), AssigningSet(s), Active(s));
    Subset({t}, AssigningSet(s));
  }

  /** A thread's nonces are those it had, and the one it was just given. */
  lemma HoldsNext(s: State, step: Step, limit: nat, t: nat, n: nat)
    requires Enabled(s, step, limit) && Holds(Next(s, step, limit), t, n)
    ensures Holds(s, t, n) || (step == Assign(t) && n == s.counter < REJECT_AFTER_MESSAGES)
    ensures step != HandOver(t)
  {
  }

  /** What was just sent was held by the thread that handed it over. */
  lemma SentNext(s: State, step: Step, limit: nat, i: nat)
    requires Enabled(s, step, limit) && |s.sent| <= i < |Next(s, step, limit).sent|
    ensures step.HandOver? && At(s, step.t).Assigning? && i - |s.sent| < |At(s, step.t).nonces| == |At(s, step.t).packets|
    ensures var a, x := Next(s, step, limit).sent[i], At(s, step.t);
            a == Sent(x.packets[i - |s.sent|], x.nonces[i - |s.sent|]) && Holds(s, step.t, a.nonce)
  {
  }

  lemma SentBefore(s: State, step: Step, limit: nat, i: nat)
    requires Enabled(s, step, limit) && i < |s.sent|
    ensures i < |Next(s, step, limit).sent| && Next(s, step, limit).sent[i] == s.sent[i]
  {
  }

  lemma StepDistinct(s: State, step: Step, limit: nat)
    requires limit <= MAX_SENDERS && Inv(s, limit) && Enabled(s, step, limit)
    ensures Distinct(Next(s, step, limit))
  {
    var u := Next(s, step, limit);
    if step.Assign? {
      CounterBelow(s, limit, step.t);
    }
    forall t | At(u, t).Assigning? ensures Increasing(At(u, t).nonces, u.total) && |At(u, t).nonces| <= |At(u, t).packets| {
      assert At(s, t).Assigning? ==> Increasing(At(s, t).nonces, s.total);
    }
    forall t: nat, r: nat, n: nat | Holds(u, t, n) && Holds(u, r, n) ensures t == r {
      HoldsNext(s, step, limit, t, n);
      HoldsNext(s, step, limit, r, n);
      assert Holds(s, t, n) ==> n < s.total;
      assert Holds(s, r, n) ==> n < s.total;
    }
    forall i | 0 <= i < |u.sent|
      ensures u.sent[i].nonce < u.total && u.sent[i].nonce < REJECT_AFTER_MESSAGES && forall t :: !Holds(u, t, u.sent[i].nonce)
    {
      StepSent(s, step, limit, i);
    }
    forall i, j | 0 <= i < j < |u.sent| ensures u.sent[i].nonce != u.sent[j].nonce {
      StepSentTwice(s, step, limit, i, j);
    }
  }

  lemma StepSent(s: State, step: Step, limit: nat, i: nat)
    requires limit <= MAX_SENDERS && Inv(s, limit) && Enabled(s, step, limit) && i < |Next(s, step, limit).sent|
    ensures var u := Next(s, step, limit);
            u.sent[i].nonce < u.total && u.sent[i].nonce < REJECT_AFTER_MESSAGES && forall t :: !Holds(u, t, u.sent[i].nonce)
  {
    var u := Next(s, step, limit);
    if step.Assign? {
      CounterBelow(s, limit, step.t);
    }
    if i < |s.sent| {
      SentBefore(s, step, limit, i);
    } else {
      SentNext(s, step, limit, i);
    }
    forall t ensures !Holds(u, t, u.sent[i].nonce) {
      if Holds(u, t, u.sent[i].nonce) {
        HoldsNext(s, step, limit, t, u.sent[i].nonce);
        assert false;
      }
    }
  }

  lemma StepSentTwice(s: State, step: Step, limit: nat, i: nat, j: nat)
    requires Distinct(s) && Enabled(s, step, limit) && i < j < |Next(s, step, limit).sent|
    ensures Next(s, step, limit).sent[i].nonce != Next(s, step, limit).sent[j].nonce
  {
    if j < |s.sent| {
      SentBefore(s, step, limit, i);
      SentBefore(s, step, limit, j);
    } else if i < |s.sent| {
      SentBefore(s, step, limit, i);
      SentNext(s, step, limit, j);
    } else {
      SentNext(s, step, limit, i);
      SentNext(s, step, limit, j);
      assert Increasing(At(s, step.t).nonces, s.total);
    }
  }

  lemma {:induction false} ReachesInv(s: State, steps: seq<Step>, limit: nat, u: State)
    requires limit <= MAX_SENDERS && Inv(s, limit) && Reaches(s, steps, limit, u)
    ensures Inv(u, limit)
    decreases |steps|
  {
    if steps != [] {
      StepHeadroom(s, steps[0], limit);
      StepDistinct(s, steps[0], limit);
      ReachesInv(Next(s, steps[0], limit), steps[1..], limit, u);
    }
  }

  /** With at most as many concurrent senders as the counter has values from the limit on, no
      two packets handed to encryption share a nonce, and every nonce is below the limit. */
  lemma NoncesUnique(steps: seq<Step>, limit: nat, u: State)
    requires limit <= MAX_SENDERS && Reaches(INITIAL, steps, limit, u)
    ensures Unique(u) && forall i :: 0 <= i < |u.sent| ==> u.sent[i].nonce < REJECT_AFTER_MESSAGES
  {
    assert Inv(INITIAL, limit) by {
      assert Active(INITIAL) == {} && SpoiledSet(INITIAL) == {};
    }
    ReachesInv(INITIAL, steps, limit, u);
  }
}
