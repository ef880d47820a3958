/** The rate limiter under concurrent packets.

    A packet looks its source up without a lock.  If there is an entry it locks it and is
    charged; if not it allocates one, stamps it with the time and links it, without looking
    again.  A garbage collection pass may come in between.  Every step below is one atomic
    action, and a run is any interleaving. */
module RateLimiterRaces {
  import opened Wrappers
  import opened RateLimiter

  /** Where the thread that handles a packet is. */
  datatype Thread =
    | Idle
    | Hit(e: nat)                        // found entry `e`, about to lock it
    | Miss(key: Key)                     // found nothing, about to allocate
    | Stamped(key: Key, stamp: Time)     // has an entry with this time, about to link it

  /** `entries` holds every entry ever linked; `linked` names those in the table, newest
      first, which is the order of every hash chain. */
  datatype State = State(entries: seq<Entry>, linked: seq<nat>, threads: map<nat, Thread>, clock: Time)

  datatype Step =
    | Search(t: nat, key: Key)
    | Charge(t: nat, now: Time)
    | Refuse(t: nat)                     // the table is full or memory is short
    | Stamp(t: nat, now: Time)
    | Link(t: nat, now: Time)
    | Collect(now: Time)

  const INITIAL := State([], [], map[], 0)

  function At(s: State, t: nat): Thread { if t in s.threads then s.threads[t] else Idle }

  /** The first linked entry of a source: the one a search finds. */
  function Visible(entries: seq<Entry>, linked: seq<nat>, k: Key): (v: Option<nat>)
    ensures v.Some? ==> v.value in linked && v.value < |entries| && entries[v.value].key == k
  {
    if linked == [] then None
    else if linked[0] < |entries| && entries[linked[0]].key == k then Some(linked[0])
    else Visible(entries, linked[1..], k)
  }

  function Seen(s: State, k: Key): Option<nat> { Visible(s.entries, s.linked, k) }

  /** The entries a collection pass leaves. */
  function Fresh(entries: seq<Entry>, linked: seq<nat>, now: Time): seq<nat> {
    if linked == [] then []
    else if linked[0] < |entries| && now > entries[linked[0]].bucket.last + NSEC_PER_SEC then Fresh(entries, linked[1..], now)
    else [linked[0]] + Fresh(entries, linked[1..], now)
  }

  /** A pass keeps, in their order, exactly the entries used within the last second. */
  lemma {:induction false} FreshIff(entries: seq<Entry>, linked: seq<nat>, now: Time)
    requires InRange(linked, |entries|)
    ensures Within(Fresh(entries, linked, now), linked)
    ensures forall e :: e in Fresh(entries, linked, now) <==> e in linked && now - entries[e].bucket.last <= NSEC_PER_SEC
  {
    if linked != [] {
      assert linked == [linked[0]] + linked[1..];
      FreshIff(entries, linked[1..], now);
    }
  }

  /** `some` comes from `all` by leaving entries out. */
  ghost predicate Within(some: seq<nat>, all: seq<nat>)
    decreases |all|
  {
    if all == [] then some == []
    else Within(some, all[1..]) || (some != [] && some[0] == all[0] && Within(some[1..], all[1..]))
  }

  // ------------------------------------------------------------ steps

  ghost predicate Enabled(s: State, step: Step) {
    match step
    case Search(t, _) => At(s, t).Idle?
    case Charge(t, now) => At(s, t).Hit? && At(s, t).e < |s.entries| && s.entries[At(s, t).e].bucket.last <= now && s.clock <= now
    case Refuse(t) => At(s, t).Miss?
    case Stamp(t, now) => At(s, t).Miss? && s.clock <= now
    case Link(t, now) => At(s, t).Stamped? && At(s, t).stamp <= now && s.clock <= now
    case Collect(now) => s.clock <= now
  }

  ghost function Put(s: State, t: nat, x: Thread): State { s.(threads := s.threads[t := x]) }

  /** A bucket after a packet at time `now`. */
  function Charged(b: Bucket, now: Time): Bucket
    requires b.last <= now
  {
    var tokens := Refill(b, now);
    Bucket(if tokens >= PACKET_COST then tokens - PACKET_COST else tokens, now)
  }

  ghost function Next(s: State, step: Step): State
    requires Enabled(s, step)
  {
    match step
    case Search(t, k) => Put(s, t, match Seen(s, k) case Some(e) => Hit(e) case None => Miss(k))
    case Charge(t, now) =>
      var e := At(s, t).e;
      Put(s, t, Idle).(entries := s.entries[e := Entry(s.entries[e].key, Charged(s.entries[e].bucket, now))], clock := now)
    case Refuse(t) => Put(s, t, Idle)
    case Stamp(t, now) => Put(s, t, Stamped(At(s, t).key, now)).(clock := now)
    case Link(t, now) =>
      var x := At(s, t);
      Put(s, t, Idle).(entries := s.entries + [Entry(x.key, Bucket(TOKEN_MAX - PACKET_COST, x.stamp))],
                       linked := [|s.entries|] + s.linked, clock := now)
    case Collect(now) => s.(linked := Fresh(s.entries, s.linked, now), clock := now)
  }

  /** A run: a state it starts from, and steps taken one after the other. */
  datatype Run = From(start: State) | Then(run: Run, step: Step)

  ghost function Begin(r: Run): State { match r case From(s) => s case Then(q, _) => Begin(q) }

  ghost predicate Legal(r: Run)
    decreases r, 0
  {
    match r case From(_) => true case Then(q, step) => Legal(q) && Enabled(End(q), step)
  }

  ghost function End(r: Run): State
    requires Legal(r)
    decreases r, 1
  {
    match r case From(s) => s case Then(q, step) => Next(End(q), step)
  }

  ghost predicate Reachable(s: State) { exists r :: Legal(r) && Begin(r) == INITIAL && End(r) == s }

  // ------------------------------------------------------------ what is counted

  /** For one source: packets passed, entries linked beside a visible one, packets passed on
      an entry that is no longer the visible one, and the time between stamps and links. */
  datatype Tally = Tally(passed: nat, doubles: nat, strays: nat, late: nat)

  const NOTHING := Tally(0, 0, 0, 0)

  ghost function Sum(a: Tally, b: Tally): Tally {
    Tally(a.passed + b.passed, a.doubles + b.doubles, a.strays + b.strays, a.late + b.late)
  }

  ghost function StepTally(s: State, step: Step, k: Key): Tally
    requires Enabled(s, step)
  {
    match step
    case Charge(t, now) =>
      var e := At(s, t).e;
      if s.entries[e].key == k && Refill(s.entries[e].bucket, now) >= PACKET_COST
      then Tally(1, 0, if Seen(s, k) == Some(e) then 0 else 1, 0) else NOTHING
    case Link(t, now) =>
      var x := At(s, t);
      if x.key == k then Tally(1, if Seen(s, k).Some? then 1 else 0, 0, now - x.stamp) else NOTHING
    case _ => NOTHING
  }

  ghost function TallyOf(r: Run, k: Key): Tally
    requires Legal(r)
  {
    match r case From(_) => NOTHING case Then(q, step) => Sum(TallyOf(q, k), StepTally(End(q), step, k))
  }

  // ------------------------------------------------------------ the invariant

  ghost predicate InRange(linked: seq<nat>, n: nat) { forall i :: 0 <= i < |linked| ==> linked[i] < n }

  ghost predicate Valid(s: State) {
    InRange(s.linked, |s.entries|)
    && (forall e :: 0 <= e < |s.entries| ==> s.entries[e].bucket.last <= s.clock && s.entries[e].bucket.tokens <= TOKEN_MAX)
    && (forall t :: At(s, t).Hit? ==> At(s, t).e < |s.entries|)
    && (forall t :: At(s, t).Stamped? ==> At(s, t).stamp <= s.clock)
  }

  lemma {:induction false} FreshInRange(entries: seq<Entry>, linked: seq<nat>, now: Time, n: nat)
    requires InRange(linked, n)
    ensures InRange(Fresh(entries, linked, now), n)
  {
    if linked != [] {
      FreshInRange(entries, linked[1..], now, n);
    }
  }

  lemma ValidStep(s: State, step: Step)
    requires Valid(s) && Enabled(s, step)
    ensures Valid(Next(s, step))
  {
    var u := Next(s, step);
    match step
    case Collect(now) =>
      FreshInRange(s.entries, s.linked, now, |s.entries|);
      assert forall x :: At(u, x) == At(s, x);
    case Search(t, k) =>
      assert forall x :: x != t ==> At(u, x) == At(s, x);
    case _ =>
      assert forall x :: x != step.t ==> At(u, x) == At(s, x);
  }

  lemma {:induction false} ValidRun(r: Run)
    requires Legal(r) && Valid(Begin(r))
    ensures Valid(End(r)) && Begin(r).clock <= End(r).clock
  {
    if r.Then? {
      ValidRun(r.run);
      ValidStep(End(r.run), r.step);
    }
  }

  // ------------------------------------------------------------ conservation

  /** The tokens a search finds for a source, at a later time. */
  ghost function Tokens(s: State, k: Key, now: Time): nat
    requires Valid(s) && s.clock <= now
  {
    match Seen(s, k) case Some(e) => Refill(s.entries[e].bucket, now) case None => TOKEN_MAX
  }

  lemma TokensGrow(s: State, k: Key, now: Time)
    requires Valid(s) && s.clock <= now
    ensures Tokens(s, k, now) <= Tokens(s, k, s.clock) + (now - s.clock)
  {
  }

  /** What a collection pass leaves visible: the same entry, or another in place of one that
      was full. */
  lemma {:induction false} FreshVisible(entries: seq<Entry>, linked: seq<nat>, now: Time, k: Key)
    requires InRange(linked, |entries|)
    ensures var v := Visible(entries, linked, k);
            Visible(entries, Fresh(entries, linked, now), k) == v
            || (v.Some? && now > entries[v.value].bucket.last + NSEC_PER_SEC)
  {
    if linked != [] {
      FreshVisible(entries, linked[1..], now, k);
    }
  }

  /** Changing the bucket of an entry changes nothing about what is visible. */
  lemma {:induction false} VisibleUpdate(entries: seq<Entry>, linked: seq<nat>, e: nat, b: Bucket, k: Key)
    requires e < |entries|
    ensures Visible(entries[e := Entry(entries[e].key, b)], linked, k) == Visible(entries, linked, k)
  {
    if linked != [] {
      VisibleUpdate(entries, linked[1..], e, b, k);
    }
  }

  lemma {:induction false} VisibleMore(entries: seq<Entry>, linked: seq<nat>, x: Entry, k: Key)
    requires InRange(linked, |entries|)
    ensures Visible(entries + [x], linked, k) == Visible(entries, linked, k)
  {
    if linked != [] {
      VisibleMore(entries, linked[1..], x, k);
    }
  }

  /** One step: packets passed and tokens left are paid for by the tokens before, the time,
      and the three kinds of race. */
  lemma StepConserves(s: State, step: Step, k: Key)
    requires Valid(s) && Enabled(s, step)
    ensures Valid(Next(s, step))
    ensures var u, y := Next(s, step), StepTally(s, step, k);
            PACKET_COST * y.passed + Tokens(u, k, u.clock)
            <= Tokens(s, k, s.clock) + (u.clock - s.clock) + TOKEN_MAX * y.doubles + PACKET_COST * y.strays + y.late
  {
    var u := Next(s, step);
    ValidStep(s, step);
    TokensGrow(s, k, u.clock);
    match step
    case Charge(t, now) =>
      var e := At(s, t).e;
      VisibleUpdate(s.entries, s.linked, e, Charged(s.entries[e].bucket, now), k);
    case Link(t, now) =>
      VisibleMore(s.entries, s.linked, Entry(At(s, t).key, Bucket(TOKEN_MAX - PACKET_COST, At(s, t).stamp)), k);
      assert u.linked[1..] == s.linked;
    case Collect(now) =>
      FreshVisible(s.entries, s.linked, now, k);
    case _ =>
  }

  /** Every run: the same over any stretch. */
  lemma {:induction false} RunConserves(r: Run, k: Key)
    requires Legal(r) && Valid(Begin(r))
    ensures Valid(End(r)) && Begin(r).clock <= End(r).clock
    ensures var s, u, y := Begin(r), End(r), TallyOf(r, k);
            PACKET_COST * y.passed + Tokens(u, k, u.clock)
            <= Tokens(s, k, s.clock) + (u.clock - s.clock) + TOKEN_MAX * y.doubles + PACKET_COST * y.strays + y.late
  {
    ValidRun(r);
    if r.Then? {
      RunConserves(r.run, k);
      StepConserves(End(r.run), r.step, k);
    }
  }

  // ------------------------------------------------------------ the exact answer of an entry

  /** The packets charged to entry `e`, the one that created it first. */
  ghost function History(r: Run, e: nat): seq<Record>
    requires Legal(r)
  {
    match r
    case From(_) => []
    case Then(q, step) => History(q, e) + Noted(End(q), step, e)
  }

  ghost function Noted(s: State, step: Step, e: nat): seq<Record>
    requires Enabled(s, step)
  {
    match step
    case Charge(t, now) =>
      if At(s, t).e != e then []
      else [Record(s.entries[e].key, now, false, StepTally(s, step, s.entries[e].key).passed == 1)]
    case Link(t, _) =>
      if |s.entries| != e then []
      else [Record(At(s, t).key, At(s, t).stamp, false, StepTally(s, step, At(s, t).key).passed == 1)]
    case _ => []
  }

  /** A bucket that a history of its source alone leaves. */
  ghost predicate Leaves(log: seq<Record>, k: Key, b: Bucket) {
    Faithful(log) && log != [] && log[|log| - 1].now == b.last && Replay(log) == map[k := b]
  }

  /** The entry is the bucket that its own history leaves. */
  ghost predicate Matches(s: State, e: nat, log: seq<Record>) {
    if e >= |s.entries| then log == [] else Leaves(log, s.entries[e].key, s.entries[e].bucket)
  }

  lemma {:induction false} MatchesStep(s: State, step: Step, e: nat, log: seq<Record>)
    requires Enabled(s, step) && Matches(s, e, log)
    ensures Matches(Next(s, step), e, log + Noted(s, step, e))
  {
    var u, noted := Next(s, step), Noted(s, step, e);
    if noted == [] {
      assert log + noted == log;
      EntryStays(s, step, e, u);
    } else if step.Charge? {
      var x := s.entries[e];
      LeavesCharged(log, x.key, x.bucket, step.now, noted[0]);
      assert u.entries[e] == Entry(x.key, Charged(x.bucket, step.now));
    } else {
      LeavesNew(log, noted[0]);
      assert u.entries[e] == Entry(noted[0].key, Bucket(TOKEN_MAX - PACKET_COST, noted[0].now));
    }
  }

  lemma {:induction false} EntryStays(s: State, step: Step, e: nat, u: State)
    requires Enabled(s, step) && u == Next(s, step) && Noted(s, step, e) == []
    ensures e < |s.entries| <==> e < |u.entries|
    ensures e < |s.entries| ==> u.entries[e] == s.entries[e]
  {
  }

  lemma {:induction false} LeavesCharged(log: seq<Record>, k: Key, b: Bucket, now: Time, r: Record)
    requires Leaves(log, k, b) && b.last <= now && r == Record(k, now, false, Refill(b, now) >= PACKET_COST)
    ensures Leaves(log + [r], k, Charged(b, now))
  {
    FaithfulSnoc(log + [r], log, r);
    ReplaySnoc(log + [r], log, r, map[k := b]);
  }

  lemma {:induction false} LeavesNew(none: seq<Record>, r: Record)
    requires none == [] && !r.refused && r.allowed
    ensures Leaves(none + [r], r.key, Bucket(TOKEN_MAX - PACKET_COST, r.now))
  {
    var bs: Buckets := map[];
    assert Upto(none, r.now) && Replay(none) == bs;
    FaithfulSnoc(none + [r], none, r);
    ReplaySnoc(none + [r], none, r, bs);
  }

  lemma {:induction false} EntryMatches(r: Run, e: nat)
    requires Legal(r) && Begin(r) == INITIAL
    ensures Matches(End(r), e, History(r, e))
  {
    if r.Then? {
      EntryMatches(r.run, e);
      MatchesStep(End(r.run), r.step, e, History(r.run, e));
    }
  }

  /** In every run a packet that is charged to an entry passes if and only if every stretch of
      that entry's history has room for it. */
  lemma {:induction false} ChargeIff(r: Run, t: nat, now: Time)
    requires Legal(r) && Begin(r) == INITIAL && Enabled(End(r), Charge(t, now))
    ensures var e := At(End(r), t).e;
            var k := End(r).entries[e].key;
            StepTally(End(r), Charge(t, now), k).passed == 1 <==> Affordable(History(r, e), k, now)
  {
    var s := End(r);
    var e := At(s, t).e;
    EntryMatches(r, e);
    PassesIff(History(r, e), s.entries[e].key, now);
  }

  // ------------------------------------------------------------ the bound

  /** In any stretch of any run: at most a burst for the source and one more for every entry
      linked beside a visible one, the packets paid for by the time and by the delays
      between stamps and links, and those that passed on an entry no longer visible. */
  lemma BoundedWithRaces(r: Run, k: Key)
    requires Legal(r) && Reachable(Begin(r))
    ensures Begin(r).clock <= End(r).clock
    ensures var y := TallyOf(r, k);
            y.passed <= PACKETS_BURSTABLE * (1 + y.doubles) + y.strays + (End(r).clock - Begin(r).clock + y.late) / PACKET_COST
  {
    ReachableValid(Begin(r));
    RunConserves(r, k);
    var y := TallyOf(r, k);
    Divide(y.passed, y.doubles, y.strays, End(r).clock - Begin(r).clock + y.late);
  }

  lemma Divide(n: nat, d: nat, r: nat, time: nat)
    requires PACKET_COST * n <= TOKEN_MAX + TOKEN_MAX * d + PACKET_COST * r + time
    ensures n <= PACKETS_BURSTABLE * (1 + d) + r + time / PACKET_COST
  {
  }

  lemma ReachableValid(s: State)
    requires Reachable(s)
    ensures Valid(s)
  {
    var r :| Legal(r) && Begin(r) == INITIAL && End(r) == s;
    ValidRun(r);
  }

  /** The bound of one bucket: a burst, and what the time pays for. */
  ghost predicate WithinRate(r: Run, k: Key)
    requires Legal(r)
  {
    Begin(r).clock <= End(r).clock
    && TallyOf(r, k).passed <= PACKETS_BURSTABLE + (End(r).clock - Begin(r).clock) / PACKET_COST
  }
}
