/** Exactly when concurrent packets stay within the rate: each of the three kinds of race
    lets packets through that a single bucket would not. */
module RateLimiterExact {
  import opened Wrappers
  import opened RateLimiter
  import opened RateLimiterRaces

  // ------------------------------------------------------------ building runs

  /** A set of outcomes, each a state and the packets counted so far. */
  type Story = (State, Tally) -> bool

  /** With an outcome, a story has every outcome one step later. */
  ghost predicate Closed(story: Story, k: Key) {
    forall u, y, step :: story(u, y) && Enabled(u, step) ==> story(Next(u, step), Sum(y, StepTally(u, step, k)))
  }

  /** The outcomes of the runs from `s`. */
  ghost function RunsFrom(s: State, k: Key): Story {
    (u, y) => exists r :: Legal(r) && Begin(r) == s && End(r) == u && TallyOf(r, k) == y
  }

  lemma RunsClosed(s: State, k: Key)
    ensures RunsFrom(s, k)(s, NOTHING) && Closed(RunsFrom(s, k), k)
  {
    var story := RunsFrom(s, k);
    assert story(s, NOTHING) by { RunHas(From(s), s, s, k, NOTHING); }
    forall u, y, step | story(u, y) && Enabled(u, step) ensures story(Next(u, step), Sum(y, StepTally(u, step, k))) {
      var r :| Legal(r) && Begin(r) == s && End(r) == u && TallyOf(r, k) == y;
      RunHas(Then(r, step), s, Next(u, step), k, Sum(y, StepTally(u, step, k)));
    }
  }

  lemma {:induction false} RunHas(r: Run, s: State, u: State, k: Key, y: Tally)
    requires Legal(r) && Begin(r) == s && End(r) == u && TallyOf(r, k) == y
    ensures RunsFrom(s, k)(u, y)
  {
  }

  lemma RunOf(s: State, k: Key, u: State, y: Tally) returns (r: Run)
    requires RunsFrom(s, k)(u, y)
    ensures Legal(r) && Begin(r) == s && End(r) == u && TallyOf(r, k) == y
  {
    r :| Legal(r) && Begin(r) == s && End(r) == u && TallyOf(r, k) == y;
  }

  // ------------------------------------------------------------ single steps

  ghost function Add(y: Tally, passed: nat, doubles: nat, strays: nat, late: nat): Tally {
    Tally(y.passed + passed, y.doubles + doubles, y.strays + strays, y.late + late)
  }

  /** Threads other than `t` are where they were. */
  ghost predicate OnlyThread(s: State, u: State, t: nat) { forall x :: x != t ==> At(u, x) == At(s, x) }

  ghost predicate SameTable(s: State, u: State) { u.clock == s.clock && u.linked == s.linked && u.entries == s.entries }

  lemma Hits(story: Story, k: Key, u: State, y: Tally, t: nat, e: nat) returns (v: State)
    requires Closed(story, k) && story(u, y) && Valid(u) && At(u, t).Idle? && Seen(u, k) == Some(e)
    ensures story(v, y) && Valid(v) && At(v, t) == Hit(e) && OnlyThread(u, v, t) && SameTable(u, v)
  {
    var step := Search(t, k);
    ValidStep(u, step);
    v := Next(u, step);
    assert Sum(y, StepTally(u, step, k)) == y;
  }

  lemma Misses(story: Story, k: Key, u: State, y: Tally, t: nat) returns (v: State)
    requires Closed(story, k) && story(u, y) && Valid(u) && At(u, t).Idle? && Seen(u, k) == None
    ensures story(v, y) && Valid(v) && At(v, t) == Miss(k) && OnlyThread(u, v, t) && SameTable(u, v)
  {
    var step := Search(t, k);
    ValidStep(u, step);
    v := Next(u, step);
    assert Sum(y, StepTally(u, step, k)) == y;
  }

  lemma Stamps(story: Story, k: Key, u: State, y: Tally, t: nat) returns (v: State)
    requires Closed(story, k) && story(u, y) && Valid(u) && At(u, t) == Miss(k)
    ensures story(v, y) && Valid(v) && At(v, t) == Stamped(k, u.clock) && OnlyThread(u, v, t) && SameTable(u, v)
  {
    var step := Stamp(t, u.clock);
    ValidStep(u, step);
    v := Next(u, step);
    assert Sum(y, StepTally(u, step, k)) == y;
  }

  /** A charge on the visible entry that passes. */
  lemma Charges(story: Story, k: Key, u: State, y: Tally, t: nat, e: nat, now: Time) returns (v: State)
    requires Closed(story, k) && story(u, y) && Valid(u) && At(u, t) == Hit(e) && Seen(u, k) == Some(e)
    requires u.clock <= now && Tokens(u, k, now) >= PACKET_COST
    ensures story(v, Add(y, 1, 0, 0, 0)) && Valid(v) && At(v, t).Idle? && OnlyThread(u, v, t)
    ensures v.clock == now && Seen(v, k) == Some(e) && Tokens(v, k, now) == Tokens(u, k, now) - PACKET_COST
  {
    var step := Charge(t, now);
    ValidStep(u, step);
    v := Next(u, step);
    VisibleUpdate(u.entries, u.linked, e, Charged(u.entries[e].bucket, now), k);
    assert Sum(y, StepTally(u, step, k)) == Add(y, 1, 0, 0, 0);
  }

  /** A charge on an entry that is no longer in the table. */
  lemma Strays(story: Story, k: Key, u: State, y: Tally, t: nat, e: nat) returns (v: State)
    requires Closed(story, k) && story(u, y) && Valid(u) && At(u, t) == Hit(e) && Seen(u, k) == None
    requires u.entries[e].key == k && Refill(u.entries[e].bucket, u.clock) >= PACKET_COST
    ensures story(v, Add(y, 1, 0, 1, 0)) && Valid(v) && At(v, t).Idle? && OnlyThread(u, v, t)
    ensures v.clock == u.clock && Seen(v, k) == None
  {
    var step := Charge(t, u.clock);
    ValidStep(u, step);
    v := Next(u, step);
    VisibleUpdate(u.entries, u.linked, e, Charged(u.entries[e].bucket, u.clock), k);
    assert Sum(y, StepTally(u, step, k)) == Add(y, 1, 0, 1, 0);
  }

  /** Linking an entry that was stamped at `stamp`. */
  lemma Links(story: Story, k: Key, u: State, y: Tally, t: nat, stamp: Time) returns (v: State)
    requires Closed(story, k) && story(u, y) && Valid(u) && At(u, t) == Stamped(k, stamp)
    ensures story(v, Add(y, 1, if Seen(u, k).Some? then 1 else 0, 0, u.clock - stamp))
    ensures Valid(v) && At(v, t).Idle? && OnlyThread(u, v, t) && v.clock == u.clock && Seen(v, k) == Some(|u.entries|)
    ensures Tokens(v, k, v.clock) == Min(TOKEN_MAX, TOKEN_MAX - PACKET_COST + (u.clock - stamp))
    ensures v.linked == [|u.entries|] + u.linked && v.entries == u.entries + [Entry(k, Bucket(TOKEN_MAX - PACKET_COST, stamp))]
  {
    var step := Link(t, u.clock);
    ValidStep(u, step);
    v := Next(u, step);
    assert Sum(y, StepTally(u, step, k)) == Add(y, 1, if Seen(u, k).Some? then 1 else 0, 0, u.clock - stamp);
  }

  lemma Collects(story: Story, k: Key, u: State, y: Tally, now: Time) returns (v: State)
    requires Closed(story, k) && story(u, y) && Valid(u) && u.clock <= now
    ensures story(v, y) && Valid(v) && (forall t :: At(v, t) == At(u, t))
    ensures v.clock == now && v.entries == u.entries && v.linked == Fresh(u.entries, u.linked, now)
  {
    var step := Collect(now);
    ValidStep(u, step);
    v := Next(u, step);
    assert Sum(y, StepTally(u, step, k)) == y;
  }

  // ------------------------------------------------------------ packets

  /** One packet at time `now` that finds a visible entry with tokens. */
  lemma SpendOne(story: Story, k: Key, u: State, y: Tally, t: nat, now: Time) returns (v: State)
    requires Closed(story, k) && story(u, y) && Valid(u) && At(u, t).Idle? && Seen(u, k).Some?
    requires u.clock <= now && Tokens(u, k, now) >= PACKET_COST
    ensures story(v, Add(y, 1, 0, 0, 0)) && Valid(v) && At(v, t).Idle? && OnlyThread(u, v, t)
    ensures v.clock == now && Seen(v, k) == Seen(u, k) && Tokens(v, k, now) == Tokens(u, k, now) - PACKET_COST
  {
    v := Hits(story, k, u, y, t, Seen(u, k).value);
    v := Charges(story, k, v, y, t, Seen(u, k).value, now);
  }

  /** As many packets at once as there are tokens for. */
  lemma {:induction false} Spend(story: Story, k: Key, u: State, y: Tally, t: nat, n: nat) returns (v: State)
    requires Closed(story, k) && story(u, y) && Valid(u) && At(u, t).Idle? && Seen(u, k).Some?
    requires Tokens(u, k, u.clock) >= PACKET_COST * n
    ensures story(v, Add(y, n, 0, 0, 0)) && Valid(v) && At(v, t).Idle? && OnlyThread(u, v, t)
    ensures v.clock == u.clock && Seen(v, k) == Seen(u, k) && Tokens(v, k, v.clock) == Tokens(u, k, u.clock) - PACKET_COST * n
    decreases n
  {
    if n == 0 {
      v := u;
    } else {
      v := SpendOne(story, k, u, y, t, u.clock);
      v := Spend(story, k, v, Add(y, 1, 0, 0, 0), t, n - 1);
      assert Add(Add(y, 1, 0, 0, 0), n - 1, 0, 0, 0) == Add(y, n, 0, 0, 0);
    }
  }

  /** A packet that found nothing, stamped and linked at once. */
  lemma LinkNow(story: Story, k: Key, u: State, y: Tally, t: nat) returns (v: State)
    requires Closed(story, k) && story(u, y) && Valid(u) && At(u, t) == Miss(k)
    ensures story(v, Add(y, 1, if Seen(u, k).Some? then 1 else 0, 0, 0))
    ensures Valid(v) && At(v, t).Idle? && OnlyThread(u, v, t) && v.clock == u.clock && Seen(v, k).Some?
    ensures Tokens(v, k, v.clock) == TOKEN_MAX - PACKET_COST
  {
    v := Stamps(story, k, u, y, t);
    assert Seen(v, k) == Seen(u, k);
    v := Links(story, k, v, y, t, u.clock);
  }

  // ------------------------------------------------------------ what each race lets through

  /** A miss that overlaps an entry of the same source with a token left: six packets pass in
      no time. */
  lemma DoubleExceeds(s: State, k: Key, t0: nat, t1: nat) returns (r: Run)
    requires Valid(s) && t0 != t1 && At(s, t0).Idle? && At(s, t1) == Miss(k) && Seen(s, k).Some?
    requires Tokens(s, k, s.clock) >= PACKET_COST
    ensures Legal(r) && Begin(r) == s && End(r).clock == s.clock && TallyOf(r, k) == Tally(6, 1, 0, 0)
  {
    RunsClosed(s, k);
    var u := DoubleStory(RunsFrom(s, k), s, k, NOTHING, t0, t1);
    r := RunOf(s, k, u, Add(NOTHING, 6, 1, 0, 0));
  }

  lemma DoubleStory(story: Story, s: State, k: Key, y: Tally, t0: nat, t1: nat) returns (u: State)
    requires Closed(story, k) && story(s, y)
    requires Valid(s) && t0 != t1 && At(s, t0).Idle? && At(s, t1) == Miss(k) && Seen(s, k).Some?
    requires Tokens(s, k, s.clock) >= PACKET_COST
    ensures story(u, Add(y, 6, 1, 0, 0)) && u.clock == s.clock
  {
    u := SpendOne(story, k, s, y, t0, s.clock);
    u := LinkNow(story, k, u, Add(y, 1, 0, 0, 0), t1);
    u := Spend(story, k, u, Add(Add(y, 1, 0, 0, 0), 1, 1, 0, 0), t0, 4);
    assert Add(Add(Add(y, 1, 0, 0, 0), 1, 1, 0, 0), 4, 0, 0, 0) == Add(y, 6, 1, 0, 0);
  }

  /** A packet that found an entry which was collected before it could lock it. */
  lemma StrayExceeds(s: State, k: Key, t0: nat, t1: nat, e: nat) returns (r: Run)
    requires Valid(s) && t0 != t1 && At(s, t0).Idle? && At(s, t1) == Hit(e) && Seen(s, k) == None
    requires s.entries[e].key == k && Refill(s.entries[e].bucket, s.clock) >= PACKET_COST
    ensures Legal(r) && Begin(r) == s && End(r).clock == s.clock && TallyOf(r, k) == Tally(6, 0, 1, 0)
  {
    RunsClosed(s, k);
    var u := StrayStory(RunsFrom(s, k), s, k, NOTHING, t0, t1, e);
    r := RunOf(s, k, u, Add(NOTHING, 6, 0, 1, 0));
  }

  lemma StrayStory(story: Story, s: State, k: Key, y: Tally, t0: nat, t1: nat, e: nat) returns (u: State)
    requires Closed(story, k) && story(s, y)
    requires Valid(s) && t0 != t1 && At(s, t0).Idle? && At(s, t1) == Hit(e) && Seen(s, k) == None
    requires s.entries[e].key == k && Refill(s.entries[e].bucket, s.clock) >= PACKET_COST
    ensures story(u, Add(y, 6, 0, 1, 0)) && u.clock == s.clock
  {
    u := Strays(story, k, s, y, t1, e);
    u := Misses(story, k, u, Add(y, 1, 0, 1, 0), t0);
    u := LinkNow(story, k, u, Add(y, 1, 0, 1, 0), t0);
    u := Spend(story, k, u, Add(Add(y, 1, 0, 1, 0), 1, 0, 0, 0), t0, 4);
    assert Add(Add(Add(y, 1, 0, 1, 0), 1, 0, 0, 0), 4, 0, 0, 0) == Add(y, 6, 0, 1, 0);
  }

  /** An entry linked later than it was stamped: the sixth packet passes before the time for
      it has gone by. */
  lemma LateExceeds(s: State, k: Key, t: nat, stamp: Time) returns (r: Run)
    requires Valid(s) && At(s, t) == Stamped(k, stamp) && stamp < s.clock && Seen(s, k) == None
    requires s.clock + PACKET_COST < 0x8000_0000_0000_0000
    ensures Legal(r) && Begin(r) == s && s.clock <= End(r).clock < s.clock + PACKET_COST
    ensures TallyOf(r, k) == Tally(6, 0, 0, s.clock - stamp)
  {
    RunsClosed(s, k);
    var u := LateStory(RunsFrom(s, k), s, k, NOTHING, t, stamp);
    r := RunOf(s, k, u, Add(NOTHING, 6, 0, 0, s.clock - stamp));
  }

  lemma LateStory(story: Story, s: State, k: Key, y: Tally, t: nat, stamp: Time) returns (u: State)
    requires Closed(story, k) && story(s, y)
    requires Valid(s) && At(s, t) == Stamped(k, stamp) && stamp < s.clock && Seen(s, k) == None
    requires s.clock + PACKET_COST < 0x8000_0000_0000_0000
    ensures story(u, Add(y, 6, 0, 0, s.clock - stamp)) && s.clock <= u.clock < s.clock + PACKET_COST
  {
    var delay := s.clock - stamp;
    u := Links(story, k, s, y, t, stamp);
    u := Spend(story, k, u, Add(y, 1, 0, 0, delay), t, 4);
    var wait := if delay >= PACKET_COST then 0 else PACKET_COST - delay;
    assert Tokens(u, k, u.clock + wait) >= PACKET_COST;
    u := SpendOne(story, k, u, Add(Add(y, 1, 0, 0, delay), 4, 0, 0, 0), t, u.clock + wait);
    assert Add(Add(Add(y, 1, 0, 0, delay), 4, 0, 0, 0), 1, 0, 0, 0) == Add(y, 6, 0, 0, delay);
  }

  // ------------------------------------------------------------ the bound is reached

  /** Threads 1 to `n` search for a source that is not in the table. */
  lemma {:induction false} MissAll(story: Story, k: Key, u: State, y: Tally, n: nat) returns (v: State)
    requires Closed(story, k) && story(u, y) && Valid(u) && Seen(u, k) == None
    requires forall t: nat :: t <= n ==> At(u, t).Idle?
    ensures story(v, y) && Valid(v) && SameTable(u, v)
    ensures forall t :: 1 <= t <= n ==> At(v, t) == Miss(k)
    ensures forall t :: t == 0 || n < t ==> At(v, t) == At(u, t)
    decreases n
  {
    if n == 0 {
      v := u;
    } else {
      v := MissAll(story, k, u, y, n - 1);
      v := Misses(story, k, v, y, n);
    }
  }

  /** Each of them links an entry of its own, and thread 0 spends what is left on it. */
  lemma {:induction false} LinkAll(story: Story, k: Key, u: State, y: Tally, n: nat) returns (v: State)
    requires Closed(story, k) && story(u, y) && Valid(u) && Seen(u, k).Some? && At(u, 0).Idle?
    requires forall t :: 1 <= t <= n ==> At(u, t) == Miss(k)
    ensures story(v, Add(y, PACKETS_BURSTABLE * n, n, 0, 0)) && v.clock == u.clock
    decreases n
  {
    if n == 0 {
      v := u;
    } else {
      v := LinkOne(story, k, u, y, n);
      v := LinkAll(story, k, v, Add(y, 5, 1, 0, 0), n - 1);
      assert Add(Add(y, 5, 1, 0, 0), 5 * (n - 1), n - 1, 0, 0) == Add(y, 5 * n, n, 0, 0);
    }
  }

  lemma LinkOne(story: Story, k: Key, u: State, y: Tally, n: nat) returns (v: State)
    requires Closed(story, k) && story(u, y) && Valid(u) && Seen(u, k).Some? && At(u, 0).Idle? && 1 <= n && At(u, n) == Miss(k)
    ensures story(v, Add(y, 5, 1, 0, 0)) && Valid(v) && Seen(v, k).Some? && At(v, 0).Idle? && v.clock == u.clock
    ensures forall t :: 1 <= t < n ==> At(v, t) == At(u, t)
  {
    v := LinkNow(story, k, u, y, n);
    v := Spend(story, k, v, Add(y, 1, 1, 0, 0), 0, 4);
    assert Add(Add(y, 1, 1, 0, 0), 4, 0, 0, 0) == Add(y, 5, 1, 0, 0);
  }

  /** For every number of doubled entries there is a run, in no time, that passes as many
      packets as the bound allows. */
  lemma BoundReached(k: Key, n: nat) returns (r: Run)
    ensures Legal(r) && Begin(r) == INITIAL && End(r).clock == 0
    ensures TallyOf(r, k) == Tally(PACKETS_BURSTABLE * (1 + n), n, 0, 0)
  {
    RunsClosed(INITIAL, k);
    var u := Reaches(RunsFrom(INITIAL, k), k, NOTHING, n);
    r := RunOf(INITIAL, k, u, Add(NOTHING, 5 * (1 + n), n, 0, 0));
  }

  lemma Reaches(story: Story, k: Key, y: Tally, n: nat) returns (u: State)
    requires Closed(story, k) && story(INITIAL, y)
    ensures story(u, Add(y, 5 * (1 + n), n, 0, 0)) && u.clock == 0
  {
    u := MissAll(story, k, INITIAL, y, n + 1);
    u := LinkNow(story, k, u, y, n + 1);
    u := Spend(story, k, u, Add(y, 1, 0, 0, 0), 0, 4);
    assert Add(Add(y, 1, 0, 0, 0), 4, 0, 0, 0) == Add(y, 5, 0, 0, 0);
    u := LinkAll(story, k, u, Add(y, 5, 0, 0, 0), n);
    assert Add(Add(y, 5, 0, 0, 0), 5 * n, n, 0, 0) == Add(y, 5 * (1 + n), n, 0, 0);
  }

  // ------------------------------------------------------------ the exact condition

  /** A source found in the table, then collected. */
  lemma StrayBegins(story: Story, k: Key, y: Tally) returns (u: State)
    requires Closed(story, k) && story(INITIAL, y)
    ensures story(u, Add(y, 1, 0, 0, 0)) && Valid(u) && At(u, 0).Idle? && At(u, 1) == Hit(0) && Seen(u, k) == None
    ensures 0 < |u.entries| && u.entries[0] == Entry(k, Bucket(TOKEN_MAX - PACKET_COST, 0)) && u.clock == 2 * NSEC_PER_SEC
  {
    u := Misses(story, k, INITIAL, y, 0);
    u := Stamps(story, k, u, y, 0);
    u := Links(story, k, u, y, 0, 0);
    u := Hits(story, k, u, Add(y, 1, 0, 0, 0), 1, 0);
    u := Collects(story, k, u, Add(y, 1, 0, 0, 0), 2 * NSEC_PER_SEC);
  }

  /** A source stamped, and linked later. */
  lemma LateBegins(story: Story, k: Key, y: Tally) returns (u: State)
    requires Closed(story, k) && story(INITIAL, y)
    ensures story(u, y) && Valid(u) && At(u, 0) == Stamped(k, 0) && Seen(u, k) == None && u.clock == 1
  {
    u := Misses(story, k, INITIAL, y, 0);
    u := Stamps(story, k, u, y, 0);
    u := Collects(story, k, u, y, 1);
  }

  lemma Reached(s: State, k: Key, y: Tally)
    requires RunsFrom(INITIAL, k)(s, y)
    ensures Reachable(s)
  {
    var r := RunOf(INITIAL, k, s, y);
  }

  ghost predicate AtMost(y: Tally, d: nat, r: nat, l: nat) { y.doubles <= d && y.strays <= r && y.late <= l }

  /** Every run with these races keeps within the rate. */
  ghost predicate Kept(k: Key, d: nat, r: nat, l: nat) {
    forall q :: Legal(q) && Reachable(Begin(q)) && AtMost(TallyOf(q, k), d, r, l) ==> WithinRate(q, k)
  }

  lemma DoubleBreaks(k: Key, d: nat, r: nat, l: nat)
    requires d > 0
    ensures !Kept(k, d, r, l)
  {
    var q := BoundReached(k, 1);
    RunsClosed(INITIAL, k);
    Reached(INITIAL, k, NOTHING);
    assert !WithinRate(q, k);
  }

  lemma StrayBreaks(k: Key, d: nat, r: nat, l: nat)
    requires r > 0
    ensures !Kept(k, d, r, l)
  {
    RunsClosed(INITIAL, k);
    var s := StrayBegins(RunsFrom(INITIAL, k), k, NOTHING);
    Reached(s, k, Add(NOTHING, 1, 0, 0, 0));
    var q := StrayExceeds(s, k, 0, 1, 0);
    assert !WithinRate(q, k);
  }

  lemma LateBreaks(k: Key, d: nat, r: nat, l: nat)
    requires l > 0
    ensures !Kept(k, d, r, l)
  {
    RunsClosed(INITIAL, k);
    var s := LateBegins(RunsFrom(INITIAL, k), k, NOTHING);
    Reached(s, k, NOTHING);
    var q := LateExceeds(s, k, 0, 0);
    assert !WithinRate(q, k);
  }

  /** The rate of one bucket is kept by all runs exactly when no entry is linked beside a
      visible one, no packet passes on an entry out of the table, and every entry is linked
      at the time it was stamped. */
  lemma KeptIff(k: Key, d: nat, r: nat, l: nat)
    ensures Kept(k, d, r, l) <==> d == 0 && r == 0 && l == 0
  {
    if d > 0 {
      DoubleBreaks(k, d, r, l);
    } else if r > 0 {
      StrayBreaks(k, d, r, l);
    } else if l > 0 {
      LateBreaks(k, d, r, l);
    } else {
      forall q | Legal(q) && Reachable(Begin(q)) && AtMost(TallyOf(q, k), 0, 0, 0) ensures WithinRate(q, k) {
        BoundedWithRaces(q, k);
      }
    }
  }
}
