/** How many senders at once the shared counter bears. */
module SendLimits {
  import opened SendNonces

  /** Some run leads to the state. */
  ghost predicate Reached(s: State, limit: nat) { exists steps :: Reaches(INITIAL, steps, limit, s) }

  lemma {:induction false} ReachesSnoc(s: State, steps: seq<Step>, limit: nat, u: State, step: Step)
    requires Reaches(s, steps, limit, u) && Enabled(u, step, limit)
    ensures Reaches(s, steps + [step], limit, Next(u, step, limit))
    decreases |steps|
  {
    if steps == [] {
      assert (steps + [step])[1..] == [];
    } else {
      ReachesSnoc(Next(s, steps[0], limit), steps[1..], limit, u, step);
      assert (steps + [step])[1..] == steps[1..] + [step];
    }
  }

  lemma {:induction false} Extend(s: State, limit: nat, step: Step)
    requires Reached(s, limit) && Enabled(s, step, limit)
    ensures Reached(Next(s, step, limit), limit)
  {
    var steps :| Reaches(INITIAL, steps, limit, s);
    ReachesSnoc(INITIAL, steps, limit, s, step);
  }

  // ------------------------------------------------------------ one packet after the other

  /** The first packet handed over had the first nonce. */
  ghost predicate First(s: State) { s.sent != [] && s.sent[0] == Sent(0, 0) }

  /** The counter stands at `n`, the key is valid and nothing waits. */
  ghost predicate Ready(s: State, n: nat) { s.counter == n && s.valid && s.staged == [] && (n > 0 ==> First(s)) }

  /** Enqueue a packet, take it and find the key valid. */
  lemma {:induction false} Load(s: State, limit: nat, t: nat, packet: nat, n: nat) returns (u: State)
    requires Reached(s, limit) && Ready(s, n) && At(s, t).Idle? && |Active(s)| < limit
    ensures Reached(u, limit) && Ready(u, n) && At(u, t) == Assigning([packet], []) && |Active(u)| == |Active(s)| + 1
    ensures u.sent == s.sent && forall x :: x != t ==> At(u, x) == At(s, x)
  {
    var s1 := Next(s, Enqueue(packet), limit);
    Extend(s, limit, Enqueue(packet));
    SameSets(s1, s);
    assert s1.staged == [packet];
    var s2 := Next(s1, Start(t), limit);
    Extend(s1, limit, Start(t));
    u := Next(s2, CheckKey(t, false), limit);
    Extend(s2, limit, CheckKey(t, false));
    Moved(s, t, At(u, t));
    SameSets(u, Put(s, t, At(u, t)));
  }

  lemma PairedOne(packet: nat, n: nat)
    ensures Paired([packet], [n]) == [Sent(packet, n)]
  {
  }

  /** A nonce that is left, handed over with its packet. */
  lemma {:induction false} Send(s: State, limit: nat, t: nat, packet: nat, n: nat) returns (u: State)
    requires Reached(s, limit) && Ready(s, n) && n < ReplayWindow.REJECT_AFTER_MESSAGES && At(s, t) == Assigning([packet], [])
    ensures Reached(u, limit) && u.counter == n + 1 && u.valid && u.staged == [] && u.sent == s.sent + [Sent(packet, n)]
    ensures At(u, t).Idle? && |Active(u)| == |Active(s)| - 1 && forall x :: x != t ==> At(u, x) == At(s, x)
  {
    var s1 := Next(s, Assign(t), limit);
    Extend(s, limit, Assign(t));
    assert At(s1, t) == Assigning([packet], [n]);
    u := Next(s1, HandOver(t), limit);
    Extend(s1, limit, HandOver(t));
    PairedOne(packet, n);
    Moved(s, t, Idle);
    SameSets(u, Put(s, t, Idle));
  }

  /** One thread uses up the nonces below `n`. */
  lemma {:induction false} SendMany(limit: nat, n: nat) returns (u: State)
    requires limit > 0 && n <= ReplayWindow.REJECT_AFTER_MESSAGES
    ensures Reached(u, limit) && Ready(u, n) && |Active(u)| == 0 && (n == 0 ==> u.sent == []) && forall x :: At(u, x).Idle?
    decreases n
  {
    if n == 0 {
      u := INITIAL;
      assert Reaches(INITIAL, [], limit, u);
      assert Active(u) == {};
    } else {
      u := SendMany(limit, n - 1);
      u := Load(u, limit, 0, n - 1, n - 1);
      u := Send(u, limit, 0, n - 1, n - 1);
    }
  }

  // ------------------------------------------------------------ too many at once

  /** Threads 1 to `k` have a packet each and are about to take a nonce. */
  ghost predicate InLoop(s: State, from: nat, k: nat) {
    (forall t :: from < t <= k ==> At(s, t) == Assigning([ReplayWindow.REJECT_AFTER_MESSAGES + t], []))
    && forall t :: t > k ==> At(s, t).Idle?
  }

  lemma {:induction false} LoadMany(limit: nat, k: nat) returns (u: State)
    requires limit > 0 && k <= limit
    ensures Reached(u, limit) && Ready(u, ReplayWindow.REJECT_AFTER_MESSAGES) && |Active(u)| == k && InLoop(u, 0, k)
    decreases k
  {
    if k == 0 {
      u := SendMany(limit, ReplayWindow.REJECT_AFTER_MESSAGES);
    } else {
      u := LoadMany(limit, k - 1);
      u := Load(u, limit, k, ReplayWindow.REJECT_AFTER_MESSAGES + k, ReplayWindow.REJECT_AFTER_MESSAGES);
    }
  }

  /** The first `j` of them find no nonce left, and none has marked the key invalid yet. */
  lemma {:induction false} Overshoot(limit: nat, k: nat, j: nat) returns (u: State)
    requires limit > 0 && j <= k <= limit && j <= MAX_SENDERS
    ensures Reached(u, limit) && Ready(u, (ReplayWindow.REJECT_AFTER_MESSAGES + j) % U64) && First(u) && InLoop(u, j, k)
    decreases j
  {
    if j == 0 {
      u := LoadMany(limit, k);
    } else {
      var s := Overshoot(limit, k, j - 1);
      assert At(s, j) == Assigning([ReplayWindow.REJECT_AFTER_MESSAGES + j], []);
      assert s.counter == ReplayWindow.REJECT_AFTER_MESSAGES + (j - 1);
      u := Next(s, Assign(j), limit);
      Extend(s, limit, Assign(j));
      assert u.counter == (ReplayWindow.REJECT_AFTER_MESSAGES + j) % U64;
      assert forall t :: t != j ==> At(u, t) == At(s, t);
    }
  }

  /** One sender more than the counter has values from the limit on: the counter wraps, and the
      first nonce of all is used again. */
  lemma {:induction false} Reused(limit: nat) returns (u: State)
    requires limit > MAX_SENDERS
    ensures Reached(u, limit) && !Unique(u)
  {
    var t := MAX_SENDERS + 1;
    var s := Overshoot(limit, t, MAX_SENDERS);
    assert At(s, t) == Assigning([ReplayWindow.REJECT_AFTER_MESSAGES + t], []);
    assert Ready(s, 0);
    u := Send(s, limit, t, ReplayWindow.REJECT_AFTER_MESSAGES + t, 0);
    assert u.sent[0].nonce == u.sent[|u.sent| - 1].nonce && |u.sent| > 1;
  }

  /** Exactly how many senders at once keep all nonces apart in all runs. */
  lemma UniqueIff(limit: nat)
    ensures (forall u :: Reached(u, limit) ==> Unique(u)) <==> limit <= MAX_SENDERS
    ensures MAX_SENDERS == ReplayWindow.WINDOW_SIZE + 2
  {
    if limit <= MAX_SENDERS {
      forall u | Reached(u, limit) ensures Unique(u) {
        var steps :| Reaches(INITIAL, steps, limit, u);
        NoncesUnique(steps, limit, u);
      }
    } else {
      var u := Reused(limit);
    }
  }
}
