/** The handshake rate limiter: token buckets in a hash table with garbage collection. */
module RateLimiter {
  import opened Wrappers

  const NSEC_PER_SEC: nat := 1_000_000_000
  const PACKETS_BURSTABLE: nat := 5
  const PACKET_COST: nat := 50_000_000     // a second's tokens pay for 20 packets
  const TOKEN_MAX: nat := 250_000_000      // a burst

  /** Boot time in nanoseconds, a non-negative signed 64-bit number. */
  type Time = t: nat | t < 0x8000_0000_0000_0000

  /** The source a packet is charged to: an IPv4 address, or the first half of an IPv6 one. */
  datatype Key = Key(v6: bool, ip: nat, net: nat)

  datatype Bucket = Bucket(tokens: nat, last: Time)

  // ------------------------------------------------------------ buckets that are never collected

  function Min(x: nat, y: nat): nat { if x <= y then x else y }

  /** The tokens of a bucket at a later time. */
  function Refill(b: Bucket, now: Time): (tokens: nat)
    requires b.last <= now
    ensures tokens <= TOKEN_MAX
  {
    Min(TOKEN_MAX, b.tokens + (now - b.last))
  }

  /** One bucket per key, which starts full and is kept forever. */
  type Buckets = map<Key, Bucket>

  ghost predicate Before(bs: Buckets, now: Time) { forall k :: k in bs ==> bs[k].last <= now && bs[k].tokens <= TOKEN_MAX }

  ghost function Level(bs: Buckets, k: Key, now: Time): nat
    requires Before(bs, now)
  {
    if k in bs then Refill(bs[k], now) else TOKEN_MAX
  }

  ghost predicate Passes(bs: Buckets, k: Key, now: Time)
    requires Before(bs, now)
  {
    Level(bs, k, now) >= PACKET_COST
  }

  ghost function Charge(bs: Buckets, k: Key, now: Time): Buckets
    requires Before(bs, now)
  {
    var tokens := Level(bs, k, now);
    bs[k := Bucket(if tokens >= PACKET_COST then tokens - PACKET_COST else tokens, now)]
  }

  /** `live` holds some of the buckets, and the others are full. */
  ghost predicate Mirrors(bs: Buckets, live: Buckets, now: Time) {
    Before(bs, now)
    && (forall k :: k in live ==> k in bs && bs[k] == live[k])
    && (forall k :: k in bs && k !in live ==> Refill(bs[k], now) == TOKEN_MAX)
  }

  lemma MirrorsLater(bs: Buckets, live: Buckets, t: Time, u: Time)
    requires Mirrors(bs, live, t) && t <= u
    ensures Mirrors(bs, live, u) && Before(live, u)
  {
  }

  /** Collecting full buckets changes no answer. */
  lemma MirrorsCharge(bs: Buckets, live: Buckets, k: Key, now: Time)
    requires Mirrors(bs, live, now)
    ensures Before(live, now) && (Passes(bs, k, now) <==> Passes(live, k, now))
    ensures Mirrors(Charge(bs, k, now), Charge(live, k, now), now)
  {
  }

  /** A stale bucket is full. */
  lemma MirrorsLess(bs: Buckets, live: Buckets, rest: Buckets, now: Time)
    requires Mirrors(bs, live, now)
    requires forall k :: k in rest ==> k in live && rest[k] == live[k]
    requires forall k :: k in live && k !in rest ==> now - live[k].last > NSEC_PER_SEC
    ensures Mirrors(bs, rest, now)
  {
  }

  // ------------------------------------------------------------ histories

  /** One packet: `refused` means that no memory or no table space was left for its source. */
  datatype Record = Record(key: Key, now: Time, refused: bool, allowed: bool)

  ghost predicate Ordered(log: seq<Record>) { forall i, j :: 0 <= i < j < |log| ==> log[i].now <= log[j].now }

  /** The never-collected buckets after a history. */
  ghost function Replay(log: seq<Record>): (bs: Buckets)
    requires Ordered(log)
    ensures forall t: Time :: (log == [] || log[|log| - 1].now <= t) ==> Before(bs, t)
  {
    if log == [] then map[]
    else
      var before, r := log[..|log| - 1], log[|log| - 1];
      if r.refused then Replay(before) else Charge(Replay(before), r.key, r.now)
  }

  /** Every packet that was not refused got the answer of the never-collected buckets. */
  ghost predicate Faithful(log: seq<Record>) {
    Ordered(log)
    && (log == [] ||
        var before, r := log[..|log| - 1], log[|log| - 1];
        Faithful(before) && (r.allowed <==> !r.refused && Passes(Replay(before), r.key, r.now)))
  }

  ghost function Count(log: seq<Record>, k: Key): nat {
    if log == [] then 0
    else Count(log[..|log| - 1], k) + if log[|log| - 1].allowed && log[|log| - 1].key == k then 1 else 0
  }

  lemma {:induction false} CountSnoc(log: seq<Record>, r: Record, k: Key)
    ensures Count(log + [r], k) == Count(log, k) + if r.allowed && r.key == k then 1 else 0
  {
    assert (log + [r])[..|log|] == log;
  }

  /** A history in whose order a packet at time `now` may follow. */
  ghost predicate Upto(log: seq<Record>, now: Time) { Faithful(log) && (log != [] ==> log[|log| - 1].now <= now) }

  /** The tokens of a source after a history. */
  ghost function LevelAfter(log: seq<Record>, k: Key, now: Time): nat
    requires Upto(log, now)
  {
    Level(Replay(log), k, now)
  }

  /** What a faithful history says about its last packet. */
  lemma {:induction false} LevelSnoc(log: seq<Record>, before: seq<Record>, r: Record, k: Key, now: Time)
    requires Upto(log, now) && log == before + [r]
    ensures Upto(before, r.now) && Upto(before, now) && r.now <= now
    ensures r.allowed <==> !r.refused && LevelAfter(before, r.key, r.now) >= PACKET_COST
    ensures LevelAfter(log, k, now) ==
            if r.refused || r.key != k then LevelAfter(before, k, now)
            else Min(TOKEN_MAX, LevelAfter(before, k, r.now) - (if r.allowed then PACKET_COST else 0) + (now - r.now))
  {
    assert log[..|log| - 1] == before && log[|log| - 1] == r;
    assert before != [] ==> before[|before| - 1] == log[|log| - 2];
  }

  /** Levels grow no faster than time. */
  lemma {:induction false} LevelGrows(log: seq<Record>, k: Key, t: Time, u: Time)
    requires Upto(log, t) && t <= u
    ensures Upto(log, u) && LevelAfter(log, k, u) <= LevelAfter(log, k, t) + (u - t)
  {
  }

  /** One packet more, with the levels before it, after it and at the end. */
  lemma OneMore(count: nat, more: nat, was: nat, level: nat, time: nat, later: nat, passed: bool)
    requires count * PACKET_COST + was <= TOKEN_MAX + time && more == count + if passed then 1 else 0
    requires level <= was - (if passed then PACKET_COST else 0) + later
    ensures more * PACKET_COST + level <= TOKEN_MAX + (time + later)
  {
  }

  lemma {:induction false} CountFrom(log: seq<Record>, before: seq<Record>, r: Record, k: Key, i: nat)
    requires log == before + [r] && i <= |before|
    ensures Count(log[i..], k) == Count(before[i..], k) + if r.allowed && r.key == k then 1 else 0
    ensures i == |before| ==> Count(before[i..], k) == 0
  {
    assert log[i..] == before[i..] + [r];
    CountSnoc(before[i..], r, k);
  }

  /** Tokens are conserved: what passed from record `i` on and what is left is at most a full
      bucket and the time that went by since `start`, which is no later than those records. */
  lemma {:induction false} Conserved(log: seq<Record>, i: nat, k: Key, start: Time, end: Time)
    requires Upto(log, end) && i <= |log| && start <= end && (i < |log| ==> start <= log[i].now)
    ensures Count(log[i..], k) * PACKET_COST + LevelAfter(log, k, end) <= TOKEN_MAX + (end - start)
    decreases |log|
  {
    if i < |log| {
      var n := |log| - 1;
      var before, r := log[..n], log[n];
      assert log == before + [r];
      LevelSnoc(log, before, r, k, end);
      assert log[i].now <= log[n].now;
      Conserved(before, i, k, start, r.now);
      LevelGrows(before, k, r.now, end);
      CountFrom(log, before, r, k, i);
      OneMore(Count(before[i..], k), Count(log[i..], k), LevelAfter(before, k, r.now), LevelAfter(log, k, end),
              r.now - start, end - r.now, r.allowed && r.key == k);
    }
  }

  /** In any stretch of any history at most a burst and the packets paid for by the time it
      spans pass, for every source. */
  lemma {:induction false} Bounded(past: seq<Record>, recent: seq<Record>, k: Key)
    requires Faithful(past + recent) && recent != []
    ensures Count(recent, k) <= PACKETS_BURSTABLE + (recent[|recent| - 1].now - recent[0].now) / PACKET_COST
  {
    var log := past + recent;
    var start, end := recent[0].now, recent[|recent| - 1].now;
    assert recent[0] == log[|past|] && recent[|recent| - 1] == log[|log| - 1] && log[|past|..] == recent;
    Conserved(log, |past|, k, start, end);
    Quotient(Count(recent, k), end - start);
  }

  lemma Quotient(n: nat, time: nat)
    requires n * PACKET_COST <= TOKEN_MAX + time
    ensures n <= PACKETS_BURSTABLE + time / PACKET_COST
  {
  }

  // ------------------------------------------------------------ the exact answer

  /** Every stretch up to now has room for one more packet of the source: those that passed in
      it and this one cost no more than a full bucket and the time since it began. */
  ghost predicate Affordable(log: seq<Record>, k: Key, now: Time) {
    forall i :: 0 <= i < |log| ==> (Count(log[i..], k) + 1) * PACKET_COST <= TOKEN_MAX + (now - log[i].now)
  }

  /** The bucket is full, or holds what the stretch from record `i` on has left. */
  ghost predicate LeftFrom(log: seq<Record>, k: Key, now: Time, i: nat)
    requires Upto(log, now)
  {
    i <= |log|
    && if i == |log| then LevelAfter(log, k, now) == TOKEN_MAX
       else LevelAfter(log, k, now) + Count(log[i..], k) * PACKET_COST == TOKEN_MAX + (now - log[i].now)
  }

  /** Nothing is lost either: a bucket that is not full holds what some stretch has left. */
  lemma {:induction false} Tight(log: seq<Record>, k: Key, now: Time) returns (i: nat)
    requires Upto(log, now)
    ensures LeftFrom(log, k, now, i)
    decreases |log|
  {
    if log == [] || LevelAfter(log, k, now) == TOKEN_MAX {
      i := |log|;
    } else {
      var before, r := log[..|log| - 1], log[|log| - 1];
      assert log == before + [r];
      LevelSnoc(log, before, r, k, now);
      var t := if !r.refused && r.key == k then r.now else now;
      i := Tight(before, k, t);
      TightSnoc(log, before, r, k, now, t, i);
    }
  }

  lemma {:induction false} TightSnoc(log: seq<Record>, before: seq<Record>, r: Record, k: Key, now: Time, t: Time, i: nat)
    requires Upto(log, now) && log == before + [r] && LevelAfter(log, k, now) != TOKEN_MAX
    requires t == (if !r.refused && r.key == k then r.now else now) && Upto(before, t) && LeftFrom(before, k, t, i)
    ensures LeftFrom(log, k, now, i)
  {
    LevelSnoc(log, before, r, k, now);
    CountFrom(log, before, r, k, i);
    var since: Time := if i < |before| then before[i].now else t;
    TightStep(LevelAfter(before, k, t), LevelAfter(log, k, now), r.allowed && r.key == k, t, now, Count(before[i..], k),
              Count(log[i..], k), since);
    assert log[i].now == since;
  }

  /** The level before and after a packet and the time until now, `since` the stretch began. */
  lemma TightStep(was: nat, level: nat, passed: bool, t: Time, now: Time, count: nat, more: nat, since: Time)
    requires t <= now && was + count * PACKET_COST == TOKEN_MAX + (t - since) && more == count + if passed then 1 else 0
    requires level == was - (if passed then PACKET_COST else 0) + (now - t)
    ensures level + more * PACKET_COST == TOKEN_MAX + (now - since)
  {
  }

  /** The answer for a packet that is not refused, without buckets: it passes if and only if
      every stretch of the history up to now has room for it. */
  lemma {:induction false} PassesIff(log: seq<Record>, k: Key, now: Time)
    requires Upto(log, now)
    ensures LevelAfter(log, k, now) >= PACKET_COST <==> Affordable(log, k, now)
  {
    var level := LevelAfter(log, k, now);
    var t := Tight(log, k, now);
    if t < |log| {
      EnoughIff(level, Count(log[t..], k), now - log[t].now);
    }
    if level >= PACKET_COST {
      forall i | 0 <= i < |log| ensures (Count(log[i..], k) + 1) * PACKET_COST <= TOKEN_MAX + (now - log[i].now) {
        assert log[i].now <= log[|log| - 1].now;
        Conserved(log, i, k, log[i].now, now);
      }
    }
  }

  lemma EnoughIff(level: nat, count: nat, time: int)
    requires level + count * PACKET_COST == TOKEN_MAX + time
    ensures level >= PACKET_COST <==> (count + 1) * PACKET_COST <= TOKEN_MAX + time
  {
  }

  /** Packet `n` passed if and only if it was not refused and had room in every stretch. */
  ghost predicate ExactAt(log: seq<Record>, n: nat)
    requires n < |log|
  {
    log[n].allowed <==> !log[n].refused && Affordable(log[..n], log[n].key, log[n].now)
  }

  ghost predicate Exact(log: seq<Record>) { Ordered(log) && forall n :: 0 <= n < |log| ==> ExactAt(log, n) }

  /** So a history has the answers of never-collected buckets if and only if it is exact. */
  lemma {:induction false} FaithfulIff(log: seq<Record>)
    ensures Faithful(log) <==> Exact(log)
  {
    if log != [] {
      var before, r := log[..|log| - 1], log[|log| - 1];
      assert log == before + [r];
      FaithfulIff(before);
      ExactSnoc(log, before, r);
      FaithfulSnoc(log, before, r);
      if Upto(before, r.now) {
        PassesIff(before, r.key, r.now);
      }
    }
  }

  /** The answer for the last packet. */
  lemma {:induction false} LastExact(before: seq<Record>, r: Record)
    requires Faithful(before + [r])
    ensures r.allowed <==> !r.refused && Affordable(before, r.key, r.now)
  {
    FaithfulSnoc(before + [r], before, r);
    PassesIff(before, r.key, r.now);
  }

  lemma {:induction false} FaithfulSnoc(log: seq<Record>, before: seq<Record>, r: Record)
    requires log == before + [r]
    ensures Faithful(log) <==>
              Upto(before, r.now) && (r.allowed <==> !r.refused && LevelAfter(before, r.key, r.now) >= PACKET_COST)
  {
    assert log[..|log| - 1] == before && log[|log| - 1] == r;
    OrderedSnoc(log, before, r);
  }

  lemma {:induction false} ReplaySnoc(log: seq<Record>, before: seq<Record>, r: Record, bs: Buckets)
    requires log == before + [r] && Faithful(log) && Upto(before, r.now) && bs == Replay(before) && Before(bs, r.now)
    ensures Replay(log) == if r.refused then bs else Charge(bs, r.key, r.now)
  {
    assert log[..|log| - 1] == before && log[|log| - 1] == r;
  }

  lemma {:induction false} OrderedSnoc(log: seq<Record>, before: seq<Record>, r: Record)
    requires log == before + [r]
    ensures Ordered(log) <==> Ordered(before) && (before != [] ==> before[|before| - 1].now <= r.now)
  {
    assert log[|before|] == r;
    if before != [] {
      var n := |before| - 1;
      assert before[n] == log[n];
      assert forall i :: 0 <= i < |before| ==> log[i] == before[i];
    }
  }

  lemma {:induction false} ExactSnoc(log: seq<Record>, before: seq<Record>, r: Record)
    requires log == before + [r]
    ensures Exact(log) <==>
              Exact(before) && (before != [] ==> before[|before| - 1].now <= r.now)
              && (r.allowed <==> !r.refused && Affordable(before, r.key, r.now))
  {
    OrderedSnoc(log, before, r);
    assert log[..|before|] == before;
    assert ExactAt(log, |before|) <==> (r.allowed <==> !r.refused && Affordable(before, r.key, r.now));
    forall n | 0 <= n < |before| ensures ExactAt(log, n) <==> ExactAt(before, n) {
      assert before[..n] == log[..n] && before[n] == log[n];
    }
  }

  /** The packets of the source come at least the price of one apart, up to now. */
  ghost predicate Spaced(log: seq<Record>, k: Key, now: Time) {
    (forall i :: 0 <= i < |log| && log[i].key == k ==> log[i].now + PACKET_COST <= now)
    && forall i, j :: 0 <= i < j < |log| && log[i].key == k && log[j].key == k ==> log[i].now + PACKET_COST <= log[j].now
  }

  lemma {:induction false} SpacedCount(log: seq<Record>, k: Key, now: Time, i: nat)
    requires Ordered(log) && Spaced(log, k, now) && i < |log| && log[|log| - 1].now <= now
    ensures Count(log[i..], k) * PACKET_COST <= now - log[i].now
    decreases |log|
  {
    var n := |log| - 1;
    var before, r := log[..n], log[n];
    assert log == before + [r];
    CountFrom(log, before, r, k, i);
    if i < n {
      assert log[i].now <= log[n - 1].now <= log[n].now && before[n - 1] == log[n - 1] && before[i] == log[i];
      var t := if r.key == k then r.now else now;
      SpacedBefore(log, before, r, k, now, t);
      SpacedCount(before, k, t, i);
    }
  }

  lemma {:induction false} SpacedBefore(log: seq<Record>, before: seq<Record>, r: Record, k: Key, now: Time, t: Time)
    requires log == before + [r] && Ordered(log) && Spaced(log, k, now) && t == if r.key == k then r.now else now
    ensures Ordered(before) && Spaced(before, k, t)
  {
    var n := |before|;
    assert log[n] == r && forall i :: 0 <= i < n ==> log[i] == before[i];
  }

  /** Nobody starves: a source that keeps to the rate always has room, whatever others send. */
  lemma {:induction false} SteadyPasses(log: seq<Record>, k: Key, now: Time)
    requires Ordered(log) && (log != [] ==> log[|log| - 1].now <= now) && Spaced(log, k, now)
    ensures Affordable(log, k, now)
  {
    forall i | 0 <= i < |log| ensures (Count(log[i..], k) + 1) * PACKET_COST <= TOKEN_MAX + (now - log[i].now) {
      SpacedCount(log, k, now, i);
    }
  }

  // ------------------------------------------------------------ hash chains

  datatype Entry = Entry(key: Key, bucket: Bucket)

  /** The first entry of a chain with this key. */
  function Find(es: seq<Entry>, k: Key): Option<Bucket> {
    if es == [] then None else if es[0].key == k then Some(es[0].bucket) else Find(es[1..], k)
  }

  ghost predicate DistinctKeys(es: seq<Entry>) {
    es == [] || (DistinctKeys(es[1..]) && Find(es[1..], es[0].key) == None)
  }

  lemma {:induction false} FindAt(es: seq<Entry>, k: Key, at: nat)
    requires at < |es| && es[at].key == k && forall i :: 0 <= i < at ==> es[i].key != k
    ensures Find(es, k) == Some(es[at].bucket)
  {
    if at > 0 {
      FindAt(es[1..], k, at - 1);
    }
  }

  lemma {:induction false} FindNone(es: seq<Entry>, k: Key)
    requires forall i :: 0 <= i < |es| ==> es[i].key != k
    ensures Find(es, k) == None
  {
    if es != [] {
      FindNone(es[1..], k);
    }
  }

  lemma {:induction false} FindUpdate(es: seq<Entry>, k: Key, at: nat, b: Bucket, j: Key)
    requires at < |es| && es[at].key == k && (forall i :: 0 <= i < at ==> es[i].key != k) && DistinctKeys(es)
    ensures var fs := es[at := Entry(k, b)];
            DistinctKeys(fs) && Find(fs, j) == if j == k then Some(b) else Find(es, j)
  {
    var fs := es[at := Entry(k, b)];
    if at > 0 {
      assert fs[1..] == es[1..][at - 1 := Entry(k, b)];
      FindUpdate(es[1..], k, at - 1, b, j);
      FindUpdate(es[1..], k, at - 1, b, es[0].key);
    } else {
      assert fs[1..] == es[1..];
    }
  }

  /** An entry that has not been used for over a second. */
  predicate Stale(b: Bucket, now: Time)
    requires b.last <= now
  {
    now - b.last > NSEC_PER_SEC
  }

  ghost predicate Earlier(es: seq<Entry>, now: Time) { forall i :: 0 <= i < |es| ==> es[i].bucket.last <= now }

  function Kept(es: seq<Entry>, now: Time): seq<Entry>
    requires Earlier(es, now)
  {
    if es == [] then []
    else if Stale(es[|es| - 1].bucket, now) then Kept(es[..|es| - 1], now)
    else Kept(es[..|es| - 1], now) + [es[|es| - 1]]
  }

  lemma {:induction false} FindSnoc(es: seq<Entry>, e: Entry, k: Key)
    ensures Find(es + [e], k) == if Find(es, k).Some? then Find(es, k) else if e.key == k then Some(e.bucket) else None
  {
    if es != [] {
      assert (es + [e])[1..] == es[1..] + [e];
      FindSnoc(es[1..], e, k);
    }
  }

  lemma {:induction false} DistinctSnoc(es: seq<Entry>, e: Entry)
    ensures DistinctKeys(es + [e]) <==> DistinctKeys(es) && Find(es, e.key) == None
  {
    if es != [] {
      assert (es + [e])[1..] == es[1..] + [e];
      DistinctSnoc(es[1..], e);
      FindSnoc(es[1..], e, es[0].key);
    }
  }

  /** Sweeping a chain removes exactly the stale keys. */
  lemma {:induction false} FindKept(es: seq<Entry>, now: Time, k: Key)
    requires Earlier(es, now) && DistinctKeys(es)
    ensures DistinctKeys(Kept(es, now)) && Earlier(Kept(es, now), now)
    ensures Find(es, k).Some? ==> Find(es, k).value.last <= now
    ensures Find(Kept(es, now), k) == if Find(es, k).Some? && !Stale(Find(es, k).value, now) then Find(es, k) else None
  {
    if es != [] {
      var init, e := es[..|es| - 1], es[|es| - 1];
      assert es == init + [e];
      DistinctSnoc(init, e);
      FindSnoc(init, e, k);
      FindKept(init, now, k);
      FindKept(init, now, e.key);
      FindSnoc(Kept(init, now), e, k);
      DistinctSnoc(Kept(init, now), e);
    }
  }
}
