/** The rate limiter's table, proved to behave like buckets that are never collected. */
module RateLimiterTable {
  import opened Wrappers
  import opened RateLimiter

  const U64: nat := 0x1_0000_0000_0000_0000

  /** IPv4 and IPv6 sources have tables of the same size; here the second follows the first. */
  function Slot(hash: Key -> nat, size: nat, k: Key): (i: nat)
    requires size > 0
    ensures i < 2 * size
  {
    (if k.v6 then size else 0) + hash(k) % size
  }

  function Get(live: Buckets, k: Key): Option<Bucket> { if k in live then Some(live[k]) else None }

  /** The chains hold exactly the buckets of `live`. */
  ghost predicate Represents(hash: Key -> nat, size: nat, table: seq<seq<Entry>>, live: Buckets) {
    size > 0 && |table| == 2 * size
    && (forall i :: 0 <= i < |table| ==> DistinctKeys(table[i]))
    && forall k :: Find(table[Slot(hash, size, k)], k) == Get(live, k)
  }

  ghost predicate AllEarlier(table: seq<seq<Entry>>, now: Time) { forall i :: 0 <= i < |table| ==> Earlier(table[i], now) }

  // ------------------------------------------------------------ garbage collection as a whole

  ghost function Remaining(live: Buckets, now: Time): Buckets
    requires Before(live, now)
  {
    map k | k in live && !Stale(live[k], now) :: live[k]
  }

  /** The first `n` slots of both tables have been swept. */
  ghost predicate Swept(size: nat, was: seq<seq<Entry>>, table: seq<seq<Entry>>, now: Time, n: nat)
    requires |was| == 2 * size && AllEarlier(was, now)
  {
    |table| == |was|
    && (forall i :: 0 <= i < size ==> table[i] == if i < n then Kept(was[i], now) else was[i])
    && (forall i :: size <= i < 2 * size ==> table[i] == if i < size + n then Kept(was[i], now) else was[i])
  }

  lemma SweptRepresents(hash: Key -> nat, size: nat, was: seq<seq<Entry>>, table: seq<seq<Entry>>, live: Buckets, now: Time)
    requires Represents(hash, size, was, live) && AllEarlier(was, now) && Before(live, now) && Swept(size, was, table, now, size)
    ensures Represents(hash, size, table, Remaining(live, now)) && AllEarlier(table, now)
  {
    forall i | 0 <= i < |table| ensures table[i] == Kept(was[i], now) && DistinctKeys(table[i]) && Earlier(table[i], now) {
      FindKept(was[i], now, Key(false, 0, 0));
    }
    forall k ensures Find(table[Slot(hash, size, k)], k) == Get(Remaining(live, now), k) {
      var i := Slot(hash, size, k);
      FindKept(was[i], now, k);
      assert Find(was[i], k) == Get(live, k);
    }
  }

  // ------------------------------------------------------------ the table

  class Limiter {
    const hash: Key -> nat
    const size: nat
    const maxEntries: nat
    var table: seq<seq<Entry>>
    var total: nat                  // entries linked or not yet freed
    ghost var live: Buckets
    ghost var dying: nat            // unlinked, waiting for the grace period
    ghost var log: seq<Record>
    ghost var clock: Time

    /** The answers so far were those of never-collected buckets, and so will be the next. */
    ghost predicate Refines()
      reads this
    {
      Faithful(log) && (log != [] ==> log[|log| - 1].now <= clock) && Mirrors(Replay(log), live, clock)
    }

    ghost predicate Valid()
      reads this
    {
      Represents(hash, size, table, live) && AllEarlier(table, clock)
      && total == |live| + dying && Refines()
    }

    constructor (hash: Key -> nat, size: nat, maxEntries: nat)
      requires size > 0
      ensures Valid() && log == [] && total == 0 && this.maxEntries == maxEntries
    {
      this.hash, this.size, this.maxEntries := hash, size, maxEntries;
      table := seq(2 * size, _ => []);
      total, live, dying, log, clock := 0, map[], 0, [], 0;
    }

    /** The walk along a chain: the first entry with this key. */
    method Search(k: Key) returns (slot: nat, at: int)
      requires Valid()
      ensures slot == Slot(hash, size, k) && -1 <= at < |table[slot]|
      ensures at < 0 <==> k !in live
      ensures at >= 0 ==> table[slot][at] == Entry(k, live[k]) && forall i :: 0 <= i < at ==> table[slot][i].key != k
    {
      slot := Slot(hash, size, k);
      assert Find(table[slot], k) == Get(live, k);
      at := 0;
      while at < |table[slot]|
        invariant 0 <= at <= |table[slot]|
        invariant forall i :: 0 <= i < at ==> table[slot][i].key != k
      {
        if table[slot][at].key == k {
          FindAt(table[slot], k, at);
          return;
        }
        at := at + 1;
      }
      FindNone(table[slot], k);
      at := -1;
    }

    /** Charge an entry that is there. */
    method ChargeEntry(k: Key, slot: nat, at: nat, now: Time) returns (allowed: bool)
      requires Represents(hash, size, table, live) && AllEarlier(table, clock) && Before(live, now) && clock <= now
      requires slot == Slot(hash, size, k) && at < |table[slot]| && k in live
      requires table[slot][at] == Entry(k, live[k]) && forall i :: 0 <= i < at ==> table[slot][i].key != k
      modifies this`table, this`live, this`clock
      ensures allowed <==> Passes(old(live), k, now)
      ensures live == Charge(old(live), k, now) && |live| == |old(live)| && clock == now
      ensures Represents(hash, size, table, live) && AllEarlier(table, clock)
    {
      var e := table[slot][at].bucket;
      var tokens := (e.tokens + now - e.last) % U64;
      if tokens > TOKEN_MAX {
        tokens := TOKEN_MAX;
      }
      allowed := tokens >= PACKET_COST;
      var b := Bucket(if allowed then tokens - PACKET_COST else tokens, now);
      assert tokens == Refill(live[k], now);
      PutBack(hash, size, table, live, k, at, b, clock, now);
      table := table[slot := table[slot][at := Entry(k, b)]];
      live := live[k := b];
      clock := now;
      assert live.Keys == old(live).Keys;
    }

    /** Write down a packet. */
    ghost method Note(k: Key, now: Time, refused: bool, allowed: bool, before: Buckets)
      requires Faithful(log) && (log != [] ==> log[|log| - 1].now <= now) && clock == now && Mirrors(Replay(log), before, now)
      requires Before(before, now) && (allowed <==> !refused && Passes(before, k, now))
      requires live == if refused then before else Charge(before, k, now)
      modifies this`log
      ensures Refines() && log == old(log) + [Record(k, now, refused, allowed)]
    {
      log := log + [Record(k, now, refused, allowed)];
      assert log[..|log| - 1] == old(log);
      MirrorsCharge(Replay(old(log)), before, k, now);
    }

    /** wg_ratelimiter_allow for an IP packet, as one step; `memory` says whether allocation
        succeeds.  RateLimiterRaces has the steps of calls that overlap. */
    method Allow(k: Key, now: Time, memory: bool) returns (allowed: bool)
      requires Valid() && clock <= now
      modifies this
      ensures Valid() && clock == now
      ensures var refused := k !in old(live) && (old(total) + 1 > maxEntries || !memory);
              log == old(log) + [Record(k, now, refused, allowed)]
              && (allowed <==> !refused && Affordable(old(log), k, now))
    {
      var slot, at := Search(k);
      ghost var refused := k !in live && (total + 1 > maxEntries || !memory);
      if at >= 0 {
        allowed := AllowKnown(k, slot, at, now);
      } else {
        allowed := AllowNew(k, slot, now, memory);
      }
      LastExact(old(log), Record(k, now, refused, allowed));
    }

    /** The rest of wg_ratelimiter_allow, for a source with an entry. */
    method AllowKnown(k: Key, slot: nat, at: nat, now: Time) returns (allowed: bool)
      requires Valid() && clock <= now && slot == Slot(hash, size, k) && at < |table[slot]| && k in live
      requires table[slot][at] == Entry(k, live[k]) && forall i :: 0 <= i < at ==> table[slot][i].key != k
      modifies this
      ensures Valid() && clock == now && log == old(log) + [Record(k, now, false, allowed)]
    {
      ghost var before := live;
      MirrorsLater(Replay(log), live, clock, now);
      allowed := ChargeEntry(k, slot, at, now);
      Note(k, now, false, allowed, before);
    }

    /** The rest of wg_ratelimiter_allow, for a source without an entry. */
    method AllowNew(k: Key, slot: nat, now: Time, memory: bool) returns (allowed: bool)
      requires Valid() && clock <= now && k !in live && slot == Slot(hash, size, k)
      modifies this
      ensures Valid() && clock == now
      ensures log == old(log) + [Record(k, now, old(total) + 1 > maxEntries || !memory, allowed)]
    {
      total := total + 1;
      if total > maxEntries || !memory {
        total := total - 1;
        NoteRefused(k, now);
        return false;
      }
      AcceptNew(k, slot, now);
      return true;
    }

    ghost method NoteRefused(k: Key, now: Time)
      requires Valid() && clock <= now
      modifies this`clock, this`log
      ensures Valid() && clock == now && log == old(log) + [Record(k, now, true, false)]
    {
      MirrorsLater(Replay(log), live, clock, now);
      clock := now;
      Note(k, now, true, false, live);
    }

    /** The new entry has been counted already. */
    method AcceptNew(k: Key, slot: nat, now: Time)
      requires Represents(hash, size, table, live) && AllEarlier(table, clock) && total == |live| + 1 + dying && Refines()
      requires clock <= now && k !in live && slot == Slot(hash, size, k)
      modifies this`table, this`live, this`clock, this`log
      ensures Valid() && clock == now && log == old(log) + [Record(k, now, false, true)]
    {
      MirrorsLater(Replay(log), live, clock, now);
      ghost var before := live;
      LinkNew(k, slot, now);
      NoteNew(k, now, before);
    }

    ghost method NoteNew(k: Key, now: Time, before: Buckets)
      requires Faithful(log) && (log != [] ==> log[|log| - 1].now <= now) && clock == now && Mirrors(Replay(log), before, now)
      requires Before(before, now) && k !in before && live == Charge(before, k, now)
      requires Represents(hash, size, table, live) && AllEarlier(table, clock) && total == |live| + dying
      modifies this`log
      ensures Valid() && log == old(log) + [Record(k, now, false, true)]
    {
      assert Passes(before, k, now);
      Note(k, now, false, true, before);
    }

    method LinkNew(k: Key, slot: nat, now: Time)
      requires Represents(hash, size, table, live) && AllEarlier(table, clock) && Before(live, now) && clock <= now
      requires k !in live && slot == Slot(hash, size, k)
      modifies this`table, this`live, this`clock
      ensures Represents(hash, size, table, live) && AllEarlier(table, clock) && clock == now
      ensures live == Charge(old(live), k, now) && |live| == |old(live)| + 1
    {
      var b := Bucket(TOKEN_MAX - PACKET_COST, now);
      PutFront(hash, size, table, live, k, b, clock, now);
      table := table[slot := [Entry(k, b)] + table[slot]];
      live := live[k := b];
      assert live.Keys == old(live).Keys + {k};
      clock := now;
    }

    /** gc_entries. */
    method Collect(now: Time)
      requires Valid() && clock <= now
      modifies this`table, this`live, this`dying, this`clock
      ensures Valid() && clock == now && log == old(log) && total == old(total)
      ensures forall k :: k in live <==> k in old(live) && now - old(live)[k].last <= NSEC_PER_SEC
    {
      MirrorsLater(Replay(log), live, clock, now);
      ghost var was := table;
      Sweep(now);
      SweptRepresents(hash, size, was, table, live, now);
      ghost var rest := Remaining(live, now);
      MirrorsLess(Replay(log), live, rest, now);
      FewerKeys(rest, live);
      dying := dying + (|live| - |rest|);
      live := rest;
      clock := now;
    }

    method Sweep(now: Time)
      requires size > 0 && |table| == 2 * size && AllEarlier(table, now)
      modifies this`table
      ensures Swept(size, old(table), table, now, size)
    {
      ghost var was := table;
      var i := 0;
      while i < size
        invariant i <= size && Swept(size, was, table, now, i)
      {
        SweepSlots(i, now, was);
        i := i + 1;
      }
    }

    /** One turn: the same slot of both tables. */
    method SweepSlots(i: nat, now: Time, ghost was: seq<seq<Entry>>)
      requires i < size && |was| == 2 * size && AllEarlier(was, now) && Swept(size, was, table, now, i)
      modifies this`table
      ensures Swept(size, was, table, now, i + 1)
    {
      assert table[i] == was[i] && table[size + i] == was[size + i];
      var four := SweepChain(table[i], now);
      var six := SweepChain(table[size + i], now);
      table := table[i := four][size + i := six];
    }

    /** entry_free, after the grace period. */
    method FreeOne()
      requires Valid() && dying > 0
      modifies this`total, this`dying
      ensures Valid() && total == old(total) - 1
    {
      total := total - 1;
      dying := dying - 1;
    }
  }

  lemma FewerKeys(rest: Buckets, live: Buckets)
    requires rest.Keys <= live.Keys
    ensures |rest| <= |live|
  {
    assert live.Keys == rest.Keys + (live.Keys - rest.Keys);
    assert |rest.Keys| <= |live.Keys|;
  }

  method SweepChain(es: seq<Entry>, now: Time) returns (kept: seq<Entry>)
    requires Earlier(es, now)
    ensures kept == Kept(es, now)
  {
    kept := [];
    var j := 0;
    while j < |es|
      invariant j <= |es| && kept == Kept(es[..j], now)
    {
      assert es[..j + 1][..j] == es[..j];
      var idle := (now - es[j].bucket.last) % U64;
      if !(idle > NSEC_PER_SEC) {
        kept := kept + [es[j]];
      }
      j := j + 1;
    }
    assert es[..|es|] == es;
  }

  lemma PutBack(hash: Key -> nat, size: nat, table: seq<seq<Entry>>, live: Buckets, k: Key, at: nat, b: Bucket, clock: Time, now: Time)
    requires Represents(hash, size, table, live) && AllEarlier(table, clock) && clock <= now && b.last == now
    requires var es := table[Slot(hash, size, k)]; at < |es| && es[at].key == k && forall i :: 0 <= i < at ==> es[i].key != k
    ensures var i := Slot(hash, size, k);
            var t := table[i := table[i][at := Entry(k, b)]];
            Represents(hash, size, t, live[k := b]) && AllEarlier(t, now)
  {
    var i := Slot(hash, size, k);
    var t := table[i := table[i][at := Entry(k, b)]];
    FindUpdate(table[i], k, at, b, k);
    forall j ensures Find(t[Slot(hash, size, j)], j) == Get(live[k := b], j) {
      assert Find(table[Slot(hash, size, j)], j) == Get(live, j);
      FindUpdate(table[i], k, at, b, j);
    }
  }

  lemma PutFront(hash: Key -> nat, size: nat, table: seq<seq<Entry>>, live: Buckets, k: Key, b: Bucket, clock: Time, now: Time)
    requires Represents(hash, size, table, live) && AllEarlier(table, clock) && clock <= now && b.last == now && k !in live
    ensures var i := Slot(hash, size, k);
            var t := table[i := [Entry(k, b)] + table[i]];
            Represents(hash, size, t, live[k := b]) && AllEarlier(t, now)
  {
    var i := Slot(hash, size, k);
    var chain := [Entry(k, b)] + table[i];
    var t := table[i := chain];
    assert chain[1..] == table[i];
    assert Find(table[i], k) == Get(live, k);
    forall j ensures Find(t[Slot(hash, size, j)], j) == Get(live[k := b], j) {
      assert Find(table[Slot(hash, size, j)], j) == Get(live, j);
    }
  }
}
