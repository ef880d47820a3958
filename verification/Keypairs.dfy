/** The three keypair slots of a peer and who holds references to each keypair. */
module Keypairs {
  import opened Wrappers

  /** What identifies a keypair: a number no other keypair has, and which side derived it. */
  datatype Key = Key(id: nat, initiator: bool)

  datatype Slots = Slots(current: Option<Key>, previous: Option<Key>, next: Option<Key>)

  const EMPTY := Slots(None, None, None)

  ghost predicate Holds(s: Slots, k: Key) { s.current == Some(k) || s.previous == Some(k) || s.next == Some(k) }

  ghost predicate PairwiseDistinct(s: Slots) {
    (s.current.Some? ==> s.current != s.previous && s.current != s.next) && (s.previous.Some? ==> s.previous != s.next)
  }

  datatype Event =
    | Add(k: Key)        // a handshake finished
    | Received(k: Key)   // a data packet authenticated under `k`
    | Clear              // the peer's keys expired or the peer goes away

  function Step(s: Slots, e: Event): Slots {
    match e
    case Add(k) =>
      if k.initiator
      then Slots(Some(k), if s.next.Some? then s.next else s.current, None)
      else Slots(s.current, None, Some(k))
    case Received(k) => if s.next == Some(k) then Slots(Some(k), s.current, None) else s
    case Clear => EMPTY
  }

  function After(s: Slots, events: seq<Event>): Slots {
    if events == [] then s else Step(After(s, events[..|events| - 1]), events[|events| - 1])
  }

  // ------------------------------------------------------------ every run

  /** Every handshake makes a keypair of its own. */
  ghost predicate NewKeys(events: seq<Event>) {
    events == [] || (var before, e := events[..|events| - 1], events[|events| - 1];
                     NewKeys(before) && (e.Add? ==> e !in before))
  }

  /** In every run the slots hold distinct keypairs that were added, the next one is
      responder-derived, and the current one was initiated here or confirmed by a packet. */
  lemma {:induction false} SlotsInvariant(events: seq<Event>)
    requires NewKeys(events)
    ensures var s := After(EMPTY, events);
            PairwiseDistinct(s)
            && (forall k :: Holds(s, k) ==> Add(k) in events)
            && (s.next.Some? ==> !s.next.value.initiator)
            && (s.current.Some? ==> s.current.value.initiator || Received(s.current.value) in events)
  {
    if events != [] {
      var before, e := events[..|events| - 1], events[|events| - 1];
      SlotsInvariant(before);
      assert events == before + [e];
    }
  }

  lemma {:induction false} AfterConcat(s: Slots, xs: seq<Event>, ys: seq<Event>)
    ensures After(s, xs + ys) == After(After(s, xs), ys)
  {
    if ys == [] {
      assert xs + ys == xs;
    } else {
      AfterConcat(s, xs, ys[..|ys| - 1]);
      assert (xs + ys)[..|xs + ys| - 1] == xs + ys[..|ys| - 1];
    }
  }

  /** A keypair that is in no slot stays out unless it is added. */
  lemma {:induction false} StaysOut(s: Slots, events: seq<Event>, k: Key)
    requires !Holds(s, k) && Add(k) !in events
    ensures !Holds(After(s, events), k)
  {
    if events != [] {
      StaysOut(s, events[..|events| - 1], k);
    }
  }

  /** A keypair that is neither current nor next becomes neither unless it is added. */
  lemma {:induction false} StaysOld(s: Slots, events: seq<Event>, k: Key)
    requires s.current != Some(k) && s.next != Some(k) && Add(k) !in events
    ensures After(s, events).current != Some(k) && After(s, events).next != Some(k)
  {
    if events != [] {
      StaysOld(s, events[..|events| - 1], k);
    }
  }

  /** `e` puts a keypair into the current slot. */
  ghost predicate Rotates(s: Slots, e: Event) {
    (e.Add? && e.k.initiator) || (e.Received? && s.next == Some(e.k))
  }

  /** A dropped keypair never comes back. */
  lemma {:induction false} DroppedForGood(xs: seq<Event>, ys: seq<Event>, k: Key)
    requires NewKeys(xs + ys) && Add(k) in xs && !Holds(After(EMPTY, xs), k)
    ensures !Holds(After(EMPTY, xs + ys), k)
  {
    NotAddedAgain(xs, ys, k);
    AfterConcat(EMPTY, xs, ys);
    StaysOut(After(EMPTY, xs), ys, k);
  }

  lemma {:induction false} NewKeysPrefix(xs: seq<Event>, ys: seq<Event>)
    requires NewKeys(xs + ys)
    ensures NewKeys(xs)
  {
    if ys == [] {
      assert xs + ys == xs;
    } else {
      assert (xs + ys)[..|xs + ys| - 1] == xs + ys[..|ys| - 1];
      NewKeysPrefix(xs, ys[..|ys| - 1]);
    }
  }

  lemma {:induction false} NotAddedAgain(xs: seq<Event>, ys: seq<Event>, k: Key)
    requires NewKeys(xs + ys) && Add(k) in xs
    ensures Add(k) !in ys
  {
    if ys == [] {
      assert xs + ys == xs;
    } else {
      var before, e := ys[..|ys| - 1], ys[|ys| - 1];
      assert (xs + ys)[..|xs + ys| - 1] == xs + before;
      NotAddedAgain(xs, before, k);
      assert Add(k) in xs + before;
      assert ys == before + [e];
    }
  }

  /** Forward secrecy of the slots: whatever else happens in between and afterwards, two
      rotations remove every keypair that was current or previous before the first. */
  lemma {:induction false} TwoRotationsForget(ws: seq<Event>, e: Event, xs: seq<Event>, f: Event, ys: seq<Event>, k: Key)
    requires NewKeys(ws + ([e] + xs + [f] + ys))
    requires var s := After(EMPTY, ws); s.current == Some(k) || s.previous == Some(k)
    requires Rotates(After(EMPTY, ws), e) && Rotates(After(EMPTY, ws + [e] + xs), f)
    ensures !Holds(After(EMPTY, ws + ([e] + xs + [f] + ys)), k)
  {
    var rest := [e] + xs + [f] + ys;
    NewKeysPrefix(ws, rest);
    SlotsInvariant(ws);
    NotAddedAgain(ws, rest, k);
    assert e in rest && f in rest && forall x :: x in xs || x in ys ==> x in rest;
    var s0 := After(EMPTY, ws);
    var s1 := Step(s0, e);
    assert After(s0, [e]) == s1;
    AfterConcat(EMPTY, ws, [e]);
    AfterConcat(EMPTY, ws + [e], xs);
    StaysOld(s1, xs, k);
    var s2 := After(s1, xs);
    var s3 := Step(s2, f);
    assert !Holds(s3, k);
    StaysOut(s3, ys, k);
    assert ws + rest == (((ws + [e]) + xs) + [f]) + ys;
    AfterConcat(EMPTY, (ws + [e]) + xs, [f]);
    assert After(s2, [f]) == s3;
    AfterConcat(EMPTY, ((ws + [e]) + xs) + [f], ys);
  }

  // ------------------------------------------------------------ objects and references

  class Keypair {
    const key: Key
    var refcount: nat
    var linked: bool               // in the device's index table
    var freed: bool
    ghost var users: nat           // references taken outside the slots
    ghost var puts: nat            // how often a slot gave its reference up

    constructor (key: Key)
      ensures this.key == key && Accounted(true) && users == 0 && !linked
    {
      this.key := key;
      refcount, linked, freed, users, puts := 1, false, false, 0, 0;
    }

    /** The reference count of a keypair that is, or is no longer, in a slot. */
    ghost predicate Accounted(slotted: bool)
      reads this
    {
      refcount == users + (if slotted then 1 else 0)
      && puts == (if slotted then 0 else 1)
      && (freed <==> refcount == 0)
      && (!slotted ==> !linked)
    }
  }

  function KeyOf(k: Keypair?): Option<Key> { if k == null then None else Some(k.key) }

  /** The kref_put at the end of wg_noise_keypair_put. */
  method DropReference(k: Keypair)
    requires k.refcount > 0
    modifies k
    ensures k.refcount == old(k.refcount) - 1 && k.users == old(k.users) && k.puts == old(k.puts)
    ensures k.freed == (k.refcount == 0 || old(k.freed)) && k.linked == (old(k.linked) && k.refcount > 0)
  {
    k.refcount := k.refcount - 1;
    if k.refcount == 0 {
      k.linked := false;
      k.freed := true;
    }
  }

  /** wg_noise_keypair_put with immediate unlinking, by the slot that held `k`. */
  method PutSlot(k: Keypair?)
    requires k != null ==> k.Accounted(true)
    modifies k
    ensures k != null ==> k.Accounted(false) && k.users == old(k.users)
  {
    if k == null {
      return;
    }
    k.linked := false;
    DropReference(k);
    k.puts := k.puts + 1;
  }

  class KeypairSlots {
    var current: Keypair?
    var previous: Keypair?
    var next: Keypair?
    ghost var made: set<Keypair>       // every keypair that was ever added
    ghost var events: seq<Event>

    ghost predicate Slotted(k: Keypair)
      reads this
    {
      k == current || k == previous || k == next
    }

    ghost function Contents(): Slots
      reads this
    {
      Slots(KeyOf(current), KeyOf(previous), KeyOf(next))
    }

    /** Every reference is accounted for, and no keypair is in two slots. */
    ghost predicate Counted()
      reads this, made
    {
      (current != null ==> current in made && current != previous && current != next)
      && (previous != null ==> previous in made && previous != next)
      && (next != null ==> next in made)
      && forall k :: k in made ==> k.Accounted(Slotted(k))
    }

    /** The slots are those of the run so far, in which every keypair was added once. */
    ghost predicate Logged()
      reads this
    {
      (forall k :: k in made ==> Add(k.key) in events) && NewKeys(events) && Contents() == After(EMPTY, events)
    }

    ghost predicate Valid()
      reads this, made
    {
      Counted() && Logged()
    }

    constructor ()
      ensures Valid() && made == {} && events == [] && Contents() == EMPTY
    {
      current, previous, next := null, null, null;
      made, events := {}, [];
    }

    /** Write down what just happened to the slots. */
    ghost method Log(e: Event, before: Slots)
      requires NewKeys(events) && before == After(EMPTY, events) && (e.Add? ==> e !in events)
      requires forall k :: k in made ==> Add(k.key) in events || Add(k.key) == e
      requires Contents() == Step(before, e)
      modifies this`events
      ensures events == old(events) + [e] && Logged()
    {
      events := events + [e];
      assert events[..|events| - 1] == old(events);
    }

    /** add_new_keypair for a handshake this side started. */
    method AddInitiated(k: Keypair)
      requires Counted() && k !in made && k.Accounted(true) && k.key.initiator
      modifies this`current, this`previous, this`next, this`made, current, previous
      ensures Counted() && made == old(made) + {k} && current == k && next == null
      ensures previous == (if old(next) != null then old(next) else old(current))
      ensures forall j :: j in old(made) ==> j.users == old(j.users)
    {
      var previousKeypair, nextKeypair, currentKeypair := previous, next, current;
      made := made + {k};
      if nextKeypair != null {
        next := null;
        previous := nextKeypair;
        PutSlot(currentKeypair);
      } else {
        previous := currentKeypair;
      }
      PutSlot(previousKeypair);
      current := k;
    }

    /** add_new_keypair for a handshake the peer started. */
    method AddResponded(k: Keypair)
      requires Counted() && k !in made && k.Accounted(true) && !k.key.initiator
      modifies this`previous, this`next, this`made, previous, next
      ensures Counted() && made == old(made) + {k} && next == k && previous == null
      ensures forall j :: j in old(made) ==> j.users == old(j.users)
    {
      var previousKeypair, nextKeypair := previous, next;
      made := made + {k};
      next := k;
      PutSlot(nextKeypair);
      previous := null;
      PutSlot(previousKeypair);
    }

    /** add_new_keypair. */
    method AddNew(k: Keypair)
      requires Valid() && k !in made && Add(k.key) !in events && k.Accounted(true)
      modifies this, current, previous, next
      ensures Valid() && made == old(made) + {k} && events == old(events) + [Add(k.key)]
      ensures Contents() == Step(old(Contents()), Add(k.key)) && Slotted(k)
      ensures forall j :: j in old(made) ==> j.users == old(j.users)
    {
      if k.key.initiator {
        AddInitiated(k);
      } else {
        AddResponded(k);
      }
      Log(Add(k.key), old(Contents()));
    }

    /** wg_noise_received_with_keypair: `glimpsed` is what the unlocked first read returned,
        any value the slot may have had at some moment. */
    method ReceivedWith(k: Keypair, glimpsed: Keypair?) returns (keyIsNew: bool)
      requires Valid() && k in made
      modifies this`current, this`previous, this`next, this`events, previous
      ensures Valid()
      ensures forall j :: j in made ==> j.users == old(j.users)
      ensures keyIsNew <==> glimpsed == k && old(next) == k
      ensures keyIsNew ==> current == k && previous == old(current) && next == null && events == old(events) + [Received(k.key)]
      ensures !keyIsNew ==> current == old(current) && previous == old(previous) && next == old(next) && events == old(events)
    {
      if k != glimpsed {
        return false;
      }
      if k != next {
        return false;
      }
      var oldKeypair := previous;
      previous := current;
      PutSlot(oldKeypair);
      current := k;
      next := null;
      Log(Received(k.key), old(Contents()));
      return true;
    }

    method DropAll()
      requires Counted()
      modifies this`current, this`previous, this`next, current, previous, next
      ensures Counted() && current == null && previous == null && next == null
      ensures forall j :: j in made ==> j.users == old(j.users)
    {
      var o := previous;
      previous := null;
      PutSlot(o);
      o := next;
      next := null;
      PutSlot(o);
      o := current;
      current := null;
      PutSlot(o);
    }

    /** wg_noise_keypairs_clear. */
    method ClearAll()
      requires Valid()
      modifies this`current, this`previous, this`next, this`events, current, previous, next
      ensures Valid() && made == old(made) && events == old(events) + [Clear] && Contents() == EMPTY
      ensures forall j :: j in made ==> j.users == old(j.users)
      ensures forall k :: k in made ==> !k.linked && (k.freed <==> k.users == 0)
    {
      DropAll();
      Log(Clear, old(Contents()));
    }

    /** wg_noise_keypair_get: fails exactly when the last reference is gone. */
    method Get(k: Keypair?) returns (got: Keypair?)
      requires Valid() && (k != null ==> k in made)
      modifies k
      ensures Valid() && Contents() == old(Contents()) && made == old(made) && events == old(events)
      ensures got == (if k != null && !old(k.freed) then k else null)
      ensures got != null ==> got.users == old(got.users) + 1 && !got.freed
    {
      if k == null || k.refcount == 0 {
        return null;
      }
      k.refcount := k.refcount + 1;
      k.users := k.users + 1;
      return k;
    }

    /** wg_noise_keypair_put without unlinking, by a user: frees a keypair exactly when no slot and no
        other user holds it. */
    method PutUser(k: Keypair)
      requires Valid() && k in made && k.users > 0
      modifies k
      ensures Valid() && Contents() == old(Contents()) && made == old(made) && events == old(events)
      ensures k.users == old(k.users) - 1 && (k.freed <==> k.users == 0 && !Slotted(k))
      ensures Slotted(k) ==> k.linked == old(k.linked)
    {
      k.users := k.users - 1;
      DropReference(k);
    }

    /** The new entry takes the place of the handshake's in the index table. */
    method Link(k: Keypair)
      requires Valid() && k in made && Slotted(k)
      modifies k`linked
      ensures Valid() && k.linked
    {
      k.linked := true;
    }

    /** The part of wg_noise_handshake_begin_session that hands the new keypair over.
        `created` is null when memory ran out; `hashed` says that the handshake's own
        entry, which the keypair takes over, is still in the index table. */
    method BeginSession(created: Keypair?, dead: bool, hashed: bool) returns (ret: bool)
      requires Valid()
      requires created != null ==> created !in made && Add(created.key) !in events && created.Accounted(true)
      modifies this, created, current, previous, next
      ensures Valid()
      ensures ret <==> created != null && !dead && hashed
      ensures created == null || dead ==> made == old(made) && events == old(events)
      ensures created != null && dead ==> created.freed
      ensures created != null && !dead ==>
                made == old(made) + {created} && Contents() == Step(old(Contents()), Add(created.key))
                && Slotted(created) && (hashed ==> created.linked)
    {
      if created == null {
        return false;
      }
      if dead {
        created.freed := true;
        return false;
      }
      AddNew(created);
      if hashed {
        Link(created);
      }
      return hashed;
    }
  }
}
