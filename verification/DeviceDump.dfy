/** Dumping a device in messages of limited size, and putting the fragments of each peer
    back together in user space. */
module DeviceDump {
  import opened Sequences

  /** A device: its peers in list order, and what a walk reports for each. */
  datatype Device<T> = Device(keys: seq<nat>, listing: map<nat, seq<T>>)

  ghost predicate WellFormed<T>(d: Device<T>) {
    (forall k :: k in d.keys ==> k in d.listing)
    && forall i, j :: 0 <= i < j < |d.keys| ==> d.keys[i] != d.keys[j]
  }

  /** A peer as one message carries it; `full` says that its other attributes are there. */
  datatype Fragment<T> = Fragment(key: nat, full: bool, ips: seq<T>)

  /** The walk cursor: zeroed, or stopped after this many reports, before the last. */
  datatype Mark = Fresh | Partway(given: nat)

  /** What a dump keeps between messages: how many peers are complete, and the cursor. */
  datatype Progress = Progress(done: nat, cursor: Mark)

  /** What still fits into a message when a peer is tried: whether its header does, and
      then how many allowed addresses. */
  datatype Fit = Fit(header: bool, room: nat)

  // ------------------------------------------------------------ putting fragments together

  datatype Peer<T> = Peer(key: nat, ips: seq<T>)

  /** One more fragment: it continues the last peer if the keys agree. */
  function Push<T>(ps: seq<Peer<T>>, f: Peer<T>): seq<Peer<T>> {
    if ps != [] && ps[|ps| - 1].key == f.key
    then ps[..|ps| - 1] + [Peer(f.key, ps[|ps| - 1].ips + f.ips)]
    else ps + [f]
  }

  function Merged<T>(fs: seq<Fragment<T>>): seq<Peer<T>> {
    if fs == [] then [] else Push(Merged(fs[..|fs| - 1]), Peer(fs[|fs| - 1].key, fs[|fs| - 1].ips))
  }

  // ------------------------------------------------------------ the kernel's side

  /** The cursor is zeroed, or stands inside the listing of the first incomplete peer. */
  ghost predicate Sound<T>(d: Device<T>, p: Progress) {
    WellFormed(d) && p.done <= |d.keys|
    && (p.cursor.Partway? ==> p.done < |d.keys| && p.cursor.given < |d.listing[d.keys[p.done]]|)
  }

  /** How much of the current peer has been reported. */
  function Given(p: Progress): nat { match p.cursor case Fresh => 0 case Partway(given) => given }

  /** The complete peers. */
  ghost function Complete<T>(d: Device<T>, n: nat): (ps: seq<Peer<T>>)
    requires WellFormed(d) && n <= |d.keys|
    ensures |ps| == n && forall i :: 0 <= i < n ==> ps[i] == Peer(d.keys[i], d.listing[d.keys[i]])
  {
    seq(n, i requires 0 <= i < n => Peer(d.keys[i], d.listing[d.keys[i]]))
  }

  /** What the fragments sent so far must add up to. */
  ghost function Told<T>(d: Device<T>, p: Progress): seq<Peer<T>>
    requires Sound(d, p)
  {
    match p.cursor
    case Fresh => Complete(d, p.done)
    case Partway(given) => Complete(d, p.done) + [Peer(d.keys[p.done], d.listing[d.keys[p.done]][..given])]
  }

  /** What is left from peer `n` on: its addresses, and one for each peer. */
  ghost function Rest<T>(d: Device<T>, n: nat): nat
    requires WellFormed(d) && n <= |d.keys|
    decreases |d.keys| - n
  {
    if n == |d.keys| then 0 else 1 + |d.listing[d.keys[n]]| + Rest(d, n + 1)
  }

  ghost function Left<T>(d: Device<T>, p: Progress): nat
    requires Sound(d, p)
  {
    Rest(d, p.done) - Given(p)
  }

  /** get_peer: a peer that does not fit leaves either nothing, or a fragment and a cursor. */
  method GetPeer<T>(d: Device<T>, p: Progress, fit: Fit) returns (ok: bool, out: seq<Fragment<T>>, next: Progress)
    requires Sound(d, p) && p.done < |d.keys|
    ensures Sound(d, next) && (if ok then next == Progress(p.done + 1, Fresh) else next.done == p.done)
    ensures if fit.header then |out| == 1 else !ok && out == [] && next == p
    ensures fit.header ==> out[0].key == d.keys[p.done] && (out[0].full <==> p.cursor.Fresh?)
    ensures fit.header && fit.room > 0 && p.cursor.Partway? ==> out[0].ips != []
    ensures fit.header && !ok ==> next.cursor.Partway?
    ensures Left(d, next) <= Left(d, p) && (fit.header && fit.room > 0 ==> Left(d, next) < Left(d, p))
    ensures fit.header ==> Push(Told(d, p), Peer(out[0].key, out[0].ips)) == Told(d, next)
  {
    if !fit.header {
      return false, [], p;
    }
    var key := d.keys[p.done];
    var all, given := d.listing[key], Given(p);
    if fit.room < |all| - given {
      next := Progress(p.done, Partway(given + fit.room));
      out := [Fragment(key, p.cursor.Fresh?, all[given..given + fit.room])];
      ok := false;
      PushTold(d, p, given + fit.room, next);
    } else {
      next := Progress(p.done + 1, Fresh);
      out := [Fragment(key, p.cursor.Fresh?, all[given..])];
      ok := true;
      assert all[given..] == all[given..|all|];
      PushTold(d, p, |all|, next);
    }
  }

  lemma {:induction false} PushTold<T>(d: Device<T>, p: Progress, now: nat, next: Progress)
    requires Sound(d, p) && p.done < |d.keys|
    requires var all := d.listing[d.keys[p.done]];
             Given(p) <= now <= |all| && next == if now == |all| then Progress(p.done + 1, Fresh) else Progress(p.done, Partway(now))
    ensures Sound(d, next)
    ensures Push(Told(d, p), Peer(d.keys[p.done], d.listing[d.keys[p.done]][Given(p)..now])) == Told(d, next)
  {
    var key := d.keys[p.done];
    var all, whole := d.listing[key], Complete(d, p.done);
    assert all[..Given(p)] + all[Given(p)..now] == all[..now];
    assert p.done > 0 ==> whole[p.done - 1].key == d.keys[p.done - 1];
    assert (whole + [Peer(key, all[..Given(p)])])[..p.done] == whole;
    if now == |all| {
      assert all[..now] == all;
      assert Complete(d, p.done + 1) == whole + [Peer(key, all)];
    }
  }

  /** The loop of get_device_dump over the peers after the cursor; `fits` says what the
      message has room for at each attempt. */
  method DumpMessage<T>(d: Device<T>, p: Progress, fits: seq<Fit>, ghost sent: seq<Fragment<T>>)
    returns (out: seq<Fragment<T>>, next: Progress)
    requires Sound(d, p) && Merged(sent) == Told(d, p)
    ensures Sound(d, next) && Merged(sent + out) == Told(d, next)
    ensures Continued(sent, d, p) && Roomy(p, fits) ==> Continued(sent + out, d, next)
    ensures Left(d, next) <= Left(d, p)
    ensures p.done < |d.keys| && fits != [] && fits[0].header && fits[0].room > 0 ==> Left(d, next) < Left(d, p)
  {
    out, next := [], p;
    assert sent + out == sent;
    ghost var good := Continued(sent, d, p) && Roomy(p, fits);
    var i := 0;
    while next.done < |d.keys| && i < |fits|
      invariant Sound(d, next) && Merged(sent + out) == Told(d, next) && i <= |fits|
      invariant i == 0 ==> next == p
      invariant Left(d, next) <= Left(d, p) && (i > 0 && fits[0].header && fits[0].room > 0 ==> Left(d, next) < Left(d, p))
      invariant i > 0 ==> next.cursor == Fresh
      invariant good ==> Continued(sent + out, d, next)
    {
      var ok, piece, after := GetPeer(d, next, fits[i]);
      More(d, sent, out, next, piece, after, good);
      out, next, i := out + piece, after, i + 1;
      if !ok {
        break;
      }
    }
  }

  /** The first thing in a message has room when it continues a peer: a whole message is
      much larger than one allowed address. */
  ghost predicate Roomy(p: Progress, fits: seq<Fit>) {
    p.cursor.Partway? && fits != [] && fits[0].header ==> fits[0].room > 0
  }

  /** Fragments that continue a peer carry at least one address, and attributes come with
      the first fragment of each peer and no other. */
  ghost predicate Continued<T>(fs: seq<Fragment<T>>, d: Device<T>, p: Progress) {
    (forall i :: 0 <= i < |fs| ==> Tagged(fs, i))
    && (fs != [] ==> (p.cursor.Partway? && p.done < |d.keys| && fs[|fs| - 1].key == d.keys[p.done])
                     || (p.cursor.Fresh? && 0 < p.done <= |d.keys| && fs[|fs| - 1].key == d.keys[p.done - 1]))
    && (fs == [] ==> p == Progress(0, Fresh))
  }

  /** `piece` is what one attempt at the next peer left. */
  ghost predicate PieceOf<T>(d: Device<T>, p: Progress, piece: seq<Fragment<T>>, next: Progress) {
    Sound(d, p) && Sound(d, next) && p.done < |d.keys| && |piece| <= 1
    && (|piece| == 0 ==> next == p)
    && (|piece| == 1 ==>
          piece[0].key == d.keys[p.done] && (piece[0].full <==> p.cursor.Fresh?)
          && Push(Told(d, p), Peer(piece[0].key, piece[0].ips)) == Told(d, next)
          && (next == Progress(p.done + 1, Fresh) || (next.done == p.done && next.cursor.Partway?)))
  }

  lemma {:induction false} MergedMore<T>(d: Device<T>, fs: seq<Fragment<T>>, p: Progress, piece: seq<Fragment<T>>, next: Progress)
    requires PieceOf(d, p, piece, next) && Merged(fs) == Told(d, p)
    ensures Merged(fs + piece) == Told(d, next)
  {
    if |piece| == 1 {
      assert (fs + piece)[..|fs|] == fs;
    } else {
      assert fs + piece == fs;
    }
  }

  lemma {:induction false} ContinuedMore<T>(d: Device<T>, fs: seq<Fragment<T>>, p: Progress, piece: seq<Fragment<T>>, next: Progress)
    requires PieceOf(d, p, piece, next) && Continued(fs, d, p) && (|piece| == 1 && p.cursor.Partway? ==> piece[0].ips != [])
    ensures Continued(fs + piece, d, next)
  {
    if |piece| == 1 {
      FirstIffFresh(d, fs, p, piece[0]);
      ContinuedSnoc(fs, piece[0]);
      assert fs + piece == fs + [piece[0]];
    } else {
      assert fs + piece == fs;
    }
  }

  /** The fragment is the first of its peer exactly when the peer was not begun before. */
  lemma {:induction false} FirstIffFresh<T>(d: Device<T>, fs: seq<Fragment<T>>, p: Progress, f: Fragment<T>)
    requires Sound(d, p) && p.done < |d.keys| && Continued(fs, d, p) && f.key == d.keys[p.done]
    ensures p.cursor.Fresh? <==> fs == [] || fs[|fs| - 1].key != f.key
  {
    assert p.done > 0 ==> d.keys[p.done - 1] != d.keys[p.done];
  }

  ghost predicate Tagged<T>(fs: seq<Fragment<T>>, i: nat)
    requires i < |fs|
  {
    (fs[i].full <==> i == 0 || fs[i - 1].key != fs[i].key) && (!fs[i].full ==> fs[i].ips != [])
  }

  lemma {:induction false} ContinuedSnoc<T>(fs: seq<Fragment<T>>, f: Fragment<T>)
    requires forall i :: 0 <= i < |fs| ==> Tagged(fs, i)
    requires (f.full <==> fs == [] || fs[|fs| - 1].key != f.key) && (!f.full ==> f.ips != [])
    ensures forall i :: 0 <= i < |fs + [f]| ==> Tagged(fs + [f], i)
  {
    var gs := fs + [f];
    forall i | 0 <= i < |gs| ensures Tagged(gs, i) {
      if i < |fs| {
        assert Tagged(fs, i);
      }
    }
  }

  /** An empty message has room for a peer and an allowed address. */
  ghost predicate StartWithRoom(messages: seq<seq<Fit>>) {
    forall k :: 0 <= k < |messages| ==> messages[k] != [] && messages[k][0].header && messages[k][0].room > 0
  }

  lemma {:induction false} More<T>(d: Device<T>, sent: seq<Fragment<T>>, out: seq<Fragment<T>>, p: Progress, piece: seq<Fragment<T>>,
                                   next: Progress, good: bool)
    requires PieceOf(d, p, piece, next) && Merged(sent + out) == Told(d, p)
    requires good ==> Continued(sent + out, d, p) && (|piece| == 1 && p.cursor.Partway? ==> piece[0].ips != [])
    ensures Merged(sent + (out + piece)) == Told(d, next)
    ensures good ==> Continued(sent + (out + piece), d, next)
  {
    var before := sent + out;
    Associate(sent, out, piece);
    MergedMore(d, before, p, piece, next);
    if good {
      ContinuedMore(d, before, p, piece, next);
    }
  }

  /** A whole dump: one message after the other until every peer is complete. */
  method Dump<T>(d: Device<T>, messages: seq<seq<Fit>>) returns (done: bool, fs: seq<Fragment<T>>)
    requires WellFormed(d)
    ensures done ==> Merged(fs) == Complete(d, |d.keys|)
    ensures StartWithRoom(messages) ==> Continuations(fs) && (|messages| >= Rest(d, 0) ==> done)
  {
    fs := [];
    var p, k := Progress(0, Fresh), 0;
    while k < |messages| && p.done < |d.keys|
      invariant k <= |messages| && Sound(d, p) && Merged(fs) == Told(d, p)
      invariant StartWithRoom(messages) ==> Continued(fs, d, p) && Left(d, p) <= Rest(d, 0) - k
    {
      var out;
      out, p := DumpMessage(d, p, messages[k], fs);
      fs := fs + out;
      k := k + 1;
    }
    done := p.done == |d.keys|;
    if StartWithRoom(messages) {
      TaggedContinues(fs);
    }
  }

  lemma {:induction false} TaggedContinues<T>(fs: seq<Fragment<T>>)
    requires forall i :: 0 <= i < |fs| ==> Tagged(fs, i)
    ensures Continuations(fs)
  {
    forall i | 0 < i < |fs| && fs[i - 1].key == fs[i].key ensures fs[i].ips != [] {
      assert Tagged(fs, i);
    }
  }

  /** Fragments after the first of a peer are not empty. */
  ghost predicate Continuations<T>(fs: seq<Fragment<T>>) {
    forall i :: 0 < i < |fs| && fs[i - 1].key == fs[i].key ==> fs[i].ips != []
  }

  // ------------------------------------------------------------ user space

  /** struct wgpeer as parsed: the list of addresses, and whether the pointer to its last
      element is set. */
  datatype Parsed<T> = Parsed(key: nat, ips: seq<T>, hasLast: bool)

  ghost predicate Ready<T>(p: Parsed<T>) { p.hasLast <==> p.ips != [] }

  ghost function Plain<T>(ps: seq<Parsed<T>>): seq<Peer<T>> {
    seq(|ps|, i requires 0 <= i < |ps| => Peer(ps[i].key, ps[i].ips))
  }

  /** Fragments pushed one after the other onto `acc`. */
  ghost function PushAll<T>(acc: seq<Peer<T>>, ps: seq<Peer<T>>): seq<Peer<T>>
    decreases |ps|
  {
    if ps == [] then acc else PushAll(Push(acc, ps[0]), ps[1..])
  }

  class UserDevice<T> {
    var peers: seq<Parsed<T>>

    constructor (peers: seq<Parsed<T>>)
      ensures this.peers == peers
    {
      this.peers := peers;
    }

    /** Append the list of the next peer to this one's; the last pointer is followed. */
    method Join(i: nat)
      requires i + 1 < |peers| && peers[i].key == peers[i + 1].key && !Loose(peers[i])
      modifies this
      ensures |peers| == old(|peers|) - 1 && peers[..i] == old(peers[..i]) && peers[i + 1..] == old(peers[i + 2..])
      ensures peers[i] == Joined(old(peers[i]), old(peers[i + 1]))
    {
      var p, q := peers[i], peers[i + 1];
      var joined;
      if p.ips == [] {
        joined := Parsed(p.key, q.ips, q.hasLast);
        assert p.ips + q.ips == q.ips;
      } else {
        assert p.hasLast;
        joined := Parsed(p.key, p.ips + q.ips, q.hasLast);
      }
      peers := peers[..i] + [joined] + peers[i + 2..];
    }

    /** One turn of the loop: go on to the next peer, or join it. */
    method Turn(i: nat, ghost safe: bool, ghost all: seq<Peer<T>>) returns (ok: bool, next: nat)
      requires i + 1 < |peers| && Merging(peers, i, safe, all)
      modifies this
      ensures ok ==> next < |peers| && Merging(peers, next, safe, all) && |peers| - next < old(|peers|) - i
      ensures !ok ==> !safe
    {
      ghost var ps := peers;
      if peers[i].key != peers[i + 1].key {
        MergingOn(ps, i, safe, all);
        return true, i + 1;
      }
      if peers[i].ips != [] && !peers[i].hasLast {
        SafeStep(ps, i);
        return false, i;
      }
      Join(i);
      MergingJoined(ps, peers, i, safe, all);
      return true, i;
    }

    /** coalesce_peers; it fails when it would follow a null pointer.  That happens exactly
        when a fragment without addresses comes between others of its peer and one before it
        had some; otherwise the fragments are merged as they should be. */
    method Coalesce() returns (ok: bool)
      requires forall i :: 0 <= i < |peers| ==> Ready(peers[i])
      modifies this
      ensures ok <==> NoGap(old(peers))
      ensures ok ==> Plain(peers) == PushAll([], old(Plain(peers)))
    {
      SafeIff(peers);
      ghost var all, safe := PushAll([], Plain(peers)), Safe(peers);
      if |peers| == 0 {
        return true;
      }
      var i: nat := 0;
      ok := true;
      FirstPeer(peers);
      while i + 1 < |peers|
        invariant ok && i < |peers| && Merging(peers, i, safe, all)
        decreases |peers| - i
      {
        ok, i := Turn(i, safe, all);
        if !ok {
          return false;
        }
      }
      assert peers[..i + 1] == peers && peers[i + 1..] == [] && |peers[i..]| == 1;
    }
  }

  /** The loop stands at peer `i`: whether it will get to the end and with which result has
      not changed. */
  ghost predicate Merging<T>(ps: seq<Parsed<T>>, i: nat, safe: bool, all: seq<Peer<T>>)
    requires i < |ps|
  {
    (forall k :: i < k < |ps| ==> Ready(ps[k])) && Safe(ps[i..]) == safe
    && PushAll(Plain(ps[..i + 1]), Plain(ps[i + 1..])) == all
  }

  /** The list has elements and no pointer to the last one. */
  ghost predicate Loose<T>(p: Parsed<T>) { p.ips != [] && !p.hasLast }

  ghost function Joined<T>(p: Parsed<T>, q: Parsed<T>): Parsed<T> { Parsed(p.key, p.ips + q.ips, q.hasLast) }

  /** The loop gets to the end of the list. */
  ghost predicate Safe<T>(ps: seq<Parsed<T>>)
    decreases |ps|
  {
    if |ps| < 2 then true
    else if ps[0].key != ps[1].key then Safe(ps[1..])
    else !Loose(ps[0]) && Safe([Joined(ps[0], ps[1])] + ps[2..])
  }

  lemma {:induction false} SafeStep<T>(ps: seq<Parsed<T>>, i: nat)
    requires i + 1 < |ps|
    ensures ps[i].key != ps[i + 1].key ==> (Safe(ps[i..]) <==> Safe(ps[i + 1..]))
    ensures ps[i].key == ps[i + 1].key ==> (Safe(ps[i..]) <==> !Loose(ps[i]) && Safe([Joined(ps[i], ps[i + 1])] + ps[i + 2..]))
  {
    var rest := ps[i..];
    assert rest[0] == ps[i] && rest[1] == ps[i + 1] && rest[1..] == ps[i + 1..] && rest[2..] == ps[i + 2..];
  }

  // ------------------------------------------------------------ when no null pointer is followed

  /** From `i` to `k` all fragments are of one peer. */
  ghost predicate OneKey<T>(ps: seq<Parsed<T>>, i: nat, k: nat)
    requires i <= k < |ps|
  {
    forall m :: i <= m <= k ==> ps[m].key == ps[i].key
  }

  /** No fragment without addresses has one with some before it and any after it. */
  ghost predicate NoGap<T>(ps: seq<Parsed<T>>) {
    forall i, j :: 0 <= i < j && j + 1 < |ps| && ps[i].ips != [] && ps[j].ips == [] ==> !OneKey(ps, i, j + 1)
  }

  /** The first peer can be joined with the next if it has to be. */
  ghost predicate Tight<T>(ps: seq<Parsed<T>>) {
    NoGap(ps) && (|ps| >= 2 && Loose(ps[0]) ==> ps[0].key != ps[1].key)
  }

  lemma {:induction false} GapTail<T>(ps: seq<Parsed<T>>)
    requires |ps| >= 2 && ps[0].key != ps[1].key
    ensures NoGap(ps) <==> NoGap(ps[1..])
  {
    var qs := ps[1..];
    if NoGap(ps) {
      forall i, j | 0 <= i < j && j + 1 < |qs| && qs[i].ips != [] && qs[j].ips == [] ensures !OneKey(qs, i, j + 1) {
        assert !OneKey(ps, i + 1, j + 2);
        var m :| i + 1 <= m <= j + 2 && ps[m].key != ps[i + 1].key;
        assert qs[m - 1].key != qs[i].key;
      }
    }
    if NoGap(qs) {
      forall i, j | 0 <= i < j && j + 1 < |ps| && ps[i].ips != [] && ps[j].ips == [] ensures !OneKey(ps, i, j + 1) {
        if i == 0 {
          assert ps[1].key != ps[0].key;
        } else {
          assert qs[i - 1] == ps[i] && qs[j - 1] == ps[j];
          var m :| i - 1 <= m <= j && qs[m].key != qs[i - 1].key;
          assert ps[m + 1].key != ps[i].key;
        }
      }
    }
  }

  /** The list after the first two were joined. */
  ghost predicate JoinedList<T>(ps: seq<Parsed<T>>, qs: seq<Parsed<T>>) {
    |ps| >= 2 && ps[0].key == ps[1].key && qs == [Joined(ps[0], ps[1])] + ps[2..]
  }

  lemma {:induction false} OneKeyApart<T>(ps: seq<Parsed<T>>, qs: seq<Parsed<T>>, i: nat, k: nat, from: nat)
    requires JoinedList(ps, qs) && i <= k < |qs| && OneKey(qs, i, k) && (from == i + 1 || (i == 0 && from == 0))
    ensures from <= k + 1 < |ps| && OneKey(ps, from, k + 1)
  {
    assert forall m :: 1 <= m < |qs| ==> qs[m] == ps[m + 1];
    forall m | from <= m <= k + 1 ensures ps[m].key == qs[i].key {
      if m >= 2 {
        assert qs[m - 1].key == qs[i].key;
      }
    }
  }

  lemma {:induction false} OneKeyJoined<T>(ps: seq<Parsed<T>>, qs: seq<Parsed<T>>, i: nat, k: nat, from: nat)
    requires JoinedList(ps, qs) && i <= k < |ps| && 2 <= k && OneKey(ps, i, k) && (i == from + 1 || (i == 0 && from == 0))
    ensures from <= k - 1 < |qs| && OneKey(qs, from, k - 1)
  {
    forall m | from <= m <= k - 1 ensures qs[m].key == ps[i].key {
      if m >= 1 {
        assert qs[m] == ps[m + 1];
        assert ps[m + 1].key == ps[i].key;
      }
    }
  }

  lemma {:induction false} GapJoined<T>(ps: seq<Parsed<T>>, qs: seq<Parsed<T>>)
    requires JoinedList(ps, qs) && NoGap(ps)
    ensures NoGap(qs)
  {
    forall i, j | 0 <= i < j && j + 1 < |qs| && qs[i].ips != [] && qs[j].ips == [] ensures !OneKey(qs, i, j + 1) {
      GapJoinedAt(ps, qs, i, j);
    }
  }

  lemma {:induction false} GapJoinedAt<T>(ps: seq<Parsed<T>>, qs: seq<Parsed<T>>, i: nat, j: nat)
    requires JoinedList(ps, qs) && NoGap(ps) && i < j && j + 1 < |qs| && qs[i].ips != [] && qs[j].ips == []
    ensures !OneKey(qs, i, j + 1)
  {
    var from := if i > 0 || ps[0].ips == [] then i + 1 else 0;
    JoinedAt(ps, qs, i, j, from);
    assert !OneKey(ps, from, j + 2);
    if OneKey(qs, i, j + 1) {
      OneKeyApart(ps, qs, i, j + 1, from);
    }
  }

  lemma {:induction false} JoinedAt<T>(ps: seq<Parsed<T>>, qs: seq<Parsed<T>>, i: nat, j: nat, from: nat)
    requires JoinedList(ps, qs) && i < j < |qs| && qs[i].ips != [] && from == if i > 0 || ps[0].ips == [] then i + 1 else 0
    ensures from <= i + 1 < |ps| && ps[from].ips != [] && j + 1 < |ps| && qs[j] == ps[j + 1]
  {
    assert qs[j] == ps[2..][j - 1];
    if i > 0 {
      assert qs[i] == ps[2..][i - 1];
    }
  }

  lemma {:induction false} GapApart<T>(ps: seq<Parsed<T>>, qs: seq<Parsed<T>>)
    requires JoinedList(ps, qs) && Tight(qs) && Ready(ps[1])
    ensures NoGap(ps)
  {
    forall i, j | 0 <= i < j && j + 1 < |ps| && ps[i].ips != [] && ps[j].ips == [] ensures !OneKey(ps, i, j + 1) {
      if j == 1 {
        assert Loose(qs[0]) && qs[1] == ps[2];
        assert ps[2].key != ps[0].key;
      } else {
        var from := if i > 0 then i - 1 else 0;
        assert qs[j - 1] == ps[j];
        assert qs[from].ips != [];
        assert !OneKey(qs, from, j);
        if OneKey(ps, i, j + 1) {
          OneKeyJoined(ps, qs, i, j + 1, from);
        }
      }
    }
  }

  lemma {:induction false} SafeTight<T>(ps: seq<Parsed<T>>)
    requires forall k :: 0 < k < |ps| ==> Ready(ps[k])
    ensures Safe(ps) <==> Tight(ps)
    decreases |ps|
  {
    if |ps| >= 2 {
      if ps[0].key != ps[1].key {
        SafeTight(ps[1..]);
        GapTail(ps);
      } else if !Loose(ps[0]) {
        var qs := [Joined(ps[0], ps[1])] + ps[2..];
        SafeTight(qs);
        if Tight(qs) {
          GapApart(ps, qs);
        }
        if NoGap(ps) {
          GapJoined(ps, qs);
          assert |qs| >= 2 && Loose(qs[0]) ==> ps[2].key != ps[0].key by { GapFirst(ps); }
        }
      }
    }
  }

  lemma {:induction false} GapFirst<T>(ps: seq<Parsed<T>>)
    requires |ps| >= 3 ==> NoGap(ps) && ps[0].key == ps[1].key && Ready(ps[1])
    ensures |ps| >= 3 && Loose(Joined(ps[0], ps[1])) ==> ps[2].key != ps[0].key
  {
    if |ps| >= 3 && Loose(Joined(ps[0], ps[1])) {
      assert ps[0].ips != [] && ps[1].ips == [];
      assert !OneKey(ps, 0, 2);
    }
  }

  lemma {:induction false} SafeIff<T>(ps: seq<Parsed<T>>)
    requires forall i :: 0 <= i < |ps| ==> Ready(ps[i])
    ensures Safe(ps) <==> NoGap(ps)
  {
    SafeTight(ps);
  }

  // ------------------------------------------------------------ merging

  lemma {:induction false} FirstPeer<T>(ps: seq<Parsed<T>>)
    requires |ps| > 0
    ensures PushAll(Plain(ps[..1]), Plain(ps[1..])) == PushAll([], Plain(ps)) && ps[0..] == ps
  {
    var all := Plain(ps);
    assert Plain(ps[..1]) == [all[0]] && Plain(ps[1..]) == all[1..];
    assert Push([], all[0]) == [all[0]];
  }

  lemma {:induction false} Advance<T>(ps: seq<Parsed<T>>, i: nat)
    requires i + 1 < |ps| && ps[i].key != ps[i + 1].key
    ensures PushAll(Plain(ps[..i + 1]), Plain(ps[i + 1..])) == PushAll(Plain(ps[..i + 2]), Plain(ps[i + 2..]))
  {
    var acc, rest := Plain(ps[..i + 1]), Plain(ps[i + 1..]);
    assert rest[1..] == Plain(ps[i + 2..]);
    assert Plain(ps[..i + 2]) == acc + [rest[0]];
  }

  lemma {:induction false} Absorb<T>(ps: seq<Parsed<T>>, qs: seq<Parsed<T>>, i: nat)
    requires i + 1 < |ps| && ps[i].key == ps[i + 1].key && |qs| == |ps| - 1
    requires qs[..i] == ps[..i] && qs[i + 1..] == ps[i + 2..]
    requires qs[i] == Joined(ps[i], ps[i + 1])
    ensures PushAll(Plain(ps[..i + 1]), Plain(ps[i + 1..])) == PushAll(Plain(qs[..i + 1]), Plain(qs[i + 1..]))
    ensures qs[i..] == [Joined(ps[i], ps[i + 1])] + ps[i + 2..]
  {
    var acc, rest := Plain(ps[..i + 1]), Plain(ps[i + 1..]);
    assert rest[1..] == Plain(ps[i + 2..]);
    AbsorbOne(ps, qs, i);
    assert qs[i..] == [qs[i]] + qs[i + 1..];
  }

  lemma {:induction false} AbsorbOne<T>(ps: seq<Parsed<T>>, qs: seq<Parsed<T>>, i: nat)
    requires i + 1 < |ps| && ps[i].key == ps[i + 1].key && i < |qs| && qs[..i] == ps[..i] && qs[i] == Joined(ps[i], ps[i + 1])
    ensures Push(Plain(ps[..i + 1]), Plain(ps[i + 1..])[0]) == Plain(qs[..i + 1])
  {
    var acc := Plain(ps[..i + 1]);
    assert acc[..i] == Plain(ps[..i]);
    assert qs[..i + 1] == qs[..i] + [qs[i]];
    assert Plain(qs[..i + 1]) == Plain(ps[..i]) + [Peer(qs[i].key, qs[i].ips)];
  }

  lemma {:induction false} MergingOn<T>(ps: seq<Parsed<T>>, i: nat, safe: bool, all: seq<Peer<T>>)
    requires i + 1 < |ps| && ps[i].key != ps[i + 1].key && Merging(ps, i, safe, all)
    ensures Merging(ps, i + 1, safe, all)
  {
    SafeStep(ps, i);
    Advance(ps, i);
  }

  lemma {:induction false} MergingJoined<T>(ps: seq<Parsed<T>>, qs: seq<Parsed<T>>, i: nat, safe: bool, all: seq<Peer<T>>)
    requires i + 1 < |ps| && ps[i].key == ps[i + 1].key && !Loose(ps[i]) && Merging(ps, i, safe, all)
    requires |qs| == |ps| - 1 && qs[..i] == ps[..i] && qs[i + 1..] == ps[i + 2..] && qs[i] == Joined(ps[i], ps[i + 1])
    ensures Merging(qs, i, safe, all)
  {
    SafeStep(ps, i);
    Absorb(ps, qs, i);
    forall k | i < k < |qs| ensures Ready(qs[k]) {
      assert qs[k] == qs[i + 1..][k - i - 1] && ps[k + 1] == ps[i + 2..][k - i - 1];
    }
  }

  /** The shortest list on which a null pointer is followed: three fragments of one peer, the
      middle one empty. */
  method FollowsNull<T>(key: nat, x: T, y: T) returns (ok: bool)
    ensures !ok
  {
    var ps := [Parsed(key, [x], true), Parsed(key, [], false), Parsed(key, [y], true)];
    assert OneKey(ps, 0, 2);
    var device := new UserDevice(ps);
    ok := device.Coalesce();
  }

  // ------------------------------------------------------------ both sides together

  lemma {:induction false} PushAllSnoc<T>(acc: seq<Peer<T>>, ps: seq<Peer<T>>, p: Peer<T>)
    ensures PushAll(acc, ps + [p]) == Push(PushAll(acc, ps), p)
    decreases |ps|
  {
    if ps == [] {
      assert ([] + [p])[0] == p && ([] + [p])[1..] == [];
      assert ps + [p] == [p];
    } else {
      assert (ps + [p])[1..] == ps[1..] + [p];
      PushAllSnoc(Push(acc, ps[0]), ps[1..], p);
    }
  }

  /** The peers as user space parses them out of the messages. */
  function Parse<T>(fs: seq<Fragment<T>>): (ps: seq<Parsed<T>>)
    ensures |ps| == |fs|
  {
    seq(|fs|, i requires 0 <= i < |fs| => Parsed(fs[i].key, fs[i].ips, |fs[i].ips| != 0))
  }

  /** Of fragments as the kernel sends them none is an empty continuation. */
  lemma {:induction false} ContinuedNoGap<T>(fs: seq<Fragment<T>>)
    requires Continuations(fs)
    ensures NoGap(Parse(fs))
  {
    var ps := Parse(fs);
    forall i, j | 0 <= i < j && j + 1 < |ps| && ps[i].ips != [] && ps[j].ips == [] ensures !OneKey(ps, i, j + 1) {
      assert fs[j - 1].key != fs[j].key;
      assert ps[j - 1].key != ps[j].key;
    }
  }

  lemma {:induction false} PlainSnoc<T>(fs: seq<Fragment<T>>)
    requires fs != []
    ensures var f := fs[|fs| - 1]; Plain(Parse(fs)) == Plain(Parse(fs[..|fs| - 1])) + [Peer(f.key, f.ips)]
  {
  }

  lemma {:induction false} MergedIsPushAll<T>(fs: seq<Fragment<T>>)
    ensures Merged(fs) == PushAll([], Plain(Parse(fs)))
  {
    if fs != [] {
      var init, f := fs[..|fs| - 1], fs[|fs| - 1];
      MergedIsPushAll(init);
      PushAllSnoc([], Plain(Parse(init)), Peer(f.key, f.ips));
      PlainSnoc(fs);
    }
  }

  /** However a dump is cut into messages, user space ends up with every peer once, in order,
      with all its allowed addresses in order. */
  method DumpAndCoalesce<T>(d: Device<T>, messages: seq<seq<Fit>>) returns (done: bool, result: seq<Parsed<T>>)
    requires WellFormed(d) && StartWithRoom(messages)
    ensures done ==> Plain(result) == Complete(d, |d.keys|)
    ensures |messages| >= Rest(d, 0) ==> done
  {
    var fs;
    done, fs := Dump(d, messages);
    MergedIsPushAll(fs);
    ContinuedNoGap(fs);
    var device := new UserDevice(Parse(fs));
    var ok := device.Coalesce();
    result := device.peers;
  }
}
