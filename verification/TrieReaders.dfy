/** Lookups run without the lock.  A reader stands somewhere in the trie while a writer
    performs a store; these lemmas say what the reader can still return. */
module TrieReaders {
  import opened Wrappers
  import opened Prefixes
  import opened TrieModel
  import opened TriePaths

  /** A lookup of `addr` that started with `start` has walked along `path` and now
      remembers `found`. */
  ghost predicate Walked<R>(t: Tree<R>, path: Path, addr: Bits, start: Option<Peer>, found: Option<Peer>) {
    if path == [] then found == start
    else
      t.Fork? && t.cidr < |addr| && CommonBits(t.bits, addr) >= t.cidr && path[0] == addr[t.cidr]
      && Walked(Child(t, path[0]), path[1..], addr, if t.peer.Some? then t.peer else start, found)
  }

  lemma {:induction false} WalkedFind<R>(t: Tree<R>, path: Path, addr: Bits, start: Option<Peer>, found: Option<Peer>)
    requires Walked(t, path, addr, start, found)
    ensures OnTree(t, path) && FindFrom(t, addr, start) == FindFrom(At(t, path), addr, found)
  {
    if path != [] {
      WalkedFind(Child(t, path[0]), path[1..], addr, if t.peer.Some? then t.peer else start, found);
    }
  }

  /** A store strictly below or beside the reader does not change how it got there. */
  lemma {:induction false} WalkedPut<R>(t: Tree<R>, path: Path, addr: Bits, start: Option<Peer>, found: Option<Peer>,
                                        at: Path, s: Tree<R>)
    requires Walked(t, path, addr, start, found) && OnTree(t, at) && !(at <= path)
    ensures Walked(Put(t, at, s), path, addr, start, found)
  {
    if path != [] && path[0] == at[0] {
      assert at == [at[0]] + at[1..] && path == [path[0]] + path[1..];
      WalkedPut(Child(t, path[0]), path[1..], addr, if t.peer.Some? then t.peer else start, found, at[1..], s);
    }
  }

  /** A lookup overlapping one pointer store, at any moment of its walk, returns the
      answer of the table before the store or of the table after it: a reader already
      below the stored pointer goes on in the old nodes, any other reader meets the new. */
  lemma ReaderAcrossStore<R>(t: Tree<R>, path: Path, addr: Bits, found: Option<Peer>, at: Path, s: Tree<R>)
    requires Walked(t, path, addr, None, found) && OnTree(t, at)
    ensures OnTree(t, path)
    ensures at <= path ==> FindFrom(At(t, path), addr, found) == Find(t, addr)
    ensures !(at <= path) ==> OnTree(Put(t, at, s), path)
                              && FindFrom(At(Put(t, at, s), path), addr, found) == Find(Put(t, at, s), addr)
  {
    WalkedFind(t, path, addr, None, found);
    if !(at <= path) {
      WalkedPut(t, path, addr, None, found, at, s);
      WalkedFind(Put(t, at, s), path, addr, None, found);
    }
  }

  // ------------------------------------------------------------ stores into a node

  /** find_node remembers a node, and its peer is read once the walk is over: where the node
      is that a lookup from the root ends up with. */
  function FindSpot<R>(t: Tree<R>, addr: Bits): Option<Path>
    decreases t
  {
    if t.Empty? || CommonBits(t.bits, addr) < t.cidr then None
    else
      var here: Option<Path> := if t.peer.Some? then Some([]) else None;
      if t.cidr >= |addr| then here else Below(addr[t.cidr], FindSpot(Child(t, addr[t.cidr]), addr), here)
  }

  function Below(b: bool, spot: Option<Path>, here: Option<Path>): Option<Path> {
    match spot case Some(p) => Some([b] + p) case None => here
  }

  lemma {:induction false} SpotPeer<R>(t: Tree<R>, addr: Bits)
    ensures match FindSpot(t, addr)
            case Some(p) => OnTree(t, p) && At(t, p).Fork? && At(t, p).peer.Some? && At(t, p).peer == Find(t, addr)
            case None => Find(t, addr) == None
    decreases t
  {
    if t.Fork? && CommonBits(t.bits, addr) >= t.cidr && t.cidr < |addr| {
      SpotPeer(Child(t, addr[t.cidr]), addr);
      FindFromDefault(Child(t, addr[t.cidr]), addr, t.peer);
    }
  }

  /** The lookup of `addr` comes by `path`. */
  ghost predicate OnWay<R>(t: Tree<R>, path: Path, addr: Bits) {
    path == []
    || (t.Fork? && t.cidr < |addr| && CommonBits(t.bits, addr) >= t.cidr && path[0] == addr[t.cidr]
        && OnWay(Child(t, path[0]), path[1..], addr))
  }

  /** The node it remembers then. */
  ghost function Remembered<R>(t: Tree<R>, path: Path): Option<Path>
    requires OnTree(t, path)
  {
    if path == [] then None
    else Below(path[0], Remembered(Child(t, path[0]), path[1..]), if t.peer.Some? then Some([]) else None)
  }

  /** The node it ends up with when it goes on from there. */
  ghost function EndsAt<R>(t: Tree<R>, path: Path, addr: Bits, found: Option<Path>): Option<Path>
    requires OnTree(t, path)
  {
    match FindSpot(At(t, path), addr) case Some(p) => Some(path + p) case None => found
  }

  lemma {:induction false} EndsAtStep<R>(t: Tree<R>, path: Path, addr: Bits)
    requires path != [] && OnTree(t, path)
    ensures var c, rest := Child(t, path[0]), path[1..];
            EndsAt(t, path, addr, Remembered(t, path))
            == Below(path[0], EndsAt(c, rest, addr, Remembered(c, rest)), if t.peer.Some? then Some([]) else None)
  {
    match FindSpot(At(t, path), addr)
    case Some(p) => assert path + p == [path[0]] + (path[1..] + p);
    case None =>
  }

  lemma {:induction false} EndsAtSpot<R>(t: Tree<R>, path: Path, addr: Bits)
    requires OnWay(t, path, addr)
    ensures OnTree(t, path) && EndsAt(t, path, addr, Remembered(t, path)) == FindSpot(t, addr)
  {
    if path == [] {
      assert FindSpot(t, addr).Some? ==> [] + FindSpot(t, addr).value == FindSpot(t, addr).value;
    } else {
      EndsAtSpot(Child(t, path[0]), path[1..], addr);
      EndsAtStep(t, path, addr);
    }
  }

  /** The store of a peer into the node at `at`. */
  ghost function SetPeer<R>(t: Tree<R>, at: Path, q: Option<Peer>): Tree<R>
    requires OnTree(t, at) && At(t, at).Fork?
  {
    Put(t, at, At(t, at).(peer := q))
  }

  lemma {:induction false} SetPeerAt<R>(t: Tree<R>, at: Path, q: Option<Peer>, p: Path)
    requires OnTree(t, at) && At(t, at).Fork? && OnTree(t, p) && At(t, p).Fork?
    ensures var u := SetPeer(t, at, q);
            OnTree(u, p) && At(u, p).Fork? && At(u, p).peer == if p == at then q else At(t, p).peer
  {
    if at != [] && p != [] && p[0] == at[0] {
      assert at == [at[0]] + at[1..] && p == [p[0]] + p[1..];
      SetPeerAt(Child(t, at[0]), at[1..], q, p[1..]);
    }
  }

  /** A reader that has not come by the node yet. */
  lemma {:induction false} SetPeerAhead<R>(t: Tree<R>, at: Path, q: Option<Peer>, path: Path, addr: Bits)
    requires OnTree(t, at) && At(t, at).Fork? && OnWay(t, path, addr) && OnTree(t, path) && !(at < path)
    ensures var u := SetPeer(t, at, q); OnWay(u, path, addr) && OnTree(u, path) && Remembered(u, path) == Remembered(t, path)
  {
    if path != [] {
      assert at != [];
      var u, c := SetPeer(t, at, q), Child(t, path[0]);
      if path[0] == at[0] {
        assert at == [at[0]] + at[1..] && path == [path[0]] + path[1..];
        SetPeerAhead(c, at[1..], q, path[1..], addr);
        assert Child(u, path[0]) == SetPeer(c, at[1..], q);
      } else {
        assert Child(u, path[0]) == c;
      }
    }
  }

  /** A reader that has come by it. */
  lemma {:induction false} SetPeerBehind<R>(t: Tree<R>, at: Path, q: Option<Peer>, path: Path)
    requires OnTree(t, at) && At(t, at).Fork? && OnTree(t, path) && at < path
    ensures OnTree(SetPeer(t, at, q), path) && At(SetPeer(t, at, q), path) == At(t, path)
  {
    if at != [] {
      assert at == [at[0]] + at[1..] && path == [path[0]] + path[1..];
      SetPeerBehind(Child(t, at[0]), at[1..], q, path[1..]);
    }
  }

  /** Replacing one owner by another moves no lookup. */
  lemma {:induction false} SetPeerSpot<R>(t: Tree<R>, at: Path, q: Option<Peer>, addr: Bits)
    requires OnTree(t, at) && At(t, at).Fork? && At(t, at).peer.Some? && q.Some?
    ensures FindSpot(SetPeer(t, at, q), addr) == FindSpot(t, addr)
    decreases at
  {
    if at != [] {
      SetPeerSpot(Child(t, at[0]), at[1..], q, addr);
    }
  }

  /** A lookup overlapping the store of a peer into a node, at any moment of its walk, reads
      from the node it ends up with the answer of the table before the store or of the table
      after it, or it reads that the very node it chose has lost its peer and starts again. */
  lemma {:induction false} ReaderAcrossPeer<R>(t: Tree<R>, path: Path, addr: Bits, at: Path, q: Option<Peer>)
    requires OnTree(t, at) && At(t, at).Fork? && OnWay(t, path, addr) && OnTree(t, path)
    ensures var u := SetPeer(t, at, q);
            OnTree(u, path) &&
            match EndsAt(u, path, addr, Remembered(t, path))
            case None => Find(t, addr) == None || Find(u, addr) == None
            case Some(p) =>
              OnTree(u, p) && At(u, p).Fork?
              && (At(u, p).peer == Find(t, addr) || At(u, p).peer == Find(u, addr) || (p == at && q == None))
  {
    var u := SetPeer(t, at, q);
    SpotPeer(t, addr);
    SpotPeer(u, addr);
    EndsAtSpot(t, path, addr);
    if !(at < path) {
      SetPeerAhead(t, at, q, path, addr);
      EndsAtSpot(u, path, addr);
    } else {
      SetPeerBehind(t, at, q, path);
      match FindSpot(t, addr)
      case Some(p) =>
        SetPeerAt(t, at, q, p);
        if p == at && q.Some? {
          SetPeerSpot(t, at, q, addr);
        }
      case None =>
    }
  }
}
