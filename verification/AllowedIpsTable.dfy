/** struct allowedips: two tries and a sequence number, and whole runs over them. */
module AllowedIpsTable {
  import opened Wrappers
  import opened Sequences
  import opened Prefixes
  import opened TrieModel
  import opened TrieHeap
  import opened AllowedIps
  import opened AllowedIpsRemove
  import opened AllowedIpsWalk
  import opened NaiveAllowedIps

  // ------------------------------------------------------------ runs on one trie

  datatype Op =
    | InsertOp(key: Bits, cidr: nat, peer: Option<Peer>, memory: (bool, bool))
    | RemoveOp(who: Option<Peer>)

  ghost function Apply(rs: set<Route>, op: Op, ret: Errno): set<Route> {
    match op
    case InsertOp(key, cidr, peer, _) =>
      if ret == Ok && peer.Some? && cidr <= |key| then Inserted(rs, key[..cidr], peer.value) else rs
    case RemoveOp(who) => if who.Some? then Without(rs, who.value) else rs
  }

  /** The table a run of operations with the given return codes stands for. */
  ghost function TableAfter(ops: seq<Op>, rets: seq<Errno>): set<Route>
    requires |ops| == |rets|
  {
    if ops == [] then {}
    else Apply(TableAfter(ops[..|ops| - 1], rets[..|rets| - 1]), ops[|ops| - 1], rets[|rets| - 1])
  }

  lemma TableAfterSnoc(ops: seq<Op>, rets: seq<Errno>, op: Op, ret: Errno)
    requires |ops| == |rets|
    ensures TableAfter(ops + [op], rets + [ret]) == Apply(TableAfter(ops, rets), op, ret)
  {
    assert (ops + [op])[..|ops|] == ops && (rets + [ret])[..|rets|] == rets;
  }

  method Perform(trie: Trie, op: Op) returns (ret: Errno)
    requires trie.Valid() && (op.InsertOp? ==> |op.key| == trie.width)
    modifies trie, trie.heap.Keys
    ensures trie.Valid() && fresh(trie.heap.Keys - old(trie.heap.Keys))
    ensures Routes(trie.tree) == Apply(old(Routes(trie.tree)), op, ret)
    ensures op.InsertOp? ==> (ret == EInval <==> op.cidr > trie.width || op.peer == None)
                             && (op.memory == (true, true) ==> ret != ENoMem)
  {
    ret := Ok;
    match op {
      case InsertOp(key, cidr, peer, memory) => ret := trie.Add(key, cidr, peer, memory);
      case RemoveOp(who) => ghost var deepest := RemoveByPeer(trie, who);
    }
  }

  /** After any sequence of inserts and removals by peer, every lookup returns the owner
      of the longest stored prefix; an insert fails only as its arguments or memory say. */
  method Run(width: nat, ops: seq<Op>) returns (trie: Trie, rets: seq<Errno>)
    requires forall i :: 0 <= i < |ops| && ops[i].InsertOp? ==> |ops[i].key| == width
    ensures fresh(trie) && trie.Valid() && trie.width == width && |rets| == |ops|
    ensures Routes(trie.tree) == TableAfter(ops, rets)
    ensures forall i :: 0 <= i < |ops| && ops[i].InsertOp? ==>
              (rets[i] == EInval <==> ops[i].cidr > width || ops[i].peer == None)
              && (ops[i].memory == (true, true) ==> rets[i] != ENoMem)
    ensures forall addr: Bits :: |addr| == width ==> IsLongestMatch(TableAfter(ops, rets), addr, Find(trie.tree, addr))
  {
    trie := new Trie(width);
    rets := [];
    for i := 0 to |ops|
      invariant fresh(trie) && fresh(trie.heap.Keys) && trie.Valid() && trie.width == width && |rets| == i
      invariant Routes(trie.tree) == TableAfter(ops[..i], rets)
      invariant forall j :: 0 <= j < i && ops[j].InsertOp? ==>
                  (rets[j] == EInval <==> ops[j].cidr > width || ops[j].peer == None)
                  && (ops[j].memory == (true, true) ==> rets[j] != ENoMem)
    {
      var ret := Perform(trie, ops[i]);
      TableAfterSnoc(ops[..i], rets, ops[i], ret);
      assert ops[..i + 1] == ops[..i] + [ops[i]];
      rets := rets + [ret];
    }
    assert ops[..|ops|] == ops;
    forall addr: Bits | |addr| == width
      ensures IsLongestMatch(TableAfter(ops, rets), addr, Find(trie.tree, addr))
    {
      FindIsLongestMatch(trie.tree, width, addr);
    }
  }

  /** After any insert-only run the trie and the naive list give the same answer for
      every address. */
  method RunBoth(width: nat, version: nat, inserts: seq<(Bits, nat, Peer)>) returns (trie: Trie, list: Naive)
    requires forall i :: 0 <= i < |inserts| ==> |inserts[i].0| == width && inserts[i].1 <= width
    ensures trie.Valid() && list.Valid() && trie.width == width
    ensures forall addr: Bits :: |addr| == width ==> Find(trie.tree, addr) == LookupFirst(list.items, version, addr)
  {
    trie := new Trie(width);
    list := new Naive();
    for i := 0 to |inserts|
      invariant fresh(trie) && fresh(trie.heap.Keys) && trie.Valid() && trie.width == width
      invariant fresh(list) && list.Valid() && Stores(list.items, version, Routes(trie.tree))
    {
      var (key, cidr, peer) := inserts[i];
      InsertStores(list.items, Item(version, key[..cidr], peer), version, Routes(trie.tree));
      list.Insert(Item(version, key[..cidr], peer));
      var ret := trie.Add(key, cidr, Some(peer), (true, true));
    }
    RoutesFunctional(trie.tree, width);
    forall addr: Bits | |addr| == width
      ensures Find(trie.tree, addr) == LookupFirst(list.items, version, addr)
    {
      FindIsLongestMatch(trie.tree, width, addr);
      NaiveIsLongestMatch(list.items, version, Routes(trie.tree), addr);
      LongestMatchUnique(Routes(trie.tree), addr, Find(trie.tree, addr), LookupFirst(list.items, version, addr));
    }
  }

  // ------------------------------------------------------------ both families

  /** One reported route: the width names the address family. */
  datatype Entry = Entry(width: nat, prefix: Bits)

  function Tagged(width: nat, s: seq<Bits>): seq<Entry> {
    seq(|s|, i requires 0 <= i < |s| => Entry(width, s[i]))
  }

  lemma TaggedConcat(width: nat, a: seq<Bits>, b: seq<Bits>)
    ensures Tagged(width, a + b) == Tagged(width, a) + Tagged(width, b)
  {
  }

  class Table {
    const root4: Trie
    const root6: Trie
    var seqno: nat

    constructor ()
      ensures Valid() && fresh(root4) && fresh(root6) && fresh(root4.heap.Keys) && fresh(root6.heap.Keys)
      ensures root4.tree == Empty && root6.tree == Empty && seqno == 1
    {
      root4 := new Trie(32);
      root6 := new Trie(128);
      seqno := 1;
    }

    ghost predicate Valid()
      reads this, root4, root6, root4.heap.Keys, root6.heap.Keys
    {
      root4 != root6 && root4.width == 32 && root6.width == 128 && root4.heap.Keys !! root6.heap.Keys
      && root4.Valid() && root6.Valid() && seqno > 0
    }

    /** Everything a peer owns, in the order the walk reports it. */
    ghost function FullListing(peer: Peer): seq<Entry>
      reads this, root4, root6
    {
      Tagged(32, Listing(root4.tree, peer)) + Tagged(128, Listing(root6.tree, peer))
    }

    /** wg_allowedips_remove_by_peer. */
    method Remove(who: Option<Peer>)
      requires Valid()
      modifies this, root4, root6, root4.heap.Keys, root6.heap.Keys
      ensures Valid() && seqno == old(seqno) + 1
      ensures who.Some? ==> Routes(root4.tree) == Without(old(Routes(root4.tree)), who.value)
                            && Routes(root6.tree) == Without(old(Routes(root6.tree)), who.value)
    {
      seqno := seqno + 1;
      ghost var deepest4 := RemoveByPeer(root4, who);
      ghost var deepest6 := RemoveByPeer(root6, who);
    }

    /** wg_allowedips_insert_v4 and _v6: the other family is untouched. */
    method Insert(v6: bool, key: Bits, cidr: nat, peer: Option<Peer>, memory: (bool, bool)) returns (ret: Errno)
      requires Valid() && |key| == if v6 then 128 else 32
      modifies this, root4, root6, root4.heap.Keys, root6.heap.Keys
      ensures Valid() && seqno == old(seqno) + 1
      ensures ret == Ok ==> cidr <= |key| && peer.Some?
      ensures var (mine, other) := if v6 then (root6, root4) else (root4, root6);
              other.tree == old(other.tree)
              && Routes(mine.tree) == if ret == Ok then Inserted(old(Routes(mine.tree)), key[..cidr], peer.value) else old(Routes(mine.tree))
    {
      seqno := seqno + 1;
      if v6 {
        ret := root6.Add(key, cidr, peer, memory);
      } else {
        ret := root4.Add(key, cidr, peer, memory);
      }
    }

    /** A cursor that was just zeroed, or was left behind by an interrupted walk of this table. */
    ghost predicate Resumable(c: Cursor)
      reads this, c, root4, root6
    {
      c.Fresh() || (c.seqno == seqno && c.stack != [] && c.Over(if c.secondHalf then root6 else root4)
                    && (if c.secondHalf then root6 else root4).tree.Fork?)
    }

    /** What a walk with this cursor still has to report. */
    ghost function Due(c: Cursor, peer: Peer): seq<Entry>
      reads this, c, root4, root6
    {
      if c.stack == [] then FullListing(peer)
      else if c.secondHalf then Tagged(128, Remaining(c.trees, peer))
      else Tagged(32, Remaining(c.trees, peer)) + Tagged(128, Listing(root6.tree, peer))
    }

    /** wg_allowedips_walk_by_peer with a callback that accepts `room` entries: a cursor of an
        older table reports nothing more; any other resumes exactly where it stopped. */
    method Walk(c: Cursor, peer: Peer, room: nat) returns (done: bool, out: seq<Entry>)
      requires Valid() && (Resumable(c) || (c.seqno != 0 && c.seqno != seqno))
      modifies c
      ensures old(c.seqno) != 0 && old(c.seqno) != seqno ==> done && out == []
      ensures old(c.seqno) == 0 || old(c.seqno) == seqno ==>
                |out| <= room
                && if done then out == old(Due(c, peer))
                   else |out| == room && Resumable(c) && c.stack != [] && out + Due(c, peer) == old(Due(c, peer))
    {
      if c.seqno == 0 {
        c.seqno := seqno;
      } else if c.seqno != seqno {
        return true, [];
      }
      if c.secondHalf {
        done, out := WalkSecond(c, peer, room);
      } else {
        done, out := WalkBoth(c, peer, room);
      }
    }

    /** The second family, from its root or from where the cursor stands. */
    method WalkSecond(c: Cursor, peer: Peer, room: nat) returns (done: bool, out: seq<Entry>)
      requires Valid() && c.seqno == seqno && c.secondHalf && c.Over(root6) && (root6.tree.Empty? ==> c.stack == [])
      modifies c
      ensures |out| <= room && c.secondHalf && c.seqno == seqno
      ensures var due := Tagged(128, if old(c.stack) == [] then Listing(root6.tree, peer) else Remaining(old(c.trees), peer));
              if done then out == due
              else |out| == room && Resumable(c) && c.stack != [] && out + Tagged(128, Remaining(c.trees, peer)) == due
    {
      done, out := WalkTagged(root6, 128, c, peer, room);
      if done {
        assert out == out + Tagged(128, Remaining(c.trees, peer));
      }
    }

    /** Both families. */
    method WalkBoth(c: Cursor, peer: Peer, room: nat) returns (done: bool, out: seq<Entry>)
      requires Valid() && c.seqno == seqno && !c.secondHalf && c.Over(root4) && (root4.tree.Empty? ==> c.stack == [])
      modifies c
      ensures |out| <= room
      ensures var first := Tagged(32, if old(c.stack) == [] then Listing(root4.tree, peer) else Remaining(old(c.trees), peer));
              var due := first + Tagged(128, Listing(root6.tree, peer));
              if done then out == due else |out| == room && Resumable(c) && c.stack != [] && out + Due(c, peer) == due
    {
      ghost var second := Tagged(128, Listing(root6.tree, peer));
      done, out := WalkTagged(root4, 32, c, peer, room);
      Associate(out, Tagged(32, Remaining(c.trees, peer)), second);
      if !done {
        return;
      }
      assert out == out + Tagged(32, Remaining(c.trees, peer));
      c.secondHalf := true;
      var rest;
      done, rest := WalkSecond(c, peer, room - |out|);
      Associate(out, rest, Tagged(128, Remaining(c.trees, peer)));
      out := out + rest;
    }
  }

  /** A walk over one of the tries, with the entries it reports. */
  method WalkTagged(trie: Trie, width: nat, c: Cursor, peer: Peer, room: nat) returns (done: bool, out: seq<Entry>)
    requires trie.Valid() && c.Over(trie) && (trie.tree.Empty? ==> c.stack == [])
    modifies c
    ensures c.Over(trie) && c.seqno == old(c.seqno) && c.secondHalf == old(c.secondHalf) && |out| <= room
    ensures out + Tagged(width, Remaining(c.trees, peer))
         == Tagged(width, if old(c.stack) == [] then Listing(trie.tree, peer) else Remaining(old(c.trees), peer))
    ensures if done then c.stack == [] && c.trees == [] && Tagged(width, Remaining(c.trees, peer)) == []
            else |out| == room && c.stack != [] && trie.tree.Fork?
  {
    var found;
    done, found := WalkByPeer(trie, c, peer, room);
    out := Tagged(width, found);
    TaggedConcat(width, found, Remaining(c.trees, peer));
    assert done ==> c.trees == [];
  }

  /** A walk of an unchanged table cut short any number of times, at any points, reports in
      its pieces together every route of the peer, in order and each exactly once. */
  method WalkInPieces(table: Table, peer: Peer, rooms: seq<nat>) returns (done: bool, pieces: seq<seq<Entry>>)
    requires table.Valid()
    ensures Flatten(pieces) <= table.FullListing(peer)
    ensures done ==> Flatten(pieces) == table.FullListing(peer)
    ensures !done ==> |pieces| == |rooms| && forall i :: 0 <= i < |rooms| ==> |pieces[i]| == rooms[i]
  {
    var c := new Cursor();
    done, pieces := false, [];
    ghost var full := table.FullListing(peer);
    assert Flatten<Entry>([]) + full == full;
    while |pieces| < |rooms|
      invariant fresh(c) && table.Resumable(c) && Cut(pieces, rooms, table.Due(c, peer), full)
    {
      var out;
      ghost var due := table.Due(c, peer);
      done, out := WalkOnce(table, c, peer, rooms[|pieces|]);
      if done {
        LastPiece(pieces, rooms, out, full);
        pieces := pieces + [out];
        return;
      }
      AddPiece(pieces, rooms, out, due, table.Due(c, peer), full);
      pieces := pieces + [out];
    }
    done := false;
  }

  /** The pieces have the lengths asked for, and together with what is due they are `full`. */
  ghost predicate Cut<T>(pieces: seq<seq<T>>, rooms: seq<nat>, due: seq<T>, full: seq<T>) {
    |pieces| <= |rooms| && (forall i :: 0 <= i < |pieces| ==> |pieces[i]| == rooms[i]) && Flatten(pieces) + due == full
  }

  /** One call of the walk with a cursor that belongs to the table. */
  method WalkOnce(table: Table, c: Cursor, peer: Peer, room: nat) returns (done: bool, out: seq<Entry>)
    requires table.Valid() && table.Resumable(c)
    modifies c
    ensures done ==> out == old(table.Due(c, peer))
    ensures !done ==> |out| == room && table.Resumable(c) && out + table.Due(c, peer) == old(table.Due(c, peer))
  {
    done, out := table.Walk(c, peer, room);
  }

  lemma AddPiece<T>(pieces: seq<seq<T>>, rooms: seq<nat>, out: seq<T>, due: seq<T>, rest: seq<T>, full: seq<T>)
    requires Cut(pieces, rooms, due, full) && |pieces| < |rooms| && |out| == rooms[|pieces|] && out + rest == due
    ensures Cut(pieces + [out], rooms, rest, full)
  {
    FlattenSnoc(pieces, out);
    Associate(Flatten(pieces), out, rest);
  }

  lemma LastPiece<T>(pieces: seq<seq<T>>, rooms: seq<nat>, out: seq<T>, full: seq<T>)
    requires Cut(pieces, rooms, out, full)
    ensures Flatten(pieces + [out]) == full
  {
    FlattenSnoc(pieces, out);
  }

  /** Each route of the peer occurs in the full listing exactly once, and nothing else does. */
  lemma FullListingOnce(t4: Tree<Node>, t6: Tree<Node>, peer: Peer)
    requires WellFormed(t4, 32) && WellFormed(t6, 128)
    ensures var l := Tagged(32, Listing(t4, peer)) + Tagged(128, Listing(t6, peer));
            NoDuplicates(l)
            && forall e :: e in l <==> (e.width == 32 && Route(e.prefix, peer) in Routes(t4))
                                       || (e.width == 128 && Route(e.prefix, peer) in Routes(t6))
  {
    var l4, l6 := Listing(t4, peer), Listing(t6, peer);
    ListingOnce(t4, 32, peer);
    ListingOnce(t6, 128, peer);
    assert NoDuplicates(Tagged(32, l4)) && NoDuplicates(Tagged(128, l6));
    ConcatNoDuplicates(Tagged(32, l4), Tagged(128, l6));
    forall e: Entry
      ensures e in Tagged(32, l4) <==> e.width == 32 && Route(e.prefix, peer) in Routes(t4)
      ensures e in Tagged(128, l6) <==> e.width == 128 && Route(e.prefix, peer) in Routes(t6)
    {
      ListingComplete(t4, 32, peer, e.prefix);
      ListingComplete(t6, 128, peer, e.prefix);
      TaggedMember(32, l4, e);
      TaggedMember(128, l6, e);
    }
  }

  lemma TaggedMember(width: nat, s: seq<Bits>, e: Entry)
    ensures e in Tagged(width, s) <==> e.width == width && e.prefix in s
  {
    if e.width == width && e.prefix in s {
      var i :| 0 <= i < |s| && s[i] == e.prefix;
      assert Tagged(width, s)[i] == e;
    }
  }
}
