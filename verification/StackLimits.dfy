/** Calls that make the walks over the trie need a slot more than the address has bits. */
module StackLimits {
  import opened Wrappers
  import opened Prefixes
  import opened TrieModel
  import opened TrieDepth
  import opened AllowedIps
  import opened AllowedIpsRemove
  import opened AllowedIpsWalk

  /** Insert one prefix, with memory to spare. */
  method Store(trie: Trie, key: Bits, cidr: nat, peer: Peer)
    requires trie.Valid() && |key| == trie.width && cidr <= |key|
    modifies trie, trie.heap.Keys
    ensures trie.Valid() && fresh(trie.heap.Keys - old(trie.heap.Keys))
    ensures Routes(trie.tree) == Inserted(old(Routes(trie.tree)), key[..cidr], peer)
  {
    var ret := trie.Add(key, cidr, Some(peer), (true, true));
    assert ret == Ok;
  }

  /** Insert every prefix of one address, from the empty one to the full one. */
  method StoreAllPrefixes(key: Bits, peer: Peer) returns (trie: Trie)
    ensures fresh(trie) && fresh(trie.heap.Keys) && trie.Valid() && trie.width == |key|
    ensures Height(trie.tree) == |key| + 1
  {
    trie := new Trie(|key|);
    for c := 0 to |key| + 1
      invariant fresh(trie) && fresh(trie.heap.Keys) && trie.Valid() && trie.width == |key|
      invariant forall i :: 0 <= i < c ==> Route(key[..i], peer) in Routes(trie.tree)
    {
      Store(trie, key, c, peer);
    }
    forall i | 0 <= i <= |key| ensures key[..i] in NodePrefixes(trie.tree) {
      RoutesAreNodes(trie.tree, Route(key[..i], peer));
    }
    assert AllPrefixesFrom(trie.tree, key, 0);
    TallIff(trie.tree, |key|);
  }

  /** Removing any peer then takes a slot more than the address has bits: for IPv6 a slot more
      than there are. */
  method RemoveNeedsMore(key: Bits, peer: Peer, who: Peer) returns (ghost deepest: nat)
    ensures deepest == |key| + 1
    ensures |key| == STACK_SLOTS ==> deepest > STACK_SLOTS
  {
    var trie := StoreAllPrefixes(key, peer);
    deepest := RemoveByPeer(trie, Some(who));
  }

  /** All ones for `i` bits and then a zero. */
  function Aside(width: nat, i: nat): (p: Bits)
    requires i < width
    ensures |p| == i + 1 && p[..i] == Ones(width)[..i] && !p[i]
  {
    Ones(width)[i := false][..i + 1]
  }

  ghost predicate HasStep(rs: set<Route>, width: nat, peer: Peer, i: nat)
    requires i < width
  {
    Route(Ones(width)[..i], peer) in rs && Route(Aside(width, i), peer) in rs
  }

  lemma {:induction false} CombStored<R>(t: Tree<R>, width: nat, peer: Peer)
    requires WellFormed(t, width) && (forall i :: 0 <= i < width ==> HasStep(Routes(t), width, peer, i))
    requires Route(Ones(width)[..width], peer) in Routes(t)
    ensures CombHeight(t) == width + 1
  {
    var ones := Ones(width);
    forall i | 0 <= i <= width ensures ones[..i] in NodePrefixes(t) {
      assert i < width ==> HasStep(Routes(t), width, peer, i);
      RoutesAreNodes(t, Route(ones[..i], peer));
    }
    forall i | 0 <= i < width ensures TurnsOff(t, width, i) {
      assert HasStep(Routes(t), width, peer, i);
      RoutesAreNodes(t, Route(Aside(width, i), peer));
    }
    assert CombFrom(t, width, 0);
    CombIff(t, width);
  }

  /** Insert a prefix of the address of all ones, and the one that turns off behind it. */
  method StoreStep(trie: Trie, c: nat, peer: Peer)
    requires trie.Valid() && c < trie.width
    modifies trie, trie.heap.Keys
    ensures trie.Valid() && fresh(trie.heap.Keys - old(trie.heap.Keys))
    ensures Routes(trie.tree)
         == Inserted(Inserted(old(Routes(trie.tree)), Ones(trie.width)[..c], peer), Aside(trie.width, c), peer)
  {
    var ones := Ones(trie.width);
    Store(trie, ones, c, peer);
    Store(trie, ones[c := false], c + 1, peer);
  }

  /** Inserting for one peer takes nothing away from it. */
  lemma StepsStay(rs: set<Route>, width: nat, peer: Peer, c: nat)
    requires c < width && (forall i :: 0 <= i < c ==> HasStep(rs, width, peer, i)) && forall r :: r in rs ==> r.peer == peer
    ensures var next := Inserted(Inserted(rs, Ones(width)[..c], peer), Aside(width, c), peer);
            (forall i :: 0 <= i <= c ==> HasStep(next, width, peer, i)) && forall r :: r in next ==> r.peer == peer
  {
    var next := Inserted(Inserted(rs, Ones(width)[..c], peer), Aside(width, c), peer);
    assert rs <= next;
    forall i | 0 <= i <= c ensures HasStep(next, width, peer, i) {
      assert i < c ==> HasStep(rs, width, peer, i);
    }
  }

  /** Insert every prefix of the address of all ones, and beside each the one that turns off. */
  method StoreComb(width: nat, peer: Peer) returns (trie: Trie)
    ensures fresh(trie) && fresh(trie.heap.Keys) && trie.Valid() && trie.width == width
    ensures CombHeight(trie.tree) == width + 1
    ensures forall r :: r in Routes(trie.tree) ==> r.peer == peer
  {
    trie := new Trie(width);
    for c := 0 to width
      invariant fresh(trie) && fresh(trie.heap.Keys) && trie.Valid() && trie.width == width
      invariant forall i :: 0 <= i < c ==> HasStep(Routes(trie.tree), width, peer, i)
      invariant forall r :: r in Routes(trie.tree) ==> r.peer == peer
    {
      StepsStay(Routes(trie.tree), width, peer, c);
      StoreStep(trie, c, peer);
    }
    ghost var rs := Routes(trie.tree);
    Store(trie, Ones(width), width, peer);
    assert rs <= Routes(trie.tree);
    forall i | 0 <= i < width ensures HasStep(Routes(trie.tree), width, peer, i) {
      assert HasStep(rs, width, peer, i);
    }
    CombStored(trie.tree, width, peer);
  }

  /** Listing any peer then takes a slot more than the address has bits. */
  method ListNeedsMore(width: nat, peer: Peer, who: Peer, room: nat) returns (done: bool, ghost highest: nat)
    ensures done ==> highest == width + 1
    ensures done && width == STACK_SLOTS ==> highest > STACK_SLOTS
    ensures who != peer ==> done
  {
    var trie := StoreComb(width, peer);
    var cursor := new Cursor();
    var out;
    done, out := WalkByPeer(trie, cursor, who, room);
    highest := cursor.highest;
    if who != peer && Listing(trie.tree, who) != [] {
      ListingComplete(trie.tree, width, who, Listing(trie.tree, who)[0]);
    }
  }
}
