/** The path-compressed binary trie as a value.

    `Tree` is parameterised by the identity of its nodes, so that the heap module can
    use the very same definitions for the tree it has linked together from objects. */
module TrieModel {
  import opened Wrappers
  import opened Prefixes

  datatype Tree<R> =
    | Empty
    | Fork(id: R, cidr: nat, bits: Bits, peer: Option<Peer>, left: Tree<R>, right: Tree<R>)

  function Child<R>(t: Tree<R>, b: bool): Tree<R>
    requires t.Fork?
  {
    if b then t.right else t.left
  }

  function WithChild<R>(t: Tree<R>, b: bool, c: Tree<R>): Tree<R>
    requires t.Fork?
  {
    if b then t.(right := c) else t.(left := c)
  }

  function Size<R>(t: Tree<R>): nat { if t.Empty? then 0 else 1 + Size(t.left) + Size(t.right) }

  ghost function Ids<R>(t: Tree<R>): set<R> {
    match t
    case Empty => {}
    case Fork(n, _, _, _, l, r) => {n} + Ids(l) + Ids(r)
  }

  /** No node occurs twice. */
  ghost predicate Distinct<R>(t: Tree<R>) {
    match t
    case Empty => true
    case Fork(n, _, _, _, l, r) =>
      n !in Ids(l) && n !in Ids(r) && Ids(l) !! Ids(r) && Distinct(l) && Distinct(r)
  }

  /** A child's prefix strictly extends its parent's, on the branch named by the
      child's own bit number `parent.cidr`.  Only the first `cidr` bits are compared:
      nodes keep the bits below the prefix unmasked. */
  ghost predicate HangsBelow<R>(cidr: nat, bits: Bits, b: bool, c: Tree<R>) {
    c.Fork? ==>
      cidr < c.cidr <= |c.bits| && cidr <= |bits| && c.bits[..cidr] == bits[..cidr] && c.bits[cidr] == b
  }

  ghost predicate WellFormed<R>(t: Tree<R>, width: nat) {
    match t
    case Empty => true
    case Fork(_, cidr, bits, _, l, r) =>
      cidr <= width && |bits| == width
      && HangsBelow(cidr, bits, false, l) && HangsBelow(cidr, bits, true, r)
      && WellFormed(l, width) && WellFormed(r, width)
  }

  ghost function OwnRoute<R>(t: Tree<R>): set<Route>
    requires t.Fork?
  {
    if t.peer.Some? && t.cidr <= |t.bits| then {Route(t.bits[..t.cidr], t.peer.value)} else {}
  }

  /** The routes stored in the trie: the masked prefix of every node that has a peer. */
  ghost function Routes<R>(t: Tree<R>): set<Route> {
    match t
    case Empty => {}
    case Fork(_, _, _, _, l, r) => OwnRoute(t) + Routes(l) + Routes(r)
  }

  lemma {:induction false} RoutesExtend<R>(t: Tree<R>, width: nat, r: Route)
    requires WellFormed(t, width) && r in Routes(t)
    ensures t.Fork? && t.cidr <= |r.prefix| <= width && r.prefix[..t.cidr] == t.bits[..t.cidr]
  {
    if r in Routes(t.left) {
      RoutesExtend(t.left, width, r);
      assert r.prefix[..t.cidr] == r.prefix[..t.left.cidr][..t.cidr];
      assert t.left.bits[..t.left.cidr][..t.cidr] == t.left.bits[..t.cidr];
    } else if r in Routes(t.right) {
      RoutesExtend(t.right, width, r);
      assert r.prefix[..t.cidr] == r.prefix[..t.right.cidr][..t.cidr];
      assert t.right.bits[..t.right.cidr][..t.cidr] == t.right.bits[..t.cidr];
    }
  }

  /** Routes below branch `b` are strictly longer and carry `b` as bit number `cidr`. */
  lemma RoutesOfChild<R>(t: Tree<R>, width: nat, b: bool, r: Route)
    requires t.Fork? && WellFormed(t, width) && r in Routes(Child(t, b))
    ensures t.cidr < |r.prefix| <= width && r.prefix[..t.cidr] == t.bits[..t.cidr] && r.prefix[t.cidr] == b
  {
    var c := Child(t, b);
    RoutesExtend(c, width, r);
    RoutesExtend(t, width, r);
    assert r.prefix[t.cidr] == r.prefix[..c.cidr][t.cidr];
    assert c.bits[..c.cidr][t.cidr] == c.bits[t.cidr];
  }

  /** A prefix is stored at most once. */
  lemma {:induction false} RoutesFunctional<R>(t: Tree<R>, width: nat)
    requires WellFormed(t, width)
    ensures Functional(Routes(t))
  {
    if t.Fork? {
      RoutesFunctional(t.left, width);
      RoutesFunctional(t.right, width);
      forall r, s | r in Routes(t) && s in Routes(t) && r.prefix == s.prefix
        ensures r.peer == s.peer
      {
        if r in Routes(t.left) { RoutesOfChild(t, width, false, r); }
        if r in Routes(t.right) { RoutesOfChild(t, width, true, r); }
        if s in Routes(t.left) { RoutesOfChild(t, width, false, s); }
        if s in Routes(t.right) { RoutesOfChild(t, width, true, s); }
      }
    }
  }

  // ---------------------------------------------------------------- lookup

  /** find_node: walk down while the node's prefix matches, remembering the last owner. */
  function FindFrom<R>(t: Tree<R>, addr: Bits, found: Option<Peer>): (res: Option<Peer>)
    decreases t
  {
    if t.Empty? || CommonBits(t.bits, addr) < t.cidr then found
    else
      var found' := if t.peer.Some? then t.peer else found;
      if t.cidr >= |addr| then found' else FindFrom(Child(t, addr[t.cidr]), addr, found')
  }

  function Find<R>(t: Tree<R>, addr: Bits): Option<Peer> { FindFrom(t, addr, None) }

  lemma {:induction false} FindFromDefault<R>(t: Tree<R>, addr: Bits, found: Option<Peer>)
    ensures FindFrom(t, addr, found) == if Find(t, addr).Some? then Find(t, addr) else found
    decreases t
  {
    if t.Fork? && CommonBits(t.bits, addr) >= t.cidr && t.cidr < |addr| {
      FindFromDefault(Child(t, addr[t.cidr]), addr, if t.peer.Some? then t.peer else found);
      FindFromDefault(Child(t, addr[t.cidr]), addr, t.peer);
    }
  }

  /** Lookup returns the owner of the longest stored prefix matching the address. */
  lemma {:induction false} FindIsLongestMatch<R>(t: Tree<R>, width: nat, addr: Bits)
    requires WellFormed(t, width) && |addr| == width
    ensures IsLongestMatch(Routes(t), addr, Find(t, addr))
    decreases t
  {
    if t.Fork? {
      PrefixMatchesIffAgree(t.bits, addr, t.cidr);
      forall r | r in Routes(t)
        ensures r.prefix <= addr ==> t.bits[..t.cidr] == addr[..t.cidr]
        ensures r.prefix <= addr && r in Routes(t.left) ==> t.cidr < width && !addr[t.cidr]
        ensures r.prefix <= addr && r in Routes(t.right) ==> t.cidr < width && addr[t.cidr]
      {
        RoutesExtend(t, width, r);
        if r.prefix <= addr {
          assert addr[..t.cidr] == addr[..|r.prefix|][..t.cidr];
        }
        if r in Routes(t.left) { RoutesOfChild(t, width, false, r); }
        if r in Routes(t.right) { RoutesOfChild(t, width, true, r); }
      }
      if t.bits[..t.cidr] == addr[..t.cidr] {
        if t.cidr < width {
          FindBelow(t, width, addr);
        } else {
          assert forall r :: r in Routes(t) && r.prefix <= addr ==> r in OwnRoute(t);
        }
      }
    }
  }

  lemma {:induction false} FindBelow<R>(t: Tree<R>, width: nat, addr: Bits)
    requires WellFormed(t, width) && |addr| == width
    requires t.Fork? && t.bits[..t.cidr] == addr[..t.cidr] && t.cidr < width
    requires CommonBits(t.bits, addr) >= t.cidr
    requires forall r :: r in Routes(t.left) && r.prefix <= addr ==> !addr[t.cidr]
    requires forall r :: r in Routes(t.right) && r.prefix <= addr ==> addr[t.cidr]
    ensures IsLongestMatch(Routes(t), addr, Find(t, addr))
    decreases t, 0
  {
    var c := Child(t, addr[t.cidr]);
    FindIsLongestMatch(c, width, addr);
    FindFromDefault(c, addr, t.peer);
    var below := Find(c, addr);
    assert Find(t, addr) == if below.Some? then below else t.peer;
    assert forall r :: r in Routes(t) && r.prefix <= addr ==> r in OwnRoute(t) || r in Routes(c);
    if below.Some? {
      var r :| r in Routes(c) && r.peer == below.value && r.prefix <= addr
               && forall s :: s in Routes(c) && s.prefix <= addr ==> |s.prefix| <= |r.prefix|;
      RoutesOfChild(t, width, addr[t.cidr], r);
      assert r in Routes(t);
    } else if t.peer.Some? {
      var own := Route(t.bits[..t.cidr], t.peer.value);
      assert own in Routes(t) && own.prefix <= addr;
    }
  }

  // ---------------------------------------------------------------- insertion

  function Min(a: nat, b: nat): nat { if a <= b then a else b }

  function Leaf<R>(id: R, key: Bits, cidr: nat, peer: Option<Peer>): Tree<R> {
    Fork(id, cidr, key, peer, Empty, Empty)
  }

  /** What add leaves in place of the subtree `t` at which node_placement stopped. */
  function InsertHere<R>(t: Tree<R>, key: Bits, cidr: nat, peer: Peer, added: R, glue: R): Tree<R>
    requires cidr <= |key|
    requires t.Fork? ==> |t.bits| == |key|
  {
    var leaf := Leaf(added, key, cidr, Some(peer));
    if t.Empty? then leaf
    else
      var c := Min(cidr, CommonBits(t.bits, key));
      if c == cidr then
        if cidr < |key| then WithChild(leaf, t.bits[cidr], t) else leaf
      else
        WithChild(WithChild(Leaf(glue, key, c, None), t.bits[c], t), key[c], leaf)
  }

  predicate Descends<R>(t: Tree<R>, key: Bits, cidr: nat) {
    t.Fork? && t.cidr <= cidr && CommonBits(t.bits, key) >= t.cidr
  }

  function Insert<R>(t: Tree<R>, key: Bits, cidr: nat, peer: Peer, added: R, glue: R): Tree<R>
    requires cidr <= |key|
    requires WellFormed(t, |key|)
  {
    if !Descends(t, key, cidr) then InsertHere(t, key, cidr, peer, added, glue)
    else if t.cidr == cidr then t.(peer := Some(peer))
    else WithChild(t, key[t.cidr], Insert(Child(t, key[t.cidr]), key, cidr, peer, added, glue))
  }

  /** Where the walk of node_placement stops on a well-formed subtree, the two prefixes
      part strictly below the full width, so a bit to branch on exists. */
  lemma SplitPoint<R>(t: Tree<R>, key: Bits, cidr: nat)
    requires t.Fork? && WellFormed(t, |key|) && cidr <= |key| && !Descends(t, key, cidr)
    ensures var c := Min(cidr, CommonBits(t.bits, key));
            c < |key| && c < t.cidr && t.bits[..c] == key[..c] && (c < cidr ==> t.bits[c] != key[c])
  {
    var m := CommonBits(t.bits, key);
    var c := Min(cidr, m);
    assert t.bits[..c] == t.bits[..m][..c] && key[..c] == key[..m][..c];
  }

  /** Nothing stored in the subtree where the walk stops has the inserted prefix. */
  lemma NotStoredHere<R>(t: Tree<R>, key: Bits, cidr: nat, r: Route)
    requires t.Fork? && WellFormed(t, |key|) && cidr <= |key| && !Descends(t, key, cidr) && r in Routes(t)
    ensures r.prefix != key[..cidr]
  {
    SplitPoint(t, key, cidr);
    RoutesExtend(t, |key|, r);
    var c := Min(cidr, CommonBits(t.bits, key));
    assert r.prefix[..t.cidr][c] == r.prefix[c] && t.bits[..t.cidr][c] == t.bits[c];
  }

  lemma RoutesWithChild<R>(t: Tree<R>, b: bool, c: Tree<R>)
    requires t.Fork?
    ensures Routes(WithChild(t, b, c)) == OwnRoute(t) + Routes(c) + Routes(Child(t, !b))
    ensures Routes(t) == OwnRoute(t) + Routes(Child(t, b)) + Routes(Child(t, !b))
  {
    var u := WithChild(t, b, c);
    assert OwnRoute(u) == OwnRoute(t);
    assert Routes(u) == OwnRoute(u) + Routes(u.left) + Routes(u.right);
  }

  lemma {:induction false} InsertHereCorrect<R>(t: Tree<R>, key: Bits, cidr: nat, peer: Peer, added: R, glue: R)
    requires cidr <= |key| && WellFormed(t, |key|) && !Descends(t, key, cidr)
    ensures var u := InsertHere(t, key, cidr, peer, added, glue);
            WellFormed(u, |key|) && Routes(u) == Inserted(Routes(t), key[..cidr], peer)
  {
    InsertHereWellFormed(t, key, cidr, peer, added, glue);
    InsertHereRoutes(t, key, cidr, peer, added, glue);
  }

  lemma {:induction false} InsertHereWellFormed<R>(t: Tree<R>, key: Bits, cidr: nat, peer: Peer, added: R, glue: R)
    requires cidr <= |key| && WellFormed(t, |key|) && !Descends(t, key, cidr)
    ensures WellFormed(InsertHere(t, key, cidr, peer, added, glue), |key|)
  {
    var leaf := Leaf(added, key, cidr, Some(peer));
    assert WellFormed(leaf, |key|);
    if t.Fork? {
      SplitPoint(t, key, cidr);
    }
  }

  lemma {:induction false} InsertHereRoutes<R>(t: Tree<R>, key: Bits, cidr: nat, peer: Peer, added: R, glue: R)
    requires cidr <= |key| && WellFormed(t, |key|) && !Descends(t, key, cidr)
    ensures Routes(InsertHere(t, key, cidr, peer, added, glue)) == Inserted(Routes(t), key[..cidr], peer)
  {
    var leaf := Leaf(added, key, cidr, Some(peer));
    assert Routes(leaf) == {Route(key[..cidr], peer)};
    if t.Fork? {
      SplitPoint(t, key, cidr);
      var c := Min(cidr, CommonBits(t.bits, key));
      forall r | r in Routes(t) ensures r.prefix != key[..cidr] { NotStoredHere(t, key, cidr, r); }
      InsertedBeside(Routes(t), {}, key[..cidr], peer);
      assert Routes(t) + {} == Routes(t);
      if c == cidr {
        RoutesWithChild(leaf, t.bits[cidr], t);
      } else {
        var g := Leaf(glue, key, c, None);
        RoutesWithChild(g, t.bits[c], t);
        RoutesWithChild(WithChild(g, t.bits[c], t), key[c], leaf);
      }
    }
  }

  /** The nodes of the replaced subtree, plus the new ones. */
  lemma {:induction false} InsertHereIds<R>(t: Tree<R>, key: Bits, cidr: nat, peer: Peer, added: R, glue: R)
    requires cidr <= |key| && WellFormed(t, |key|) && !Descends(t, key, cidr)
    requires Distinct(t) && added !in Ids(t)
    requires t.Fork? && CommonBits(t.bits, key) < cidr ==> glue !in Ids(t) && glue != added
    ensures var u := InsertHere(t, key, cidr, peer, added, glue);
            Distinct(u) && Ids(u) <= Ids(t) + {added, glue}
  {
    var leaf := Leaf(added, key, cidr, Some(peer));
    LeafIds(added, key, cidr, Some(peer));
    if t.Fork? {
      SplitPoint(t, key, cidr);
      var c := Min(cidr, CommonBits(t.bits, key));
      if c == cidr {
        WithChildIds(leaf, t.bits[cidr], t);
      } else {
        var g := Leaf(glue, key, c, None);
        LeafIds(glue, key, c, None);
        WithChildIds(g, t.bits[c], t);
        WithChildIds(WithChild(g, t.bits[c], t), key[c], leaf);
      }
    }
  }

  lemma {:induction false} LeafIds<R>(id: R, key: Bits, cidr: nat, peer: Option<Peer>)
    ensures Ids(Leaf(id, key, cidr, peer)) == {id} && Distinct(Leaf(id, key, cidr, peer))
  {
    assert Ids<R>(Empty) == {};
  }

  lemma {:induction false} WithChildIds<R>(t: Tree<R>, b: bool, c: Tree<R>)
    requires t.Fork? && Child(t, b).Empty? && Distinct(t) && Distinct(c) && Ids(t) !! Ids(c)
    ensures Distinct(WithChild(t, b, c)) && Ids(WithChild(t, b, c)) == Ids(t) + Ids(c)
  {
    assert Ids(Child(t, b)) == {};
  }

  lemma {:induction false} InsertKeepsPrefix<R>(t: Tree<R>, key: Bits, cidr: nat, peer: Peer, added: R, glue: R,
                                                pc: nat, pb: Bits, b: bool)
    requires cidr <= |key| && WellFormed(t, |key|)
    requires HangsBelow(pc, pb, b, t)
    requires pc < cidr && |pb| == |key| && pb[..pc] == key[..pc] && key[pc] == b
    ensures HangsBelow(pc, pb, b, Insert(t, key, cidr, peer, added, glue))
  {
    if Descends(t, key, cidr) {
      var u := Insert(t, key, cidr, peer, added, glue);
      assert u.Fork? && u.cidr == t.cidr && u.bits == t.bits;
    } else {
      if t.Fork? {
        SharedPast(t.bits, key, pc, pb, b);
      }
      InsertHereTop(t, key, cidr, peer, added, glue);
    }
  }

  lemma SharedPast(bits: Bits, key: Bits, pc: nat, pb: Bits, b: bool)
    requires pc < |bits| == |key| == |pb| && bits[..pc] == pb[..pc] == key[..pc] && bits[pc] == b == key[pc]
    ensures CommonBits(bits, key) > pc
  {
    assert bits[..pc + 1] == bits[..pc] + [b];
    assert key[..pc + 1] == key[..pc] + [b];
    PrefixMatchesIffAgree(bits, key, pc + 1);
  }

  /** The root of the replaced subtree. */
  lemma {:induction false} InsertHereTop<R>(t: Tree<R>, key: Bits, cidr: nat, peer: Peer, added: R, glue: R)
    requires cidr <= |key| && (t.Fork? ==> |t.bits| == |key|)
    ensures var u := InsertHere(t, key, cidr, peer, added, glue);
            u.Fork? && u.bits == key && u.cidr == if t.Empty? then cidr else Min(cidr, CommonBits(t.bits, key))
  {
  }

  /** Insertion keeps the invariant and changes exactly the one route. */
  lemma {:induction false} InsertCorrect<R>(t: Tree<R>, key: Bits, cidr: nat, peer: Peer, added: R, glue: R)
    requires cidr <= |key| && WellFormed(t, |key|)
    ensures var u := Insert(t, key, cidr, peer, added, glue);
            WellFormed(u, |key|) && Routes(u) == Inserted(Routes(t), key[..cidr], peer)
    decreases t, 1
  {
    if !Descends(t, key, cidr) {
      InsertHereCorrect(t, key, cidr, peer, added, glue);
    } else if t.cidr == cidr {
      InsertExact(t, key, cidr, peer, added, glue);
    } else {
      InsertDeeper(t, key, cidr, peer, added, glue);
    }
  }

  lemma {:induction false} InsertExact<R>(t: Tree<R>, key: Bits, cidr: nat, peer: Peer, added: R, glue: R)
    requires cidr <= |key| && WellFormed(t, |key|) && Descends(t, key, cidr) && t.cidr == cidr
    ensures var u := Insert(t, key, cidr, peer, added, glue);
            WellFormed(u, |key|) && Routes(u) == Inserted(Routes(t), key[..cidr], peer)
  {
    PrefixMatchesIffAgree(t.bits, key, t.cidr);
    forall r | r in Routes(t.left) || r in Routes(t.right)
      ensures r.prefix != key[..cidr]
    {
      RoutesOfChild(t, |key|, r in Routes(t.right), r);
    }
    var below := Routes(t.left) + Routes(t.right);
    InsertedBeside(below, OwnRoute(t), key[..cidr], peer);
    assert Routes(t) == below + OwnRoute(t);
    assert Inserted(OwnRoute(t), key[..cidr], peer) == {Route(key[..cidr], peer)};
    assert OwnRoute(t.(peer := Some(peer))) == {Route(key[..cidr], peer)};
  }

  lemma {:induction false} InsertDeeper<R>(t: Tree<R>, key: Bits, cidr: nat, peer: Peer, added: R, glue: R)
    requires cidr <= |key| && WellFormed(t, |key|) && Descends(t, key, cidr) && t.cidr != cidr
    ensures var u := Insert(t, key, cidr, peer, added, glue);
            WellFormed(u, |key|) && Routes(u) == Inserted(Routes(t), key[..cidr], peer)
    decreases t, 0
  {
    PrefixMatchesIffAgree(t.bits, key, t.cidr);
    var b := key[t.cidr];
    var c := Child(t, b);
    InsertCorrect(c, key, cidr, peer, added, glue);
    InsertKeepsPrefix(c, key, cidr, peer, added, glue, t.cidr, t.bits, b);
    forall r | r in Routes(Child(t, !b)) ensures r.prefix != key[..cidr] {
      RoutesOfChild(t, |key|, !b, r);
      assert key[..cidr][t.cidr] == b;
    }
    var beside := OwnRoute(t) + Routes(Child(t, !b));
    InsertedBeside(beside, Routes(c), key[..cidr], peer);
    RoutesWithChild(t, b, Insert(c, key, cidr, peer, added, glue));
    assert Routes(t) == beside + Routes(c);
  }
}
