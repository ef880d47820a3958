/** Removal of all routes of a peer: walk_remove_by_peer.

    The walk keeps a stack of pointers to child pointers and remembers only the node it
    last stood on, from which it infers whether it comes from above, from the left or
    from the right.  Unlinking a leaf makes that memory null, which sends the walk down
    the left subtree of the parent a second time. */
module AllowedIpsRemove {
  import opened Wrappers
  import opened Prefixes
  import opened TrieModel
  import opened TriePaths
  import opened TrieDepth
  import opened TrieHeap
  import opened TrieRemoval
  import opened AllowedIps

  /** A pointer to a child pointer (or to the root pointer). */
  datatype Slot = RootSlot | ChildSlot(node: Node, bit: bool)

  function Popped(stack: seq<Slot>): seq<Slot> { if stack == [] then [] else stack[..|stack| - 1] }

  ghost function SlotAt(t: Tree<Node>, path: Path): Slot
    requires OnTree(t, path)
  {
    if path == [] then RootSlot
    else
      AtPrefix(t, path, |path| - 1);
      ChildSlot(At(t, path[..|path| - 1]).id, path[|path| - 1])
  }

  /** The stack holds the slots of one path from the root. */
  ghost predicate StackOf(t: Tree<Node>, path: Path, stack: seq<Slot>) {
    OnTree(t, path) && |stack| == |path| + 1
    && forall i :: 0 <= i <= |path| ==> OnTree(t, path[..i]) && stack[i] == SlotAt(t, path[..i])
  }

  /** What the remembered node says about the subtrees of the node at `path`. */
  ghost predicate InPhase(t: Tree<Node>, path: Path, prev: Node?, phase: Phase, peer: Peer)
    requires OnTree(t, path)
  {
    var n := At(t, path);
    n.Fork? &&
    match phase
    case Enter => prev == null || (|path| > 0 && OnTree(t, path[..|path| - 1]) && prev == Root(At(t, path[..|path| - 1])))
    case FromLeft => n.left.Fork? && prev == n.left.id && Owned(n.left, peer) == 0
    case Finish =>
      Owned(n.left, peer) == 0 && Owned(n.right, peer) == 0
      && (prev == n.id || (n.right.Fork? && prev == n.right.id))
  }

  ghost function Steps(t: Tree<Node>, path: Path, phase: Phase): nat
    requires OnTree(t, path) && At(t, path).Fork?
  {
    Pending(t, path) +
    match phase
    case Enter => WalkCost(At(t, path))
    case FromLeft => 2 + WalkCost(At(t, path).right)
    case Finish => 1
  }

  lemma StackPush(t: Tree<Node>, path: Path, stack: seq<Slot>, b: bool)
    requires StackOf(t, path, stack) && At(t, path).Fork?
    ensures StackOf(t, path + [b], stack + [ChildSlot(At(t, path).id, b)])
  {
    AtSnoc(t, path, b);
    var p := path + [b];
    forall i | 0 <= i <= |p|
      ensures OnTree(t, p[..i]) && (stack + [ChildSlot(At(t, path).id, b)])[i] == SlotAt(t, p[..i])
    {
      if i <= |path| {
        assert p[..i] == path[..i];
      } else {
        assert p[..i] == p && p[..|path|] == path;
      }
    }
  }

  lemma StackPop(t: Tree<Node>, path: Path, stack: seq<Slot>)
    requires StackOf(t, path, stack) && |path| > 0
    ensures StackOf(t, path[..|path| - 1], stack[..|stack| - 1])
  {
    var p := path[..|path| - 1];
    AtPrefix(t, path, |path| - 1);
    forall i | 0 <= i <= |p|
      ensures OnTree(t, p[..i]) && stack[..|stack| - 1][i] == SlotAt(t, p[..i])
    {
      assert p[..i] == path[..i];
    }
  }

  /** Changing the subtree under the stack leaves the slots on it as they are. */
  lemma {:induction false} SlotPut(t: Tree<Node>, path: Path, s: Tree<Node>, i: nat)
    requires OnTree(t, path) && i <= |path| && OnTree(t, path[..i])
    ensures OnTree(Put(t, path, s), path[..i]) && SlotAt(Put(t, path, s), path[..i]) == SlotAt(t, path[..i])
  {
    AtPut(t, path, s);
    AtPrefix(Put(t, path, s), path, i);
    if i > 0 {
      assert path[..i][..i - 1] == path[..i - 1];
      AtPrefix(t, path, i - 1);
      IdPut(t, path, s, i - 1);
    }
  }

  lemma {:induction false} IdPut(t: Tree<Node>, path: Path, s: Tree<Node>, i: nat)
    requires OnTree(t, path) && i < |path|
    ensures OnTree(t, path[..i]) && OnTree(Put(t, path, s), path[..i])
    ensures At(t, path[..i]).Fork? && At(Put(t, path, s), path[..i]).Fork?
    ensures At(t, path[..i]).id == At(Put(t, path, s), path[..i]).id
  {
    if i > 0 {
      IdPut(Child(t, path[0]), path[1..], s, i - 1);
      assert path[..i][1..] == path[1..][..i - 1];
    }
  }

  lemma StackPut(t: Tree<Node>, path: Path, stack: seq<Slot>, s: Tree<Node>)
    requires StackOf(t, path, stack)
    ensures StackOf(Put(t, path, s), path, stack)
  {
    AtPut(t, path, s);
    forall i | 0 <= i <= |path|
      ensures OnTree(Put(t, path, s), path[..i]) && stack[i] == SlotAt(Put(t, path, s), path[..i])
    {
      SlotPut(t, path, s, i);
    }
  }

  ghost predicate Walking(t: Tree<Node>, path: Path, stack: seq<Slot>, prev: Node?, phase: Phase, peer: Peer) {
    StackOf(t, path, stack) && InPhase(t, path, prev, phase, peer) && LeftsClean(t, path, peer)
  }

  /** Pushing a child: from above into the first child there is, or from the left into the right one. */
  lemma WalkDown(t: Tree<Node>, path: Path, stack: seq<Slot>, prev: Node?, phase: Phase, peer: Peer, b: bool)
    requires Walking(t, path, stack, prev, phase, peer) && Child(At(t, path), b).Fork?
    requires phase == Enter && b ==> At(t, path).left.Empty?
    requires phase != Enter ==> phase == FromLeft && b
    ensures var n := At(t, path);
            Walking(t, path + [b], stack + [ChildSlot(n.id, b)], n.id, Enter, peer)
            && Steps(t, path + [b], Enter) < Steps(t, path, phase)
  {
    AtSnoc(t, path, b);
    StackPush(t, path, stack, b);
    LeftsCleanSnoc(t, path, b, peer);
    PendingSnoc(t, path, b);
    assert (path + [b])[..|path|] == path;
  }

  /** Nothing left to push: the next iteration stands on the same node again. */
  lemma WalkStay(t: Tree<Node>, path: Path, stack: seq<Slot>, prev: Node?, phase: Phase, peer: Peer)
    requires Walking(t, path, stack, prev, phase, peer) && phase != Finish
    requires At(t, path).right.Empty? && (phase == Enter ==> At(t, path).left.Empty?)
    ensures Walking(t, path, stack, At(t, path).id, Finish, peer)
    ensures Steps(t, path, Finish) < Steps(t, path, phase)
  {
  }

  /** Popping a subtree the peer no longer owns. */
  lemma WalkUp(t: Tree<Node>, path: Path, stack: seq<Slot>, peer: Peer)
    requires StackOf(t, path, stack) && LeftsClean(t, path, peer) && |path| > 0
    requires Owned(At(t, path), peer) == 0
    ensures var up := path[..|path| - 1];
            Walking(t, up, stack[..|stack| - 1], Root(At(t, path)), PhaseAbove(t, path), peer)
            && (At(t, path).Fork? ==> Steps(t, up, PhaseAbove(t, path)) == Pending(t, path))
  {
    var up, b := path[..|path| - 1], path[|path| - 1];
    LastStep(path);
    StackPop(t, path, stack);
    AtPrefix(t, path, |path| - 1);
    assert path[..|path|] == path;
    LeftsCleanSnoc(t, up, b, peer);
    PendingSnoc(t, up, b);
  }

  /** The remembered node tells the three cases apart. */
  lemma PhaseTest(h: Heap, t: Tree<Node>, path: Path, prev: Node?, phase: Phase, peer: Peer)
    requires OnTree(t, path) && Mirrors(h, Root(t), t) && Distinct(t) && InPhase(t, path, prev, phase, peer)
    ensures At(t, path).id in h && (prev != null ==> prev in h)
    ensures var n := At(t, path).id;
            (phase == Enter <==> prev == null || h[prev].left == n || h[prev].right == n)
            && (phase == FromLeft ==> h[n].left == prev) && (phase == Finish ==> h[n].left != prev)
  {
    var n := At(t, path);
    MirrorsAt(h, Root(t), t, path);
    AtIds(t, path);
    match phase
    case Enter =>
      if prev != null {
        var up := path[..|path| - 1];
        LastStep(path);
        MirrorsAt(h, Root(t), t, up);
        AtPrefix(t, path, |path| - 1);
        assert path[..|path|] == path;
      }
    case FromLeft =>
      PointersInside(h, n.left);
    case Finish =>
      PointersInside(h, n.right);
  }

  lemma PointersInside(h: Heap, t: Tree<Node>)
    requires Mirrors(h, Root(t), t)
    ensures t.Fork? ==> t.id in h
    ensures t.Fork? ==> h[t.id].left == null || h[t.id].left in Ids(t.left)
    ensures t.Fork? ==> h[t.id].right == null || h[t.id].right in Ids(t.right)
  {
  }

  // -------------------------------------------------------------- the stores

  /** Between the table before the removal and the one after it. */
  ghost predicate Shrunk(t: Tree<Node>, from: Tree<Node>, peer: Peer) {
    Routes(t) <= Routes(from) && Without(Routes(from), peer) <= Routes(t)
  }

  lemma ShrunkTrans(t: Tree<Node>, u: Tree<Node>, v: Tree<Node>, peer: Peer)
    requires Shrunk(t, u, peer) && Shrunk(u, v, peer)
    ensures Shrunk(t, v, peer)
  {
    assert Without(Routes(v), peer) <= Without(Routes(u), peer);
  }

  /** What both stores of the removal do to the tree as a whole. */
  lemma ReplaceSubtree(t: Tree<Node>, path: Path, s: Tree<Node>, width: nat, peer: Peer)
    requires OnTree(t, path) && Distinct(t) && WellFormed(t, width)
    requires Distinct(s) && Ids(s) <= Ids(At(t, path)) && WellFormed(s, width) && Fits(s, At(t, path))
    requires Shrunk(s, At(t, path), peer)
    ensures var u := Put(t, path, s);
            Distinct(u) && WellFormed(u, width) && Shrunk(u, t, peer)
            && Owned(u, peer) == Owned(t, peer) - Owned(At(t, path), peer) + Owned(s, peer)
  {
    PutDistinct(t, path, s);
    WellFormedPut(t, path, s, width);
    RoutesPut(t, path, s);
    OwnedPut(t, path, s, peer);
  }

  /** Take the peer away from a node. */
  method Disown(trie: Trie, node: Node, ghost path: Path, ghost peer: Peer)
    requires trie.Valid() && OnTree(trie.tree, path)
    requires At(trie.tree, path).Fork? && At(trie.tree, path).id == node && At(trie.tree, path).peer == Some(peer)
    modifies trie, trie.heap.Keys
    ensures trie.Valid() && trie.root == old(trie.root) && trie.heap.Keys == old(trie.heap.Keys)
    ensures trie.tree == Put(old(trie.tree), path, At(old(trie.tree), path).(peer := None))
    ensures Shrunk(trie.tree, old(trie.tree), peer) && Owned(trie.tree, peer) == Owned(old(trie.tree), peer) - 1
    ensures trie.seen == old(trie.seen) + {trie.tree}
  {
    ghost var h, n := trie.heap, At(trie.tree, path);
    ghost var s := n.(peer := None);
    AtIds(trie.tree, path);
    AtWellFormed(trie.tree, path, trie.width);
    MirrorsAt(h, trie.root, trie.tree, path);
    ghost var k := h[node := h[node].(peer := None)];
    MirrorsFrame(h, k, h[node].left, s.left);
    MirrorsFrame(h, k, h[node].right, s.right);
    MirrorsInPlace(h, k, trie.root, trie.tree, path, s);
    DisownShrinks(n, trie.width, peer);
    ReplaceSubtree(trie.tree, path, s, trie.width, peer);
    trie.StorePeer(node, None, Put(trie.tree, path, s));
  }

  lemma DisownShrinks(n: Tree<Node>, width: nat, peer: Peer)
    requires n.Fork? && WellFormed(n, width) && n.peer == Some(peer)
    ensures var s := n.(peer := None);
            WellFormed(s, width) && Fits(s, n) && Shrunk(s, n, peer) && Owned(s, peer) == Owned(n, peer) - 1
  {
    var s := n.(peer := None);
    assert Routes(s) == Routes(n.left) + Routes(n.right);
    assert Routes(n) == Routes(s) + {Route(n.bits[..n.cidr], peer)};
  }

  /** The node a slot points to. */
  method LoadSlot(trie: Trie, nptr: Slot, ghost path: Path) returns (node: Node?)
    requires trie.Valid() && OnTree(trie.tree, path) && nptr == SlotAt(trie.tree, path)
    ensures node == Root(At(trie.tree, path)) && (node != null ==> node in trie.heap)
  {
    MirrorsAt(trie.heap, trie.root, trie.tree, path);
    match nptr {
      case RootSlot =>
        node := trie.root;
      case ChildSlot(p, b) =>
        AtPrefix(trie.tree, path, |path| - 1);
        assert path[..|path|] == path;
        MirrorsAt(trie.heap, trie.root, trie.tree, path[..|path| - 1]);
        node := p.Bit(b);
    }
  }

  /** Make a slot point to `child`, which already reaches the subtree `s`. */
  method StoreSlot(trie: Trie, nptr: Slot, ghost path: Path, child: Node?, ghost s: Tree<Node>)
    requires trie.Valid() && OnTree(trie.tree, path) && nptr == SlotAt(trie.tree, path)
    requires Mirrors(trie.heap, child, s) && Ids(s) <= Ids(At(trie.tree, path))
    requires Distinct(Put(trie.tree, path, s)) && WellFormed(Put(trie.tree, path, s), trie.width)
    modifies trie, trie.heap.Keys
    ensures trie.Valid() && trie.tree == Put(old(trie.tree), path, s) && trie.heap.Keys == old(trie.heap.Keys)
    ensures trie.seen == old(trie.seen) + {trie.tree}
  {
    ghost var t := Put(trie.tree, path, s);
    match nptr {
      case RootSlot =>
        trie.StoreRoot(child, t);
      case ChildSlot(p, b) =>
        ghost var h, up := trie.heap, path[..|path| - 1];
        LastStep(path);
        AtPrefix(trie.tree, path, |path| - 1);
        assert path[..|path|] == path;
        AtIds(trie.tree, up);
        MirrorsAt(h, trie.root, trie.tree, up);
        ghost var k := h[p := h[p].WithBit(b, child)];
        MirrorsFrame(h, k, child, s);
        MirrorsSplice(h, k, trie.root, trie.tree, up, b, s);
        trie.StoreBit(p, b, child, t);
    }
  }

  /** Put the only child of a disowned node in its place. */
  method Unlink(trie: Trie, nptr: Slot, node: Node, ghost path: Path, ghost peer: Peer) returns (child: Node?)
    requires trie.Valid() && OnTree(trie.tree, path) && nptr == SlotAt(trie.tree, path)
    requires At(trie.tree, path).Fork? && At(trie.tree, path).id == node && At(trie.tree, path).peer == None
    requires At(trie.tree, path).left.Empty? || At(trie.tree, path).right.Empty?
    modifies trie, trie.heap.Keys
    ensures trie.Valid() && trie.heap.Keys == old(trie.heap.Keys)
    ensures var n := At(old(trie.tree), path);
            var s := Child(n, n.left.Empty?);
            trie.tree == Put(old(trie.tree), path, s) && child == Root(s)
    ensures Shrunk(trie.tree, old(trie.tree), peer) && Owned(trie.tree, peer) == Owned(old(trie.tree), peer)
    ensures trie.seen == old(trie.seen) + {trie.tree}
  {
    ghost var h, n := trie.heap, At(trie.tree, path);
    ghost var s := Child(n, n.left.Empty?);
    AtIds(trie.tree, path);
    AtWellFormed(trie.tree, path, trie.width);
    MirrorsAt(h, trie.root, trie.tree, path);
    child := node.Bit(node.left == null);
    UnlinkShrinks(n, trie.width, peer);
    ReplaceSubtree(trie.tree, path, s, trie.width, peer);
    StoreSlot(trie, nptr, path, child, s);
  }

  lemma UnlinkShrinks(n: Tree<Node>, width: nat, peer: Peer)
    requires n.Fork? && WellFormed(n, width) && n.peer == None && (n.left.Empty? || n.right.Empty?)
    ensures var s := Child(n, n.left.Empty?);
            WellFormed(s, width) && Fits(s, n) && Shrunk(s, n, peer) && Owned(s, peer) == Owned(n, peer) && Ids(s) <= Ids(n)
  {
    var s := Child(n, n.left.Empty?);
    assert Routes(n) == Routes(s);
  }

  /** Replacing the subtree at the end of the stack by a lower one. */
  lemma Replaced(t: Tree<Node>, path: Path, stack: seq<Slot>, s: Tree<Node>, peer: Peer)
    requires StackOf(t, path, stack) && LeftsClean(t, path, peer) && Height(s) <= Height(At(t, path))
    ensures var u := Put(t, path, s);
            StackOf(u, path, stack) && LeftsClean(u, path, peer) && At(u, path) == s
            && SlotAt(u, path) == SlotAt(t, path) && Beside(u, path) == Beside(t, path) && Height(u) <= Height(t)
  {
    AtPut(t, path, s);
    StackPut(t, path, stack, s);
    LeftsCleanPut(t, path, s, peer);
    SlotPut(t, path, s, |path|);
    assert path[..|path|] == path;
    BesidePut(t, path, s);
    HeightPut(t, path, s);
  }

  /** The visit of a node whose subtrees are done. */
  method Visit(trie: Trie, nptr: Slot, node: Node, ghost path: Path, ghost stack: seq<Slot>, ghost prev: Node?, peer: Peer)
    returns (left: Node?)
    requires trie.Valid() && Walking(trie.tree, path, stack, prev, Finish, peer)
    requires nptr == SlotAt(trie.tree, path) && node == At(trie.tree, path).id
    modifies trie, trie.heap.Keys
    ensures trie.Valid() && trie.heap.Keys == old(trie.heap.Keys)
    ensures StackOf(trie.tree, path, stack) && LeftsClean(trie.tree, path, peer)
    ensures Beside(trie.tree, path) == Beside(old(trie.tree), path) && Height(trie.tree) <= Height(old(trie.tree))
    ensures Owned(At(trie.tree, path), peer) == 0 && left == Root(At(trie.tree, path))
    ensures Shrunk(trie.tree, old(trie.tree), peer)
    ensures trie.tree == old(trie.tree) || Owned(trie.tree, peer) < Owned(old(trie.tree), peer)
    ensures forall t :: t in trie.seen ==> t in old(trie.seen) || Shrunk(t, old(trie.tree), peer)
  {
    left := node;
    MirrorsAt(trie.heap, trie.root, trie.tree, path);
    if node.peer == Some(peer) {
      left := Drop(trie, nptr, node, path, stack, peer);
    }
  }

  /** The node loses its peer, and its place too if it is not needed to join two others. */
  method Drop(trie: Trie, nptr: Slot, node: Node, ghost path: Path, ghost stack: seq<Slot>, peer: Peer) returns (left: Node?)
    requires trie.Valid() && StackOf(trie.tree, path, stack) && LeftsClean(trie.tree, path, peer)
    requires nptr == SlotAt(trie.tree, path) && At(trie.tree, path).Fork? && node == At(trie.tree, path).id
    requires var n := At(trie.tree, path); n.peer == Some(peer) && Owned(n.left, peer) == 0 && Owned(n.right, peer) == 0
    modifies trie, trie.heap.Keys
    ensures trie.Valid() && trie.heap.Keys == old(trie.heap.Keys)
    ensures StackOf(trie.tree, path, stack) && LeftsClean(trie.tree, path, peer)
    ensures Beside(trie.tree, path) == Beside(old(trie.tree), path) && Height(trie.tree) <= Height(old(trie.tree))
    ensures Owned(At(trie.tree, path), peer) == 0 && left == Root(At(trie.tree, path))
    ensures Shrunk(trie.tree, old(trie.tree), peer) && Owned(trie.tree, peer) < Owned(old(trie.tree), peer)
    ensures forall t :: t in trie.seen ==> t in old(trie.seen) || Shrunk(t, old(trie.tree), peer)
  {
    ghost var t := trie.tree;
    ghost var n1 := At(t, path).(peer := None);
    left := node;
    Disown(trie, node, path, peer);
    ghost var t1 := trie.tree;
    Replaced(t, path, stack, n1, peer);
    MirrorsAt(trie.heap, trie.root, t1, path);
    if node.left == null || node.right == null {
      left := Splice(trie, nptr, node, path, stack, peer);
      ShrunkTrans(trie.tree, t1, t, peer);
    }
  }

  /** The only child of a disowned node takes its place. */
  method Splice(trie: Trie, nptr: Slot, node: Node, ghost path: Path, ghost stack: seq<Slot>, ghost peer: Peer) returns (left: Node?)
    requires trie.Valid() && StackOf(trie.tree, path, stack) && LeftsClean(trie.tree, path, peer)
    requires nptr == SlotAt(trie.tree, path) && At(trie.tree, path).Fork? && node == At(trie.tree, path).id
    requires var n := At(trie.tree, path); n.peer == None && Owned(n, peer) == 0 && (n.left.Empty? || n.right.Empty?)
    modifies trie, trie.heap.Keys
    ensures trie.Valid() && trie.heap.Keys == old(trie.heap.Keys)
    ensures StackOf(trie.tree, path, stack) && LeftsClean(trie.tree, path, peer)
    ensures Beside(trie.tree, path) == Beside(old(trie.tree), path) && Height(trie.tree) <= Height(old(trie.tree))
    ensures Owned(At(trie.tree, path), peer) == 0 && left == Root(At(trie.tree, path))
    ensures Shrunk(trie.tree, old(trie.tree), peer) && Owned(trie.tree, peer) == Owned(old(trie.tree), peer)
    ensures trie.seen == old(trie.seen) + {trie.tree}
  {
    ghost var t := trie.tree;
    ghost var n := At(t, path);
    ghost var s := Child(n, n.left.Empty?);
    left := Unlink(trie, nptr, node, path, peer);
    Replaced(t, path, stack, s, peer);
  }

  /** Push a child still to be walked, or stay for the visit. */
  method Push(trie: Trie, node: Node, stack: seq<Slot>, prev: Node?, peer: Peer, ghost path: Path, ghost phase: Phase)
    returns (stack': seq<Slot>, ghost path': Path, ghost phase': Phase)
    requires trie.Valid() && Walking(trie.tree, path, stack, prev, phase, peer)
    requires node == At(trie.tree, path).id && phase != Finish
    ensures Walking(trie.tree, path', stack', node, phase', peer)
    ensures |stack'| <= Height(trie.tree) && Ahead(trie.tree, path, phase) <= Ahead(trie.tree, path', phase')
    ensures Steps(trie.tree, path', phase') < Steps(trie.tree, path, phase)
  {
    ghost var t := trie.tree;
    PhaseTest(trie.heap, t, path, prev, phase, peer);
    MirrorsAt(trie.heap, trie.root, t, path);
    stack', path', phase' := stack, path, Finish;
    if prev == null || prev.left == node || prev.right == node {
      if node.left != null {
        WalkDown(t, path, stack, prev, phase, peer, false);
        AheadDown(t, path, phase, false);
        stack', path', phase' := stack + [ChildSlot(node, false)], path + [false], Enter;
      } else if node.right != null {
        WalkDown(t, path, stack, prev, phase, peer, true);
        AheadDown(t, path, phase, true);
        stack', path', phase' := stack + [ChildSlot(node, true)], path + [true], Enter;
      } else {
        WalkStay(t, path, stack, prev, phase, peer);
        AheadStay(t, path, phase);
      }
    } else {
      if node.right != null {
        WalkDown(t, path, stack, prev, phase, peer, true);
        AheadDown(t, path, phase, true);
        stack', path', phase' := stack + [ChildSlot(node, true)], path + [true], Enter;
      } else {
        WalkStay(t, path, stack, prev, phase, peer);
        AheadStay(t, path, phase);
      }
    }
    HeightAt(t, path');
  }

  /** What the loop of the removal maintains. */
  ghost predicate Removing(t: Tree<Node>, start: Tree<Node>, stack: seq<Slot>, prev: Node?, path: Path, phase: Phase, peer: Peer) {
    Shrunk(t, start, peer)
    && if |stack| == 0 then Owned(t, peer) == 0 else Walking(t, path, stack, prev, phase, peer)
  }

  ghost function StepsLeft(t: Tree<Node>, stack: seq<Slot>, prev: Node?, path: Path, phase: Phase, peer: Peer): nat {
    if |stack| > 0 && Walking(t, path, stack, prev, phase, peer) then 1 + Steps(t, path, phase) else 0
  }

  ghost function StillAhead(t: Tree<Node>, stack: seq<Slot>, path: Path, phase: Phase): nat {
    if |stack| > 0 && OnTree(t, path) && At(t, path).Fork? then Ahead(t, path, phase) else 0
  }

  /** `deepest` is the largest size the stack has had; the walk has still to reach whatever
      of the height of the trie it has not reached yet. */
  ghost predicate Reached(t: Tree<Node>, start: Tree<Node>, stack: seq<Slot>, path: Path, phase: Phase, deepest: nat) {
    |stack| <= deepest <= Height(start) && Height(t) <= Height(start)
    && Height(start) <= Max(deepest, StillAhead(t, stack, path, phase))
  }

  lemma {:induction false} ReachedPush(t: Tree<Node>, start: Tree<Node>, stack: seq<Slot>, path: Path, phase: Phase,
                                       stack': seq<Slot>, path': Path, phase': Phase, deepest: nat)
    requires Reached(t, start, stack, path, phase, deepest) && |stack'| <= Height(t)
    requires StillAhead(t, stack, path, phase) <= StillAhead(t, stack', path', phase')
    ensures Reached(t, start, stack', path', phase', Max(deepest, |stack'|))
  {
  }

  lemma {:induction false} ReachedLeave(t: Tree<Node>, u: Tree<Node>, start: Tree<Node>, stack: seq<Slot>, path: Path, phase: Phase,
                                        stack': seq<Slot>, path': Path, phase': Phase, deepest: nat)
    requires Reached(t, start, stack, path, phase, deepest) && |stack'| <= |stack| && Height(u) <= Height(t)
    requires StillAhead(t, stack, path, phase) <= Max(|stack|, StillAhead(u, stack', path', phase'))
    ensures Reached(u, start, stack', path', phase', deepest)
  {
  }

  /** Visit the node on top and pop it. */
  method Leave(trie: Trie, nptr: Slot, node: Node, stack: seq<Slot>, peer: Peer, ghost prev: Node?, ghost path: Path,
               ghost start: Tree<Node>)
    returns (left: Node?, stack': seq<Slot>, ghost path': Path, ghost phase': Phase)
    requires trie.Valid() && Walking(trie.tree, path, stack, prev, Finish, peer) && Shrunk(trie.tree, start, peer)
    requires nptr == SlotAt(trie.tree, path) && node == At(trie.tree, path).id
    modifies trie, trie.heap.Keys
    ensures trie.Valid() && trie.heap.Keys == old(trie.heap.Keys)
    ensures |stack'| == |stack| - 1 && Removing(trie.tree, start, stack', left, path', phase', peer)
    ensures Height(trie.tree) <= Height(old(trie.tree))
    ensures Ahead(old(trie.tree), path, Finish) <= Max(|stack|, StillAhead(trie.tree, stack', path', phase'))
    ensures forall t :: t in trie.seen ==> t in old(trie.seen) || Shrunk(t, start, peer)
    ensures Owned(trie.tree, peer) < Owned(old(trie.tree), peer)
         || (Owned(trie.tree, peer) == Owned(old(trie.tree), peer)
             && StepsLeft(trie.tree, stack', left, path', phase', peer) < StepsLeft(old(trie.tree), stack, prev, path, Finish, peer))
  {
    ghost var t := trie.tree;
    left := Visit(trie, nptr, node, path, stack, prev, peer);
    ShrunkTrans(trie.tree, t, start, peer);
    forall u | u in trie.seen && Shrunk(u, t, peer) ensures Shrunk(u, start, peer) {
      ShrunkTrans(u, t, start, peer);
    }
    path', phase' := path, Finish;
    if path != [] {
      WalkUp(trie.tree, path, stack, peer);
      LastStep(path);
      AheadUp(trie.tree, path, path[..|path| - 1], path[|path| - 1]);
      path', phase' := path[..|path| - 1], PhaseAbove(trie.tree, path);
    }
    stack' := stack[..|stack| - 1];
  }

  /** One turn of the loop. */
  method Turn(trie: Trie, stack: seq<Slot>, prev: Node?, peer: Peer, ghost path: Path, ghost phase: Phase, ghost start: Tree<Node>,
              ghost deepest: nat)
    returns (prev': Node?, stack': seq<Slot>, ghost path': Path, ghost phase': Phase, ghost deepest': nat)
    requires trie.Valid() && |stack| > 0 && Removing(trie.tree, start, stack, prev, path, phase, peer)
    requires Reached(trie.tree, start, stack, path, phase, deepest)
    modifies trie, trie.heap.Keys
    ensures trie.Valid() && trie.heap.Keys == old(trie.heap.Keys)
    ensures Removing(trie.tree, start, stack', prev', path', phase', peer)
    ensures Reached(trie.tree, start, stack', path', phase', deepest')
    ensures forall t :: t in trie.seen ==> t in old(trie.seen) || Shrunk(t, start, peer)
    ensures Owned(trie.tree, peer) < Owned(old(trie.tree), peer)
         || (Owned(trie.tree, peer) == Owned(old(trie.tree), peer)
             && StepsLeft(trie.tree, stack', prev', path', phase', peer) < StepsLeft(old(trie.tree), stack, prev, path, phase, peer))
  {
    var nptr := stack[|stack| - 1];
    assert path[..|path|] == path;
    var node := LoadSlot(trie, nptr, path);
    if node == null {
      // Never taken: the slots on the stack always hold a node.
      assert false;
      return null, Popped(stack), path, phase, deepest;
    }
    PhaseTest(trie.heap, trie.tree, path, prev, phase, peer);
    deepest' := deepest;
    if prev == null || prev.left == node || prev.right == node || node.left == prev {
      stack', path', phase' := Push(trie, node, stack, prev, peer, path, phase);
      deepest' := Max(deepest, |stack'|);
      ReachedPush(trie.tree, start, stack, path, phase, stack', path', phase', deepest);
    } else {
      node, stack', path', phase' := Leave(trie, nptr, node, stack, peer, prev, path, start);
      ReachedLeave(old(trie.tree), trie.tree, start, stack, path, phase, stack', path', phase', deepest);
    }
    prev' := node;
  }

  /** walk_remove_by_peer: deletes exactly the routes of the peer and keeps the invariant.
      The loop ends: every visit that unlinks lowers the number of nodes the peer owns,
      every other iteration lowers the remaining walk.  The stack needs exactly as many slots
      as the longest path has nodes, and whatever a reader can see on the way lacks only
      routes of the peer. */
  method RemoveByPeer(trie: Trie, who: Option<Peer>) returns (ghost deepest: nat)
    requires trie.Valid()
    modifies trie, trie.heap.Keys
    ensures trie.Valid() && trie.heap.Keys == old(trie.heap.Keys)
    ensures who == None ==> Routes(trie.tree) == old(Routes(trie.tree))
    ensures who.Some? ==> Routes(trie.tree) == Without(old(Routes(trie.tree)), who.value)
    ensures forall t :: t in trie.seen ==> t in old(trie.seen) || (who.Some? && Shrunk(t, old(trie.tree), who.value))
    ensures deepest == if who == None then 0 else Height(old(trie.tree))
  {
    deepest := 0;
    if who == None || trie.root == null {
      return;
    }
    var peer := who.value;
    ghost var start, path: Path, phase := trie.tree, [], Enter;
    var stack, prev: Node? := [RootSlot], null;
    deepest := 1;
    while |stack| > 0
      invariant trie.Valid() && trie.heap.Keys == old(trie.heap.Keys)
      invariant forall t :: t in trie.seen ==> t in old(trie.seen) || Shrunk(t, start, peer)
      invariant Reached(trie.tree, start, stack, path, phase, deepest)
      invariant Removing(trie.tree, start, stack, prev, path, phase, peer)
      decreases Owned(trie.tree, peer), StepsLeft(trie.tree, stack, prev, path, phase, peer)
    {
      prev, stack, path, phase, deepest := Turn(trie, stack, prev, peer, path, phase, start, deepest);
    }
    OwnedRoutes(trie.tree, trie.width, peer);
  }
}
