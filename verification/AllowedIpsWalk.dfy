/** The resumable listing of a peer's routes: walk_by_peer and wg_allowedips_walk_by_peer. */
module AllowedIpsWalk {
  import opened Sequences
  import opened Wrappers
  import opened Prefixes
  import opened TrieModel
  import opened TrieDepth
  import opened TrieHeap
  import opened AllowedIps

  ghost function Own<R>(t: Tree<R>, peer: Peer): seq<Bits>
    requires t.Fork?
  {
    if t.peer == Some(peer) && t.cidr <= |t.bits| then [t.bits[..t.cidr]] else []
  }

  /** The order of the walk: a node, its right subtree, its left subtree. */
  ghost function Listing<R>(t: Tree<R>, peer: Peer): seq<Bits> {
    match t
    case Empty => []
    case Fork(_, _, _, _, l, r) => Own(t, peer) + Listing(r, peer) + Listing(l, peer)
  }

  /** The listing names exactly the prefixes the peer owns ... */
  lemma {:induction false} ListingComplete<R>(t: Tree<R>, width: nat, peer: Peer, p: Bits)
    requires WellFormed(t, width)
    ensures p in Listing(t, peer) <==> Route(p, peer) in Routes(t)
  {
    if t.Fork? {
      ListingComplete(t.left, width, peer, p);
      ListingComplete(t.right, width, peer, p);
    }
  }

  ghost predicate NoDuplicates<T>(s: seq<T>) {
    forall i, j :: 0 <= i < j < |s| ==> s[i] != s[j]
  }

  lemma ConcatNoDuplicates<T>(a: seq<T>, b: seq<T>)
    requires NoDuplicates(a) && NoDuplicates(b) && forall x :: x in a ==> x !in b
    ensures NoDuplicates(a + b)
  {
    var s := a + b;
    forall i, j | 0 <= i < j < |s| ensures s[i] != s[j] {
      if i < |a| && |a| <= j {
        assert s[i] in a && s[j] in b;
      }
    }
  }

  /** ... and each of them once. */
  lemma {:induction false} ListingOnce<R>(t: Tree<R>, width: nat, peer: Peer)
    requires WellFormed(t, width)
    ensures NoDuplicates(Listing(t, peer))
  {
    if t.Fork? {
      ListingOnce(t.left, width, peer);
      ListingOnce(t.right, width, peer);
      var own := if t.peer == Some(peer) then [t.bits[..t.cidr]] else [];
      var l, r := Listing(t.left, peer), Listing(t.right, peer);
      forall p
        ensures p in l ==> |p| > t.cidr && !p[t.cidr]
        ensures p in r ==> |p| > t.cidr && p[t.cidr]
      {
        ListingComplete(t.left, width, peer, p);
        ListingComplete(t.right, width, peer, p);
        if p in l { RoutesOfChild(t, width, false, Route(p, peer)); }
        if p in r { RoutesOfChild(t, width, true, Route(p, peer)); }
      }
      ConcatNoDuplicates(own, r);
      ConcatNoDuplicates(own + r, l);
      assert Listing(t, peer) == own + r + l;
    }
  }

  /** What a stack of pending subtrees will still report, topmost first. */
  ghost function Remaining<R>(trees: seq<Tree<R>>, peer: Peer): seq<Bits> {
    if trees == [] then []
    else Listing(trees[|trees| - 1], peer) + Remaining(trees[..|trees| - 1], peer)
  }

  /** Below the top every pending node is the left sibling of an ancestor of the next
      one, so prefix lengths grow with the position on the stack. */
  ghost predicate Comb<R>(trees: seq<Tree<R>>, width: nat) {
    forall i :: 0 <= i < |trees| ==>
      trees[i].Fork? && WellFormed(trees[i], width) && i <= trees[i].cidr && (i < |trees| - 1 ==> i < trees[i].cidr)
  }

  lemma CombBound<R>(trees: seq<Tree<R>>, width: nat)
    requires Comb(trees, width)
    ensures |trees| <= width + 1
  {
    if |trees| > 1 {
      var t := trees[|trees| - 2];
      assert |trees| - 2 < t.cidr <= width;
    }
  }

  /** push_rcu: a missing child is not pushed. */
  ghost function Pushed<R>(trees: seq<Tree<R>>, t: Tree<R>): seq<Tree<R>> { if t.Fork? then trees + [t] else trees }

  /** The top of the stack after it was reported: replaced by its children. */
  ghost function Expanded<R>(trees: seq<Tree<R>>): seq<Tree<R>>
    requires |trees| > 0 && trees[|trees| - 1].Fork?
  {
    var t := trees[|trees| - 1];
    Pushed(Pushed(trees[..|trees| - 1], t.left), t.right)
  }

  lemma ExpandedComb<R>(trees: seq<Tree<R>>, width: nat)
    requires |trees| > 0 && Comb(trees, width)
    ensures Comb(Expanded(trees), width)
  {
  }

  lemma {:induction false} RemainingPushed<R>(trees: seq<Tree<R>>, t: Tree<R>, peer: Peer)
    ensures Remaining(Pushed(trees, t), peer) == Listing(t, peer) + Remaining(trees, peer)
  {
    assert t.Fork? ==> Pushed(trees, t)[..|trees|] == trees;
  }

  lemma {:induction false} ExpandedRemaining<R>(trees: seq<Tree<R>>, peer: Peer)
    requires |trees| > 0 && trees[|trees| - 1].Fork?
    ensures Remaining(trees, peer) == Own(trees[|trees| - 1], peer) + Remaining(Expanded(trees), peer)
  {
    var t, rest := trees[|trees| - 1], trees[..|trees| - 1];
    RemainingPushed(rest, t.left, peer);
    RemainingPushed(Pushed(rest, t.left), t.right, peer);
  }

  lemma {:induction false} NeedPushed<R>(trees: seq<Tree<R>>, t: Tree<R>)
    ensures StackNeed(Pushed(trees, t)) == if t.Fork? then Max(StackNeed(trees), |trees| + CombHeight(t)) else StackNeed(trees)
    ensures |Pushed(trees, t)| == |trees| + if t.Fork? then 1 else 0
  {
    assert t.Fork? ==> Pushed(trees, t)[..|trees|] == trees;
  }

  lemma {:induction false} NeedPushedBoth<R>(rest: seq<Tree<R>>, t: Tree<R>)
    requires t.Fork?
    ensures Max(|rest| + 1, StackNeed(Pushed(Pushed(rest, t.left), t.right)))
         == Max(|rest| + 1, Max(StackNeed(rest), |rest| + CombHeight(t)))
  {
    NeedPushed(rest, t.left);
    NeedPushed(Pushed(rest, t.left), t.right);
    assert CombHeight<R>(Empty) == 0;
  }

  /** Reporting a node takes the slots it has already, and what follows. */
  lemma {:induction false} ExpandedNeed<R>(trees: seq<Tree<R>>)
    requires |trees| > 0 && trees[|trees| - 1].Fork?
    ensures Max(|trees|, StackNeed(Expanded(trees))) == Max(|trees|, StackNeed(trees))
  {
    NeedPushedBoth(trees[..|trees| - 1], trees[|trees| - 1]);
  }

  lemma {:induction false} NeedAtLeast<R>(trees: seq<Tree<R>>)
    requires forall i :: 0 <= i < |trees| ==> trees[i].Fork?
    ensures |trees| <= StackNeed(trees)
  {
    if trees != [] {
      assert trees[|trees| - 1].Fork?;
    }
  }

  lemma {:induction false} NeedKept<R>(highest: nat, trees: seq<Tree<R>>, width: nat)
    requires 0 < |trees| <= highest && Comb(trees, width)
    ensures var next := Expanded(trees); Max(Max(highest, |next|), StackNeed(next)) == Max(highest, StackNeed(trees))
  {
    ExpandedComb(trees, width);
    ExpandedNeed(trees);
    NeedAtLeast(Expanded(trees));
  }

  /** struct allowedips_cursor; the ghost fields name the subtrees its stack points at and
      the largest size the stack has had. */
  class Cursor {
    var seqno: nat
    var stack: seq<Node>
    var secondHalf: bool
    ghost var trees: seq<Tree<Node>>
    ghost var highest: nat

    constructor ()
      ensures Fresh() && highest == 0
    {
      seqno, stack, secondHalf, trees, highest := 0, [], false, [], 0;
    }

    ghost predicate Fresh()
      reads this
    {
      seqno == 0 && stack == [] && !secondHalf && trees == []
    }

    /** The stack points into the given trie. */
    ghost predicate Over(trie: Trie)
      reads this, trie
    {
      |stack| == |trees| <= highest && Comb(trees, trie.width)
      && forall i :: 0 <= i < |stack| ==> Mirrors(trie.heap, stack[i], trees[i])
    }

    method Push(trie: Trie, n: Node?, ghost t: Tree<Node>)
      requires |stack| == |trees| && (forall i :: 0 <= i < |stack| ==> Mirrors(trie.heap, stack[i], trees[i]))
      requires Mirrors(trie.heap, n, t)
      modifies this
      ensures seqno == old(seqno) && secondHalf == old(secondHalf)
      ensures trees == Pushed(old(trees), t) && |stack| == |trees|
      ensures highest == Max(old(highest), if t.Fork? then |trees| else 0)
      ensures forall i :: 0 <= i < |stack| ==> Mirrors(trie.heap, stack[i], trees[i])
    {
      if n != null {
        stack, trees := stack + [n], trees + [t];
        highest := Max(highest, |stack|);
      }
    }

    /** --len, then push both children of the node that was on top. */
    method Expand(trie: Trie)
      requires trie.Valid() && Over(trie) && |stack| > 0
      modifies this
      ensures Over(trie) && trees == Expanded(old(trees)) && |stack| <= trie.width + 1
      ensures Max(highest, StackNeed(trees)) == Max(old(highest), StackNeed(old(trees)))
      ensures seqno == old(seqno) && secondHalf == old(secondHalf)
    {
      var node := stack[|stack| - 1];
      ghost var before := trees;
      ghost var t := trees[|trees| - 1];
      assert Mirrors(trie.heap, node, t);
      ExpandedComb(trees, trie.width);
      NeedKept(highest, trees, trie.width);
      stack, trees := stack[..|stack| - 1], trees[..|trees| - 1];
      Push(trie, node.left, t.left);
      Push(trie, node.right, t.right);
      assert trees == Expanded(before);
      CombBound(trees, trie.width);
    }
  }

  /** walk_by_peer: `room` entries are accepted by the callback before it refuses one.
      Whatever was reported now and what the cursor still holds is what was due before, and so
      is the size its stack has reached or has still to reach. */
  method WalkByPeer(trie: Trie, cursor: Cursor, peer: Peer, room: nat) returns (done: bool, out: seq<Bits>)
    requires trie.Valid() && cursor.Over(trie)
    requires trie.tree.Empty? ==> cursor.stack == []
    modifies cursor
    ensures cursor.Over(trie) && cursor.seqno == old(cursor.seqno) && cursor.secondHalf == old(cursor.secondHalf)
    ensures out + Remaining(cursor.trees, peer)
         == if old(cursor.stack) == [] then Listing(trie.tree, peer) else Remaining(old(cursor.trees), peer)
    ensures |out| <= room && |cursor.stack| <= trie.width + 1
    ensures Max(cursor.highest, StackNeed(cursor.trees))
         == Max(old(cursor.highest), if old(cursor.stack) == [] then CombHeight(trie.tree) else StackNeed(old(cursor.trees)))
    ensures if done then cursor.stack == [] else |out| == room && cursor.stack != [] && Remaining(cursor.trees, peer) != []
  {
    CombBound(cursor.trees, trie.width);
    if trie.root == null {
      return true, [];
    }
    if |cursor.stack| == 0 {
      Start(trie, cursor, peer);
    }
    done, out := Drain(trie, cursor, peer, room);
  }

  method Start(trie: Trie, cursor: Cursor, ghost peer: Peer)
    requires trie.Valid() && trie.root != null && cursor.Over(trie) && cursor.stack == []
    modifies cursor
    ensures cursor.Over(trie) && cursor.seqno == old(cursor.seqno) && cursor.secondHalf == old(cursor.secondHalf)
    ensures Remaining(cursor.trees, peer) == Listing(trie.tree, peer)
    ensures Max(cursor.highest, StackNeed(cursor.trees)) == Max(old(cursor.highest), CombHeight(trie.tree))
  {
    cursor.Push(trie, trie.root, trie.tree);
    RemainingPushed([], trie.tree, peer);
    NeedPushed([], trie.tree);
  }

  /** Report the node on top, unless the callback refuses it, and go on to its children. */
  method Report(trie: Trie, cursor: Cursor, peer: Peer, room: nat, before: seq<Bits>) returns (refused: bool, out: seq<Bits>)
    requires trie.Valid() && cursor.Over(trie) && |cursor.stack| > 0 && |before| <= room
    modifies cursor
    ensures cursor.Over(trie) && cursor.seqno == old(cursor.seqno) && cursor.secondHalf == old(cursor.secondHalf)
    ensures out + Remaining(cursor.trees, peer) == before + Remaining(old(cursor.trees), peer) && |out| <= room
    ensures Max(cursor.highest, StackNeed(cursor.trees)) == Max(old(cursor.highest), StackNeed(old(cursor.trees)))
    ensures if refused then out == before && |out| == room && cursor.trees == old(cursor.trees) && Remaining(cursor.trees, peer) != []
            else Weight(cursor.trees) < Weight(old(cursor.trees)) && |cursor.stack| <= trie.width + 1
  {
    out := before;
    var node := cursor.stack[|cursor.stack| - 1];
    ghost var trees := cursor.trees;
    ghost var t := trees[|trees| - 1];
    assert Mirrors(trie.heap, node, t);
    ExpandedRemaining(trees, peer);
    ExpandedWeight(trees);
    if node.peer == Some(peer) {
      if |out| == room {
        return true, out;
      }
      out := out + [node.bits[..node.cidr]];
    }
    assert out == before + Own(t, peer);
    Associate(before, Own(t, peer), Remaining(Expanded(trees), peer));
    cursor.Expand(trie);
    return false, out;
  }

  method Drain(trie: Trie, cursor: Cursor, peer: Peer, room: nat) returns (done: bool, out: seq<Bits>)
    requires trie.Valid() && cursor.Over(trie)
    modifies cursor
    ensures cursor.Over(trie) && cursor.seqno == old(cursor.seqno) && cursor.secondHalf == old(cursor.secondHalf)
    ensures out + Remaining(cursor.trees, peer) == Remaining(old(cursor.trees), peer)
    ensures |out| <= room && |cursor.stack| <= trie.width + 1
    ensures Max(cursor.highest, StackNeed(cursor.trees)) == Max(old(cursor.highest), StackNeed(old(cursor.trees)))
    ensures if done then cursor.stack == [] else |out| == room && cursor.stack != [] && Remaining(cursor.trees, peer) != []
  {
    out := [];
    CombBound(cursor.trees, trie.width);
    while |cursor.stack| > 0
      invariant cursor.Over(trie) && cursor.seqno == old(cursor.seqno) && cursor.secondHalf == old(cursor.secondHalf)
      invariant out + Remaining(cursor.trees, peer) == Remaining(old(cursor.trees), peer)
      invariant |out| <= room && |cursor.stack| <= trie.width + 1
      invariant Max(cursor.highest, StackNeed(cursor.trees)) == Max(old(cursor.highest), StackNeed(old(cursor.trees)))
      decreases Weight(cursor.trees)
    {
      var refused;
      refused, out := Report(trie, cursor, peer, room, out);
      if refused {
        return false, out;
      }
    }
    assert cursor.trees == [];
    return true, out;
  }

  ghost function Weight<R>(trees: seq<Tree<R>>): nat {
    if trees == [] then 0 else Size(trees[|trees| - 1]) + Weight(trees[..|trees| - 1])
  }

  lemma {:induction false} WeightPushed<R>(trees: seq<Tree<R>>, t: Tree<R>)
    ensures Weight(Pushed(trees, t)) == Size(t) + Weight(trees)
  {
    assert t.Fork? ==> Pushed(trees, t)[..|trees|] == trees;
  }

  lemma {:induction false} ExpandedWeight<R>(trees: seq<Tree<R>>)
    requires |trees| > 0 && trees[|trees| - 1].Fork?
    ensures Weight(Expanded(trees)) < Weight(trees)
  {
    var t, rest := trees[|trees| - 1], trees[..|trees| - 1];
    WeightPushed(rest, t.left);
    WeightPushed(Pushed(rest, t.left), t.right);
  }
}
