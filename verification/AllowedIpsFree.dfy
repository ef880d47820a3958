/** Freeing a whole trie. */
module AllowedIpsFree {
  import opened Sequences
  import opened TrieModel
  import opened TrieDepth
  import opened TrieHeap
  import opened AllowedIps
  import opened AllowedIpsWalk

  /** The order in which the nodes are freed: a node before the nodes below it, the right child
      before the left. */
  ghost function FreeOrder<R>(t: Tree<R>): seq<R> {
    if t.Empty? then [] else [t.id] + FreeOrder(t.right) + FreeOrder(t.left)
  }

  lemma {:induction false} FreeOrderIds<R>(t: Tree<R>, n: R)
    ensures n in FreeOrder(t) <==> n in Ids(t)
  {
    if t.Fork? {
      FreeOrderIds(t.left, n);
      FreeOrderIds(t.right, n);
    }
  }

  lemma {:induction false} FreeOrderOnce<R>(t: Tree<R>)
    requires Distinct(t)
    ensures NoDuplicates(FreeOrder(t))
  {
    if t.Fork? {
      FreeOrderOnce(t.left);
      FreeOrderOnce(t.right);
      forall n | n in FreeOrder(t.left) ensures n in Ids(t.left) {
        FreeOrderIds(t.left, n);
      }
      forall n | n in FreeOrder(t.right) ensures n in Ids(t.right) {
        FreeOrderIds(t.right, n);
      }
      ConcatNoDuplicates([t.id], FreeOrder(t.right));
      ConcatNoDuplicates([t.id] + FreeOrder(t.right), FreeOrder(t.left));
    }
  }

  /** What is still to be freed. */
  ghost function Unfreed<R>(trees: seq<Tree<R>>): seq<R> {
    if trees == [] then [] else FreeOrder(trees[|trees| - 1]) + Unfreed(trees[..|trees| - 1])
  }

  lemma {:induction false} UnfreedPushed<R>(trees: seq<Tree<R>>, t: Tree<R>)
    ensures Unfreed(Pushed(trees, t)) == FreeOrder(t) + Unfreed(trees)
  {
    assert t.Fork? ==> Pushed(trees, t)[..|trees|] == trees;
  }

  lemma {:induction false} ExpandedUnfreed<R>(trees: seq<Tree<R>>)
    requires |trees| > 0 && trees[|trees| - 1].Fork?
    ensures Unfreed(trees) == [trees[|trees| - 1].id] + Unfreed(Expanded(trees))
  {
    var t, rest := trees[|trees| - 1], trees[..|trees| - 1];
    UnfreedPushed(rest, t.left);
    UnfreedPushed(Pushed(rest, t.left), t.right);
  }

  lemma NotTwice<T>(a: seq<T>, b: seq<T>)
    requires NoDuplicates(a + b) && b != []
    ensures b[0] !in a
  {
    forall i | 0 <= i < |a| ensures a[i] != b[0] {
      assert (a + b)[i] == a[i] && (a + b)[|a|] == b[0];
    }
  }

  /** root_free_rcu: every node is freed once, none is looked at after it was freed, and the
      stack gets as high as the cursor's does in a listing. */
  method FreeAll(trie: Trie) returns (freed: seq<Node>, ghost highest: nat)
    requires trie.Valid() && trie.root != null
    ensures freed == FreeOrder(trie.tree) && NoDuplicates(freed)
    ensures highest == CombHeight(trie.tree)
  {
    var stack := FreeFirst(trie);
    FreeOrderOnce(trie.tree);
    freed := [];
    while |stack.stack| > 0
      invariant fresh(stack) && stack.Over(trie) && freed + Unfreed(stack.trees) == FreeOrder(trie.tree)
      invariant Max(stack.highest, StackNeed(stack.trees)) == CombHeight(trie.tree)
      decreases Weight(stack.trees)
    {
      freed := FreeNext(trie, stack, freed);
    }
    highest := stack.highest;
  }

  /** Only the root is on the stack. */
  method FreeFirst(trie: Trie) returns (stack: Cursor)
    requires trie.Valid() && trie.root != null
    ensures fresh(stack) && stack.Over(trie) && Unfreed(stack.trees) == FreeOrder(trie.tree)
    ensures Max(stack.highest, StackNeed(stack.trees)) == CombHeight(trie.tree)
  {
    stack := new Cursor();
    stack.Push(trie, trie.root, trie.tree);
    UnfreedPushed([], trie.tree);
    NeedPushed([], trie.tree);
  }

  method FreeNext(trie: Trie, stack: Cursor, before: seq<Node>) returns (freed: seq<Node>)
    requires trie.Valid() && stack.Over(trie) && |stack.stack| > 0
    requires NoDuplicates(before + Unfreed(stack.trees))
    modifies stack
    ensures stack.Over(trie) && freed + Unfreed(stack.trees) == before + Unfreed(old(stack.trees))
    ensures Max(stack.highest, StackNeed(stack.trees)) == Max(old(stack.highest), StackNeed(old(stack.trees)))
    ensures Weight(stack.trees) < Weight(old(stack.trees))
  {
    var node := stack.stack[|stack.stack| - 1];
    ghost var trees := stack.trees;
    assert Mirrors(trie.heap, node, trees[|trees| - 1]);
    ExpandedUnfreed(trees);
    ExpandedWeight(trees);
    NotTwice(before, Unfreed(trees));
    assert node !in before;
    stack.Expand(trie);
    freed := before + [node];
    Associate(before, [node], Unfreed(stack.trees));
  }
}
