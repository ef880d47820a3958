/** The index hash table under concurrent insertion, replacement and removal.

    Every step is one atomic action: a locked section, or the unlocked choice of a random
    index together with the unlocked scan, whose outcome is arbitrary because chains may
    change under it.  A run is any interleaving, with at most one thread per entry. */
module IndexTable {
  import opened Wrappers

  /** What the thread that works on an entry is doing. */
  datatype Phase =
    | Resting      // no insertion under way
    | Searching    // about to draw an index
    | Candidate    // the unlocked scan saw no other entry with the index

  datatype State = State(chains: map<nat, seq<nat>>, index: map<nat, nat>, phase: map<nat, Phase>)

  datatype Step =
    | Begin(e: nat)                               // wg_index_hashtable_insert: unlink first
    | Draw(e: nat, i: nat, looksFree: bool)       // random index, unlocked scan
    | Commit(e: nat)                              // locked check, and link
    | Replace(e: nat, other: nat)                 // wg_index_hashtable_replace
    | Remove(e: nat)                              // wg_index_hashtable_remove

  const INITIAL := State(map[], map[], map[])

  function Chain(s: State, b: nat): seq<nat> { if b in s.chains then s.chains[b] else [] }

  function Index(s: State, e: nat): nat { if e in s.index then s.index[e] else 0 }

  function PhaseOf(s: State, e: nat): Phase { if e in s.phase then s.phase[e] else Resting }

  /** The bucket of an index; any hash function will do. */
  type Hash = nat -> nat

  ghost predicate Linked(h: Hash, s: State, e: nat) { e in Chain(s, h(Index(s, e))) }

  /** The chain walk of a lookup: the first entry with the index. */
  function Find(s: State, chain: seq<nat>, i: nat): Option<nat> {
    if chain == [] then None else if Index(s, chain[0]) == i then Some(chain[0]) else Find(s, chain[1..], i)
  }

  function Lookup(h: Hash, s: State, i: nat): Option<nat> { Find(s, Chain(s, h(i)), i) }

  function Unlink(chain: seq<nat>, e: nat): seq<nat> {
    if chain == [] then [] else if chain[0] == e then Unlink(chain[1..], e) else [chain[0]] + Unlink(chain[1..], e)
  }

  function Swap(chain: seq<nat>, e: nat, f: nat): seq<nat> {
    if chain == [] then [] else [if chain[0] == e then f else chain[0]] + Swap(chain[1..], e, f)
  }

  // ------------------------------------------------------------ steps

  ghost predicate Enabled(h: Hash, s: State, step: Step) {
    match step
    case Begin(e) => PhaseOf(s, e).Resting?
    case Draw(e, _, _) => PhaseOf(s, e).Searching?
    case Commit(e) => PhaseOf(s, e).Candidate?
    case Replace(e, f) => e != f && PhaseOf(s, e).Resting? && PhaseOf(s, f).Resting? && !Linked(h, s, f)
    case Remove(e) => true
  }

  ghost function SetChain(s: State, b: nat, chain: seq<nat>): State { s.(chains := s.chains[b := chain]) }

  /** hlist_del_init_rcu: does nothing to an entry that is not linked. */
  ghost function Unlinked(h: Hash, s: State, e: nat): State {
    var b := h(Index(s, e));
    SetChain(s, b, Unlink(Chain(s, b), e))
  }

  ghost function Next(h: Hash, s: State, step: Step): State {
    match step
    case Begin(e) => Unlinked(h, s, e).(phase := s.phase[e := Searching])
    case Draw(e, i, looksFree) => s.(index := s.index[e := i], phase := s.phase[e := if looksFree then Candidate else Searching])
    case Commit(e) =>
      var i := Index(s, e);
      if Lookup(h, s, i).Some? then s.(phase := s.phase[e := Searching])
      else SetChain(s, h(i), [e] + Chain(s, h(i))).(phase := s.phase[e := Resting])
    case Replace(e, f) =>
      if !Linked(h, s, e) then s
      else
        var i := Index(s, e);
        SetChain(s, h(i), Swap(Chain(s, h(i)), e, f)).(index := s.index[f := i])
    case Remove(e) => Unlinked(h, s, e)
  }

  ghost predicate Reaches(h: Hash, s: State, steps: seq<Step>, t: State)
    decreases |steps|
  {
    if steps == [] then s == t else Enabled(h, s, steps[0]) && Reaches(h, Next(h, s, steps[0]), steps[1..], t)
  }

  // ------------------------------------------------------------ the invariant

  ghost predicate Inv(h: Hash, s: State) {
    (forall b, e :: e in Chain(s, b) ==> h(Index(s, e)) == b)
    && (forall b, e, f :: e in Chain(s, b) && f in Chain(s, b) && Index(s, e) == Index(s, f) ==> e == f)
    && (forall b, e :: e in Chain(s, b) ==> PhaseOf(s, e).Resting?)
  }

  lemma {:induction false} UnlinkIs(chain: seq<nat>, e: nat, x: nat)
    ensures x in Unlink(chain, e) <==> x in chain && x != e
  {
    if chain != [] {
      UnlinkIs(chain[1..], e, x);
      assert chain == [chain[0]] + chain[1..];
    }
  }

  lemma {:induction false} SwapIs(chain: seq<nat>, e: nat, f: nat, x: nat)
    ensures x in Swap(chain, e, f) <==> (x in chain && x != e) || (x == f && e in chain)
  {
    if chain != [] {
      SwapIs(chain[1..], e, f, x);
      assert chain == [chain[0]] + chain[1..];
    }
  }

  /** Membership of every chain after a step. */
  ghost predicate Member(h: Hash, s: State, step: Step, b: nat, x: nat) {
    match step
    case Begin(e) => x in Chain(s, b) && !(x == e && b == h(Index(s, e)))
    case Remove(e) => x in Chain(s, b) && !(x == e && b == h(Index(s, e)))
    case Draw(_, _, _) => x in Chain(s, b)
    case Commit(e) => x in Chain(s, b) || (x == e && b == h(Index(s, e)) && Lookup(h, s, Index(s, e)) == None)
    case Replace(e, f) =>
      if Linked(h, s, e) && b == h(Index(s, e)) then (x in Chain(s, b) && x != e) || x == f else x in Chain(s, b)
  }

  lemma MemberNext(h: Hash, s: State, step: Step, b: nat, x: nat)
    requires Enabled(h, s, step)
    ensures x in Chain(Next(h, s, step), b) <==> Member(h, s, step, b, x)
  {
    match step
    case Begin(e) => UnlinkIs(Chain(s, h(Index(s, e))), e, x);
    case Remove(e) => UnlinkIs(Chain(s, h(Index(s, e))), e, x);
    case Replace(e, f) => SwapIs(Chain(s, h(Index(s, e))), e, f, x);
    case _ =>
  }

  lemma {:induction false} FindNone(s: State, chain: seq<nat>, i: nat)
    ensures Find(s, chain, i) == None <==> forall e :: e in chain ==> Index(s, e) != i
    ensures Find(s, chain, i).Some? ==> Find(s, chain, i).value in chain && Index(s, Find(s, chain, i).value) == i
  {
    if chain != [] {
      FindNone(s, chain[1..], i);
      assert chain == [chain[0]] + chain[1..];
    }
  }

  /** The entry whose index or phase a step sets is in no chain, or in one only. */
  lemma Apart(h: Hash, s: State, step: Step)
    requires Inv(h, s) && Enabled(h, s, step)
    ensures step.Draw? || step.Commit? ==> forall b :: step.e !in Chain(s, b)
    ensures step.Replace? ==> forall b :: step.other !in Chain(s, b)
    ensures step.Begin? ==> forall b :: step.e in Chain(s, b) ==> b == h(Index(s, step.e))
  {
  }

  lemma StepPlace(h: Hash, s: State, step: Step, b: nat, x: nat)
    requires Inv(h, s) && Enabled(h, s, step) && x in Chain(Next(h, s, step), b)
    ensures h(Index(Next(h, s, step), x)) == b && PhaseOf(Next(h, s, step), x).Resting?
  {
    Apart(h, s, step);
    MemberNext(h, s, step, b, x);
    var t := Next(h, s, step);
    if x in Chain(s, b) {
      assert h(Index(s, x)) == b && PhaseOf(s, x).Resting?;
      assert Index(t, x) == Index(s, x);
      assert PhaseOf(t, x).Resting?;
    } else {
      assert step.Commit? || step.Replace?;
    }
  }

  lemma StepUnique(h: Hash, s: State, step: Step, b: nat, x: nat, y: nat)
    requires Inv(h, s) && Enabled(h, s, step)
    requires var t := Next(h, s, step); x in Chain(t, b) && y in Chain(t, b) && Index(t, x) == Index(t, y)
    ensures x == y
  {
    Apart(h, s, step);
    MemberNext(h, s, step, b, x);
    MemberNext(h, s, step, b, y);
    var t := Next(h, s, step);
    if x in Chain(s, b) {
      assert Index(t, x) == Index(s, x);
    }
    if y in Chain(s, b) {
      assert Index(t, y) == Index(s, y);
    }
    if step.Commit? {
      FindNone(s, Chain(s, h(Index(s, step.e))), Index(s, step.e));
    } else if step.Replace? && Linked(h, s, step.e) {
      assert step.e in Chain(s, h(Index(s, step.e)));
    }
  }

  lemma StepInv(h: Hash, s: State, step: Step)
    requires Inv(h, s) && Enabled(h, s, step)
    ensures Inv(h, Next(h, s, step))
  {
    var t := Next(h, s, step);
    forall b: nat, x: nat | x in Chain(t, b) ensures h(Index(t, x)) == b && PhaseOf(t, x).Resting? {
      StepPlace(h, s, step, b, x);
    }
    forall b: nat, x: nat, y: nat | x in Chain(t, b) && y in Chain(t, b) && Index(t, x) == Index(t, y) ensures x == y {
      StepUnique(h, s, step, b, x, y);
    }
  }

  lemma {:induction false} ReachesInv(h: Hash, s: State, steps: seq<Step>, t: State)
    requires Inv(h, s) && Reaches(h, s, steps, t)
    ensures Inv(h, t)
    decreases |steps|
  {
    if steps != [] {
      StepInv(h, s, steps[0]);
      ReachesInv(h, Next(h, s, steps[0]), steps[1..], t);
    }
  }

  // ------------------------------------------------------------ what holds in every run

  /** `i` maps to `e` in the abstract table. */
  ghost predicate Maps(h: Hash, s: State, i: nat, e: nat) { Linked(h, s, e) && Index(s, e) == i }

  /** In every run the table is a map from indices to entries, and walking the bucket of an
      index finds exactly the entry it maps to. */
  lemma LookupIsMap(h: Hash, steps: seq<Step>, s: State, i: nat, e: nat)
    requires Reaches(h, INITIAL, steps, s)
    ensures Lookup(h, s, i) == Some(e) <==> Maps(h, s, i, e)
    ensures forall f :: Maps(h, s, i, e) && Maps(h, s, i, f) ==> e == f
    ensures forall b :: e in Chain(s, b) ==> b == h(Index(s, e))
  {
    ReachesInv(h, INITIAL, steps, s);
    FindNone(s, Chain(s, h(i)), i);
  }

  /** What each step does to the abstract table: an insertion first withdraws the entry and
      then adds it under an unused index, a replacement hands one index over, a removal
      withdraws; nothing else changes. */
  lemma StepOnMap(h: Hash, s: State, step: Step, i: nat, x: nat)
    requires Inv(h, s) && Enabled(h, s, step)
    ensures Maps(h, Next(h, s, step), i, x) <==>
      match step
      case Begin(e) => Maps(h, s, i, x) && x != e
      case Remove(e) => Maps(h, s, i, x) && x != e
      case Draw(_, _, _) => Maps(h, s, i, x)
      case Commit(e) => Maps(h, s, i, x) || (x == e && i == Index(s, e) && forall y :: !Maps(h, s, i, y))
      case Replace(e, f) => if x == f then Maps(h, s, i, e) else Maps(h, s, i, x) && x != e
  {
    Apart(h, s, step);
    MemberNext(h, s, step, h(i), x);
    if step.Commit? {
      FindNone(s, Chain(s, h(Index(s, step.e))), Index(s, step.e));
      assert forall y :: y in Chain(s, h(i)) && Index(s, y) == i ==> Maps(h, s, i, y);
    }
  }
}
