/** The receive counter of a session: a sliding bitmap after section 2 of RFC 6479.

    A 64-bit word of the bitmap is modelled as the set of its one bits. */
module ReplayWindow {
  import opened Words

  const BITS_TOTAL: nat := 2048
  const WINDOW_SIZE: nat := 1984
  const REJECT_AFTER_MESSAGES: nat := 0xffff_ffff_ffff_f83e

  // ------------------------------------------------------------ what the window must decide

  ghost predicate IsMax(s: set<nat>, m: nat) {
    m in s && forall x :: x in s ==> x <= m
  }

  /** A counter is fresh when it was never accepted and is not too far behind. */
  ghost predicate ShouldAccept(accepted: set<nat>, n: nat) {
    n < REJECT_AFTER_MESSAGES && n !in accepted && forall m :: m in accepted ==> m <= n + WINDOW_SIZE
  }

  /** The counters accepted out of a run. */
  ghost function AcceptedOf(ns: seq<nat>): set<nat> {
    if ns == [] then {}
    else
      var before := AcceptedOf(ns[..|ns| - 1]);
      var n := ns[|ns| - 1];
      if ShouldAccept(before, n) then before + {n} else before
  }

  // ------------------------------------------------------------ the ring

  /** Position `p` (a counter plus one) is marked in the ring of 32 words. */
  ghost predicate Marked(ring: seq<set<nat>>, p: nat)
    requires |ring| == 32
  {
    p % 64 in ring[(p / 64) % 32]
  }

  /** `p` lies in one of the 32 words ending with the word of `counter`. */
  ghost predicate Live(counter: nat, p: nat) {
    counter / 64 < p / 64 + 32 && p / 64 <= counter / 64
  }

  /** On its live words the ring marks exactly the accepted counters. */
  ghost predicate Shows(ring: seq<set<nat>>, counter: nat, accepted: set<nat>) {
    |ring| == 32
    && forall p: nat :: Live(counter, p) ==> (Marked(ring, p) <==> p > 0 && p - 1 in accepted)
  }

  /** `counter` is one more than the largest accepted counter, 0 before the first. */
  ghost predicate Tops(counter: nat, accepted: set<nat>) {
    if accepted == {} then counter == 0 else counter > 0 && IsMax(accepted, counter - 1)
  }

  lemma SameWord(p: nat, q: nat, counter: nat)
    requires Live(counter, p) && Live(counter, q)
    ensures p % 64 == q % 64 && (p / 64) % 32 == (q / 64) % 32 <==> p == q
  {
  }

  /** Setting the bit of a live position. */
  lemma MarkOne(ring: seq<set<nat>>, counter: nat, accepted: set<nat>, n: nat)
    requires Shows(ring, counter, accepted) && Live(counter, n + 1)
    ensures var i := ((n + 1) / 64) % 32;
            Shows(ring[i := ring[i] + {(n + 1) % 64}], counter, accepted + {n})
  {
    var i := ((n + 1) / 64) % 32;
    var next := ring[i := ring[i] + {(n + 1) % 64}];
    forall p: nat | Live(counter, p)
      ensures Marked(next, p) <==> p > 0 && p - 1 in accepted + {n}
    {
      SameWord(p, n + 1, counter);
    }
  }

  /** How many words slot `j` lies ahead of the word `current`, less one. */
  ghost function Ahead(j: nat, current: nat): nat { (j as int - current as int - 1) % 32 }

  lemma AheadOf(current: nat, i: nat, j: nat)
    requires 1 <= i <= 32 && j < 32
    ensures (i + current) % 32 == j <==> Ahead(j, current) == i - 1
  {
  }

  /** Moving the window forward: the words that come in were cleared, the others stay. */
  lemma Moved(ring: seq<set<nat>>, next: seq<set<nat>>, counter: nat, p: nat, top: nat, accepted: set<nat>)
    requires Shows(ring, counter, accepted) && counter < p && (forall x :: x in accepted ==> x < counter)
    requires top == if p / 64 - counter / 64 <= 32 then p / 64 - counter / 64 else 32
    requires |next| == 32
    requires forall j :: 0 <= j < 32 ==> next[j] == if Ahead(j, counter / 64) < top then {} else ring[j]
    ensures Shows(next, p, accepted)
  {
    forall q: nat | Live(p, q)
      ensures Marked(next, q) <==> q > 0 && q - 1 in accepted
    {
      var w, current := q / 64, counter / 64;
      if w > current {
        if w - current <= 32 { AheadOf(current, w - current, w % 32); }
        assert q > counter;
      } else {
        AheadBehind(w, current);
        assert Live(counter, q);
      }
    }
  }

  lemma AheadBehind(w: nat, current: nat)
    requires w <= current < w + 32
    ensures Ahead(w % 32, current) == w + 31 - current
  {
  }

  /** union noise_counter, receiving side. */
  class ReceiveCounter {
    var counter: nat
    const backtrack: array<set<nat>>
    ghost var accepted: set<nat>

    ghost predicate Valid()
      reads this, backtrack
    {
      backtrack.Length == 32 && counter <= REJECT_AFTER_MESSAGES
      && Tops(counter, accepted) && Shows(backtrack[..], counter, accepted)
    }

    constructor ()
      ensures Valid() && accepted == {} && fresh(backtrack)
    {
      counter := 0;
      backtrack := new set<nat>[32](_ => {});
      accepted := {};
    }

    /** counter_validate: accepts exactly the counters that are fresh and inside the
        window, and remembers them. */
    method Validate(their: nat) returns (ret: bool)
      requires Valid() && their < 0x1_0000_0000_0000_0000
      modifies this, backtrack
      ensures Valid() && ret == ShouldAccept(old(accepted), their)
      ensures accepted == if ret then old(accepted) + {their} else old(accepted)
    {
      if counter >= REJECT_AFTER_MESSAGES + 1 || their >= REJECT_AFTER_MESSAGES {
        return false;
      }
      var p := Add64(their, 1);
      if Add64(WINDOW_SIZE, p) < counter {
        TooOld(counter, accepted, their);
        return false;
      }
      InWindow(counter, accepted, their);
      var index := p / 64;
      if p > counter {
        Advance(p);
      }
      MarkOne(backtrack[..], counter, accepted, their);
      index := index % 32;
      ret := p % 64 !in backtrack[index];
      assert ret <==> !Marked(backtrack[..], p);
      ghost var marked := backtrack[..][index := backtrack[index] + {p % 64}];
      backtrack[index] := backtrack[index] + {p % 64};
      assert backtrack[..] == marked;
      accepted := accepted + {their};
    }

    /** Slide the window up to the word of `p`, clearing the words that enter it. */
    method Advance(p: nat)
      requires backtrack.Length == 32 && Tops(counter, accepted) && Shows(backtrack[..], counter, accepted)
      requires counter < p
      modifies this`counter, backtrack
      ensures counter == p && Shows(backtrack[..], p, accepted)
    {
      ghost var ring := backtrack[..];
      var index, current := p / 64, counter / 64;
      var top := if index - current <= 32 then index - current else 32;
      var i := 1;
      while i <= top
        invariant 1 <= i <= top + 1
        modifies backtrack
        invariant forall j :: 0 <= j < 32 ==> backtrack[j] == if Ahead(j, current) < i - 1 then {} else ring[j]
      {
        forall j | 0 <= j < 32 ensures (i + current) % 32 == j <==> Ahead(j, current) == i - 1 {
          AheadOf(current, i, j);
        }
        backtrack[(i + current) % 32] := {};
        i := i + 1;
      }
      Moved(ring, backtrack[..], counter, p, top, accepted);
      counter := p;
    }
  }

  lemma TooOld(counter: nat, accepted: set<nat>, n: nat)
    requires Tops(counter, accepted) && n + 1 + WINDOW_SIZE < counter
    ensures !ShouldAccept(accepted, n)
  {
    assert counter - 1 in accepted;
  }

  lemma InWindow(counter: nat, accepted: set<nat>, n: nat)
    requires Tops(counter, accepted) && n + 1 + WINDOW_SIZE >= counter && n < REJECT_AFTER_MESSAGES
    ensures ShouldAccept(accepted, n) <==> n !in accepted
    ensures n + 1 <= counter ==> Live(counter, n + 1)
    ensures n + 1 <= counter ==> Tops(counter, accepted + {n})
    ensures n + 1 > counter ==> Tops(n + 1, accepted + {n}) && n !in accepted
  {
  }

  lemma AcceptedSnoc(ns: seq<nat>, k: nat)
    requires k < |ns|
    ensures AcceptedOf(ns[..k + 1])
         == if ShouldAccept(AcceptedOf(ns[..k]), ns[k]) then AcceptedOf(ns[..k]) + {ns[k]} else AcceptedOf(ns[..k])
  {
    assert ns[..k + 1][..k] == ns[..k];
  }

  /** Over every run of received counters, from a new session on, each packet is accepted
      exactly when it should be given the ones accepted before it; none is accepted twice. */
  method Run(ns: seq<nat>) returns (verdicts: seq<bool>)
    requires forall i :: 0 <= i < |ns| ==> ns[i] < 0x1_0000_0000_0000_0000
    ensures |verdicts| == |ns|
    ensures forall i :: 0 <= i < |ns| ==> verdicts[i] == ShouldAccept(AcceptedOf(ns[..i]), ns[i])
    ensures forall i, j :: 0 <= i < j < |ns| && verdicts[i] && verdicts[j] ==> ns[i] != ns[j]
  {
    var c := new ReceiveCounter();
    verdicts := [];
    for k := 0 to |ns|
      invariant c.Valid() && fresh(c) && fresh(c.backtrack) && |verdicts| == k
      invariant c.accepted == AcceptedOf(ns[..k])
      invariant Judged(ns, verdicts)
    {
      var ok := c.Validate(ns[k]);
      AcceptedSnoc(ns, k);
      JudgedSnoc(ns, verdicts, ok);
      verdicts := verdicts + [ok];
    }
    AcceptedOnce(ns, verdicts);
  }

  ghost predicate Judged(ns: seq<nat>, verdicts: seq<bool>) {
    |verdicts| <= |ns| && forall i :: 0 <= i < |verdicts| ==> verdicts[i] == ShouldAccept(AcceptedOf(ns[..i]), ns[i])
  }

  lemma JudgedSnoc(ns: seq<nat>, verdicts: seq<bool>, ok: bool)
    requires |verdicts| < |ns| && Judged(ns, verdicts) && ok == ShouldAccept(AcceptedOf(ns[..|verdicts|]), ns[|verdicts|])
    ensures Judged(ns, verdicts + [ok])
  {
  }

  lemma {:induction false} AcceptedStays(ns: seq<nat>, i: nat, j: nat)
    requires i < j <= |ns| && ShouldAccept(AcceptedOf(ns[..i]), ns[i])
    ensures ns[i] in AcceptedOf(ns[..j])
    decreases j
  {
    AcceptedSnoc(ns, j - 1);
    if i < j - 1 {
      AcceptedStays(ns, i, j - 1);
    }
  }

  lemma AcceptedOnce(ns: seq<nat>, verdicts: seq<bool>)
    requires |verdicts| == |ns| && Judged(ns, verdicts)
    ensures forall i, j :: 0 <= i < j < |ns| && verdicts[i] && verdicts[j] ==> ns[i] != ns[j]
  {
    forall i, j | 0 <= i < j < |ns| && verdicts[i] && verdicts[j] ensures ns[i] != ns[j] {
      AcceptedStays(ns, i, j);
    }
  }
}
