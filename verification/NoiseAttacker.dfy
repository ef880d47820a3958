/** An active attacker who controls the network: authentication and secrecy of the handshake
    in every run.

    The attacker sees every message, sends anything it can build, and holds the secrets
    named by a `Corruption`.  Honest parties start and answer handshakes at any time. */
module NoiseAttacker {
  import opened Wrappers
  import opened NoiseTerms
  import opened NoiseHandshake

  /** The secret keys and preshared keys the attacker has. */
  datatype Corruption = Corruption(keys: set<nat>, psks: set<nat>)

  /** An honest party with static key `s` sent the first message of transcript `i`. */
  datatype Initiated = Initiated(s: nat, e: nat, timestamp: nat, i: Initiation)

  /** An honest party with static key `s` answered transcript `i`, taking the sender for
      the owner of `peer`. */
  datatype Responded = Responded(s: nat, peer: Term, e: nat, i: Initiation, r: Response)

  datatype World = World(known: set<Term>, initiated: set<Initiated>, responded: set<Responded>)

  datatype Step =
    | Learn(t: Term)
    | MakeShared(k: nat, point: Term)
    | MakeHash(a: Term, b: Term)
    | MakeKdf(out: nat, a: Term, b: Term)
    | MakeAead(a: Term, b: Term, c: Term)
    | Decrypt(cipher: Term)
    | Initiate(s: nat, e: nat, responder: Term, timestamp: nat)
    | Respond(s: nat, msg: InitiationMessage, e: nat, psk: Term)

  // ------------------------------------------------------------ steps

  /** What the attacker starts from. */
  ghost predicate Given(c: Corruption, t: Term) {
    match t
    case Data(_) => true
    case Empty => true
    case Public(_) => true
    case LowOrder => true
    case Private(k) => k in c.keys
    case Psk(id) => id in c.psks
    case _ => false
  }

  ghost function NewInitiation(s: nat, e: nat, responder: Term, timestamp: nat): Initiation
    requires Curve(e, responder).Some? && Curve(s, responder).Some?
  {
    HonestInitiation(s, e, responder, Curve(e, responder).value, Curve(s, responder).value, timestamp)
  }

  /** The checks of consume_initiation that do not depend on earlier messages. */
  ghost predicate Readable(s: nat, msg: InitiationMessage) {
    SenderOf(s, msg).Some?
    && Curve(s, SenderOf(s, msg).value).Some?
    && TimestampOf(SeenInitiation(s, msg, Curve(s, SenderOf(s, msg).value).value)).Some?
  }

  ghost function Answered(s: nat, msg: InitiationMessage, e: nat, psk: Term): Responded
    requires Readable(s, msg) && Curve(e, msg.e).Some? && Curve(e, SenderOf(s, msg).value).Some?
  {
    var peer := SenderOf(s, msg).value;
    Responded(s, peer, e, SeenInitiation(s, msg, Curve(s, peer).value),
              Response(Public(e), Curve(e, msg.e).value, Curve(e, peer).value, psk))
  }

  ghost predicate Enabled(c: Corruption, w: World, step: Step) {
    match step
    case Learn(t) => Given(c, t)
    case MakeShared(k, point) => Private(k) in w.known && point in w.known && Curve(k, point).Some?
    case MakeHash(a, b) => a in w.known && b in w.known
    case MakeKdf(_, a, b) => a in w.known && b in w.known
    case MakeAead(k, p, a) => k in w.known && p in w.known && a in w.known
    case Decrypt(t) => t in w.known && t.Aead? && t.key in w.known
    case Initiate(s, e, responder, _) => Curve(e, responder).Some? && Curve(s, responder).Some?
    case Respond(s, msg, e, psk) =>
      msg.e in w.known && msg.encStatic in w.known && msg.encTimestamp in w.known && Readable(s, msg)
      && Curve(e, msg.e).Some? && Curve(e, SenderOf(s, msg).value).Some? && psk.Psk?
  }

  ghost function Next(c: Corruption, w: World, step: Step): World
    requires Enabled(c, w, step)
  {
    match step
    case Learn(t) => w.(known := w.known + {t})
    case MakeShared(k, point) => w.(known := w.known + {Curve(k, point).value})
    case MakeHash(a, b) => w.(known := w.known + {Hash(a, b)})
    case MakeKdf(o, a, b) => w.(known := w.known + {Kdf(o, a, b)})
    case MakeAead(k, p, a) => w.(known := w.known + {Aead(k, p, a)})
    case Decrypt(t) => w.(known := w.known + {t.plain})
    case Initiate(s, e, responder, timestamp) =>
      var i := NewInitiation(s, e, responder, timestamp);
      World(w.known + {i.e, i.encStatic, i.encTimestamp}, w.initiated + {Initiated(s, e, timestamp, i)}, w.responded)
    case Respond(s, msg, e, psk) =>
      var a := Answered(s, msg, e, psk);
      World(w.known + {a.r.e, EncNothing(AfterInitiation(a.i), a.r)}, w.initiated, w.responded + {a})
  }

  /** The world a run of steps leads to, if each step was possible when it was taken. */
  ghost function Run(c: Corruption, steps: seq<Step>): Option<World> {
    if steps == [] then Some(World({}, {}, {}))
    else
      var before := Run(c, steps[..|steps| - 1]);
      if before.Some? && Enabled(c, before.value, steps[|steps| - 1])
      then Some(Next(c, before.value, steps[|steps| - 1])) else None
  }

  // ------------------------------------------------------------ what the attacker can know

  /** `t` was sent by an honest party. */
  ghost predicate Issued(w: World, t: Term) {
    (exists a :: a in w.initiated && (t == a.i.encStatic || t == a.i.encTimestamp))
    || (exists a :: a in w.responded && t == EncNothing(AfterInitiation(a.i), a.r))
  }

  /** An upper bound on the attacker's knowledge: a derived value is only reachable when all
      its inputs are, a shared secret only with one of its secret keys, and a ciphertext only
      when it was built from reachable parts or sent by an honest party. */
  ghost predicate Safe(c: Corruption, w: World, t: Term) {
    match t
    case Data(_) => true
    case Empty => true
    case Private(k) => k in c.keys
    case Public(_) => true
    case LowOrder => true
    case Shared(j, k) => j in c.keys || k in c.keys
    case SharedPoint(k, _) => k in c.keys
    case Psk(id) => id in c.psks
    case Hash(a, b) => Safe(c, w, a) && Safe(c, w, b)
    case Kdf(_, a, b) => Safe(c, w, a) && Safe(c, w, b)
    case Aead(k, p, a) => Safe(c, w, p) && (Issued(w, t) || (Safe(c, w, k) && Safe(c, w, a)))
  }

  ghost predicate Inv(c: Corruption, w: World) {
    (forall t :: t in w.known ==> Safe(c, w, t))
    && (forall a :: a in w.initiated ==>
          Curve(a.e, a.i.responder).Some? && Curve(a.s, a.i.responder).Some?
          && a.i == NewInitiation(a.s, a.e, a.i.responder, a.timestamp))
    && (forall a :: a in w.responded ==>
          exists msg, psk :: Readable(a.s, msg) && Curve(a.e, msg.e).Some? && Curve(a.e, SenderOf(a.s, msg).value).Some?
                             && a == Answered(a.s, msg, a.e, psk))
  }

  /** Worlds only grow, and what was safe stays safe. */
  lemma {:induction false} SafeGrows(c: Corruption, w: World, v: World, t: Term)
    requires Safe(c, w, t) && w.initiated <= v.initiated && w.responded <= v.responded
    ensures Safe(c, v, t)
    decreases t
  {
    match t
    case Hash(a, b) =>
      SafeGrows(c, w, v, a);
      SafeGrows(c, w, v, b);
    case Kdf(_, a, b) =>
      SafeGrows(c, w, v, a);
      SafeGrows(c, w, v, b);
    case Aead(k, p, a) =>
      SafeGrows(c, w, v, p);
      if !Issued(w, t) {
        SafeGrows(c, w, v, k);
        SafeGrows(c, w, v, a);
      }
    case _ =>
  }

  lemma {:induction false} InvStep(c: Corruption, w: World, step: Step)
    requires Inv(c, w) && Enabled(c, w, step)
    ensures Inv(c, Next(c, w, step))
  {
    var v := Next(c, w, step);
    forall t | t in w.known ensures Safe(c, v, t) {
      SafeGrows(c, w, v, t);
    }
    forall t | t in v.known && t !in w.known ensures Safe(c, v, t) {
      NewKnowledge(c, w, step, t);
    }
    if step.Respond? {
      var a := Answered(step.s, step.msg, step.e, step.psk);
      assert a == Answered(a.s, step.msg, a.e, step.psk);
    }
  }

  lemma {:induction false} NewKnowledge(c: Corruption, w: World, step: Step, t: Term)
    requires Inv(c, w) && Enabled(c, w, step) && t in Next(c, w, step).known && t !in w.known
    ensures Safe(c, Next(c, w, step), t)
  {
    var v := Next(c, w, step);
    match step
    case MakeShared(k, point) =>
      assert Safe(c, w, Private(k));
    case MakeHash(a, b) =>
      SafeGrows(c, w, v, a);
      SafeGrows(c, w, v, b);
    case MakeKdf(_, a, b) =>
      SafeGrows(c, w, v, a);
      SafeGrows(c, w, v, b);
    case MakeAead(k, p, a) =>
      SafeGrows(c, w, v, k);
      SafeGrows(c, w, v, p);
      SafeGrows(c, w, v, a);
    case Decrypt(cipher) =>
      assert Safe(c, w, cipher);
      SafeGrows(c, w, v, t);
    case Initiate(s, e, responder, timestamp) =>
      var a := Initiated(s, e, timestamp, NewInitiation(s, e, responder, timestamp));
      assert a in v.initiated;
    case Respond(s, msg, e, psk) =>
      assert Answered(s, msg, e, psk) in v.responded;
    case Learn(_) =>
  }

  lemma {:induction false} InvHolds(c: Corruption, steps: seq<Step>)
    requires Run(c, steps).Some?
    ensures Inv(c, Run(c, steps).value)
  {
    if steps != [] {
      InvHolds(c, steps[..|steps| - 1]);
      InvStep(c, Run(c, steps[..|steps| - 1]).value, steps[|steps| - 1]);
    }
  }

  // ------------------------------------------------------------ keys out of reach

  /** Exactly which secrets protect the key of the second message and the session keys:
      all four shared secrets and the preshared key have to be reachable for it to be. */
  lemma ResponseKeySafe(c: Corruption, w: World, i: Initiation, r: Response)
    requires i.responder.Public? && i.e.Public? && Safe(c, w, r.e)
    ensures Safe(c, w, NothingKey(AfterInitiation(i), r))
       <==> Safe(c, w, i.es) && Safe(c, w, i.ss) && Safe(c, w, r.ee) && Safe(c, w, r.se) && Safe(c, w, r.psk)
    ensures Safe(c, w, FirstKey(AfterResponse(AfterInitiation(i), r))) <==> Safe(c, w, NothingKey(AfterInitiation(i), r))
    ensures Safe(c, w, SecondKey(AfterResponse(AfterInitiation(i), r))) <==> Safe(c, w, NothingKey(AfterInitiation(i), r))
  {
    var y := AfterInitiation(i);
    var k1 := Kdf(1, Kdf(1, INIT_CHAINING_KEY, i.e), i.es);
    assert Safe(c, w, k1) <==> Safe(c, w, i.es) by {
      assert Safe(c, w, i.e) && Safe(c, w, INIT_CHAINING_KEY);
      assert Safe(c, w, Kdf(1, INIT_CHAINING_KEY, i.e));
    }
    assert y.ck == Kdf(1, k1, i.ss);
    var k3 := Kdf(1, Kdf(1, y.ck, r.e), r.ee);
    assert Safe(c, w, k3) <==> Safe(c, w, y.ck) && Safe(c, w, r.ee) by {
      assert Safe(c, w, Kdf(1, y.ck, r.e)) <==> Safe(c, w, y.ck);
    }
    var ck := BeforePsk(y, r).ck;
    assert ck == Kdf(1, k3, r.se);
    assert AfterResponse(y, r).ck == Kdf(1, ck, r.psk);
  }

  /** The secrets on which the initiator's trust rests. */
  ghost predicate Trusted(c: Corruption, s: nat, e: nat, responder: nat, psk: Term) {
    (psk.Psk? && psk.id !in c.psks) || (responder !in c.keys && (e !in c.keys || s !in c.keys))
  }

  /** The response as the initiator of `a` recomputes it from a received ephemeral. */
  ghost function Recomputed(a: Initiated, point: Term, psk: Term): Response
    requires Curve(a.e, point).Some? && Curve(a.s, point).Some?
  {
    Response(point, Curve(a.e, point).value, Curve(a.s, point).value, psk)
  }

  lemma TrustedKeyUnsafe(c: Corruption, w: World, a: Initiated, sr: nat, point: Term, psk: Term)
    requires Inv(c, w) && a in w.initiated && a.i.responder == Public(sr) && Safe(c, w, point)
    requires Curve(a.e, point).Some? && Curve(a.s, point).Some? && Trusted(c, a.s, a.e, sr, psk)
    ensures !Safe(c, w, NothingKey(AfterInitiation(a.i), Recomputed(a, point, psk)))
  {
    ResponseKeySafe(c, w, a.i, Recomputed(a, point, psk));
  }

  // ------------------------------------------------------------ the theorems

  /** Responder authentication.  In every run, if the initiator accepts a second message, and
      the preshared key is secret, or the responder's static key and one of the initiator's two
      keys are, then the owner of the responder's static key really answered, to this
      initiator, and both hold the same transcript: both ephemerals, both statics, the preshared
      key, and hence the same chaining key, hash and session keys. */
  lemma {:induction false} ResponderAuthentication(c: Corruption, steps: seq<Step>, a: Initiated, sr: nat, point: Term, cipher: Term, psk: Term)
    returns (b: Responded)
    requires Run(c, steps).Some?
    requires var w := Run(c, steps).value; a in w.initiated && point in w.known && cipher in w.known
    requires a.i.responder == Public(sr) && Curve(a.e, point).Some? && Curve(a.s, point).Some?
    requires cipher == EncNothing(AfterInitiation(a.i), Recomputed(a, point, psk))
    requires Trusted(c, a.s, a.e, sr, psk)
    ensures b in Run(c, steps).value.responded
    ensures b.s == sr && b.peer == Public(a.s) && b.i == a.i && b.r == Recomputed(a, point, psk) && point == Public(b.e)
    ensures AfterResponse(AfterInitiation(b.i), b.r) == AfterResponse(AfterInitiation(a.i), Recomputed(a, point, psk))
  {
    var w := Run(c, steps).value;
    InvHolds(c, steps);
    TrustedKeyUnsafe(c, w, a, sr, point, psk);
    assert Safe(c, w, cipher);
    b := IssuedResponse(c, w, AfterInitiation(a.i), Recomputed(a, point, psk), cipher);
    InitiationInjective(a.i, b.i);
    AnsweredTo(c, w, a, b, sr);
  }

  /** A second ciphertext that was sent by an honest party was sent as one. */
  lemma {:induction false} IssuedResponse(c: Corruption, w: World, y: Symmetric, r: Response, cipher: Term) returns (b: Responded)
    requires Inv(c, w) && cipher == EncNothing(y, r) && Issued(w, cipher)
    ensures b in w.responded && AfterInitiation(b.i) == y && b.r == r
  {
    assert cipher.key.out == 3;
    forall d | d in w.initiated ensures cipher != d.i.encStatic && cipher != d.i.encTimestamp {
      assert d.i == NewInitiation(d.s, d.e, d.i.responder, d.timestamp);
    }
    b :| b in w.responded && cipher == EncNothing(AfterInitiation(b.i), b.r);
    ResponseInjective(y, r, AfterInitiation(b.i), b.r);
  }

  /** Who answered, if the transcript is that of an honest initiator. */
  lemma {:induction false} AnsweredTo(c: Corruption, w: World, a: Initiated, b: Responded, sr: nat)
    requires Inv(c, w) && a in w.initiated && b in w.responded && a.i == b.i && a.i.responder == Public(sr)
    ensures b.s == sr && b.peer == Public(a.s) && b.r.e == Public(b.e)
  {
    var msg, q :| Readable(b.s, msg) && Curve(b.e, msg.e).Some? && Curve(b.e, SenderOf(b.s, msg).value).Some?
                  && b == Answered(b.s, msg, b.e, q);
    assert a.i == NewInitiation(a.s, a.e, a.i.responder, a.timestamp);
    assert msg.encStatic == a.i.encStatic;
  }

  /** Initiator authentication.  In every run, if an honest responder reads a first message as
      coming from `si`, and both static keys are secret, then the owner of `si` really sent
      it, to this responder, with this ephemeral and timestamp. */
  lemma {:induction false} InitiatorAuthentication(c: Corruption, steps: seq<Step>, sr: nat, si: nat, msg: InitiationMessage)
    returns (a: Initiated)
    requires Run(c, steps).Some?
    requires var w := Run(c, steps).value; msg.e in w.known && msg.encStatic in w.known && msg.encTimestamp in w.known
    requires Readable(sr, msg) && SenderOf(sr, msg) == Some(Public(si))
    requires si !in c.keys && sr !in c.keys
    ensures a in Run(c, steps).value.initiated
    ensures a.s == si && a.i.responder == Public(sr) && Public(a.e) == msg.e
    ensures a.i == SeenInitiation(sr, msg, Curve(sr, Public(si)).value)
  {
    var w := Run(c, steps).value;
    InvHolds(c, steps);
    var i := SeenInitiation(sr, msg, Curve(sr, Public(si)).value);
    var cipher := msg.encTimestamp;
    assert cipher.key == TimestampKey(i) && cipher.ad == AfterStatic(i).hash;
    assert !Safe(c, w, i.ss);
    assert !Safe(c, w, cipher.key);
    assert Safe(c, w, cipher);
    assert Issued(w, cipher);
    forall d | d in w.responded ensures cipher != EncNothing(AfterInitiation(d.i), d.r) {
      assert EncNothing(AfterInitiation(d.i), d.r).key.out == 3;
    }
    forall d | d in w.initiated ensures cipher != d.i.encStatic {
      NotStatic(d, i, cipher);
    }
    a :| a in w.initiated && cipher == a.i.encTimestamp;
    assert a.i == NewInitiation(a.s, a.e, a.i.responder, a.timestamp);
    assert AfterStatic(a.i).hash == AfterStatic(i).hash && TimestampKey(a.i) == TimestampKey(i);
    assert a.i == i;
  }

  /** The two ciphertexts of a first message never pass for one another. */
  lemma NotStatic(d: Initiated, i: Initiation, cipher: Term)
    requires Curve(d.e, d.i.responder).Some? && Curve(d.s, d.i.responder).Some?
    requires d.i == NewInitiation(d.s, d.e, d.i.responder, d.timestamp)
    requires cipher.Aead? && cipher.key == TimestampKey(i)
    ensures cipher != d.i.encStatic
  {
    assert d.i.encStatic.key == Kdf(2, Kdf(1, INIT_CHAINING_KEY, d.i.e), d.i.es);
    assert cipher.key == Kdf(2, Kdf(1, Kdf(1, INIT_CHAINING_KEY, i.e), i.es), i.ss);
  }

  /** Secrecy.  Under the same condition the attacker never learns the session keys that the
      initiator derives, whatever ephemeral it was fed. */
  lemma SessionKeysSecret(c: Corruption, steps: seq<Step>, a: Initiated, sr: nat, point: Term, psk: Term)
    requires Run(c, steps).Some?
    requires var w := Run(c, steps).value; a in w.initiated && point in w.known
    requires a.i.responder == Public(sr) && Curve(a.e, point).Some? && Curve(a.s, point).Some?
    requires Trusted(c, a.s, a.e, sr, psk)
    ensures var y := AfterResponse(AfterInitiation(a.i), Recomputed(a, point, psk));
            FirstKey(y) !in Run(c, steps).value.known && SecondKey(y) !in Run(c, steps).value.known
  {
    InvHolds(c, steps);
    var w := Run(c, steps).value;
    TrustedKeyUnsafe(c, w, a, sr, point, psk);
    ResponseKeySafe(c, w, a.i, Recomputed(a, point, psk));
  }

  /** Forward secrecy.  Whoever holds a transcript with two uncorrupted ephemeral keys, the
      session keys of it are never known, even if every static and preshared key is corrupted
      sooner or later. */
  lemma ForwardSecrecy(c: Corruption, steps: seq<Step>, i: Initiation, r: Response, ei: nat, er: nat)
    requires Run(c, steps).Some?
    requires i.e == Public(ei) && i.responder.Public? && r.e == Public(er) && Some(r.ee) == Curve(ei, Public(er))
    requires ei !in c.keys && er !in c.keys
    ensures var y := AfterResponse(AfterInitiation(i), r);
            FirstKey(y) !in Run(c, steps).value.known && SecondKey(y) !in Run(c, steps).value.known
  {
    InvHolds(c, steps);
    var w := Run(c, steps).value;
    assert !Safe(c, w, r.ee);
    ResponseKeySafe(c, w, i, r);
  }
}
