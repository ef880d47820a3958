/** The handshake of one peer, with its fields overwritten in place, and the session keys
    that come out of it. */
module NoiseHandshake {
  import opened Wrappers
  import opened NoiseTerms
  import opened NoiseTokens

  datatype Status = Zeroed | CreatedInitiation | ConsumedInitiation | CreatedResponse | ConsumedResponse

  datatype InitiationMessage = InitiationMessage(sender: nat, e: Term, encStatic: Term, encTimestamp: Term)
  datatype ResponseMessage = ResponseMessage(sender: nat, receiver: nat, e: Term, encNothing: Term)

  /** struct noise_keypair: the two session keys and who started the handshake. */
  datatype Session = Session(sending: Term, receiving: Term, initiator: bool, remoteIndex: nat)

  const NSEC_PER_INITIATION: nat := 20_000_000

  /** struct noise_static_identity. */
  datatype Identity = NoIdentity | Identity(private: nat)

  /** What can happen to a handshake while another thread reads a response without its lock. */
  datatype Event =
    | Initiate(e: nat, timestamp: nat, index: nat)
    | Receive(initiation: InitiationMessage, now: nat)
    | Answer(e: nat, index: nat)
    | Complete(response: ResponseMessage)
    | Begin
    | Clear

  /** struct noise_handshake. */
  class Handshake {
    const remoteStatic: Term
    const staticStatic: Term
    const psk: Term
    var status: Status
    var ephemeral: nat
    var remoteEphemeral: Term
    var hash: Term
    var chainingKey: Term
    var latestTimestamp: nat
    var lastConsumption: nat
    var remoteIndex: nat

    ghost function Sym(): Symmetric reads this { Symmetric(chainingKey, hash) }

    /** wg_noise_handshake_init with the precomputed static-static secret. */
    constructor (identity: Identity, remoteStatic: Term, psk: Term)
      ensures status == Zeroed && this.remoteStatic == remoteStatic && this.psk == psk && latestTimestamp == 0 && lastConsumption == 0
      ensures identity.Identity? && Curve(identity.private, remoteStatic).Some? ==>
                staticStatic == Curve(identity.private, remoteStatic).value
    {
      this.remoteStatic := remoteStatic;
      this.psk := psk;
      var zero := Data(2);
      this.staticStatic :=
        match identity
        case NoIdentity => zero
        case Identity(k) => (match Curve(k, remoteStatic) case None => zero case Some(t) => t);
      status := Zeroed;
      ephemeral := 0;
      remoteEphemeral := zero;
      hash := zero;
      chainingKey := zero;
      latestTimestamp := 0;
      lastConsumption := 0;
      remoteIndex := 0;
    }

    /** Fold a point into the chaining key; the second output is the message key. */
    method MixDh(private: nat, point: Term) returns (ok: bool, key: Term)
      modifies this`chainingKey
      ensures ok == Curve(private, point).Some?
      ensures ok ==> Sym() == MixKey(old(Sym()), Curve(private, point).value)
                     && key == Kdf(2, old(chainingKey), Curve(private, point).value)
      ensures !ok ==> chainingKey == old(chainingKey)
    {
      match Curve(private, point) {
        case None =>
          ok, key := false, Empty;
        case Some(dh) =>
          ok, key := true, Kdf(2, chainingKey, dh);
          chainingKey := Kdf(1, chainingKey, dh);
      }
    }

    method MixEphemeralKey(e: Term)
      modifies this`chainingKey, this`hash
      ensures Sym() == MixEphemeral(old(Sym()), e)
    {
      hash := Hash(hash, e);
      chainingKey := Kdf(1, chainingKey, e);
    }

    method Encrypt(plain: Term, key: Term) returns (cipher: Term)
      modifies this`hash
      ensures cipher == Aead(key, plain, old(hash)) && Sym() == MixHash(old(Sym()), cipher)
    {
      cipher := Aead(key, plain, hash);
      hash := Hash(hash, cipher);
    }

    /** wg_noise_handshake_create_initiation: `e` is the new ephemeral secret. */
    method CreateInitiation(identity: Identity, e: nat, timestamp: nat, index: nat) returns (msg: Option<InitiationMessage>)
      modifies this
      ensures msg.Some? <==> identity.Identity? && Curve(e, remoteStatic).Some?
      ensures msg.Some? ==>
                var i := HonestInitiation(identity.private, e, remoteStatic, Curve(e, remoteStatic).value, staticStatic, timestamp);
                msg.value == InitiationMessage(index, i.e, i.encStatic, i.encTimestamp)
                && Sym() == AfterInitiation(i) && ephemeral == e && status == CreatedInitiation
      ensures msg == None ==> status == old(status)
      ensures latestTimestamp == old(latestTimestamp)
    {
      if identity.NoIdentity? {
        return None;
      }
      chainingKey := INIT_CHAINING_KEY;
      hash := Hash(INIT_HASH, remoteStatic);
      ephemeral := e;
      MixEphemeralKey(Public(e));
      var ok, key := MixDh(e, remoteStatic);
      if !ok {
        return None;
      }
      var encStatic := Encrypt(Public(identity.private), key);
      key := Kdf(2, chainingKey, staticStatic);
      chainingKey := Kdf(1, chainingKey, staticStatic);
      var encTimestamp := Encrypt(Data(timestamp), key);
      status := CreatedInitiation;
      return Some(InitiationMessage(index, Public(e), encStatic, encTimestamp));
    }

    /** wg_noise_handshake_create_response. */
    method CreateResponse(e: nat, index: nat) returns (msg: Option<ResponseMessage>)
      modifies this
      ensures msg.Some? <==> old(status) == ConsumedInitiation && Curve(e, old(remoteEphemeral)).Some? && Curve(e, remoteStatic).Some?
      ensures msg.Some? ==>
                var r := Response(Public(e), Curve(e, old(remoteEphemeral)).value, Curve(e, remoteStatic).value, psk);
                msg.value == ResponseMessage(index, old(remoteIndex), r.e, EncNothing(old(Sym()), r))
                && Sym() == AfterResponse(old(Sym()), r) && status == CreatedResponse && remoteIndex == old(remoteIndex)
      ensures msg == None ==> status == old(status)
    {
      if status != ConsumedInitiation {
        return None;
      }
      ephemeral := e;
      MixEphemeralKey(Public(e));
      var ok, key := MixDh(e, remoteEphemeral);
      if !ok {
        return None;
      }
      ok, key := MixDh(e, remoteStatic);
      if !ok {
        return None;
      }
      hash := Hash(hash, Kdf(2, chainingKey, psk));
      key := Kdf(3, chainingKey, psk);
      chainingKey := Kdf(1, chainingKey, psk);
      var encNothing := Encrypt(Empty, key);
      status := CreatedResponse;
      return Some(ResponseMessage(index, remoteIndex, Public(e), encNothing));
    }

    /** The part of wg_noise_handshake_consume_response before the write lock: works on
        copies, and finds the new state if the message authenticates. */
    method ReadResponse(identity: Identity, msg: ResponseMessage) returns (read: Option<Symmetric>)
      ensures read.Some? <==> Answers(identity, msg)
      ensures read.Some? ==> read.value == AfterResponse(Sym(), TheirResponse(identity, ephemeral, msg.e))
    {
      if identity.NoIdentity? || status != CreatedInitiation {
        return None;
      }
      var h, ck := hash, chainingKey;
      h := Hash(h, msg.e);
      ck := Kdf(1, ck, msg.e);
      var ee := Curve(ephemeral, msg.e);
      if ee.None? {
        return None;
      }
      ck := Kdf(1, ck, ee.value);
      var se := Curve(identity.private, msg.e);
      if se.None? {
        return None;
      }
      ck := Kdf(1, ck, se.value);
      h := Hash(h, Kdf(2, ck, psk));
      var key := Kdf(3, ck, psk);
      ck := Kdf(1, ck, psk);
      // The field has the length of an authentication tag: nothing but Empty fits in it.
      if Open(key, msg.encNothing, h) != Some(Empty) {
        return None;
      }
      h := Hash(h, msg.encNothing);
      return Some(Symmetric(ck, h));
    }

    /** The part under the write lock: only the status is compared again. */
    method CommitResponse(read: Symmetric, msg: ResponseMessage) returns (accepted: bool)
      modifies this
      ensures accepted <==> old(status) == CreatedInitiation
      ensures accepted ==> Sym() == read && remoteEphemeral == msg.e && remoteIndex == msg.sender && status == ConsumedResponse
      ensures !accepted ==> unchanged(this)
      ensures ephemeral == old(ephemeral) && latestTimestamp == old(latestTimestamp) && lastConsumption == old(lastConsumption)
    {
      if status != CreatedInitiation {
        return false;
      }
      remoteEphemeral := msg.e;
      hash := read.hash;
      chainingKey := read.ck;
      remoteIndex := msg.sender;
      status := ConsumedResponse;
      return true;
    }

    /** The message is the answer to the initiation this object has sent. */
    ghost predicate Answers(identity: Identity, msg: ResponseMessage)
      reads this
    {
      identity.Identity? && status == CreatedInitiation
      && Curve(ephemeral, msg.e).Some? && Curve(identity.private, msg.e).Some?
      && msg.encNothing == EncNothing(Sym(), TheirResponse(identity, ephemeral, msg.e))
    }

    /** wg_noise_handshake_consume_response when nothing comes between its two parts. */
    method ConsumeResponse(identity: Identity, msg: ResponseMessage) returns (accepted: bool)
      modifies this
      ensures accepted <==> old(Answers(identity, msg))
      ensures accepted ==>
                Sym() == AfterResponse(old(Sym()), TheirResponse(identity, old(ephemeral), msg.e))
                && remoteEphemeral == msg.e && remoteIndex == msg.sender && status == ConsumedResponse
      ensures !accepted ==> unchanged(this)
    {
      var read := ReadResponse(identity, msg);
      if read.None? {
        return false;
      }
      accepted := CommitResponse(read.value, msg);
    }

    /** Nothing of the handshake is left. */
    ghost predicate Erased()
      reads this
    {
      ephemeral == 0 && remoteEphemeral == hash == chainingKey == Data(2) && remoteIndex == 0 && status == Zeroed
    }

    /** handshake_zero. */
    method Zero()
      modifies this
      ensures Erased() && latestTimestamp == old(latestTimestamp) && lastConsumption == old(lastConsumption)
    {
      ephemeral := 0;
      remoteEphemeral := Data(2);
      hash := Data(2);
      chainingKey := Data(2);
      remoteIndex := 0;
      status := Zeroed;
    }

    /** Let something else happen to the handshake. */
    method Happen(identity: Identity, event: Event)
      modifies this
      ensures event.Initiate? && old(status) == CreatedInitiation ==> status == CreatedInitiation
      ensures event.Clear? ==> status == Zeroed
    {
      match event {
        case Initiate(e, timestamp, index) => var m := CreateInitiation(identity, e, timestamp, index);
        case Receive(msg, now) => var m := ConsumeInitiation(identity, map[remoteStatic := this], msg, now);
        case Answer(e, index) => var m := CreateResponse(e, index);
        case Complete(msg) => var m := ConsumeResponse(identity, msg);
        case Begin => var m := BeginSession();
        case Clear => Zero();
      }
    }

    /** The same with anything happening between the two parts; `found` is the state that the
        second part finds.  The message is accepted if and only if it answers the initiation
        that was there at first and an initiation is still or again waiting.  Then the
        transcript is the one of the initiation it answers, not of a later one. */
    method ConsumeResponseAcross(identity: Identity, msg: ResponseMessage, events: seq<Event>) returns (accepted: bool, found: Status)
      modifies this
      ensures accepted <==> old(Answers(identity, msg)) && found == CreatedInitiation
      ensures accepted ==>
                Sym() == AfterResponse(old(Sym()), TheirResponse(identity, old(ephemeral), msg.e))
                && remoteEphemeral == msg.e && remoteIndex == msg.sender && status == ConsumedResponse
      ensures !accepted ==> status == found
      ensures old(status) == CreatedInitiation && (forall i :: 0 <= i < |events| ==> events[i].Initiate?) ==> found == CreatedInitiation
      ensures events != [] && events[|events| - 1].Clear? ==> found == Zeroed
    {
      var read := ReadResponse(identity, msg);
      for k := 0 to |events|
        invariant old(status) == CreatedInitiation && (forall i :: 0 <= i < k ==> events[i].Initiate?) ==> status == CreatedInitiation
        invariant k > 0 && events[k - 1].Clear? ==> status == Zeroed
      {
        Happen(identity, events[k]);
      }
      found := status;
      if read.None? {
        return false, found;
      }
      accepted := CommitResponse(read.value, msg);
    }

    /** The response as the initiator recomputes it. */
    ghost function TheirResponse(identity: Identity, e: nat, point: Term): Response
      requires identity.Identity?
    {
      var ee, se := Curve(e, point), Curve(identity.private, point);
      Response(point, if ee.Some? then ee.value else Empty, if se.Some? then se.value else Empty, psk)
    }

    /** wg_noise_handshake_begin_session. */
    method BeginSession() returns (keypair: Option<Session>)
      modifies this
      ensures keypair.Some? <==> old(status) == CreatedResponse || old(status) == ConsumedResponse
      ensures keypair.Some? ==>
                var first, second := Kdf(1, old(chainingKey), Empty), Kdf(2, old(chainingKey), Empty);
                keypair.value == (if old(status) == ConsumedResponse then Session(first, second, true, old(remoteIndex))
                                  else Session(second, first, false, old(remoteIndex)))
                && Erased()
      ensures keypair == None ==> status == old(status) && Sym() == old(Sym())
    {
      if status != CreatedResponse && status != ConsumedResponse {
        return None;
      }
      var initiator := status == ConsumedResponse;
      var first, second := Kdf(1, chainingKey, Empty), Kdf(2, chainingKey, Empty);
      keypair := Some(if initiator then Session(first, second, true, remoteIndex) else Session(second, first, false, remoteIndex));
      Zero();
    }
  }

  /** The transcript consume_initiation rebuilds from a message. */
  ghost function SeenInitiation(private: nat, msg: InitiationMessage, ss: Term): Initiation {
    var es := Curve(private, msg.e);
    Initiation(Public(private), msg.e, if es.Some? then es.value else Empty, msg.encStatic, ss, msg.encTimestamp)
  }

  /** The static key inside a first message, if the responder can read it. */
  ghost function SenderOf(private: nat, msg: InitiationMessage): Option<Term> {
    var i := SeenInitiation(private, msg, Empty);
    if Curve(private, msg.e).None? then None else Open(StaticKey(i), msg.encStatic, AfterE(i).hash)
  }

  ghost function TimestampOf(i: Initiation): Option<Term> {
    Open(TimestampKey(i), i.encTimestamp, AfterStatic(i).hash)
  }

  /** wg_noise_handshake_consume_initiation: the handshake to update is looked up by the
      static key inside the message.  It changes exactly when both ciphertexts open, the
      timestamp is later than any before and initiations do not come too fast. */
  method ConsumeInitiation(identity: Identity, peers: map<Term, Handshake>, msg: InitiationMessage, now: nat)
    returns (found: Option<Handshake>)
    requires forall k, l :: k in peers && l in peers && peers[k] == peers[l] ==> k == l
    modifies set k | k in peers :: peers[k]
    ensures found.Some? <==>
              identity.Identity? && SenderOf(identity.private, msg).Some?
              && var s := SenderOf(identity.private, msg).value;
                 s in peers
                 && var t := TimestampOf(SeenInitiation(identity.private, msg, peers[s].staticStatic));
                    t.Some? && t.value.Data? && t.value.n > old(peers[s].latestTimestamp)
                    && old(peers[s].lastConsumption) + NSEC_PER_INITIATION <= now
    ensures found.Some? ==>
              var s := SenderOf(identity.private, msg).value;
              var i := SeenInitiation(identity.private, msg, peers[s].staticStatic);
              found.value == peers[s] && found.value.Sym() == AfterInitiation(i)
              && found.value.remoteEphemeral == msg.e && found.value.remoteIndex == msg.sender
              && found.value.latestTimestamp == TimestampOf(i).value.n && found.value.lastConsumption == now
              && found.value.status == ConsumedInitiation
    ensures forall k :: k in peers && Some(peers[k]) != found ==> unchanged(peers[k])
  {
    if identity.NoIdentity? {
      return None;
    }
    var h := Hash(INIT_HASH, Public(identity.private));
    var ck := INIT_CHAINING_KEY;
    h := Hash(h, msg.e);
    ck := Kdf(1, ck, msg.e);
    var es := Curve(identity.private, msg.e);
    if es.None? {
      return None;
    }
    var key := Kdf(2, ck, es.value);
    ck := Kdf(1, ck, es.value);
    var sender := Open(key, msg.encStatic, h);
    if sender.None? {
      return None;
    }
    h := Hash(h, msg.encStatic);
    if sender.value !in peers {
      return None;
    }
    var handshake := peers[sender.value];
    key := Kdf(2, ck, handshake.staticStatic);
    ck := Kdf(1, ck, handshake.staticStatic);
    var t := Open(key, msg.encTimestamp, h);
    if t.None? {
      return None;
    }
    h := Hash(h, msg.encTimestamp);
    var replay := !t.value.Data? || t.value.n <= handshake.latestTimestamp;
    var flood := handshake.lastConsumption + NSEC_PER_INITIATION > now;
    if replay || flood {
      return None;
    }
    Commit(handshake, msg, t.value.n, h, ck, now);
    return Some(handshake);
  }

  /** Success: copy everything to the peer. */
  method Commit(handshake: Handshake, msg: InitiationMessage, timestamp: nat, h: Term, ck: Term, now: nat)
    modifies handshake
    ensures handshake.Sym() == Symmetric(ck, h) && handshake.status == ConsumedInitiation
    ensures handshake.remoteEphemeral == msg.e && handshake.remoteIndex == msg.sender
    ensures handshake.latestTimestamp == timestamp && handshake.lastConsumption == now
  {
    handshake.remoteEphemeral := msg.e;
    handshake.latestTimestamp := timestamp;
    handshake.hash := h;
    handshake.chainingKey := ck;
    handshake.remoteIndex := msg.sender;
    handshake.lastConsumption := now;
    handshake.status := ConsumedInitiation;
  }

  /** The handshake object that the owner of secret `mine` keeps for the owner of `theirs`. */
  ghost predicate KeptFor(h: Handshake, mine: nat, theirs: nat, psk: Term) {
    h.remoteStatic == Public(theirs) && h.psk == psk && Curve(mine, Public(theirs)) == Some(h.staticStatic)
  }

  /** A message of each side, as the terms it is made of. */
  ghost function Terms(first: InitiationMessage, second: ResponseMessage): seq<Term> {
    [first.e, first.encStatic, first.encTimestamp, second.e, second.encNothing]
  }

  /** The first message from one side to the other. */
  method HonestInitiate(k: Keys, initiator: Handshake, responder: Handshake, peers: map<Term, Handshake>,
                        timestamp: nat, now: nat, ours: nat)
    returns (first: InitiationMessage)
    requires KeptFor(initiator, k.si, k.sr, k.psk) && KeptFor(responder, k.sr, k.si, k.psk)
    requires Public(k.si) in peers && peers[Public(k.si)] == responder && initiator !in peers.Values
    requires forall k, l :: k in peers && l in peers && peers[k] == peers[l] ==> k == l
    requires timestamp > responder.latestTimestamp && now >= responder.lastConsumption + NSEC_PER_INITIATION
    modifies initiator, peers.Values
    ensures var i := HonestFirst(k, timestamp);
            first == InitiationMessage(ours, i.e, i.encStatic, i.encTimestamp)
            && initiator.Sym() == responder.Sym() == AfterInitiation(i)
    ensures initiator.status == CreatedInitiation && initiator.ephemeral == k.ei
    ensures responder.status == ConsumedInitiation && responder.remoteEphemeral == Public(k.ei) && responder.remoteIndex == ours
    ensures forall j :: j in peers && j != Public(k.si) ==> unchanged(peers[j])
  {
    CurveIsDh(k.si, k.sr);
    CurveIsDh(k.sr, k.si);
    CurveIsDh(k.ei, k.sr);
    CurveIsDh(k.sr, k.ei);
    var sent := initiator.CreateInitiation(Identity(k.si), k.ei, timestamp, ours);
    first := sent.value;
    ghost var i := HonestFirst(k, timestamp);
    assert SenderOf(k.sr, first) == Some(Public(k.si));
    assert SeenInitiation(k.sr, first, responder.staticStatic) == i;
    var peer := ConsumeInitiation(Identity(k.sr), peers, first, now);
    assert peer == Some(responder);
  }

  /** The answer. */
  method HonestRespond(k: Keys, initiator: Handshake, responder: Handshake, theirs: nat) returns (second: ResponseMessage)
    requires KeptFor(initiator, k.si, k.sr, k.psk) && KeptFor(responder, k.sr, k.si, k.psk) && initiator != responder
    requires initiator.status == CreatedInitiation && initiator.ephemeral == k.ei && initiator.Sym() == responder.Sym()
    requires responder.status == ConsumedInitiation && responder.remoteEphemeral == Public(k.ei)
    modifies initiator, responder
    ensures initiator.status == ConsumedResponse && responder.status == CreatedResponse
    ensures var y, r := old(initiator.Sym()), HonestSecond(k);
            initiator.Sym() == responder.Sym() == AfterResponse(y, r) && second.e == r.e && second.encNothing == EncNothing(y, r)
    ensures initiator.remoteIndex == theirs && responder.remoteIndex == old(responder.remoteIndex)
  {
    CurveIsDh(k.ei, k.er);
    CurveIsDh(k.er, k.ei);
    CurveIsDh(k.si, k.er);
    CurveIsDh(k.er, k.si);
    var sent := responder.CreateResponse(k.er, theirs);
    second := sent.value;
    var accepted := initiator.ConsumeResponse(Identity(k.si), second);
    assert accepted;
  }

  /** Two honest parties that know each other's static keys and share the preshared key, each
      with a handshake object in any state, used before or not, among any other peers: if
      the timestamp is newer than the last and the initiations are not too close together,
      all four message steps succeed, the messages are those that the token lists of the
      protocol prescribe, and both sides hold the chaining key and hash of these. */
  method HonestRun(k: Keys, initiator: Handshake, responder: Handshake, peers: map<Term, Handshake>,
                   timestamp: nat, now: nat, ours: nat, theirs: nat)
    returns (first: InitiationMessage, second: ResponseMessage)
    requires KeptFor(initiator, k.si, k.sr, k.psk) && KeptFor(responder, k.sr, k.si, k.psk)
    requires Public(k.si) in peers && peers[Public(k.si)] == responder && initiator !in peers.Values
    requires forall k, l :: k in peers && l in peers && peers[k] == peers[l] ==> k == l
    requires timestamp > responder.latestTimestamp && now >= responder.lastConsumption + NSEC_PER_INITIATION
    modifies initiator, peers.Values
    ensures initiator.status == ConsumedResponse && responder.status == CreatedResponse
    ensures var m := Finished(k, timestamp);
            Terms(first, second) == m.sent && initiator.Sym() == responder.Sym() == Symmetric(m.ck, m.hash)
    ensures initiator.remoteIndex == theirs && responder.remoteIndex == ours
    ensures forall j :: j in peers && j != Public(k.si) ==> unchanged(peers[j])
  {
    first := HonestInitiate(k, initiator, responder, peers, timestamp, now, ours);
    second := HonestRespond(k, initiator, responder, theirs);
    FinishedIs(k, timestamp);
  }

  /** Both sessions of an honest handshake.  With ck the chaining key that the token lists lead
      to, output 1 of its derivation is what the initiator sends and the responder receives
      with, output 2 the other way round, and these are two different keys. */
  method HonestSessions(k: Keys, initiator: Handshake, responder: Handshake, peers: map<Term, Handshake>,
                        timestamp: nat, now: nat, ours: nat, theirs: nat)
    returns (a: Session, b: Session)
    requires KeptFor(initiator, k.si, k.sr, k.psk) && KeptFor(responder, k.sr, k.si, k.psk)
    requires Public(k.si) in peers && peers[Public(k.si)] == responder && initiator !in peers.Values
    requires forall k, l :: k in peers && l in peers && peers[k] == peers[l] ==> k == l
    requires timestamp > responder.latestTimestamp && now >= responder.lastConsumption + NSEC_PER_INITIATION
    modifies initiator, peers.Values
    ensures var ck := Finished(k, timestamp).ck;
            a.sending == b.receiving == Kdf(1, ck, Empty) && a.receiving == b.sending == Kdf(2, ck, Empty)
    ensures a.sending != a.receiving && b.sending != b.receiving
    ensures a.initiator && !b.initiator && a.remoteIndex == theirs && b.remoteIndex == ours
  {
    var first, second := HonestRun(k, initiator, responder, peers, timestamp, now, ours, theirs);
    var x := initiator.BeginSession();
    var y := responder.BeginSession();
    a, b := x.value, y.value;
  }
}
