/** Noise_IKpsk2 the way the Noise Protocol Framework defines it: message patterns as lists of
    tokens, and a machine that works them off one after the other (its sections 5.2 and 5.3,
    and section 9 for the preshared key). */
module NoiseTokens {
  import opened Wrappers
  import opened NoiseTerms

  datatype Token = E | S | EE | ES | SE | SS | PSK

  /** -> e, es, s, ss and <- e, ee, se, psk, after the responder's static key. */
  const FIRST: seq<Token> := [E, ES, S, SS]
  const SECOND: seq<Token> := [E, EE, SE, PSK]

  /** What the two sides bring: static and ephemeral secrets and the preshared key. */
  datatype Keys = Keys(si: nat, sr: nat, ei: nat, er: nat, psk: Term)

  /** Chaining key, cipher key and hash, what was sent, and the cipher keys that were used. */
  datatype Machine = Machine(ck: Term, key: Term, hash: Term, sent: seq<Term>, used: seq<Term>)

  function Dh(j: nat, k: nat): Term { if j <= k then Shared(j, k) else Shared(k, j) }

  lemma CurveIsDh(j: nat, k: nat)
    ensures Curve(j, Public(k)) == Some(Dh(j, k)) && Dh(j, k) == Dh(k, j)
  {
  }

  /** MixKey. */
  function Mixed(m: Machine, input: Term): Machine { m.(ck := Kdf(1, m.ck, input), key := Kdf(2, m.ck, input)) }

  /** EncryptAndHash. */
  function Encrypted(m: Machine, plain: Term): Machine {
    var c := Aead(m.key, plain, m.hash);
    m.(hash := Hash(m.hash, c), sent := m.sent + [c], used := m.used + [m.key])
  }

  function Process(m: Machine, token: Token, k: Keys, initiator: bool): Machine {
    match token
    case E =>
      var e := Public(if initiator then k.ei else k.er);
      Mixed(m.(hash := Hash(m.hash, e), sent := m.sent + [e]), e)
    case S => Encrypted(m, Public(if initiator then k.si else k.sr))
    case EE => Mixed(m, Dh(k.ei, k.er))
    case ES => Mixed(m, Dh(k.ei, k.sr))
    case SE => Mixed(m, Dh(k.si, k.er))
    case SS => Mixed(m, Dh(k.si, k.sr))
    case PSK => m.(ck := Kdf(1, m.ck, k.psk), key := Kdf(3, m.ck, k.psk), hash := Hash(m.hash, Kdf(2, m.ck, k.psk)))
  }

  function ProcessAll(m: Machine, tokens: seq<Token>, k: Keys, initiator: bool): Machine
    decreases |tokens|
  {
    if tokens == [] then m else ProcessAll(Process(m, tokens[0], k, initiator), tokens[1..], k, initiator)
  }

  /** WriteMessage. */
  function Written(m: Machine, tokens: seq<Token>, payload: Term, k: Keys, initiator: bool): Machine {
    Encrypted(ProcessAll(m, tokens, k, initiator), payload)
  }

  function Opening(k: Keys): Machine { Machine(INIT_CHAINING_KEY, Empty, Hash(INIT_HASH, Public(k.sr)), [], []) }

  function Initiated(k: Keys, timestamp: nat): Machine { Written(Opening(k), FIRST, Data(timestamp), k, true) }

  /** The machine after both messages. */
  function Finished(k: Keys, timestamp: nat): Machine { Written(Initiated(k, timestamp), SECOND, Empty, k, false) }

  // ------------------------------------------------------------ unrolled

  lemma {:induction false} Four(m: Machine, tokens: seq<Token>, k: Keys, i: bool)
    requires |tokens| == 4
    ensures ProcessAll(m, tokens, k, i)
         == Process(Process(Process(Process(m, tokens[0], k, i), tokens[1], k, i), tokens[2], k, i), tokens[3], k, i)
  {
    var a, b, c, d := tokens[0], tokens[1], tokens[2], tokens[3];
    assert tokens[1..][0] == b && tokens[1..][1..][0] == c && tokens[1..][1..][1..][0] == d && tokens[1..][1..][1..][1..] == [];
    var m1 := Process(m, a, k, i);
    var m2 := Process(m1, b, k, i);
    var m3 := Process(m2, c, k, i);
    assert ProcessAll(m, tokens, k, i) == ProcessAll(m1, tokens[1..], k, i);
    assert ProcessAll(m1, tokens[1..], k, i) == ProcessAll(m2, tokens[1..][1..], k, i);
    assert ProcessAll(m2, tokens[1..][1..], k, i) == ProcessAll(m3, tokens[1..][1..][1..], k, i);
  }

  /** The transcript of two honest parties, as the implementation builds it. */
  function HonestFirst(k: Keys, timestamp: nat): Initiation {
    HonestInitiation(k.si, k.ei, Public(k.sr), Dh(k.ei, k.sr), Dh(k.si, k.sr), timestamp)
  }

  function HonestSecond(k: Keys): Response { Response(Public(k.er), Dh(k.ei, k.er), Dh(k.si, k.er), k.psk) }

  lemma {:induction false} InitiatedIs(k: Keys, timestamp: nat)
    ensures var m, i := Initiated(k, timestamp), HonestFirst(k, timestamp);
            Symmetric(m.ck, m.hash) == AfterInitiation(i) && m.sent == [i.e, i.encStatic, i.encTimestamp]
            && m.used == [StaticKey(i), TimestampKey(i)]
  {
    Four(Opening(k), FIRST, k, true);
  }

  lemma {:induction false} RespondedIs(k: Keys, m: Machine, y: Symmetric)
    requires y == Symmetric(m.ck, m.hash)
    ensures var n, r := Written(m, SECOND, Empty, k, false), HonestSecond(k);
            Symmetric(n.ck, n.hash) == AfterResponse(y, r) && n.sent == m.sent + [r.e, EncNothing(y, r)]
            && n.used == m.used + [NothingKey(y, r)]
  {
    Four(m, SECOND, k, false);
  }

  /** The implementation's transcript, messages and keys are those of the token lists. */
  lemma {:induction false} FinishedIs(k: Keys, timestamp: nat)
    ensures var m, i, r := Finished(k, timestamp), HonestFirst(k, timestamp), HonestSecond(k);
            var y := AfterInitiation(i);
            Symmetric(m.ck, m.hash) == AfterResponse(y, r)
            && m.sent == [i.e, i.encStatic, i.encTimestamp, r.e, EncNothing(y, r)]
            && m.used == [StaticKey(i), TimestampKey(i), NothingKey(y, r)]
  {
    InitiatedIs(k, timestamp);
    RespondedIs(k, Initiated(k, timestamp), AfterInitiation(HonestFirst(k, timestamp)));
  }

  // ------------------------------------------------------------ all keys are different

  /** The five keys of a handshake: those of the encrypted static key, of the timestamp and of
      the empty second payload, and the two of the session (Split). */
  function AllKeys(k: Keys, timestamp: nat): (ks: seq<Term>) {
    var m := Finished(k, timestamp);
    m.used + [Kdf(1, m.ck, Empty), Kdf(2, m.ck, Empty)]
  }

  /** Two handshakes have put the same secrets into key number `n`. */
  predicate SameInputs(k: Keys, l: Keys, n: nat) {
    k.ei == l.ei && k.sr == l.sr && (n > 0 ==> k.si == l.si) && (n > 1 ==> k == l)
  }

  lemma {:induction false} DhInjective(j: nat, k: nat, l: nat)
    ensures Dh(j, k) == Dh(j, l) <==> k == l
    ensures Dh(k, j) == Dh(l, j) <==> k == l
  {
  }

  // The chaining keys before each key is derived, and the last one.
  function AfterEphemeral(k: Keys): Term { Kdf(1, INIT_CHAINING_KEY, Public(k.ei)) }
  function AfterEs(k: Keys): Term { Kdf(1, AfterEphemeral(k), Dh(k.ei, k.sr)) }
  function AfterSs(k: Keys): Term { Kdf(1, AfterEs(k), Dh(k.si, k.sr)) }
  function AfterSe(k: Keys): Term { Kdf(1, Kdf(1, Kdf(1, AfterSs(k), Public(k.er)), Dh(k.ei, k.er)), Dh(k.si, k.er)) }
  function AtEnd(k: Keys): Term { Kdf(1, AfterSe(k), k.psk) }

  function KeyNumber(k: Keys, n: nat): Term {
    match n
    case 0 => Kdf(2, AfterEphemeral(k), Dh(k.ei, k.sr))
    case 1 => Kdf(2, AfterEs(k), Dh(k.si, k.sr))
    case 2 => Kdf(3, AfterSe(k), k.psk)
    case 3 => Kdf(1, AtEnd(k), Empty)
    case _ => Kdf(2, AtEnd(k), Empty)
  }

  lemma {:induction false} KeysAre(k: Keys, timestamp: nat, n: nat)
    requires n < 5
    ensures |AllKeys(k, timestamp)| == 5 && AllKeys(k, timestamp)[n] == KeyNumber(k, n)
  {
    FinishedIs(k, timestamp);
  }

  lemma {:induction false} EarlyEqualIff(k: Keys, l: Keys)
    ensures AfterEphemeral(k) == AfterEphemeral(l) <==> k.ei == l.ei
    ensures AfterEs(k) == AfterEs(l) <==> k.ei == l.ei && k.sr == l.sr
    ensures AfterSs(k) == AfterSs(l) <==> k.ei == l.ei && k.sr == l.sr && k.si == l.si
    ensures AfterEphemeral(k) != AfterEs(l)
  {
    DhInjective(k.ei, k.sr, l.sr);
    DhInjective(k.sr, k.si, l.si);
  }

  lemma {:induction false} LateEqualIff(k: Keys, l: Keys)
    ensures AtEnd(k) == AtEnd(l) <==> k == l
    ensures AfterSe(k) == AfterSe(l) && k.psk == l.psk <==> k == l
  {
    EarlyEqualIff(k, l);
  }

  lemma {:induction false} SameNumber(k: Keys, l: Keys, n: nat)
    ensures KeyNumber(k, n) == KeyNumber(l, n) <==> SameInputs(k, l, n)
  {
    DhInjective(k.ei, k.sr, l.sr);
    DhInjective(k.sr, k.si, l.si);
    if n < 2 {
      EarlyEqualIff(k, l);
    } else {
      LateEqualIff(k, l);
    }
  }

  lemma {:induction false} OtherNumber(k: Keys, l: Keys, m: nat, n: nat)
    requires m < n < 5
    ensures KeyNumber(k, m) != KeyNumber(l, n)
  {
    EarlyEqualIff(k, l);
  }

  /** Any two keys of any two handshakes are equal if and only if they are the same key in both
      and the same secrets went in: so all keys of a handshake differ, and the session keys of
      two handshakes differ unless all static, ephemeral and preshared keys agree. */
  lemma {:induction false} KeysEqualIff(k: Keys, timestamp: nat, m: nat, l: Keys, other: nat, n: nat)
    requires m < 5 && n < 5
    ensures |AllKeys(k, timestamp)| == |AllKeys(l, other)| == 5
    ensures AllKeys(k, timestamp)[m] == AllKeys(l, other)[n] <==> m == n && SameInputs(k, l, n)
  {
    KeysAre(k, timestamp, m);
    KeysAre(l, other, n);
    if m < n {
      OtherNumber(k, l, m, n);
    } else if n < m {
      OtherNumber(l, k, n, m);
    } else {
      SameNumber(k, l, n);
    }
  }
}
