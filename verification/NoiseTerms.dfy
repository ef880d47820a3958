/** Symbolic cryptography for Noise_IKpsk2: byte strings are terms, hash, key derivation and
    authenticated encryption are free constructors, and Diffie-Hellman is symmetric. */
module NoiseTerms {
  import opened Wrappers

  datatype Term =
    | Data(n: nat)                                  // public bytes: constants, timestamps
    | Empty                                         // zero-length input
    | Private(k: nat)                               // a Curve25519 secret
    | Public(k: nat)                                // its public key
    | LowOrder                                      // a point curve25519() refuses
    | Shared(j: nat, k: nat)                        // curve25519 of two key pairs, j <= k
    | SharedPoint(k: nat, point: Term)              // curve25519 with bytes that are no key of ours
    | Psk(id: nat)                                  // a preshared key
    | Hash(first: Term, second: Term)               // BLAKE2s of a concatenation
    | Kdf(out: nat, ck: Term, data: Term)           // the out-th output of HKDF
    | Aead(key: Term, plain: Term, ad: Term)        // ChaCha20Poly1305 with nonce 0

  /** curve25519: fails on a point of low order, and is symmetric between two key pairs. */
  function Curve(private: nat, point: Term): Option<Term> {
    match point
    case LowOrder => None
    case Public(j) => Some(if j <= private then Shared(j, private) else Shared(private, j))
    case _ => Some(SharedPoint(private, point))
  }

  /** chacha20poly1305_decrypt: only the same key and associated data open a ciphertext. */
  function Open(key: Term, cipher: Term, ad: Term): Option<Term> {
    if cipher.Aead? && cipher.key == key && cipher.ad == ad then Some(cipher.plain) else None
  }

  /** The chaining key and the transcript hash. */
  datatype Symmetric = Symmetric(ck: Term, hash: Term)

  const INIT_CHAINING_KEY: Term := Data(0)
  const INIT_HASH: Term := Data(1)

  /** handshake_init. */
  function Start(responderStatic: Term): Symmetric {
    Symmetric(INIT_CHAINING_KEY, Hash(INIT_HASH, responderStatic))
  }

  /** message_ephemeral. */
  function MixEphemeral(y: Symmetric, e: Term): Symmetric { Symmetric(Kdf(1, y.ck, e), Hash(y.hash, e)) }

  /** The chaining key after mix_dh; the message key is output 2 of the same derivation. */
  function MixKey(y: Symmetric, dh: Term): Symmetric { y.(ck := Kdf(1, y.ck, dh)) }

  function MixHash(y: Symmetric, t: Term): Symmetric { y.(hash := Hash(y.hash, t)) }

  function MixPsk(y: Symmetric, psk: Term): Symmetric {
    Symmetric(Kdf(1, y.ck, psk), Hash(y.hash, Kdf(2, y.ck, psk)))
  }

  // ------------------------------------------------------------ transcripts

  /** Everything that goes into the state after the first message, in order: the
      responder's static key, the ephemeral, es, the encrypted static, ss, the encrypted
      timestamp. */
  datatype Initiation = Initiation(responder: Term, e: Term, es: Term, encStatic: Term, ss: Term, encTimestamp: Term)

  function AfterE(i: Initiation): Symmetric { MixEphemeral(Start(i.responder), i.e) }
  function StaticKey(i: Initiation): Term { Kdf(2, AfterE(i).ck, i.es) }
  function AfterStatic(i: Initiation): Symmetric { MixHash(MixKey(AfterE(i), i.es), i.encStatic) }
  function TimestampKey(i: Initiation): Term { Kdf(2, AfterStatic(i).ck, i.ss) }
  function AfterInitiation(i: Initiation): Symmetric { MixHash(MixKey(AfterStatic(i), i.ss), i.encTimestamp) }

  /** The second message: the responder's ephemeral, ee, se and the preshared key. */
  datatype Response = Response(e: Term, ee: Term, se: Term, psk: Term)

  function BeforePsk(y: Symmetric, r: Response): Symmetric { MixKey(MixKey(MixEphemeral(y, r.e), r.ee), r.se) }
  function AfterPsk(y: Symmetric, r: Response): Symmetric { MixPsk(BeforePsk(y, r), r.psk) }
  function NothingKey(y: Symmetric, r: Response): Term { Kdf(3, BeforePsk(y, r).ck, r.psk) }
  function EncNothing(y: Symmetric, r: Response): Term { Aead(NothingKey(y, r), Empty, AfterPsk(y, r).hash) }
  function AfterResponse(y: Symmetric, r: Response): Symmetric { MixHash(AfterPsk(y, r), EncNothing(y, r)) }

  /** derive_keys. */
  function FirstKey(y: Symmetric): Term { Kdf(1, y.ck, Empty) }
  function SecondKey(y: Symmetric): Term { Kdf(2, y.ck, Empty) }

  /** The transcript an honest initiator with static key `s` and ephemeral `e` builds. */
  function HonestInitiation(s: nat, e: nat, responder: Term, es: Term, ss: Term, timestamp: nat): Initiation {
    var i0 := Initiation(responder, Public(e), es, Empty, ss, Empty);
    var i1 := i0.(encStatic := Aead(StaticKey(i0), Public(s), AfterE(i0).hash));
    i1.(encTimestamp := Aead(TimestampKey(i1), Data(timestamp), AfterStatic(i1).hash))
  }

  /** Equal states after the first message mean equal transcripts. */
  lemma InitiationInjective(i: Initiation, j: Initiation)
    requires AfterInitiation(i) == AfterInitiation(j)
    ensures i == j
  {
  }

  /** The key and associated data of the second message determine the whole transcript. */
  lemma ResponseInjective(y: Symmetric, r: Response, z: Symmetric, s: Response)
    requires EncNothing(y, r) == EncNothing(z, s)
    ensures y == z && r == s
  {
  }

  /** The session keys of two transcripts: never the first of one and the second of another, and
      otherwise equal if and only if the same ephemerals, shared secrets and preshared key went
      in.  What only goes into the hash does not matter. */
  lemma SessionKeysEqualIff(i: Initiation, r: Response, j: Initiation, q: Response)
    ensures var y, z := AfterResponse(AfterInitiation(i), r), AfterResponse(AfterInitiation(j), q);
            var same := i.e == j.e && i.es == j.es && i.ss == j.ss && r == q;
            (FirstKey(y) == FirstKey(z) <==> same) && (SecondKey(y) == SecondKey(z) <==> same) && FirstKey(y) != SecondKey(z)
  {
  }
}
