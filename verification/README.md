# A model of WireGuard's kernel module and its crypto library

This project models the algorithms at the heart of WireGuard and proves what they are for:
the allowed-IPs trie, the replay window, the Noise_IKpsk2 handshake and its keypair slots,
the parallel encryption pipeline, outgoing nonces, Poly1305, ChaCha20Poly1305, BLAKE2s, the
rate limiter, the index table, the device dump and the base64 key codec.

Code that updates structures in place is modelled by classes and methods with loops; each is
proved against a specification, and the specifications are related to independent
definitions (longest-prefix match, the set of accepted counters, RFC 8439, RFC 7693,
RFC 4648, the token lists of the Noise Protocol Framework, token buckets that are never
collected). Where such a definition works step by step, a law without steps says the same
about every byte, bit or stretch, and is proved equivalent. Protocols between threads, and the
handshake under attack, are state machines; their theorems hold for every run.

`dafny verify dfyconfig.toml` checks the whole project.

## How it is organised

| modules | subject |
|---|---|
| Wrappers, Sequences | an option type, facts about sequences, copying into a buffer |
| Prefixes, TrieModel, TriePaths, TrieHeap, TrieReaders, TrieRemoval, TrieDepth | routing tables, path-compressed tries as values, places in them, how node objects mirror them, lookups that overlap stores, and how deep the walks go |
| AllowedIps, AllowedIpsRemove, AllowedIpsWalk, AllowedIpsFree, AllowedIpsTable, StackLimits, NaiveAllowedIps, AddressBits | the trie as linked objects: lookup, insertion, removal, resumable walk, freeing, whole runs, runs that need the largest stacks, the sorted reference list, the bit arithmetic |
| ReplayWindow | the receive counter and its ring bitmap |
| NoiseTerms, NoiseTokens, NoiseHandshake, NoiseAttacker, Keypairs | the handshake over symbolic terms, the protocol as token lists, honest runs, an active attacker, the three keypair slots |
| CryptPipeline, PipelineTheorems, PipelineProgress, PipelineReceiving, SendNonces, SendLimits, SendQueue, IndexTable | protocols between threads |
| Words, Poly1305Spec, Poly1305Laws, Poly1305Field, Donna64, Donna32, Poly1305 | Poly1305 as a polynomial and in both limb representations |
| AeadSpec, AeadLaws, ChaCha20, ChaCha20Poly1305, Blake2sSpec, Blake2s | stream cipher, AEAD and hash over any block or compression function, with their laws bit by bit |
| RateLimiter, RateLimiterTable, RateLimiterRaces, RateLimiterExact | token buckets, the table of one call at a time, and concurrent packets |
| DeviceDump, Base64, Base64Bits, Base64Keys | netlink dump, key encoding |

## Assumptions

- BITS_PER_LONG is 64 and the host is little-endian. Wrap-around of 32-, 64- and 128-bit
  words is written out wherever it could occur.
- A mask of the k low bits is written as a remainder, and a right shift as a division.
- Allocation success, the clock, random numbers, what fits into a message and how a
  scatterlist is cut are parameters: the results hold for all their values.
- Locked sections, RCU publication of one pointer, `consume_initiation`, `begin_session`,
  `wg_index_hashtable_replace`, the unlocked walk over one chain of the index table or of the
  rate limiter, and one garbage collection pass are single steps. The clock never runs
  backwards, and a collection pass reads a time no earlier than any entry's.
- RateLimiterTable has one call of `wg_ratelimiter_allow` at a time. RateLimiterRaces splits
  the call into its search, charge, allocation and link, with any interleaving.
- Diffie-Hellman, HKDF, BLAKE2s and the AEAD are free term constructors in the handshake
  model, with Diffie-Hellman symmetric; the ChaCha20 block function and the BLAKE2s
  compression function are arbitrary functions in the streaming models.
- The walk stacks are sequences without a limit. The removal's stack gets exactly as high as
  the trie, the cursor's and the one that frees a trie as high as its largest comb.
  TrieDepth says exactly for which tries that is more than the 128 slots the code reserves,
  which only happens for IPv6; StackLimits has sequences of inserts that lead there.
- A C string is the sequence of its characters before the terminator. Chars may be signed
  or unsigned.

## Model

| member | source | states |
|---|---|---|
| `Prefixes.CommonBits` | src/allowedips.c:165-175 | the longest common prefix: equal up to the result, different at it |
| `Prefixes.PrefixMatchesIffAgree` | src/allowedips.c:183-184 | comparing the count of common bits with the cidr decides exactly whether the first cidr bits agree |
| `Prefixes.LongestMatchUnique` | src/allowedips.c:186-199 | the longest-prefix answer is unique in a table without contradictory entries |
| `AddressBits.XorCountsCommonBits` | src/allowedips.c:160-175 | width minus find-last-set of the exclusive or is the common prefix length, for every width |
| `AddressBits.CommonBitsOfIs` | src/allowedips.c:21-29 | through byte swapping, one 32-bit or two 64-bit loads, exclusive or and fls128, common_bits is the common prefix length of the two network-order addresses |
| `AddressBits.ChosenBitIs` | src/allowedips.c:31-44 | the precomputed byte and shift select bit number cidr of the address for both families |
| `AddressBits.Masked` | src/allowedips.c:91-99 | the reported address keeps exactly the bits inside the prefix and zeroes the others |
| `TrieModel.FindIsLongestMatch` | src/allowedips.c:186-221 | on a well-formed trie the descent returns the owner of the longest stored matching prefix |
| `TrieModel.RoutesFunctional` | src/allowedips.c:245-313 | a well-formed trie stores at most one owner per prefix |
| `TrieModel.InsertCorrect` | src/allowedips.c:245-313 | insertion keeps the trie invariant and replaces or adds exactly one route |
| `TriePaths.InsertAtPlaceCorrect` | src/allowedips.c:223-313 | splicing at the place found by the descent is that insertion, with distinct nodes |
| `TrieReaders.ReaderAcrossStore` | src/allowedips.c:186-199 | a descent that overlaps one pointer store gives the answer of the tree before or after it |
| `TrieReaders.ReaderAcrossPeer` | src/allowedips.c:186-221 | a lookup that overlaps the store of a peer into a node, and reads the peer of the node it chose afterwards, gets the answer before or after the store, or finds that very node without a peer and starts again |
| `AllowedIps.Trie.FindNode` | src/allowedips.c:186-199 | the pointer loop returns what the specification finds |
| `AllowedIps.Trie.Lookup` | src/allowedips.c:202-221 | a lookup is the longest match over the stored routes |
| `AllowedIps.Trie.NodePlacement` | src/allowedips.c:223-243 | the deepest node covering the new prefix, and whether it is that prefix itself |
| `AllowedIps.Trie.AddExact` | src/allowedips.c:265-268 | an existing prefix changes owner with one store |
| `AllowedIps.Trie.AddAbove` | src/allowedips.c:289-295 | a shorter prefix is put above what is there |
| `AllowedIps.Trie.FillGlue` | src/allowedips.c:297-305 | both subtrees hang below an unreachable glue node before it is published |
| `AllowedIps.Trie.AddGlue` | src/allowedips.c:296-311 | two prefixes that part are joined by a node without a peer |
| `AllowedIps.Trie.Add` | src/allowedips.c:245-313 | EINVAL exactly for a bad length or no peer, ENOMEM exactly when an allocation that is needed fails; on success the routes are the old ones with the new one, on failure nothing changes; after every single store, each of which is logged where it is done, readers see the old tree or the final one |
| `TriePaths.NeededIsGrowth` | src/allowedips.c:258-311 | the allocations needed are the nodes by which the trie grows: none, one or two |
| `AllowedIpsRemove.Disown` | src/allowedips.c:142-144 | clearing a peer drops exactly its route, and readers see only that |
| `AllowedIpsRemove.Unlink` | src/allowedips.c:145-150 | replacing a node without peer by its only child changes no route |
| `AllowedIpsRemove.Push` | src/allowedips.c:132-140 | the stack never has more entries than the longest path has nodes, and the walk still comes by whatever is deeper |
| `AllowedIpsRemove.RemoveByPeer` | src/allowedips.c:115-155 | terminates, removes exactly the peer's routes, keeps all others and the invariant; every intermediate tree only lost routes of that peer; the stack gets exactly as high as the trie was |
| `TrieDepth.TallIff` | src/allowedips.c:109-118 | a trie is at most width + 1 nodes high, and exactly so if and only if all prefixes of some address, from the empty one to the full one, are nodes |
| `TrieDepth.PathFitsIff` | src/allowedips.c:109-118 | the 128 slots of the removal suffice except for such a trie of width 128 |
| `StackLimits.StoreAllPrefixes` | src/allowedips.c:245-313 | inserting all prefixes of one address, of any width, builds such a trie |
| `StackLimits.RemoveNeedsMore` | src/allowedips.c:115-155 | removing any peer from it takes width + 1 slots: 129 for IPv6 |
| `TrieDepth.CombIff` | src/allowedips.c:50-57 | the cursor needs at most width + 1 slots, and exactly so if and only if all prefixes of the address of all ones are nodes and something branches off after each |
| `TrieDepth.CombFitsIff` | src/allowedips.h:22-28 | the 128 slots of the cursor suffice except for such a trie of width 128 |
| `StackLimits.StoreComb` | src/allowedips.c:245-313 | inserting all prefixes of the address of all ones, and beside each the one that branches off, builds such a trie for every width |
| `StackLimits.ListNeedsMore` | src/allowedips.c:70-106 | a listing of any peer that comes to its end takes width + 1 slots there: 129 for IPv6 |
| `AllowedIpsFree.FreeAll` | src/allowedips.c:58-68 | every node is freed exactly once, none is looked at afterwards, and the stack gets exactly as high as a listing's |
| `AllowedIpsFree.FreeOrderOnce` | src/allowedips.c:58-68 | the order of freeing has no node twice |
| `AllowedIpsWalk.ListingComplete` | src/allowedips.c:70-106 | the traversal order lists every route of the peer and nothing else |
| `AllowedIpsWalk.ListingOnce` | src/allowedips.c:70-106 | it lists no route twice |
| `AllowedIpsWalk.CombBound` | src/allowedips.c:84-89 | the cursor stack never holds more than width + 1 nodes |
| `AllowedIpsWalk.ExpandedNeed` | src/allowedips.c:87-89 | reporting a node needs the slots in use and those its children need, the left child waiting below the right |
| `AllowedIpsWalk.WalkByPeer` | src/allowedips.c:70-106 | stopped after any number of reports, what was reported and what remains make up what was due, and the largest stack so far and the one still needed make up what the trie needs |
| `AllowedIpsTable.Run` | src/allowedips.c:202-381 | after any sequence of inserts and removals every lookup is the longest match in the resulting table |
| `AllowedIpsTable.RunBoth` | src/selftest/allowedips.c:155-254 | after any inserts the trie and the sorted list answer every lookup alike |
| `AllowedIpsTable.Table.Insert` | src/allowedips.c:335-349 | one family changes by one route or not at all, the other not |
| `AllowedIpsTable.Table.Remove` | src/allowedips.c:351-358 | both families lose exactly the peer's routes |
| `AllowedIpsTable.Table.Walk` | src/allowedips.c:360-381 | a stale cursor reports nothing, any other resumes exactly where it stopped, across families |
| `AllowedIpsTable.WalkInPieces` | src/allowedips.c:360-381 | a walk cut at any points reports in its pieces the full listing in order |
| `AllowedIpsTable.FullListingOnce` | src/allowedips.c:360-381 | the full listing has each route of the peer exactly once |
| `NaiveAllowedIps.NaiveIsLongestMatch` | src/selftest/allowedips.c:220-254 | the first match in the sorted list is the longest match |
| `NaiveAllowedIps.InsertStores` | src/selftest/allowedips.c:155-182 | ordered insertion stores exactly the table after the insert |
| `NaiveAllowedIps.Naive.Insert` | src/selftest/allowedips.c:155-182 | the list loop is ordered insertion and keeps the order |
| `NaiveAllowedIps.Naive.Lookup` | src/selftest/allowedips.c:220-254 | the list loop returns the first match |
| `ReplayWindow.ReceiveCounter.Validate` | src/receive.c:301-337 | accepts n exactly when it is below the limit, new, and at most the window below the largest accepted; the ring bitmap keeps representing the accepted set, and the 64-bit additions never wrap |
| `ReplayWindow.Moved` | src/receive.c:320-328 | clearing the skipped words leaves a bitmap that represents the same accepted set in the new window |
| `ReplayWindow.Run` | src/receive.c:301-337 | over every sequence of counters the answers are those of the set of accepted counters |
| `NoiseTerms.InitiationInjective` | src/noise.c:374-437 | equal states after the first message mean equal transcripts |
| `NoiseTerms.ResponseInjective` | src/noise.c:374-437 | the ciphertext of the second message determines the whole transcript |
| `NoiseTerms.SessionKeysEqualIff` | src/noise.c:348-357 | for any two transcripts, an attacker's included: a first session key is never a second one, and otherwise they are equal if and only if the same ephemerals, shared secrets and preshared key went in |
| `NoiseTokens.FinishedIs` | src/noise.c:449-655 | transcript, messages and message keys of two honest parties are those of a machine that works off the token lists e, es, s, ss and e, ee, se, psk |
| `NoiseTokens.KeysEqualIff` | src/noise.c:348-394 | of the three message keys and two session keys of any two honest handshakes, two are equal if and only if they are the same one and the same secrets went in; for session keys these are all static, ephemeral and preshared keys, but not the timestamp |
| `NoiseHandshake.Handshake.CreateInitiation` | src/noise.c:449-515 | which states succeed, the message, and the resulting chaining key and hash |
| `NoiseHandshake.ConsumeInitiation` | src/noise.c:517-595 | accepted if and only if the sender's key opens, is known, the timestamp opens and is newer, and the flood interval has passed; then the transcript is the one the message determines |
| `NoiseHandshake.Handshake.CreateResponse` | src/noise.c:597-655 | when it succeeds, the message, and the resulting chaining key and hash |
| `NoiseHandshake.Handshake.ConsumeResponse` | src/noise.c:657-740 | accepted if and only if the ciphertext is the one the initiator recomputes; otherwise nothing changes |
| `NoiseHandshake.Handshake.ReadResponse` | src/noise.c:671-711 | the unlocked part: what is read from the snapshot, and exactly when |
| `NoiseHandshake.Handshake.CommitResponse` | src/noise.c:712-726 | the second locked part commits what was read if the state still allows it |
| `NoiseHandshake.Handshake.ConsumeResponseAcross` | src/noise.c:657-740 | whatever else happens to the handshake in between, the message is accepted if and only if it answers the initiation that was there at first and one is waiting at the end; it commits the transcript of the initiation it answers |
| `NoiseHandshake.Handshake.BeginSession` | src/noise.c:742-786 | sessions start only from the two final states, with outputs 1 and 2 of the derivation from the chaining key assigned by role; afterwards every secret of the handshake is erased |
| `NoiseHandshake.HonestRun` | src/noise.c:449-740 | two handshake objects in any state, used before or not, among any peers: with a newer timestamp after the flood interval all four steps succeed, the messages are those of the token lists, and both sides hold their chaining key and hash |
| `NoiseHandshake.HonestSessions` | src/noise.c:449-786 | then the initiator sends and the responder receives with output 1 of the derivation from that chaining key, output 2 serves the other direction, and the two differ |
| `NoiseAttacker.InvHolds` | src/noise.c:449-740 | in every run an attacker only knows terms all of whose inputs it can reach, or ciphertexts honest parties sent |
| `NoiseAttacker.ResponseKeySafe` | src/noise.c:348-394 | the session keys are reachable if and only if all four shared secrets and the preshared key are |
| `NoiseAttacker.ResponderAuthentication` | src/noise.c:657-740 | in every run, an accepted second message was sent by the responder to this initiator with the same transcript, if the preshared key, or the responder's key and one of the initiator's two keys, is secret |
| `NoiseAttacker.InitiatorAuthentication` | src/noise.c:517-595 | in every run, a readable first message was sent by its claimed sender to this responder, if both static keys are secret |
| `NoiseAttacker.SessionKeysSecret` | src/noise.c:348-357 | in every run, under the condition of responder authentication, the attacker knows neither session key |
| `NoiseAttacker.ForwardSecrecy` | src/noise.c:348-357 | in every run, with two uncorrupted ephemerals the attacker knows neither session key, whatever static and preshared keys are corrupted |
| `Keypairs.SlotsInvariant` | src/noise.c:157-270 | in every run the slots are distinct, next is responder-derived, and current was initiated here or confirmed by a packet |
| `Keypairs.DroppedForGood` | src/noise.c:157-270 | a keypair that left the slots never comes back |
| `Keypairs.TwoRotationsForget` | src/noise.c:177-270 | two rotations remove every keypair that was current or previous before, whatever happens in between |
| `Keypairs.PutSlot` | src/noise.c:137-146 | a slot gives its reference up once and unlinks the keypair |
| `Keypairs.KeypairSlots.AddInitiated` | src/noise.c:189-217 | a pending next keypair survives as previous, otherwise the current one does; all references stay accounted for |
| `Keypairs.KeypairSlots.AddResponded` | src/noise.c:218-228 | the new keypair waits in next, previous and an older next are dropped |
| `Keypairs.KeypairSlots.AddNew` | src/noise.c:177-230 | the slots change as the specification says and every reference is accounted for |
| `Keypairs.KeypairSlots.ReceivedWith` | src/noise.c:232-270 | the next keypair is confirmed if and only if both the unlocked and the locked look find it there |
| `Keypairs.KeypairSlots.ClearAll` | src/noise.c:157-175 | every slot is emptied, every keypair unlinked, and freed unless a user holds it |
| `Keypairs.KeypairSlots.Get` | src/noise.c:148-155 | a reference is refused exactly when the keypair is freed |
| `Keypairs.KeypairSlots.PutUser` | src/noise.c:137-146 | a user's last reference frees the keypair exactly when no slot holds it |
| `Keypairs.KeypairSlots.BeginSession` | src/noise.c:742-786 | success, failed allocation, dead peer and missing handshake entry, each with the resulting slots |
| `CryptPipeline.StepInv` | src/queueing.h:139-187 | every atomic action of every thread keeps the pipeline invariant; a ring may refuse before it is full |
| `PipelineTheorems.Delivery` | src/send.c:268-292 | in every interleaving batches leave in enqueue order, at most once, none is lost, and exactly the encrypted ones are sent |
| `PipelineTheorems.SentIffSucceeded` | src/send.c:268-346 | in every interleaving, of the batches that left a ring exactly those were sent for which a worker reported success |
| `PipelineTheorems.Ownership` | src/queueing.h:139-174 | a queued batch not yet encrypted has exactly one owner among enqueuer, device ring and one worker, any other none |
| `PipelineTheorems.NothingStranded` | src/send.c:268-346 | sending, no wake-up is lost: when all threads rest, all rings are empty and everything was sent or freed |
| `PipelineTheorems.AtRest` | src/receive.c:442-549 | on both sides, at rest the device ring is empty, and a peer's ring too unless its head was given up without waking the consumer |
| `PipelineReceiving.ReceivesAllIff` | src/receive.c:538-544 | receiving, with rings that refuse only when full, all runs with at most n batches the device ring refused leave nothing behind if and only if n is zero |
| `PipelineReceiving.Stranding` | src/receive.c:538-544 | for every batch a run with a full device ring that comes to rest with that batch still in its peer's ring |
| `PipelineProgress.Drains` | src/send.c:268-346 | without new batches any run is finite, with an explicit bound |
| `PipelineProgress.Progress` | src/send.c:268-346 | unless all is at rest some thread can move, on either side |
| `SendNonces.StepHeadroom` | src/send.c:377-399 | with at most MAX_SENDERS concurrent senders, the counter values from the limit on, no thread in the loop finds a 64-bit counter that has wrapped |
| `SendNonces.NoncesUnique` | src/send.c:348-421 | in every interleaving of at most that many senders no two packets handed to encryption share a nonce, and all nonces are below the limit |
| `SendLimits.UniqueIff` | src/send.c:377-399 | nonces are unique in all runs with at most n senders at once if and only if n is at most COUNTER_WINDOW_SIZE + 2 |
| `SendLimits.Reused` | src/send.c:377-399 | with one sender more there is a run in which the counter wraps and the first nonce is used again |
| `SendQueue.NothingLost` | src/send.c:348-421 | in every interleaving of any number of senders the packets ever enqueued are those staged, those held by senders and those sent, as multisets |
| `SendQueue.FailureRestores` | src/send.c:355-415 | a batch that cannot be sent returns whole and in order: unless other senders touched the queue, it is what it was, followed by the packets enqueued meanwhile |
| `SendQueue.FirstInFirstOut` | src/send.c:348-421 | with one sender at a time packets sent, held and staged are in the order of enqueueing, and nonces go up |
| `SendQueue.InvalidSendsNothing` | src/send.c:366-375 | once the key is invalid and no sender is past the test, no packet is sent and no nonce taken in any run |
| `SendQueue.BadKeyFails` | src/send.c:371-415 | a sender that finds the key invalid or expired, or no nonce left, does nothing but return its whole batch, and by then the key is invalid |
| `IndexTable.StepInv` | src/hashtables.c:107-181 | every step keeps linked entries in the bucket of their index, with distinct indices |
| `IndexTable.LookupIsMap` | src/hashtables.c:183-209 | in every run walking a bucket is looking up an abstract map from indices to entries |
| `IndexTable.StepOnMap` | src/hashtables.c:107-181 | what insertion, replacement and removal do to that map, for every index and entry |
| `Poly1305Spec.AccumulateConcat` | src/crypto/zinc/poly1305/poly1305.c:85-117 | the polynomial of a message is that of its whole blocks continued with the rest |
| `Poly1305Laws.AccumulateIs` | src/crypto/zinc/poly1305/poly1305-donna64.h:62-102 | block by block, the accumulator is c1 r^q + ... + cq r modulo p over the q blocks |
| `Poly1305Laws.PrimeIs` | src/crypto/zinc/poly1305/poly1305-donna64.h:113-182 | p is 2^130 - 5 |
| `Poly1305Laws.ClampIs` | src/crypto/zinc/poly1305/poly1305-donna64.h:24-32 | r is the first half of the key without the top four bits of bytes 3, 7, 11 and 15 and the bottom two of bytes 4, 8 and 12 |
| `Poly1305Laws.AuthenticatesIff` | src/crypto/zinc/poly1305/poly1305.c:120-136 | the tag is the one string of 16 bytes with the value of that polynomial modulo p plus the second half of the key, modulo 2^128 |
| `Donna64.State.Block` | src/crypto/zinc/poly1305/poly1305-donna64.h:62-102 | one block in 44/44/42-bit limbs is one step modulo 2^130-5; limb bounds hold again and no product or sum overflows |
| `Donna64.State.Blocks` | src/crypto/zinc/poly1305/poly1305-donna64.h:40-111 | the block loop computes the polynomial over all blocks |
| `Donna64.State.Emit` | src/crypto/zinc/poly1305/poly1305-donna64.h:113-182 | the final reduction is complete, and the result is the accumulator plus s modulo 2^128 |
| `Donna32.State.Block` | src/crypto/zinc/poly1305/poly1305-donna32.h:66-113 | the same for five 26-bit limbs and 64-bit products |
| `Donna32.State.Blocks` | src/crypto/zinc/poly1305/poly1305-donna32.h:40-122 | the block loop computes the polynomial over all blocks |
| `Donna32.State.Emit` | src/crypto/zinc/poly1305/poly1305-donna32.h:124-205 | the final reduction is complete, and the result is the accumulator plus s modulo 2^128 |
| `Poly1305.Context.Update` | src/crypto/zinc/poly1305/poly1305.c:85-117 | the bytes join the message whatever was buffered |
| `Poly1305.Context.Final` | src/crypto/zinc/poly1305/poly1305.c:120-136 | the tag of section 2.5 of RFC 8439 over everything absorbed |
| `Poly1305.Mac` | src/crypto/zinc/poly1305/poly1305.c:55-136 | for every key, message, cut into updates and limb representation the result is that tag, the value of the polynomial over the whole message |
| `AeadSpec.CryptTwice` | src/crypto/zinc/chacha20/chacha20.c:100-116 | adding the key stream twice gives the message back |
| `AeadSpec.CryptConcat` | src/crypto/zinc/chacha20/chacha20.c:100-116 | the stream may be restarted at any block boundary, with the counter modulo 2^32 |
| `AeadSpec.OpensExactlySealed` | src/crypto/zinc/chacha20poly1305.c:36-207 | a message opens to a plaintext if and only if it is the sealing of that plaintext |
| `AeadLaws.EncipheredIff` | src/crypto/zinc/chacha20/chacha20.c:100-116 | the one output whose bit j of byte i differs from the input's exactly where block c + i / 64 modulo 2^32 of the key stream has a one in bit j of byte i mod 64 |
| `AeadLaws.CoversIff` | src/crypto/zinc/chacha20poly1305.c:53-68 | the authenticated string by position: associated data, zeroes to a multiple of 16, ciphertext, zeroes, and the two lengths in this order as 64-bit words |
| `AeadLaws.TellsApartIff` | src/crypto/zinc/chacha20poly1305.c:53-68 | that string determines associated data and ciphertext of at most n bytes if and only if n is below 2^64 |
| `AeadLaws.TaggedIff` | src/crypto/zinc/chacha20poly1305.c:49-70 | the tag authenticates exactly that string, under the first 32 bytes of block zero |
| `AeadLaws.SealedIff` | src/crypto/zinc/chacha20poly1305.c:36-73 | the one message that is the plaintext enciphered from block one on, followed by that tag |
| `ChaCha20.Cipher.Generic` | src/crypto/zinc/chacha20/chacha20.c:100-116 | the block loop turns over exactly the bits where the key stream has a one, and advances the counter by the blocks used |
| `ChaCha20.Cipher.Apply` | src/crypto/zinc/chacha20/chacha20.c:118-123 | the 32-bit length parameter: only the first length modulo 2^32 bytes are enciphered, the others keep what they were |
| `ChaCha20.FlatIffShort` | src/crypto/zinc/chacha20/chacha20.c:118-123 | one call covers its input, whatever the output held, if and only if it is shorter than 2^32 bytes |
| `ChaCha20Poly1305.Encrypt` | src/crypto/zinc/chacha20poly1305.c:36-73 | which bits the flat form turns over and which string its tag authenticates, for every length, and that the result is the sealed message below 2^32 bytes |
| `ChaCha20Poly1305.EncryptIffShort` | src/crypto/zinc/chacha20poly1305.c:36-73 | the flat form seals, whatever its output buffer held, if and only if the plaintext is shorter than 2^32 bytes |
| `ChaCha20Poly1305.Decrypt` | src/crypto/zinc/chacha20poly1305.c:159-207 | succeeds if and only if the tag authenticates the string that covers the rest, what it then writes for every length, and writes nothing otherwise |
| `ChaCha20Poly1305.DecryptIffShort` | src/crypto/zinc/chacha20poly1305.c:159-207 | of a message that opens the flat form gives the plaintext, whatever its output buffer held, if and only if that is shorter than 2^32 bytes |
| `ChaCha20Poly1305.WalkChunks` | src/crypto/zinc/chacha20poly1305.c:115-138 | however the walk cuts the message, cipher and authenticator see it as if whole |
| `ChaCha20Poly1305.EncryptSg` | src/crypto/zinc/chacha20poly1305.c:89-156 | fails only with the walk; otherwise seals, bit by bit, for every length and cut |
| `ChaCha20Poly1305.DecryptSg` | src/crypto/zinc/chacha20poly1305.c:224-301 | succeeds if and only if the walk does and the tag authenticates the string that covers the rest; the message is then the sealing of the result |
| `ChaCha20Poly1305.RoundTrip` | src/crypto/zinc/chacha20poly1305.c:89-301 | any cut on one side, any cut on the other, the plaintext comes back |
| `ChaCha20Poly1305.RoundTripFlat` | src/crypto/zinc/chacha20poly1305.c:36-207 | flat on both sides the message opens, with what result, and that it is the plaintext below 2^32 bytes |
| `ChaCha20Poly1305.FlatTwiceIffShort` | src/crypto/zinc/chacha20poly1305.c:36-207 | the flat round trip gives the plaintext back, whatever both buffers held, if and only if it is shorter than 2^32 bytes |
| `ChaCha20Poly1305.RoundTripToSg` | src/crypto/zinc/chacha20poly1305.c:36-301 | sealed flat and opened in pieces, likewise |
| `ChaCha20Poly1305.FlatSealIffShort` | src/crypto/zinc/chacha20poly1305.c:36-73 | and if and only if it is shorter than 2^32 bytes |
| `ChaCha20Poly1305.RoundTripToFlat` | src/crypto/zinc/chacha20poly1305.c:89-207 | sealed in pieces and opened flat, likewise |
| `ChaCha20Poly1305.FlatOpenIffShort` | src/crypto/zinc/chacha20poly1305.c:159-207 | and if and only if it is shorter than 2^32 bytes |
| `Blake2s.Increment` | src/crypto/zinc/blake2s/blake2s.c:65-70 | the two counter words hold the exact byte count modulo 2^64 |
| `Blake2sSpec.HashesIff` | src/crypto/zinc/blake2s/blake2s.c:128-236 | the hash is the one string that spells the end of the chain of chaining values, each from the one before, its block, the two words of the byte count and the last-block flag |
| `Blake2sSpec.SpelledIff` | src/crypto/zinc/blake2s/blake2s.c:225-236 | byte 4 i + j of the output is byte j of word i |
| `Blake2sSpec.KeyedIff` | src/crypto/zinc/blake2s/blake2s.c:239-273 | HMAC by its parts: the key or its hash with zeroes behind, with the bits of 0x36 and 0x5c turned over, before the message and before the inner hash |
| `Blake2s.DigestSplit` | src/crypto/zinc/blake2s/blake2s.c:128-197 | compressing whole blocks early does not change the hash as long as a last block is held back |
| `Blake2s.State.Compress` | src/crypto/zinc/blake2s/blake2s.c:128-197 | the block loop folds the blocks and keeps the counter equal to the bytes compressed |
| `Blake2s.State.Update` | src/crypto/zinc/blake2s/blake2s.c:199-222 | the bytes join the message, and 1 to 64 bytes stay buffered once there are any |
| `Blake2s.State.Final` | src/crypto/zinc/blake2s/blake2s.c:225-236 | the hash of section 3.3 of RFC 7693 over everything absorbed |
| `Blake2s.Hash` | src/crypto/zinc/blake2s/blake2s.c:199-236 | every cut into updates gives the hash of the whole message, the end of its chain |
| `Blake2s.SwitchPads` | src/crypto/zinc/blake2s/blake2s.c:254-263 | one exclusive or turns the inner-padded key into the outer-padded one |
| `Blake2s.ComputeHmac` | src/crypto/zinc/blake2s/blake2s.c:239-273 | HMAC as RFC 2104 defines it, for keys of every length |
| `RateLimiter.MirrorsCharge` | src/ratelimiter.c:107-151 | a table without some full buckets gives the same answers and stays such a table |
| `RateLimiter.Conserved` | src/ratelimiter.c:117-125 | packets passed and tokens left never exceed a full bucket and the time elapsed |
| `RateLimiter.Bounded` | src/ratelimiter.c:35-40 | in any stretch of any history of calls that do not overlap, at most PACKETS_BURSTABLE + T / PACKET_COST packets of a source pass |
| `RateLimiter.PassesIff` | src/ratelimiter.c:117-125 | a packet that is not refused passes if and only if in every stretch up to it the packets passed and this one cost at most TOKEN_MAX and the time since the stretch began |
| `RateLimiter.FaithfulIff` | src/ratelimiter.c:107-148 | a history has the answers of the buckets if and only if its times are in order and each answer is that one |
| `RateLimiter.SteadyPasses` | src/ratelimiter.c:117-125 | a source whose packets come at least PACKET_COST apart always passes that test, whatever others send |
| `RateLimiterRaces.ChargeIff` | src/ratelimiter.c:107-128 | in every interleaving a packet charged to an entry passes if and only if every stretch of that entry's own history has room for it |
| `RateLimiterRaces.FreshIff` | src/ratelimiter.c:63-78 | a collection pass keeps, in order, exactly the entries used within the last second |
| `RateLimiterRaces.StepConserves` | src/ratelimiter.c:107-148 | each atomic step of concurrent packets: what passes and the tokens left are paid for by the tokens before, the time, and three kinds of race |
| `RateLimiterRaces.RunConserves` | src/ratelimiter.c:107-148 | the same over every stretch of every interleaving |
| `RateLimiterRaces.BoundedWithRaces` | src/ratelimiter.c:85-153 | in every interleaving at most PACKETS_BURSTABLE for a source and again for every entry linked beside a visible one, one for every packet on an entry already collected, and (T + delays between stamp and link) / PACKET_COST pass |
| `RateLimiterExact.KeptIff` | src/ratelimiter.c:107-148 | the bound of one bucket holds in all interleavings if and only if none of the three races happens: no double entry, no packet on a collected entry, no delay between stamp and link |
| `RateLimiterExact.BoundReached` | src/ratelimiter.c:107-148 | first packets of one source on n + 1 threads: n double entries, and in no time as many packets pass as the bound allows, for every n |
| `RateLimiterExact.DoubleExceeds` | src/ratelimiter.c:130-148 | from any state in which a search has missed while the source has an entry with a packet left, six packets pass in no time |
| `RateLimiterExact.StrayExceeds` | src/ratelimiter.c:107-128 | from any state in which the entry a packet found has been collected, six packets pass in no time |
| `RateLimiterExact.LateExceeds` | src/ratelimiter.c:143-147 | from any state in which an entry waits to be linked after its stamp, six packets pass before the time for the sixth has gone by |
| `RateLimiter.FindKept` | src/ratelimiter.c:63-78 | sweeping a chain removes exactly the stale entries |
| `RateLimiterTable.Limiter.Allow` | src/ratelimiter.c:85-153 | for calls that do not overlap, refused exactly when the source is new and the table full or memory short, and otherwise allowed if and only if every stretch of the history has room for the packet |
| `RateLimiterTable.Limiter.Collect` | src/ratelimiter.c:55-83 | removes exactly the entries idle for over a second, and no later answer changes |
| `RateLimiterTable.Limiter.FreeOne` | src/ratelimiter.c:42-47 | total_entries counts linked entries and those waiting to be freed |
| `DeviceDump.GetPeer` | src/netlink.c:102-171 | a peer that does not fit leaves nothing, or a fragment and a cursor that together lose nothing |
| `DeviceDump.DumpMessage` | src/netlink.c:298-319 | after each message the fragments sent add up to the complete peers and the part of the next one, and a message with any room makes progress |
| `DeviceDump.Dump` | src/netlink.c:242-342 | a finished dump adds up to every peer with its whole listing, in order, and it finishes within an explicit number of messages |
| `DeviceDump.UserDevice.Coalesce` | src/tools/ipc.c:868-888 | fragments of equal keys are merged in order; a null pointer is followed if and only if a fragment without addresses has one with some before it and any after it |
| `DeviceDump.FollowsNull` | src/tools/ipc.c:877-883 | three fragments of one peer, the middle one empty: a null pointer is followed |
| `DeviceDump.DumpAndCoalesce` | src/tools/ipc.c:868-888 | however the dump is cut into messages user space ends up with every peer once and all its addresses in order |
| `Base64.EncodeCharIsAlphabet` | src/tools/encoding.c:11-22 | the branch-free formula is the alphabet of RFC 4648 |
| `Base64.DecodeCharIsPosition` | src/tools/encoding.c:35-48 | the branch-free formula is the position in the alphabet, or minus one, for all 256 characters |
| `Base64.GroupInverts` | src/tools/encoding.c:11-48 | four characters decode to three bytes if and only if those encode to them |
| `Base64.EncodeThree` | src/tools/encoding.c:11-22 | the loop encodes the four 6-bit groups of 24 bits |
| `Base64Keys.KeyToBase64` | src/tools/encoding.c:24-33 | the encoding of section 4 of RFC 4648: character i stands for bits 6 i to 6 i + 5 of the key, with zero unused bits and one pad character |
| `Base64Keys.SpelledIff` | src/tools/encoding.c:24-33 | exactly one string stands for the bits of a key in this way |
| `Base64Keys.CanonicalIffEncoding` | src/tools/encoding.c:50-72 | a string passes all tests and decodes to a key if and only if it is that key's encoding |
| `Base64Keys.KeyFromBase64` | src/tools/encoding.c:50-72 | accepts exactly the encodings of keys, and returns the key |
| `Base64Keys.RoundTrip` | src/tools/encoding.c:24-72 | every key survives encoding and decoding |

## Left out

- Curve25519 field arithmetic: machine-generated or assembly code; Diffie-Hellman is symbolic.
- SIMD and assembly variants, the ChaCha20 rounds and the BLAKE2s rounds: straight-line code behind a function parameter.
- XChaCha20Poly1305 and HChaCha20: the same construction with a derived key, would add only easy members.
- The byte strings of HKDF (kdf in src/noise.c): the handshake model uses it as a free constructor.
- RCU grace periods, lock primitives and reference counting of peers, hence lookup's retry on a peer that is being freed.
- Timers, the cookie protocol, retransmission and key expiry: single-branch rules around clock reads.
- sk_buff handling, sockets, routing, device setup, netlink attribute encoding, command-line parsing and printing.
- Output buffers of the cipher and hash are values: writing a ciphertext over its own plaintext in place is not modelled.
- PipelineTheorems.AtRest: receiving, a batch that leaves as decrypted goes on to counter validation, and a poll that has used up its budget goes on as the same run of the loop; the work item that the refusing path queues has no function and is taken to wake nobody.
- Interrupting a garbage collection pass: a pass is one step, so entries used while it is under way are not modelled.
- RateLimiterTable.Limiter.Allow: one call at a time; calls that overlap are the subject of RateLimiterRaces, where the refusal of a new source may happen at any time.
- IndexTable.LookupIsMap: the unlocked walk over one chain is one step; a walk that overlaps changes of its chain is not modelled.
- TrieReaders.ReaderAcrossPeer: one store overlaps the lookup; a lookup that overlaps several is not modelled.
- NoiseAttacker.ResponderAuthentication: holds for perfect cryptography over symbolic terms, not for bit strings.
- NoiseAttacker.InitiatorAuthentication: says that the message was sent, not how often it was received; the timestamp and flood tests are stated by ConsumeInitiation.
- DeviceDump.GetPeer: the walk cursor is the number of addresses already reported; that the real cursor resumes there is stated by AllowedIpsTable.Table.Walk.
- DeviceDump.DumpAndCoalesce: requires that an allowed address fits into an empty message; then no continuation is empty.
- SendQueue.NothingLost: packets that the device drops before enqueueing when more than 128 are staged, and purges of the queue, are not modelled.
- SendNonces.NoncesUnique: one sending key; a thread that finds another current key is not among its senders.
- PipelineTheorems.Delivery: a batch that the peer's ring has no room for is dropped by its enqueuer and never enters.
- Base64.DecodeFour: the loop over four characters is written out.
