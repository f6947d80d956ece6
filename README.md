# HotStuff: threshold-signature bookkeeping and the Twins network simulator

This project models two parts of a HotStuff consensus library in Dafny.

**ECDSA threshold signatures** (`ecdsa.dfy`, module `Ecdsa`) cover:
- partial signatures `(r, s, signer)` and their byte encoding: minimal big-endian `r` followed by minimal big-endian `s`;
- threshold signatures, which are maps from signer ID to partial signature;
- restoring a threshold signature from a list of partials;
- the deterministic encoding of a threshold signature, built by sorted insertion of the signers;
- signing, and verifying one partial against the roster of public keys;
- aggregating candidate partials into a threshold signature, with duplicate, wrong-type and not-a-quorum errors;
- the quorum check on a threshold signature.

The ECDSA primitive, the roster, the verifier registered with the module system and the quorum size are parameters.

**The Twins network** (`twins.dfy`, module `Twins`) covers:
- a registry of nodes, where a replica ID may run on several nodes (its twins);
- a per-view partition schedule that decides which messages are delivered;
- liveness tracking of nodes that time out twice in the same view (hung nodes), with the all-hung signal;
- the configuration through which one node sends, broadcasts and fetches blocks.

The modules each node runs are kept as state of the network:
- its view, from the synchronizer;
- its event queue, from the event loop;
- its block store, from the blockchain.

`hotstuff.dfy` holds the shared types (replica ID, view, byte, hash). `wrappers.dfy` holds `Option` and `Result`.

Go's randomised map iteration is modelled as an arbitrary choice (`:|`) from the keys not yet visited. The results are stated so that they do not depend on that order.

## Model

| member | source | states |
|---|---|---|
| Ecdsa.BigEndian | crypto/ecdsa/ecdsa.go:53-54 | the encoding of an integer (`big.Int.Bytes`) is empty exactly for 0 and never starts with a zero byte |
| Ecdsa.Signature.ToBytes | crypto/ecdsa/ecdsa.go:51-56 | the bytes are exactly as long as the two minimal encodings together, and empty only when both `r` and `s` are 0 |
| Ecdsa.AnySignature.Signer | crypto/ecdsa/ecdsa.go:36-38 | the signer of an ECDSA partial is the one recorded in it; a signature of another scheme reports its own signer |
| Ecdsa.BigEndianRoundTrip | crypto/ecdsa/ecdsa.go:53-54 | decoding the big-endian bytes of `n` gives back `n` |
| Ecdsa.FromBigEndianRoundTrip | crypto/ecdsa/ecdsa.go:53-54 | every byte string without a leading zero is the encoding of the number it denotes, so the encoding is onto the minimal strings |
| Ecdsa.SignatureBytesSplit | crypto/ecdsa/ecdsa.go:51-56 | splitting `Signature.ToBytes` at the length of `r`'s encoding and decoding each half recovers `r` and `s` |
| Ecdsa.SignatureBytesAmbiguous | crypto/ecdsa/ecdsa.go:51-56 | without that split point the encoding is ambiguous: (257, 1) and (1, 257) give the same bytes |
| Ecdsa.Sign | crypto/ecdsa/ecdsa.go:137-147 | a signature is produced exactly when the primitive succeeds; it carries that (r, s) and the signing replica's own ID, and an error of the primitive is passed on unchanged |
| Ecdsa.Verify | crypto/ecdsa/ecdsa.go:150-162 | a foreign signature or an unknown signer is rejected; for an ECDSA partial from a signer in the roster, the verdict is exactly the primitive's verdict on its (r, s) under that signer's key |
| Ecdsa.Participants | crypto/ecdsa/ecdsa.go:92-94 | the participants are exactly the IDs that `Contains` reports |
| Ecdsa.Contains | crypto/ecdsa/ecdsa.go:102-105 | for a threshold signature whose partials are filed under their own signers, `id` is contained exactly when some partial was signed by `id` |
| Ecdsa.RestoreThresholdSignature | crypto/ecdsa/ecdsa.go:66-72 | the key set is exactly the set of input signers, each key maps to a partial by that signer, and a repeated signer keeps its last occurrence |
| Ecdsa.RestoreOrderIndependent | crypto/ecdsa/ecdsa.go:66-72 | partials with distinct signers restore to the same threshold signature in whatever order they are listed |
| Ecdsa.SearchInsertPosition | crypto/ecdsa/ecdsa.go:80 | on a sorted list, the binary search returns the first position whose ID is greater than `x`: every earlier ID is at most `x` and every later one is greater |
| Ecdsa.SortedSigners | crypto/ecdsa/ecdsa.go:78-84 | whenever no two partials share a signer, the insertion loop yields a strictly ascending list that holds exactly the partials' signers, once each, for any iteration order |
| Ecdsa.SignersListKeys | crypto/ecdsa/ecdsa.go:78-87 | when the signers are also keys, that list holds exactly the keys, so every lookup at line 86 finds a partial |
| Ecdsa.EncodeInOrder | crypto/ecdsa/ecdsa.go:85-87 | the second loop appends the partial under each listed key, in list order |
| Ecdsa.WellFormedPermutesKeys | crypto/ecdsa/ecdsa.go:66-72 | a map that files every partial under its own signer, as both constructors build, has its signers as a permutation of its keys |
| Ecdsa.AscendingIsSorted | crypto/ecdsa/ecdsa.go:77-84 | a strictly ascending list of a set of signers is unique: it is the sorted list of that set |
| Ecdsa.EncodingOrderIndependent | crypto/ecdsa/ecdsa.go:85-88 | concatenating the partials' bytes along any strictly ascending list of exactly the signers gives the ascending-order encoding |
| Ecdsa.ThresholdToBytes | crypto/ecdsa/ecdsa.go:75-89 | whenever the partials' signers are a permutation of the keys, the encoding is each partial's bytes once, in ascending key order (signer order for a well-formed map), whatever order the map is visited in |
| Ecdsa.SwappedPartialsEncodeByKey | crypto/ecdsa/ecdsa.go:75-89 | a map with the partial by 2 under key 1 and the partial by 1 under key 2 is not well-formed, yet is encoded once each, key 1's partial first |
| Ecdsa.RestoredEncodingOrderIndependent | crypto/ecdsa/ecdsa.go:66-89 | two lists of the same distinct-signer partials, in any order, restore to threshold signatures with identical encodings |
| Ecdsa.AcceptedSignersMembers | crypto/ecdsa/ecdsa.go:166-184 | a signer is accepted exactly when some ECDSA partial by it was accepted by the registered verifier |
| Ecdsa.AcceptedSignersBound | crypto/ecdsa/ecdsa.go:166-184 | no more signers are accepted than there are inputs |
| Ecdsa.ErrorClassification | crypto/ecdsa/ecdsa.go:167-177 | an input records a duplicate error exactly when its signer was already accepted (checked before the type); otherwise a wrong-type error exactly when it is not an ECDSA partial; a failed verification records nothing |
| Ecdsa.KeepFirstAcceptedStep | crypto/ecdsa/ecdsa.go:179-183 | adding a verified partial whose signer is new keeps the property that every entry is the first accepted partial of its signer |
| Ecdsa.CreateThresholdSignature | crypto/ecdsa/ecdsa.go:165-191 | succeeds exactly when the accepted signers reach the quorum; then the map's keys are the accepted signers, each holds the first verified partial of its signer, and its size is at most the input length; otherwise the error is not-a-quorum followed by the accumulated duplicate and wrong-type errors in input order |
| Ecdsa.RepeatedSignerIsDuplicate | crypto/ecdsa/ecdsa.go:168-171 | a later input from a signer whose earlier partial was accepted is reported as a duplicate, whatever its type |
| Ecdsa.DistinctValidPartialsAllAccepted | crypto/ecdsa/ecdsa.go:166-184 | when all partials verify and their signers are distinct, every one of them is accepted |
| Ecdsa.AcceptedSignersKnown | crypto/ecdsa/ecdsa.go:155-159 | with the roster-based `Verify` as the registered verifier, only signers in the roster are ever accepted |
| Ecdsa.VerifyThresholdSignature | crypto/ecdsa/ecdsa.go:194-215 | true exactly for an ECDSA threshold signature that passes the size gate and has at least a quorum of keys whose partial the verifier accepts (entries, not distinct signers); when the type or size gate fails, no partial is verified, and otherwise each partial is verified once |
| Ecdsa.SizeGateRedundant | crypto/ecdsa/ecdsa.go:199-214 | a quorum of verified keys implies the size gate, so the gate only saves work |
| Ecdsa.WellFormedVerifiedKeysAreSigners | crypto/ecdsa/ecdsa.go:203-214 | for a map that files every partial under its own signer, the verified keys are exactly the distinct signers whose partials verify, so the count is a quorum of valid signatures |
| Ecdsa.OnePartialUnderThreeKeys | crypto/ecdsa/ecdsa.go:199-214 | one partial by replica 1 filed under keys 1, 2 and 3 passes the size gate and counts three verified keys for a quorum of 3, although its signers are just {1} |
| Ecdsa.CreatedSignatureVerifies | crypto/ecdsa/ecdsa.go:165-215 | a threshold signature built by aggregation with at least a quorum of entries passes the quorum check under the same verifier |
| Twins.Contains | twins/network.go:230-233 | `v` is a member exactly when adding it leaves the set unchanged |
| Twins.Add | twins/network.go:226-233 | after adding `v` the set contains `v`, and every other membership is unchanged |
| Twins.Reachable | twins/network.go:92-99 | the partition scan finds a match exactly when some partition contains both sender and receiver |
| Twins.ReachableOrderIndependent | twins/network.go:92-99 | listing a view's partitions in another order does not change the outcome of the scan |
| Twins.Network.constructor | twins/network.go:38-47 | a new network has no nodes or replicas, empty liveness state, the given schedule, and a consistent registry |
| Twins.Network.Timeout | twins/network.go:53-74 | the liveness state after a timeout is the timeout step applied to the state before; the registry and the nodes' modules are untouched |
| Twins.TimeoutStep | twins/network.go:53-74 | a timeout changes only the entries of the reporting node (its hung flag and recorded view), and raises the close count of the all-hung channel by at most one |
| Twins.TimeoutCases | twins/network.go:57-73 | repeating the recorded view marks the node hung and leaves the recorded views as they were; an older view changes nothing; otherwise, including a node's first timeout, the view is recorded and the node is no longer hung |
| Twins.AllHungCloseCondition | twins/network.go:59-63 | the all-hung channel is closed only on a repeat of the recorded view that leaves as many hung nodes as registered nodes, and at most once per call |
| Twins.LastTimeoutsNeverDecrease | twins/network.go:67-72 | a recorded timeout view is never forgotten and never lowered |
| Twins.HungNodesHaveTimedOut | twins/network.go:57-73 | a timeout of a registered node keeps every hung node registered and with a recorded timeout |
| Twins.UnregisteredTimeoutsSignalAllHung | twins/network.go:53-63 | `timeout` never checks the node against the registered nodes: in a network whose only node is (1,10), two view-5 timeouts of (9,90) close the all-hung channel while (1,10) is not hung |
| Twins.AllHungMeansEveryNodeHung | twins/network.go:61 | comparing sizes is enough: hung registered nodes as many as the registered nodes means every node is hung |
| Twins.TimeoutTwiceMarksHung | twins/network.go:57-72 | two timeouts in a row at the same view, with no newer view recorded, leave the node hung |
| Twins.HungSetNotMonotone | twins/network.go:72-73 | a hung node that times out in a later view leaves the hung set |
| Twins.SourceClosesAllHungTwice | twins/network.go:59-63 | in a one-node network, three timeouts of node (2,20) in view 3 close the all-hung channel twice |
| Twins.TimeoutOnceStep | twins/network.go:59-63 | with the one-shot guard, the all-hung channel is never closed more than once |
| Twins.GuardedRunMatchesSource | twins/network.go:53-74 | over any sequence of timeouts the guarded version keeps the same recorded views and hung set as the code, and fires the all-hung signal once exactly when the code fires it at all |
| Twins.Network.ShouldDrop | twins/network.go:78-100 | a message from a sender whose view lies beyond the schedule is dropped; within the schedule it is delivered exactly when some partition of the sender's view holds both nodes; the sender must be registered and in view 1 or later |
| Twins.PartitionExample | twins/network.go:78-99 | with the view-1 schedule [{(1,10),(2,20)}, {(1,11)}], (1,10) reaches (2,20), (1,11) does not, and a sender in view 2 reaches no one |
| Twins.AppendedUnion | twins/network.go:107-111 | delivering a message to two disjoint groups one after the other is the same as delivering it to both at once |
| Twins.Configuration.SendMessage | twins/network.go:113-130 | the message is appended to the queue of exactly those twins of the replica that are not dropped from the sender; every other queue is unchanged; the replica must be registered |
| Twins.Configuration.BroadcastMessage | twins/network.go:107-111 | the message is appended once to the queue of every registered node not dropped from the sender, whatever order the replicas are visited in |
| Twins.Configuration.Propose | twins/network.go:166-168 | a proposal is broadcast to every node not dropped from the sender |
| Twins.Configuration.Timeout | twins/network.go:171-173 | a timeout message is broadcast to every node not dropped from the sender |
| Twins.Configuration.Vote | twins/network.go:209-214 | the vote, tagged with the sender's replica ID, reaches exactly the non-dropped twins of the target replica |
| Twins.Configuration.NewView | twins/network.go:217-222 | the sync info, tagged with the sender's replica ID, reaches exactly the non-dropped twins of the target replica |
| Twins.Configuration.Fetch | twins/network.go:176-189 | a block returned is the one stored under the hash by some node not dropped from the requester; nothing is returned exactly when no such node holds the hash |
| Twins.Configuration.Replicas | twins/network.go:133-142 | the handles are keyed by exactly the registered replica IDs, each handle naming its own ID |
| Twins.Configuration.Replica | twins/network.go:145-153 | a handle is returned exactly when the ID is registered, and it names that ID |
| Twins.Configuration.Len | twins/network.go:156-158 | in a consistent registry, the number of distinct replica IDs among the registered nodes, so a replica and its twins count once (the count the quorum size is computed from) |
| Twins.Configuration.ReplicaId | twins/network.go:199-201 | the ID read from the replica's first node is the replica's own ID |

## Left out

- The ECDSA primitive (`ecdsa.Sign`, `ecdsa.Verify`), the random source and the public-key type assertions are foreign library calls. Verification is a function parameter, and `Sign` takes the primitive's outcome as a parameter.
- The roster lookup (`Config().Replica`, `PublicKey`) is a map from ID to public key. The registered verifier (`Crypto().Verify`) is a function parameter; it may be the roster-based `Verify` or a cache in front of it.
- The quorum size (`QuorumSize`, both the configuration method and the library formula it calls) is a parameter. The formula is not part of this model.
- In `VerifyThresholdSignature`, the goroutines and the result channel are modelled as a sequential count. The count does not depend on the order the results arrive in.
- Ecdsa.VerifyThresholdSignature: like the code, it counts map entries whose partial verifies, not distinct signers, and never checks that a partial is filed under its own signer. A map holding one replica's partial under several keys can pass a quorum (Ecdsa.OnePartialUnderThreeKeys). Only a hand-built map reaches this: both constructors file each partial under its own signer, and for such maps the count is one per distinct signer (Ecdsa.WellFormedVerifiedKeysAreSigners).
- `multierr` composition is modelled as a sequence of error kinds (not-a-quorum, duplicate, wrong-type). The `%T` type name in the wrong-type message is not kept.
- Ecdsa.ThresholdToBytes: it requires the partials' signers to be a permutation of the keys. That covers the well-formed maps both constructors build and maps whose partials are filed under each other's keys (Ecdsa.SwappedPartialsEncodeByKey). Other maps are only reachable by building one by hand. For them the source misbehaves in one of two ways, neither of which is modelled:
  - if a partial's signer is not a key, looking that signer up yields a nil partial and encoding it panics;
  - if two keys hold partials by the same signer, that signer is listed twice, so one partial is encoded twice and the other never.
- `ThresholdSignature.Add`, which only panics, `ForEach`, the module wiring (`InitModule`, `New`) and the PEM file-type constants are not modelled.
- `big.Int` values are modelled as naturals. Negative `r` or `s` do not occur in ECDSA signatures, and `Bytes` drops the sign.
- The mutex around `timeout` and the `allHung` channel are not modelled. `timeout` is one atomic method, and the channel is a counter of `close` calls, so a second close (a runtime panic in Go) is visible as a count of 2. `WaitUntilHung`, which only blocks on the channel, is not modelled.
- Twins.Network.ShouldDrop: a sender view of 0 (which makes the source index the schedule at -1 and panic) is excluded by its precondition. Views so large that `int(view - 1)` turns negative are not modelled either.
- The setup code that fills `Nodes` and `Replicas` is outside this file. The registry consistency it establishes is the predicate `Network.Valid`, which the configuration's operations require: every registered node has a view, block store and event queue, and each replica lists its registered nodes once each.
- Twins.Configuration.Vote and Twins.Configuration.NewView tag the message with the sending node's replica ID. The source reads the ID from the node's modules. The setup code outside this file builds each node's modules with the replica ID of its NodeID, and the model relies on that instead of keeping module IDs as separate state.
- Message payloads (blocks, certificates, sync info) are opaque naturals, and a stored block is a byte string. `PublicKey` of a replica handle (a foreign call on a private key) and the logger are not modelled.
- The event queues live in a separate `EventLoops` object, one map for all nodes. `SendMessage` builds the new queue map in a local variable and stores it once, so the model does not capture the order in which the individual queues are updated within one send.
- The mock configuration in internal/mocks/consensus_mock.go is generated code without logic and is not part of this model.
- NodeID's `uint32` network ID is an unbounded natural; nothing in the code does arithmetic on it.
- Twins.AllHungMeansEveryNodeHung: the size comparison at twins/network.go:61 means "every node is hung" only when only registered nodes time out. `timeout` does not check the node against `Nodes`, so an unregistered node can fill the count (Twins.UnregisteredTimeoutsSignalAllHung). The model, like the code, does not exclude this case.
- One might expect the hung set only to grow and the all-hung signal to fire once. The code removes a node from the hung set when it times out in a newer view (Twins.HungSetNotMonotone), and can close the channel again (see Findings). The model follows the code.

## Findings

| source | as written | input that shows it | evidently intended | confidence | as-written member | corrected member |
|---|---|---|---|---|---|---|
| twins/network.go:59-63 | every timeout that repeats the recorded view while all nodes are hung closes `allHung` again | a network with the single node (2,20): `timeout((2,20), 3)` three times; the second call closes the channel, the third closes it again, which panics in Go | the all-hung signal fires once and later calls leave it alone | not executed | Twins.SourceClosesAllHungTwice | Twins.GuardedRunMatchesSource |
