# Verification of signature-escrow

A Dafny model of the parts of signature-escrow that keep state or do arithmetic, with proofs about
every run, every interleaving or every input of them.

The service lets two parties swap withdrawal signatures fairly. Each party deposits a *flower* (its own
key and hash, and the signature its partner needs) under a shared id; the server checks the two flowers
crosswise and releases both signatures or neither. Around that sit the client's "one co-sign per swap"
guard, the Ethereum form of an MPC signature, pairs and mailboxes with their indexes, sessions, login
nonces, time-locked signatures, ERC-20 transactions, and the file tree that stores it all.

| file | part |
|---|---|
| `Escrow`, `EscrowLaws`, `EscrowReplies`, `EscrowThreads` | the exchange: handlers, guarantees over sequential runs, what every reply means, any number of concurrent handlers |
| `Curve`, `CurveInstance`, `Ecdsa`, `Mpccmp`, `Validation` | curve algebra, ECDSA, signature bytes and low-s normalisation, the server's check |
| `Swap`, `SwapInstance` | the exchange and the signatures together; signatures that verify in small lawful groups |
| `Cosign`, `CosignThreads`, `CosignRuns` | the co-sign history and the guard, under concurrent accepts; runs that reach the guard's bounds |
| `FileTree`, `FileTreeLaws` | the directory tree as a map from paths |
| `Index`, `Pairing`, `PairingLaws`, `Mailbox`, `MailboxLaws` | stores with per-address indexes, with handlers that may stop between writes |
| `Session`, `Nonce`, `Timebox` | registries that forget or wait, against the full history |
| `Erc20`, `Tx` | calldata and transactions |
| `Bytes`, `Strings`, `Wrappers` | big-endian numbers, Go string operations, results |

## How to read the model

- Objects the source updates in place are classes. Each method is proved equal to a function of the old
  state, and the guarantees are proved about that function, over whole runs.
- Concurrency is a state machine over handler steps. A schedule is any sequence of actions; an action that
  is not possible (a taken lock) leaves the state alone. The locks are part of the state: taking one,
  each read and write under it, and giving it back are separate steps. Positions such as `at`, `adm` and `from`, the traces,
  and who set a busy mark are written down for the proofs and never consulted by a step.
- A handler that may stop between storage operations is a list of writes, of which any prefix may happen.
- Clock readings, randomness (the name of a temporary file, fresh when it is picked), request fields, storage failures and the two signature libraries are
  parameters. The curve is a record of operations under the laws of a group with compressed points
  (sections 2.3.3, 2.3.4 and 4.1.6 of SEC 1 v2.0); `CurveInstance` has groups that obey them.
- Storage encodings are taken as faithful. Escrow, pairs, mailbox and timebox are separate maps; in the code they
  share one key space, so this is for escrow ids outside the other stores' prefixes.
- Strings are ASCII where the source lowercases or folds case.

## Findings

- A re-post may change a slot's hash, though not its algorithm, which the key's length fixes. So a completed
  exchange can become incomplete again. For ECDSA it stays complete exactly when the two hashes are the same scalar
  (`EcdsaRepost`), so either party can take any completed ECDSA exchange back (`RepostUncompletes`);
  `RepostCanUncomplete` is such a run.
- A poll with a key that is in neither slot is told "complete" with an empty signature (`StrangerPollIsEmpty`).
- docs-site/docs/escrow-swap.md says a party co-signs at most once per swap. The code forgets: a swap is
  completed twice across a clear (`TwiceAcrossClear`) and, without one, after 200 further records
  (`TwiceAfterTwoHundred`). `GuardDecision` says exactly when the guard refuses.
- Clearing the co-sign history takes no lock. A clear between a handler's load of the history and its write is
  undone by the write (`ClearUndone`, `LostClear`). A clear sticks exactly when no later write had loaded the
  history before it (`ClearOutcome`).
- The display of a transaction hides things. Its kind, chain id, tip cap, access list, blobs and signature values are
  never shown (`RestHidden`). A native value sent along with an ERC-20 transfer is not shown
  (`NativeValueHidden`), nor are the 12 padding bytes of its recipient; and calldata that is not exactly a 68-byte
  transfer is not shown at all, so a transfer with bytes added behind it reads as an empty send
  (`PaddedTransferHidden`). `ShownAlike` says exactly what two transactions that look alike may differ in.
- The r in the Ethereum signature is the x coordinate of R without reduction, so recovery gives the signer
  exactly when that coordinate is a non-zero scalar (`EthBytesRecoverSigner`); `RecoveryNeedsSmallX` has a
  verifying signature on either side of the condition.
- A pair creation that stopped after one or two of its three writes is not repaired by creating the pair
  again, because the second call finds the record and returns (`InterruptedCreate`).
- The partner of a pair is not checked. With an underscore in it, any two callers can create pairs that share an id
  and nothing else (`UnderscorePairs`); without underscores that never happens (`PairIDUnordered`).
- Two messages of one sender to one recipient in the same nanosecond are both confirmed and the first is lost
  (`SameInstantOverwrites`). `SendAppends` says exactly when a send appends to what the recipient sees.
- Two storage keys clash exactly when one's file has the path of a directory of the other, which takes a segment
  that starts with an underscore. The second put is refused (`PutAfterRun`). When it is refused at the rename,
  its temporary file stays and is read back under another key (`FailedPutLeavesKey`, `ClashRun`).
- A delete leaves empty directories behind when its key has an empty or "." segment with at least two proper ones
  before the last such segment, as in "a/b//c" or "a/b/", and nobody else needs them. A key that begins with such
  segments can lose the storage root instead. `DeleteLeaves` says exactly what stays, `DeleteKeepsExact` when
  nothing does that should not, and `PutDeleteLeavesEmpty` is the condition for a put and a delete from the empty store.

## Model

| member | source | states |
|---|---|---|
| `Escrow.Pollination.Add` | server/escrow.go:61-95 | the two-slot scan and the free-slot rule give exactly the slots or the refusal of the value function that the exchange laws are about; a refusal changes nothing |
| `Escrow.Server.Escrow` | server/escrow.go:226-295 | a deposit's new store and reply, with the storage failing at the read, at the write or not at all |
| `Escrow.Server.EscrowCheck` | server/escrow.go:313-365 | a poll's reply from one read of the store: pending, forbidden to anyone but the slot's depositor, or the opposite signature |
| `EscrowReplies.DepositAnswers` | server/escrow.go:270-293 | over every run, an accepted deposit is answered pending for the first flower of an id; else with the other party's signature exactly when the validator accepts both cross-signatures, with a validation failure exactly when it fails on one, and pending otherwise |
| `EscrowReplies.DepositDecision` | server/escrow.go:61-95 | over every run, exactly which deposits are refused and for which of the four reasons; a refusal changes nothing, an acceptance puts the flower in a slot and changes nothing else |
| `EscrowReplies.PollAnswers` | server/escrow.go:327-363 | over every run, a poll is pending until both flowers are there, forbidden exactly for a key in someone else's slot, and otherwise releases the opposite signature exactly when both cross-signatures validate |
| `EscrowReplies.FaultsChangeNothing` | server/escrow.go:242-268 | a storage error is reported only for a failing read or write and changes nothing; a poll never writes |
| `EscrowReplies.LegacySlotIsClaimed` | server/escrow.go:64-77 | a slot without a depositor goes to whoever re-posts its key without changing a signature |
| `EscrowReplies.LegacySlotDoesNotBlock` | server/escrow.go:79-95 | a slot without a depositor refuses a new key only when both slots are taken |
| `EscrowReplies.LegacyPollIsOpen` | server/escrow.go:338-346 | a key whose slot has no depositor may be polled by anyone |
| `EscrowLaws.RunKeeps` | server/escrow.go:61-95 | along every run slots keep their key, algorithm and depositor, keep a non-empty signature, and the two slots never share a key or a depositor |
| `Validation.KeyHasOneAlgorithm` | server/timebox.go:84-101 | no key is valid for two algorithms |
| `EscrowLaws.NoFlowerLost` | server/escrow.go:236-294 | every accepted deposit is still in its slot at the end of any run |
| `EscrowLaws.OneSignatureOneReceiver` | server/escrow.go:277-291 | over a whole run one (id, pub) yields one non-empty signature, to one caller |
| `EscrowLaws.StoredWasDeposited` | server/escrow.go:61-95 | every stored flower was deposited under that id, and accepted, earlier in the run |
| `EscrowLaws.ReleaseHasItsDeposits` | server/escrow.go:271-291 | every release is preceded by, or is, an accepted deposit of that key by that caller, and by an accepted deposit of the released signature by the other party; each signature validates for the other's terms |
| `EscrowLaws.ReceiverIsFirstDepositor` | server/escrow.go:338-363 | the receiver had its deposit of the key accepted, and everyone whose deposit of the key was ever accepted is the receiver |
| `EscrowLaws.SettledSlots` | server/escrow.go:61-95 | two accepted deposits whose hashes no accepted deposit changed are exactly what is stored, whoever else deposited |
| `EscrowLaws.AllOrNothing` | server/escrow.go:37-59 | with both slots filled, each depositor's own poll releases if and only if the other's does, exactly when both cross-signatures validate, and releases the opposite signature |
| `EscrowLaws.ReleaseValidates` | server/escrow.go:271-291 | a released signature validates under the receiver's own algorithm, key and hash |
| `EscrowLaws.StrangerPollIsEmpty` | server/escrow.go:353-363 | a poll of a complete exchange gets the empty signature exactly when its key is in neither slot |
| `EscrowLaws.CompleteAfterRepost` | server/escrow.go:64-77 | for any validator, a complete exchange takes only re-posts and stays complete exactly when the partner's signature still serves the re-posted flower; the same hash suffices |
| `EscrowLaws.CompleteStays` | server/escrow.go:61-95 | once complete, complete for the rest of any run whose accepted deposits change no slot's hash, whatever is refused |
| `EscrowLaws.DepositsConfluent` | server/escrow.go:61-95 | any order and repetition of two parties' fixed deposits is accepted throughout; the store depends only on who came first and whether both came |
| `EscrowLaws.ConfluentOutcome` | server/escrow.go:242-293 | with both present the slots are the two flowers up to order, complete exactly when the cross-signatures validate |
| `EscrowThreads.Linearizable` | server/escrow.go:236-294 | for any interleaving of deposit handlers and lock-free polls, the store and every reply are those of one sequential order, deposits in lock order |
| `EscrowThreads.RealTimeOrder` | server/escrow.go:239-240 | a handler that replied before another began comes before it in that order |
| `EscrowThreads.MutualExclusion` | server/escrow.go:239-240 | at most one deposit is between taking and releasing the mutex |
| `EscrowThreads.NoDeadlock` | server/escrow.go:239-240 | while a handler is unfinished some handler can move |
| `EscrowThreads.NoFlowerLostConcurrently` | server/escrow.go:236-238 | no concurrent deposit clobbers an accepted flower |
| `EscrowThreads.OneSignatureConcurrently` | server/escrow.go:277-291 | one signature and one receiver per (id, pub) across all interleavings |
| `EscrowThreads.AllOrNothingConcurrently` | server/escrow.go:348-363 | all-or-nothing release in every reachable state of the concurrent system |
| `EscrowThreads.CompleteStaysConcurrently` | server/escrow.go:61-95 | once complete, complete under every further interleaving whose accepted deposits change no slot's hash |
| `Mpccmp.SigEthereum` | mpc/mpccmp/cmp.go:139-175 | the in-place negation, buffer shift and parity rewrite leave the low-s signature in place and return its r, s, v bytes; an error only for the point at infinity |
| `Mpccmp.NormalizeKeepsValidity` | mpc/mpccmp/cmp.go:139-175 | the signature left in place verifies under exactly the same keys and messages |
| `Mpccmp.NormalFormIsUnique` | mpc/mpccmp/cmp.go:140-144 | the final s is below half the order, a second call changes nothing, and two signatures share a normal form exactly when equal or mirrored |
| `Mpccmp.EthBytesRecoverSigner` | mpc/mpccmp/cmp.go:159-174 | for every signature verifying under X the returned bytes recover exactly X, if and only if x(R) is a non-zero scalar without reduction |
| `SwapInstance.RecoveryNeedsSmallX` | mpc/mpccmp/cmp.go:159-174 | two lawful groups with one verifying signature: its bytes recover the signer in the group with x(R) below the order, and nothing in the group with x(R) above it |
| `Mpccmp.NormalizeKeepsRecovery` | mpc/mpccmp/cmp.go:159-174 | public-key recovery gives the same result before and after, for every signature |
| `Mpccmp.EthBytesIsRotation` | mpc/mpccmp/cmp.go:155-167 | the r, s, v bytes are the GetSigByte form rotated by one byte with the prefix minus 2 |
| `Mpccmp.SigBytesRoundTrip` | mpc/mpccmp/utils.go:79-103 | FromSigByte undoes GetSigByte on every well-formed signature |
| `Mpccmp.SigBytesCanonical` | mpc/mpccmp/utils.go:94-103 | only 65-byte strings parse, and GetSigByte gives one back exactly when its prefix is 2 or 3 |
| `Validation.AcceptedSignatureVerifies` | validation/validation.go:29-49 | an accepted ECDSA signature is 65 bytes, parses, and satisfies S*R = e*G + r*X |
| `Validation.AcceptedExactly` | validation/validation.go:29-56 | exactly what is accepted: for ECDSA 65 parsing bytes, a decoding key, a non-zero s and S*R = e*G + r*X with e the hash's first 32 bytes; for FROST what the library accepts; nothing for any other algorithm |
| `SwapInstance.SignatureAccepted` | validation/validation.go:29-49 | a key, hash and signature the server accepts, in either group |
| `Swap.AcceptedForOneScalar` | validation/validation.go:29-49 | an accepted ECDSA signature is accepted for another hash exactly when the two hashes are the same scalar |
| `Validation.EmptyNeverAccepted` | validation/validation.go:32-34 | no algorithm accepts the empty signature, if and only if the Schnorr library does not |
| `Validation.VerdictAroundSigEthereum` | client/withdrawal.go:415-425 | escrow bytes captured before or after SigEthereum get the same verdict for every key and hash |
| `Swap.SwapIsFair` | server/escrow.go:214-365 | in any interleaving with any other deposits and polls: once both sides' deposits are accepted, and while no accepted deposit changes their hashes, both parties' polls release exactly when both signatures satisfy the curve equation, each its own |
| `Swap.ReleaseIsSigned` | server/escrow.go:271-291 | in any interleaving a released signature parses and satisfies the curve equation for a key and hash the receiver itself deposited, and the receiver's signature does for the other party |
| `Swap.EcdsaRepost` | server/escrow.go:64-77 | a re-post to a complete ECDSA exchange is ECDSA again, and the exchange stays complete exactly when the re-posted hash is the same scalar |
| `Swap.RepostUncompletes` | server/escrow.go:64-77 | for every complete ECDSA exchange and either party there is an accepted re-post with a 32-byte hash that takes completion back |
| `Swap.TakeBackRun` | server/escrow.go:66-76 | whenever two sides have verifying signatures there is a run of three accepted deposits, with keys of 33 and hashes of 32 bytes, that completes and is taken back |
| `SwapInstance.RepostCanUncomplete` | server/escrow.go:66-76 | such a run with the server's own validator in a concrete group |
| `Swap.ReleasedSignatureBroadcasts` | client/sig.go:49-54 | the released bytes parse to the signature and their Ethereum form recovers the withdrawing key |
| `Cosign.Client.RecordCosign` | client/cosign_history.go:63-82 | newest first, cut at 200 |
| `Cosign.Client.CompleteCosign` | client/cosign_history.go:98-114 | the in-place loop completes exactly the awaited initiator events and reports whether there was one |
| `Cosign.Client.Admit` | client/withdrawal.go:288-311 | the busy test, the scan loop and the busy mark give the decision the concurrent guard is built on, and mark exactly an admitted swap |
| `Cosign.DecisionMeans` | client/withdrawal.go:288-311 | exactly which accepts pass and which are in progress, in terms of the busy marks and the events' role, status and escrow id |
| `Cosign.FinishContent` | client/cosign_history.go:101-108 | an initiator's event with the hash, not broadcast yet, becomes completed with the signature and keeps its other fields; every other event stays |
| `Cosign.FinishKeepsAcceptors` | client/cosign_history.go:101-108 | acceptor events keep their place and content, so the guard decides alike before and after |
| `CosignThreads.OneAcceptInProgress` | client/withdrawal.go:288-317 | with lock, busy test, history load, mark, unlock and the deferred release as separate steps, in all interleavings at most one accept of a non-empty escrow id is past its guard and not released |
| `CosignThreads.BusyMeansInProgress` | client/withdrawal.go:290-316 | the busy marks are exactly the swaps with such an accept |
| `CosignThreads.LocksExclude` | client/withdrawal.go:289-316 | at most one handler holds cosignMu, and at most one holds histMu |
| `CosignThreads.NoDeadlock` | client/withdrawal.go:289-316 | while a handler is not over some handler can move |
| `CosignRuns.GuardIsAdmit` | client/withdrawal.go:288-311 | the guard's steps without interruption decide and mark as the guard in one call |
| `CosignThreads.WithoutIdPasses` | client/withdrawal.go:288-288 | an accept without an escrow id is never held up or refused, and marks nothing |
| `CosignThreads.BusyIsRefused` | client/withdrawal.go:290-297 | a busy swap is refused; otherwise the guard loads the history as it is then |
| `CosignThreads.OnlyEcdsaRecords` | client/withdrawal.go:407-439 | only a successful ECDSA signing goes on to the history |
| `CosignThreads.AcceptRecords` | client/withdrawal.go:433-439 | the record of an accept is a completed acceptor event with its hash, signature and escrow id, put before the loaded list, cut at 200 |
| `CosignThreads.SecondAcceptNeedsForgetting` | client/withdrawal.go:433-439 | a second completed ECDSA accept of a swap takes 200 records, or a clear that has stuck, between the first record and the history load in the second one's guard |
| `CosignThreads.GuardDecision` | client/withdrawal.go:296-309 | in every run, an accept that found its swap idle is refused exactly when, at its load of the history, a completed accept of the swap had fewer than 200 records and no clear that stuck after it |
| `CosignThreads.StoredAt` | client/cosign_history.go:70-81 | an event with fewer than 200 records and no stuck clear after it is stored at the index that counts those records |
| `CosignThreads.StoredFrom` | client/cosign_history.go:70-81 | everything stored is such an event |
| `CosignThreads.ClearOutcome` | client/cosign_history.go:139-144 | at the first write after a clear, by a record or by completeCosign, nothing older is stored if the history was loaded after the clear, and all that was stored at the load is back if it was loaded before |
| `CosignRuns.ClearUndone` | client/cosign_history.go:139-144 | from any reachable state, a clear between a handler's load and its write leaves the same stored list as no clear; it stands exactly when the handler has nothing to write |
| `CosignRuns.LostClear` | client/cosign_history.go:139-144 | a run to the end in which a clear is lost: both the earlier accept and the later note are stored |
| `CosignRuns.TwiceAcrossClear` | client/withdrawal.go:288-317 | a run that completes one swap twice, across a clear |
| `CosignRuns.TwiceAfterTwoHundred` | client/cosign_history.go:74-76 | a run without a clear that completes one swap twice, with 200 records in between |
| `FileTree.FileBackend.PutInternal` | storage/file/file.go:215-275 | directories, temporary file, rename: the entry is written, or the put fails and changes nothing, or it fails at the rename and leaves the temporary file |
| `FileTree.FileBackend.GetInternal` | storage/file/file.go:158-201 | a read of any key returns the entry, nothing, or an error, and drops a blank file |
| `FileTree.FileBackend.DeleteInternal` | storage/file/file.go:84-110 | a delete of any key removes the file and prunes upward, or fails and changes nothing |
| `FileTree.FileBackend.CleanupLogicalPath` | storage/file/file.go:112-144 | the downward-counting loop is the recursive pruning |
| `FileTreeLaws.TreeRefinesMap` | storage/file/file.go:84-144 | after any run of puts of any keys and harmless deletes the tree holds exactly the entries of a map from paths that refuses clashes, and exactly the directories they need |
| `FileTreeLaws.DeleteLeaves` | storage/file/file.go:84-144 | exactly what a delete of any key leaves of such a tree: the other entries, what they need, and the first directories of the key's path up to where the loop stops |
| `FileTreeLaws.DeleteKeepsExact` | storage/file/file.go:112-144 | a delete keeps the tree exact if and only if it is harmless: what is left of the path is needed, and the root is not lost |
| `FileTreeLaws.CanonicalIsHarmless` | storage/file/file.go:112-144 | a delete of a key without empty or "." segments is harmless |
| `FileTreeLaws.PutDeleteLeavesEmpty` | storage/file/file.go:84-144 | for every key without "..", a put and a delete from the empty store leave an empty directory besides the root exactly when the last segment that is not proper has two proper ones before it |
| `FileTreeLaws.PutAfterRun` | storage/file/file.go:215-262 | a put succeeds exactly when its key has no ".." and clashes with no entry: no entry's file is a directory of it and its file is no directory of an entry |
| `FileTreeLaws.DeleteAfterRun` | storage/file/file.go:84-110 | exactly when a delete succeeds |
| `FileTreeLaws.DeleteSeenElsewhere` | storage/file/file.go:84-144 | a delete changes no read of another path, but that a path which clashed with the deleted entry alone reads as absent instead of failing |
| `FileTreeLaws.DeletedIsGone` | storage/file/file.go:84-110 | the deleted key reads as absent |
| `FileTreeLaws.KeysAreApart` | storage/file/file.go:343-348 | distinct canonical keys are distinct paths |
| `FileTreeLaws.ReadsAreWrites` | storage/file/file.go:158-275 | along any run of any keys a read returns the value last written under its path, or an error, or nothing |
| `FileTreeLaws.BlankReadsAsAbsent` | storage/file/file.go:166-172 | a blank file reads as absent, and the read drops it and nothing else |
| `FileTreeLaws.GetAfterRun` | storage/file/file.go:158-201 | after such a run every read of any key returns the map's value, or an error for ".." or a clash, and changes nothing |
| `FileTreeLaws.PlainNamesApart` | storage/file/file.go:343-348 | paths without a segment that starts with an underscore never clash |
| `FileTreeLaws.FailedPutLeavesKey` | storage/file/file.go:231-260 | a put refused because a directory has its file's name stores its value under the key of the temporary name |
| `FileTreeLaws.ClashRun` | storage/file/file.go:231-260 | a run of two puts of which the second clashes, fails, and is read back under the temporary name |
| `FileTreeLaws.TrailingSlashLeavesDirectory` | storage/file/file.go:112-127 | for every key of two or more segments and a trailing slash, put and delete leave an empty directory |
| `FileTreeLaws.TreeIsCanonical` | storage/file/file.go:112-144 | two such runs with the same map leave the same tree |
| `FileTreeLaws.NoEmptyDirectory` | storage/file/file.go:129-140 | after such a run no directory but the root is empty |
| `FileTreeLaws.PruneAlive` | storage/file/file.go:112-144 | the pruning loop on a dead path removes exactly the directories that hold no remaining entry, down to the last segment that is not proper |
| `FileTreeLaws.KeyFileInjective` | storage/file/file.go:343-348 | distinct paths are kept in distinct files |
| `Index.AddToIndex` | server/pairing.go:115-140 | the id is appended unless the search loop finds it |
| `Index.RemoveFromIndex` | server/mailbox.go:91-121 | the filter loop keeps the other ids in order; an empty list is dropped |
| `Index.StaysTidy` | server/mailbox.go:105-120 | lists stay free of duplicates and are never stored empty |
| `Pairing.PairServer.StorePair` | server/pairing.go:69-88 | record, initiator's index, partner's index, in that order |
| `Pairing.PairServer.DeletePair` | server/pairing.go:105-113 | both index entries, then the record |
| `Pairing.PairServer.PairCreate` | server/pairing.go:171-232 | refuses an empty or equal partner, returns an existing pair, else stores a pending one |
| `Pairing.PairServer.PairAccept` | server/pairing.go:250-311 | only the partner accepts; accepting again changes nothing |
| `Pairing.PairServer.PairDelete` | server/pairing.go:374-410 | only a member deletes; an absent pair counts as deleted |
| `Pairing.PairServer.PairPending` | server/pairing.go:324-354 | the indexed pairs that have a record, split by role |
| `PairingLaws.PairIDUnordered` | server/pairing.go:60-67 | two strings without underscores name the id of another two exactly when they are the same two in either order, up to case and "0x" |
| `PairingLaws.AddressPairs` | server/pairing.go:60-67 | on lowercase addresses two ids agree exactly when the unordered pairs do |
| `PairingLaws.UnderscorePairs` | server/pairing.go:192-217 | for every two addresses of one length there are partners under which they create pairs that share an id and nothing else |
| `PairingLaws.AlwaysConsistent` | server/pairing.go:69-140 | wherever handlers stop, every indexed id has a record with that address as a member, and lists stay tidy |
| `PairingLaws.CreateStores` | server/pairing.go:171-232 | from any reachable store, a create without a partner, with oneself or of an existing pair changes nothing; any other stores a pending pair with the caller as initiator and lists it last under the two addresses and no other |
| `PairingLaws.AcceptStores` | server/pairing.go:250-311 | from any reachable store, the partner's accept marks the pair accepted and changes nothing else; anyone else's changes nothing |
| `PairingLaws.DeleteRemoves` | server/pairing.go:374-410 | from any reachable store, a member's delete removes the record and every listing of the pair and nothing else; anyone else's changes nothing |
| `PairingLaws.InterruptedDelete` | server/pairing.go:105-113 | a delete stopped anywhere and repeated by either member leaves the store of an uninterrupted one |
| `PairingLaws.InterruptedCreate` | server/pairing.go:194-221 | repeating a stopped create completes the store exactly when it had written nothing or everything |
| `PairingLaws.PendingIsExact` | server/pairing.go:324-354 | in crash-free runs exactly the caller's pairs are listed, each once, incoming and outgoing exactly by role |
| `PairingLaws.CreateFindsOwnPair` | server/pairing.go:192-217 | after any crash-free run and a create of two strings without underscores, the record under the id is a pair of exactly those two, up to case and "0x" |
| `Mailbox.MailServer.MailboxSend` | server/mailbox.go:154-214 | a send between members of the pair writes the record, then the index; any other is refused |
| `Mailbox.MailServer.MailboxAck` | server/mailbox.go:266-302 | only the recipient acks; the record goes, then the index entry |
| `Mailbox.MailServer.MailboxPending` | server/mailbox.go:227-248 | the indexed messages that have a record, in order |
| `MailboxLaws.MessageIDInjective` | server/mailbox.go:47-53 | without underscores two ids agree exactly when sender and recipient, up to case and "0x", and timestamp do |
| `MailboxLaws.FreshMeansApart` | server/mailbox.go:193-195 | the ids of a run's written messages are distinct exactly when no two of them agree in sender, recipient and nanosecond |
| `MailboxLaws.SameInstantOverwrites` | server/mailbox.go:193-214 | two such sends, whole and allowed, leave only the second message |
| `MailboxLaws.SendAppends` | server/mailbox.go:55-66 | from any reachable store, a whole send appends its message to what the recipient sees exactly when its id is not in the recipient's index, or was left there by a stopped ack with nothing visible behind it |
| `MailboxLaws.SendStores` | server/mailbox.go:154-214 | from any reachable store, a send is stored exactly when recipient, pair id and kind are given and both ends are members of the pair; the record has the request's fields, and no other record or list changes |
| `MailboxLaws.AckTakes` | server/mailbox.go:266-302 | from any reachable store, an ack removes a record exactly when the caller is its recipient, and changes nothing otherwise |
| `MailboxLaws.AckSeen` | server/mailbox.go:290-297 | the recipient's ack takes the message out of what anyone sees, nobody else's does, and no other message goes |
| `MailboxLaws.RecordIsSilent` | server/mailbox.go:61-63 | writing a fresh record shows nothing to anyone |
| `MailboxLaws.IndexDelivers` | server/mailbox.go:65-65 | writing its index entry appends it for its recipient and shows nothing to others |
| `MailboxLaws.RecordDeleteTakes` | server/mailbox.go:84-86 | deleting the record takes the message out of every view |
| `MailboxLaws.IndexCleanupIsSilent` | server/mailbox.go:88-121 | removing the dangling index entry shows nothing to anyone |
| `MailboxLaws.ViewIsInbox` | server/mailbox.go:227-248 | after any run of sends and acks, each stopped anywhere, in which the written messages have distinct ids, every recipient sees exactly the abstract ordered inbox |
| `Session.SessionRegistry.Prune` | server/session.go:28-35 | deleting while iterating leaves exactly the entries within 15 minutes |
| `Session.SessionRegistry.Claim` | server/session.go:37-46 | a claim fails on a kept cancel, else stamps |
| `Session.SessionRegistry.Cancel` | server/session.go:48-57 | a cancel fails on a kept claim, else stamps |
| `Session.RegistryIsHistory` | server/session.go:28-57 | every answer is the full-history one: failure exactly when the last success on the id was of the other kind and within 15 minutes of the prune reading |
| `Session.ClaimAndCancelApart` | server/session.go:37-57 | a successful claim and a successful cancel of one id are more than 15 minutes apart |
| `Nonce.NonceStore.Generate` | auth/nonce.go:32-48 | the lowercased address gets the nonce with a five-minute expiry |
| `Nonce.NonceStore.Verify` | auth/nonce.go:50-67 | the entry is consumed whatever the answer |
| `Nonce.NonceStore.Cleanup` | auth/nonce.go:69-79 | exactly the unexpired entries stay |
| `Nonce.StoreIsHistory` | auth/nonce.go:50-67 | a verify succeeds exactly when the latest generate or verify on the address is a generate of that nonce, not past its expiry |
| `Nonce.CleanupUnobservable` | auth/nonce.go:69-79 | a verify answers as in the run without its cleanups |
| `Nonce.SuccessesBounded` | auth/nonce.go:32-67 | successful verifies never exceed generates, per address |
| `Strings.FoldsAlike` | server/pairing.go:60-67 | two strings are taken for the same address exactly when they agree letter by letter, whatever the case |
| `Strings.LowerLowers` | auth/nonce.go:42-54 | a lowered address has no capital letter and is the same address |
| `Timebox.TimeboxServer.TimeboxPost` | server/timebox.go:110-205 | a post is stored exactly when it parses, a member posts it and it validates |
| `Timebox.TimeboxServer.TimeboxGet` | server/timebox.go:224-288 | malformed, absent, refused, invalid, not ready with the seconds left, or the signature |
| `Timebox.PostIsStored` | server/timebox.go:111-196 | exactly which posts are stored: a key of its algorithm's form, a 32-byte hash, 1 to 128 signature bytes that validate, by a member of a pair that exists then |
| `Timebox.PostBecomesEntry` | server/timebox.go:187-204 | a stored post is the entry of its key, available one hour after its creation |
| `Timebox.GetAnswers` | server/timebox.go:246-288 | every answer from the latest stored post: none, refused to non-members, invalid for another hash, not ready with the seconds left of the hour, or its signature |
| `Timebox.EntryIsLatestPost` | server/timebox.go:192-196 | the stored entry of a key is its latest accepted post |
| `Timebox.SignatureReleased` | server/timebox.go:246-287 | a reply carries a signature exactly when it is the latest stored post for the key, at least an hour old, valid for the asked hash, asked by a current member of its pair |
| `Timebox.StoredEntriesValidate` | server/timebox.go:171-196 | every stored entry is well-formed and valid under its own key and hash |
| `Erc20.DecodeERC20Transfer` | client/erc20.go:31-44 | length test and selector loop decide exactly whether it is a transfer |
| `Erc20.TransferRoundTrip` | client/erc20.go:21-44 | for every address and natural amount decoding the calldata gives both back exactly when the amount is below 2^256, and fails otherwise |
| `Erc20.TransferLayout` | client/erc20.go:21-29 | the calldata byte for byte: selector, 12 zero bytes, the address, the amount as 32 bytes |
| `Erc20.TransferReencoded` | client/erc20.go:31-44 | re-encoding a decoded calldata gives it back exactly when its 12 padding bytes are zero |
| `Tx.Build` | client/tx.go:135-152 | which requests build; the transaction sends the amount to the recipient without calldata, or calls the token contract with no value and the calldata of a transfer of the amount to the recipient; gas defaults and 64-bit wrap included |
| `Tx.DecodeTx` | client/tx.go:232-257 | the fields shown for a transaction, overwritten for an ERC-20 transfer |
| `Tx.ShowsFields` | client/tx.go:241-257 | nonce, gas and price are shown as they are; calldata is a transfer exactly with 68 bytes and the selector, and then recipient, value and token are its own, else the transaction's |
| `Tx.ShownIsRequested` | client/tx.go:249-257 | showing a built transaction reports the request's recipient, amount, token and gas, for every native and token request |
| `Tx.ShownFromBytes` | client/tx.go:159-163 | the same, and the whole display, through any marshalling that can be undone on representable transactions |
| `Tx.ShownAlike` | client/tx.go:232-257 | two transactions of any kind shown alike are equal exactly when the parts no display has agree and, as ERC-20 transfers, native value and padding agree, and otherwise their calldata agrees |
| `Tx.RestHidden` | client/tx.go:232-257 | a built transaction is shown as the same transaction with any other kind, chain id, tip cap, access list, blobs and signature values |
| `Tx.NativeValueHidden` | client/tx.go:252-257 | every transfer with a native value is shown as the transfer without it |
| `Tx.PaddedTransferHidden` | client/tx.go:241-257 | every transfer with bytes added behind it is shown as a send of nothing with empty calldata |

## Left out

- HTTP, JSON and hex parsing, routes, CORS, configuration, generated code: plumbing without state.
- CBOR, JSON files, AES-GCM, JWT, EIP-191 recovery, RLP: libraries; taken as faithful encodings or parameters.
- The CMP and FROST protocols, the gRPC and NATS relay, chain RPC and broadcasting: their meaning is in other systems.
- Runs over legacy flowers without a depositor: the exchange laws are for runs whose deposits carry a non-empty address, as the authentication layer supplies; for empty depositors each single deposit and poll is decided.
- The FROST accept records no history event, so for it only the in-progress half of the guard is proved.
- Presignature rotation and its single use: it holds only if operations are serialised.
- Concurrent pair and mailbox handlers: they share no mutex, so each is taken as non-overlapping.
- Runs with deletes that are not harmless: what they store and read is proved, which stray directories add up over several of them is not.
- Storage failures in the co-sign history: the code ignores them, and a record that is not written is not seen by the guard; the laws are for writes that succeed.
- A failed storage write in the escrow is taken to change nothing; other stores have no failing writes besides stops between them.
- Point decoding of the curve library for prefixes other than 2 and 3: both behaviours are covered, as a parameter.
- Exchange and alias lists, account listings, owner binding, listing of file keys: simple code that would add only easy members.
