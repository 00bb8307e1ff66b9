# Verified model of the node's session, receive and relay logic

A Dafny model of the parts of the node where state, concurrency and untrusted input meet: the
epoch ratchet between two peers, the shard spool and the codes around it, tamper isolation, the
reorder buffer, onion and carrier forwarding, the beacon codec, the peer tables, the replay window
and the per-message key chain, the stream pump, the request reader, the spectrum scanner and the
icon file. `dafny verify dfyconfig.toml` checks all of it.

## How it is built

* Code that changes an object in place is a class (`Session`, `ShardSpool`, `RxState`,
  `CarrierNode`, `PeerTables`, `SessionGuard`, `Worker`, `MessageChain`) whose methods are proved
  against functions of the old state. Loops are methods with invariants. What runs and protocols
  promise is proved as lemmas about those functions.
* Concurrency is a state machine over atomic accesses. In `RatchetLink` every access to the busy
  flag, the slot of the step in flight and the ratchet is one step, because each has its own lock and
  every frame its own task; every payload ever sent may be delivered at any later time, any number of
  times or never. In `SpoolTasks` the bucket write and the bucket removal, and in `MsgTasks` the plan
  and the commit of an opened frame, are separate steps of any number of tasks.
* Keys are free terms (`Root`, `Step(prev, xi, xr)`) and a confirmation tag is the key it is computed
  from. Ciphers are parameters: `Framing` needs only that what is sealed opens, `TamperIsolation`
  that nothing but the sealed text opens, `ReplayGuard` nothing at all. The erasure code is any
  parity that can be undone in each argument; exclusive or is shown to be one.
* A byte is a natural number below 256, counters are natural numbers, and the truncating 16-bit
  casts, the 32-bit fields and the shifted-out window bits are written out.

| module | what it is about |
|---|---|
| `Ratchet`, `RatchetCalls`, `RatchetLink` | one session's ratchet; its calls as sequences of accesses; two of them over a hostile network, access by access, and when they agree |
| `RatchetSplit`, `RatchetLocked` | what each unguarded access can do, with the runs that show it; what one lock per session would give |
| `RatchetProgress` | when the link moves on and when it is stuck |
| `ErasureCode`, `Spool`, `SpoolTasks` | the 2+1 code, buckets by generation, concurrent receive tasks |
| `Framing`, `TamperIsolation` | the path of a payload through prefix, seal, split, datagrams and any two shards; which shard was altered |
| `Reorder`, `ReplayGuard` | delivery in counter order; the replay window and the open path in front of it |
| `MsgChain`, `MsgTasks`, `MsgReseed` | the per-message key chain; receive tasks planning and committing on it; a chain replaced under them |
| `Relay`, `Relaying`, `Carrier` | the relay envelope, onion routes, the test mesh's source routes |
| `Beacon`, `PeerTable`, `Pump`, `HttpReader`, `Whitespace`, `Ico` | the codecs, tables and loops around them |

## What does not hold of the code

The code is modelled as it is. Each of these has its exact condition, or a run or input that shows it.

* **The two ends of a link can hold two keys for one epoch.** The accesses of one call on a session can
  be separated by those of another task, and four things are not looked at again. The theorems about
  all runs (`EpochsAgree`, `OneKeyPerEpoch`, `CrossedStepsNeverBothComplete`) are about the runs in
  which each of them still holds when it matters, and for each of them there is the converse:
  * the tie-break does not see a step that has left its slot to be finished: admitting the other
    end's step in flight is safe exactly when no step of our own is being finished
    (`AdmissionSafeIff`; the run is `CrossedFinishSplits`);
  * a finish is applied to whatever root is there: the ends agree afterwards exactly when it is
    still the root that was previewed (`ApplyAgreesIff`; `DoubleFinishBreaks`);
  * a frame is opened under a prepared key and the *number* of that epoch is activated later: the
    ends agree exactly when that key is still the prepared one (`InstallAgreesIff`; `LateInstallSplits`);
  * the busy flag is stored apart from the step it stands for: on a level link with no finish under
    way, storing a step or resetting the flag is safe exactly when the flag still stands for the step
    in flight (`FlagSafeIff`, and `ApplyFlagSafeIff` for the flag that applying a finish resets;
    `LateClearSplits`).

  A link that has split never holds one key again (`SplitForever`). One lock per session, held by each
  end for its own calls and from opening a frame to installing its key, would exclude all four however
  the two ends interleave (`LockedIsGuarded`, `LockedRunsAgree`).
* **A link can be stuck.** An answered step replaces the epoch that was prepared before it. If an
  older step of the same peer is answered after a newer one was already confirmed, the two ends stay
  one epoch apart for ever (`LateStepStrands`, `StrandedForever`); an end left behind can catch up
  exactly while the other end's key is still the prepared one (`CatchUpIffPrepared`), and answering is
  what takes that away exactly when the other end is already ahead (`ReplyStrandsIff`).
* **A message counter can open twice.** A commit is safe exactly when the plan is the one that would
  be made now, or its counter was evicted in between and never opened (`CommitSafeIff`). Two frames
  ahead of the chain that are opened by overlapping tasks always leave a counter that opens again
  (`OverlapRepeats`); for retired epochs no replay window stands behind the chain.
* **A replaced chain can come back.** Planning and committing find the chain by the epoch's number, and
  answering a step puts a new chain under it. A commit leaves the chain right exactly when its plan was
  made on it or does not move it (`FinishRightIff`); otherwise the old chain takes the new one's place
  (`OldChainTakesOver`).
* **A replayed data frame yields again after an epoch is installed** on the worker path, because that
  empties the session's window and the frame still opens. Two arrivals of one session and counter both
  yield exactly when the window was emptied in between and the second is genuine, live and acceptable to
  what was given out since (`YieldsAgainIff`, `ResetYieldsAgain`).
* **The counter in a data frame's header is not authenticated** on the worker path: without a reset a
  sealed frame yields twice exactly when it opens under two counters, and there it opens under all of
  them (`YieldsTwiceUnresetIff`, `RewrittenCounterYieldsAgain`); with resets, exactly when it opens at
  all (`YieldsTwiceIff`).
* **One hop carries 878 bytes** (894 when messages are sealed as a whole), because a shard has to fit
  its datagram (`HopCarriesIff`). An onion arrives exactly when its payload has four bytes or more and
  the whole onion fits (`OnionDeliveredIff`). A full batch of the stream pump therefore fits a direct
  link and no circuit through a relay (`FullBatchFitsNoCircuit`), although the comment at
  src/socks.rs:24-26 says that it always fits.
* A payload over 65535 bytes does not come back through its 16-bit prefix; it is refused, never cut
  (`FrameRoundTrip`). A beacon whose offer is that long does not come back (`BuildThenParse`).
* **Tamper isolation pads before it joins**, so a shard that only lost trailing zero bytes counts as
  good next to a whole one. `JoinIff` says for any three shards of any lengths when the payload and
  when an index comes: one trimmed shard is not named (`TrimmedShardIsNotNamed`), and two of them
  make the joiner return nothing (`TwoTrimmedShardsAreRefused`).
* The stream window is not strict: a read needs credit but may go up to 849 bytes beyond it each time
  (`CreditNeverUnderflows`).
* A carrier reads into 4096 bytes, so a route's body arrives unchanged exactly when the packet fits
  (`BodyUnchangedIff`).
* An image of size zero is written to an icon file and not read back (`WriteThenDecode`).

## Model

| member | source | states |
|---|---|---|
| Ratchet.Session.BeginRatchetStep | src/ghost/session/mod.rs:685-706 | at most one own step is in flight, and none starts during a quantum mix; starting leaves root, epoch and prepared epoch alone |
| Ratchet.Session.AbandonRatchetStep | src/ghost/session/mod.rs:1113-1120 | drops the step in flight and nothing else |
| Ratchet.Session.AdmitPeerStep | src/ghost/session/mod.rs:810-828 | the tie-break: the lower fingerprint keeps its step and drops the arriving one; the other end gives its own up, so its slot is empty and its flag reset, and answers |
| Ratchet.Session.AnswerRatchetStep | src/ghost/session/mod.rs:764-786 | answering prepares the next epoch, confirms its key and installs nothing; unusable material is not answered and changes nothing |
| Ratchet.Session.TakeStep | src/ghost/session/mod.rs:715-719 | the first access of finishing: the step in flight leaves its slot for good |
| Ratchet.Session.ApplyRatchetStep | src/ghost/session/mod.rs:655-678 | the last ones: the step is mixed into whatever root is there, the prepared epoch and the flag go, and the slot is emptied |
| Ratchet.Session.FinishRatchetStep | src/ghost/session/mod.rs:714-752 | called alone: installs exactly when the answer names the next epoch and confirms the key; otherwise root, epoch and prepared epoch are unchanged and the step is consumed |
| Ratchet.Session.ActivateEpoch | src/ghost/session/ratchet.rs:476-505 | installs the prepared epoch exactly when its number matches |
| Ratchet.Session.RetireEpoch | src/ghost/session/ratchet.rs:549-561 | retired roots stay newest first and at most two |
| Ratchet.RetireIsAncestors | src/ghost/session/ratchet.rs:549-561 | retiring keeps exactly the last two roots before the new one |
| Ratchet.Session.HandleRatchetPdu | src/main.rs:2056-2147 | an unpinned, unsigned or malformed payload changes nothing; a step never moves the live epoch; the epoch moves only on an answer that confirms the key of the step in flight |
| Ratchet.HistoryDepth | src/ghost/session/ratchet.rs:446-505 | an installed key's generation identifies it within one peer's history |
| RatchetCalls.BeginIsAccesses | src/ghost/session/mod.rs:685-706 | starting is Claim and Arm of the link model, and nothing with the flag set |
| RatchetCalls.AbandonIsAccesses | src/ghost/session/mod.rs:1113-1120 | abandoning is Drop and Clear |
| RatchetCalls.AdmitIsAccesses | src/ghost/session/mod.rs:810-828 | admitting is Admit, and Yield and Clear when the tie-break is lost; what is admitted is what the call answers |
| RatchetCalls.AnswerIsAccess | src/ghost/session/mod.rs:764-786 | answering is Reply, and the answer sent is the key prepared |
| RatchetCalls.FinishIsAccesses | src/ghost/session/mod.rs:655-752 | finishing is Take, Check, and then Apply and Forget, or Clear |
| RatchetCalls.ActivateIsAccess | src/ghost/session/mod.rs:561-575 | activating is Install |
| RatchetLink.NextKeepsBasic | src/main.rs:1984-2147 | every access of either end, in every interleaving, keeps the bookkeeping: epochs count steps, the retired roots are the last two, prepared keys are one step on, answers are over fresh material, steps are the two ends' own |
| RatchetLink.EpochsOnlyGrow | src/main.rs:1984-2147 | in every interleaving, installed epochs and key histories only grow |
| RatchetLink.FinishIsLevel | src/ghost/session/mod.rs:714-752 | a finish whose key still fits the root only ever moves an end that is level with the other one |
| RatchetLink.InstallIsCatchUp | src/main.rs:3864-3875 | activating the epoch of a key that opened a frame happens only one step behind an end that holds that key |
| RatchetLink.AdmitKeeps | src/ghost/session/mod.rs:810-828 | an admission that does not cross a finish keeps the link invariant |
| RatchetLink.ApplyKeeps | src/ghost/session/mod.rs:655-678 | so does applying a finish to the root its preview saw |
| RatchetLink.NextKeeps | src/main.rs:1984-2147 | so does every guarded access of either end, under any delivery |
| RatchetLink.RunKeeps | src/main.rs:1984-2147 | and every guarded run |
| RatchetLink.OneKeyPerEpoch | src/main.rs:2086-2098 | in every guarded run, keys ever installed by either end for one generation are equal |
| RatchetLink.EpochsAgree | src/main.rs:2086-2098 | in every guarded run, epochs differ by at most one, they are equal exactly when the root keys are, and an end that is ahead holds a key the other derived too |
| RatchetLink.CrossedStepsNeverBothComplete | src/ghost/session/mod.rs:791-828 | in every guarded run, two steps started by different ends from one root are never both installed, whatever is delivered, abandoned or retried |
| RatchetSplit.AdmissionSafeIff | src/ghost/session/mod.rs:810-828 | from every state of a guarded run: after an admission, guarded accesses can split the link exactly when the other end's step in flight was admitted while one of our own was being finished |
| RatchetSplit.ApplyAgreesIff | src/ghost/session/mod.rs:714-752 | applying a finish leaves the ends in agreement exactly when the root is still the one its preview saw |
| RatchetSplit.InstallAgreesIff | src/main.rs:3864-3875 | activating an epoch number leaves the ends in agreement exactly when the key that opened the frame is still prepared; otherwise they split at once |
| RatchetSplit.FlagSafeIff | src/ghost/session/mod.rs:685-706 | on a level link with no finish under way, storing a step or resetting the flag can lead to a split exactly when the flag no longer stands for the step in flight |
| RatchetSplit.ApplyFlagSafeIff | src/ghost/session/mod.rs:655-678 | applying a confirmed finish that the other end can follow can lead to a split exactly when a newer step is in flight, whose flag it resets |
| RatchetSplit.CrossedFinishSplits | src/ghost/session/mod.rs:714-828 | a run from a fresh link in which the higher end yields to a step while it is finishing its own, after which both steps can complete |
| RatchetSplit.DoubleFinishBreaks | src/ghost/session/mod.rs:655-752 | a run in which a stalled step and the one after it are both applied and the ends no longer agree |
| RatchetSplit.LateClearSplits | src/ghost/session/mod.rs:1113-1120 | a run in which the slower of two abandoning tasks resets the flag of the next step, after which the link can split |
| RatchetSplit.LateInstallSplits | src/main.rs:3834-3875 | a run in which a frame opens under one key, an older step is answered, and the number installs the other key |
| RatchetSplit.SplitForever | src/ghost/session/mod.rs:791-800 | a link that holds two keys for one epoch never holds one key again, whatever happens |
| RatchetLocked.LockedIsGuarded | src/ghost/session/mod.rs:685-828 | if at each end the accesses of one call come one after the other, every access is guarded, however the accesses of the two ends interleave |
| RatchetLocked.LockedRunsAgree | src/main.rs:1984-2147 | so in every such run epochs are at most one apart, equal exactly when the keys are, and no generation has two installed keys |
| RatchetProgress.StepIsAnswered | src/main.rs:2075-2116 | from a quiet link, a delivered step is prepared and answered |
| RatchetProgress.AnswerIsConfirmed | src/main.rs:2118-2146 | the answer confirms and the first new frame levels both ends |
| RatchetProgress.ExchangeCompletes | src/main.rs:1992-2147 | from every quiet state of every guarded run, an undisturbed exchange moves both ends one epoch on, to the agreed key |
| RatchetProgress.CrossedExchangeCompletes | src/ghost/session/mod.rs:810-828 | a crossed pair resolves: the lower end's step completes on both sides |
| RatchetProgress.StrandedForever | src/ghost/session/ratchet.rs:446-475 | once an end is behind and the other's key is not prepared, no continuation whatever puts both on one key, and no guarded one moves either |
| RatchetProgress.CatchUpIffPrepared | src/ghost/session/ratchet.rs:446-505 | an end that is behind can be levelled by some continuation exactly when the other's key is still prepared |
| RatchetProgress.ReplyStrandsIff | src/ghost/session/mod.rs:764-786 | of a link that can still be levelled, answering a step takes that away exactly when the other end is already one step ahead |
| RatchetProgress.LateStepStrands | src/main.rs:2099-2116 | a run of guarded accesses in which a late step, answered after a newer one was confirmed, strands the link |
| ErasureCode.AnyTwoRebuild | src/ghost/layers/l4_rs.rs:19-66 | any two of the three shards give the (padded) data back |
| ErasureCode.TooLittleRebuildsNothing | src/ghost/layers/l4_rs.rs:48-66 | one shard, or a parity of another length or of no bytes, rebuilds nothing |
| ErasureCode.XorCodeCancels | src/ghost/layers/l4_rs.rs:38-46 | a parity with the assumed cancellation exists |
| Spool.SameBucketIff | src/main.rs:163-192 | two datagrams share a bucket exactly when session, counter and epoch agree (a v1 frame counting as epoch 0) and, before a session, the source; the relaying peer does not matter |
| Spool.PadShard | src/main.rs:258-262 | pads with zeros to the length of the longest shard |
| Spool.ShardSpool.WriteShard | src/main.rs:229-249 | the shard is stored; another bucket goes exactly if there are over 8192 and it has fewer than two shards; the second different shard of a message reports that it is time to assemble |
| Spool.PrunedIff | src/main.rs:232-234 | up to 8192 buckets nothing is dropped; above, exactly the buckets with fewer than two shards |
| Spool.SecondShardClaims | src/main.rs:239-249 | in a pool that is not pruned, the second different shard of a message claims its bucket |
| Spool.ShardSpool.RemoveAndJoin | src/main.rs:250-270 | removes the bucket and rebuilds the message from it |
| Spool.DepositKeeps | src/main.rs:239-249 | a bucket of one message's shards stays one, and is claimed exactly when two slots are filled |
| Spool.AssembledIsMessage | src/main.rs:250-270 | a claimed bucket gives exactly the message, an unclaimed or missing one gives nothing |
| SpoolTasks.WriteIsEvents | src/main.rs:229-249 | one write into the spool is some prunes and one write of the task model, and claims exactly when it reports so |
| SpoolTasks.TakeIsRemoval | src/main.rs:250-270 | one removal is one take |
| SpoolTasks.NextConserves | src/main.rs:229-271 | what the invariant of one generation counts (shards written, held, spent on a result) is kept by every atomic step of every task, and by dropping any bucket that cannot be rebuilt |
| SpoolTasks.RunConserves | src/main.rs:229-271 | so it is by every interleaving |
| SpoolTasks.AtMostOnePerTwoShards | src/main.rs:229-271 | in every interleaving, with pruning and late claimants, each returned message uses up two started tasks and is the original; so three shards never give two |
| SpoolTasks.ExactlyOneMessage | src/main.rs:229-271 | unless its own bucket is pruned, among any other traffic and pruning, exactly one of a message's three tasks returns, and it returns the original |
| SpoolTasks.KeysAreIndependent | src/main.rs:163-271 | what one generation sees of any interleaving and pruning is what its own events alone give |
| Framing.FrameRoundTrip | src/main.rs:1678-1688 | a payload comes back through prefix and pad exactly when it has at most 65535 bytes, and is refused otherwise |
| Framing.FramePayloadIff | src/main.rs:1678-1688 | exactly a payload with its prefix and at most one byte after it is accepted, as that payload |
| Framing.UnframeFramed | src/ghost/net/mod.rs:1173-1196 | a framed shard comes back out of a datagram whatever fills the rest |
| Framing.UnframeIff | src/ghost/net/mod.rs:1185-1196 | exactly the regions that begin with the framed shard unframe to it |
| Framing.EncSplit | src/main.rs:458-519 | sealing the frame and splitting the ciphertext, as a function of the payload |
| Framing.EncSplitShardSec | src/main.rs:458-490 | splitting the frame and sealing each shard, as a function of the payload |
| Framing.TwoShardsAssemble | src/main.rs:229-271 | two different shards, in either order, leave the spool as the message |
| Framing.SealedRoundTrip | src/main.rs:458-519 | any two frames in either order give every payload up to 65535 bytes back, sealed as a whole |
| Framing.ShardSecRoundTrip | src/main.rs:458-488 | the same with every shard sealed on its own |
| Framing.FitsIff | src/ghost/net/mod.rs:871-886 | all shards fit their datagrams exactly for payloads up to 894 bytes sealed as a whole and 878 sealed per shard |
| Framing.HopCarriesIff | src/main.rs:609-615 | one hop gives a payload back from any two shards exactly when it fits, and otherwise nothing |
| TamperIsolation.TryPadded | src/bin/wan_mesh.rs:257-287 | one pair, padded in place, gives what the pair's specification says |
| TamperIsolation.DecJoin | src/bin/wan_mesh.rs:239-330 | the joiner's branches over the three pairs or the one pair there is |
| TamperIsolation.NeverWrongPayload | src/bin/wan_mesh.rs:239-330 | for any corruption of any number of shards, what is returned is the payload |
| TamperIsolation.JoinedIff | src/bin/wan_mesh.rs:273-287 | two equally long shards rebuild the ciphertext exactly when both are genuine |
| TamperIsolation.PairJoinsIff | src/bin/wan_mesh.rs:257-287 | a pair joins exactly when both padded shards are the sent ones |
| TamperIsolation.PairYieldsIff | src/bin/wan_mesh.rs:257-287 | for shards of any lengths, a pair yields the payload exactly when both lost at most trailing zeros and one is whole |
| TamperIsolation.JoinIff | src/bin/wan_mesh.rs:289-319 | for any three shards of any lengths: index `i` comes exactly when shard `i` is altered beyond trimmed zeros and the others suffice, the payload without an index exactly when all are trimmed at most and two are whole, and otherwise nothing |
| TamperIsolation.TwoShardsJoinIff | src/bin/wan_mesh.rs:320-327 | with one shard missing, the payload comes exactly when the other two suffice |
| TamperIsolation.AlteredShardIsSingledOut | src/bin/wan_mesh.rs:289-319 | with lengths kept: none altered gives the payload, one altered gives the payload and its index, more give nothing |
| TamperIsolation.TrimmedShardIsNotNamed | src/bin/wan_mesh.rs:262-271 | a shard that only lost trailing zeros is not named next to two whole ones |
| TamperIsolation.TwoTrimmedShardsAreRefused | src/bin/wan_mesh.rs:262-271 | one whole shard and two that lost only zeros give nothing, although two pairs join |
| Reorder.RxState.RxPush | src/main.rs:2850-2871 | the push and its drain loop, on the whole new state |
| Reorder.Release | src/main.rs:2859-2870 | the drain loop computes the contiguous release |
| Reorder.DrainReleases | src/main.rs:2861-2870 | draining releases exactly the contiguous stretch, in order, and keeps the rest |
| Reorder.LaterPayloadReplaces | src/main.rs:2850-2858 | a waiting payload is replaced by a later one with its counter, a released one is not |
| Reorder.DeliversLongestRun | src/main.rs:2850-2871 | for every arrival order with gaps and repetitions, the output is the longest contiguous run from the anchor, each once, and all else accepted is buffered beyond the next counter |
| Reorder.OrderDoesNotMatter | src/main.rs:2850-2871 | output and buffer depend on the anchor and the set of counters only |
| Relay.ParseBuilt | src/ghost/net/relay.rs:809-888 | a built envelope parses back exactly when it holds four bytes or more |
| Relay.EnvelopeIs | src/ghost/net/relay.rs:876-888 | the envelope byte by byte |
| Relay.LongNameIsCut | src/ghost/net/relay.rs:876-888 | a name that is too long for its field comes back cut to 32 bytes |
| Relaying.RlyIsSized | src/ghost/net/relay.rs:809-888 | the envelope obeys the size laws forwarding relies on |
| Relaying.RlyReadsBack | src/ghost/net/relay.rs:809-888 | the envelope obeys the read-back law forwarding relies on |
| Relaying.ForwardDescends | src/main.rs:4112-4198 | every forward lowers the weight (whole inner layers, then hops) |
| Relaying.ForwardRewraps | src/main.rs:4160-4173 | with nothing to peel a relay keeps the header and counts one hop less, and at zero hops sends nothing on |
| Relaying.ForwardedFinitelyOften | src/main.rs:4112-4198 | every packet, well formed or not, on every network, is forwarded at most its weight many times |
| Relaying.BuildOnionRoute | src/ghost/net/relay.rs:852-870 | a route is accepted exactly when it is short enough, has no empty and no repeated hop; the layers nest from the destination backwards |
| Relaying.OnionDeliveredIff | src/main.rs:4112-4198 | an onion is read at its last hop, after exactly route length minus one forwards and with its payload unchanged, exactly when the payload has four bytes or more and the whole onion fits one hop |
| Relaying.CircuitDeliversIff | src/socks.rs:31-64 | the exit of a circuit, opening under the nonce it reads, recovers counter, nonce and payload exactly when the payload fits with its frame, tag, counter, nonce and one header per hop |
| Relaying.RlyIsANet | src/main.rs:4176-4190 | the envelope over the three-datagram hop obeys all the laws used, with 878 or 894 bytes as its limit |
| Relaying.FullBatchFitsNoCircuit | src/socks.rs:24-27 | over every network of hops with these limits, no 854-byte batch comes out of any circuit through a relay |
| Relaying.FullBatchFitsDirectly | src/socks.rs:24-27 | while one direct hop carries every such batch |
| Carrier.CarrierNode.Receive | src/bin/wan_mesh.rs:366-409 | one turn of the carrier loop: peel, count, tamper on every third packet if told to, forward or deliver |
| Carrier.CorruptAlters | src/bin/wan_mesh.rs:378-386 | a tampered payload differs in each of its last four bytes and nowhere else, and tampering again restores it |
| Carrier.TamperedBody | src/bin/wan_mesh.rs:378-403 | a tampering carrier delivers a long enough body so altered, to the same address |
| Carrier.RouteDelivers | src/bin/wan_mesh.rs:363-409 | for every route of 1 to 255 addresses the last address gets the body after exactly that many relays |
| Carrier.BodyUnchangedIff | src/bin/wan_mesh.rs:363-409 | byte for byte exactly when the packet fits the 4096-byte buffer |
| Carrier.ServesInOrder | src/bin/wan_mesh.rs:1031-1041 | relay `n` sends to address `n` of the route |
| Beacon.ParseBeaconSections | src/main.rs:2937-2994 | the parser loop terminates on every input and computes the recursive parse |
| Beacon.BuildBeaconPacket | src/main.rs:3002-3038 | the builder computes prefix and sections in order |
| Beacon.AcceptsIffTiled | src/main.rs:2937-2994 | an input is accepted exactly when accepted sections tile it |
| Beacon.BuildThenParse | src/main.rs:2937-3038 | every combination of proof, offer, relay bit and commitment parses back, exactly when the offer fits 16 bits |
| Beacon.ParseThenBuild | src/main.rs:2937-3038 | re-printing an accepted beacon parses to the same sections |
| Beacon.AcceptedIffPrintable | src/main.rs:2954-2985 | the parser accepts exactly the sections that some well-typed beacon prints: no other kind, size or text |
| Beacon.FullBeacon | src/main.rs:3002-3038 | the layout of a full beacon, byte by byte |
| PeerTable.PeerTables.RegisterPeerSession | src/main.rs:3053-3092 | clashing peers leave both tables and the new one enters both |
| PeerTable.PeerTables.Goodbye | src/main.rs:3937-3939 | a goodbye removes the peer from both tables |
| PeerTable.PeerTables.DropSession | src/main.rs:2704-2716 | a failed authentication drops the session alone |
| PeerTable.PeerTables.Disconnect | src/main.rs:5100-5101 | disconnecting empties both tables |
| PeerTable.PeerTables.CleanUp | src/main.rs:7158-7171 | a tick drops expired sessions and then addresses without a session |
| PeerTable.TablesStayConsistent | src/main.rs:3040-3092 | over every sequence of steps no two peers share an endpoint or a single-device address, every session has an address, and after a tick the tables have the same keys |
| PeerTable.LiveIffStanding | src/main.rs:3053-3092 | exactly the session of the last registration that no later step undid is live, at that registration's endpoint |
| PeerTable.KnownStep | src/main.rs:7162-7171 | an address outlives its session: what each step does to it, and that a dropped session keeps its address until the next tick |
| PeerTable.SingleDeviceIff | src/main.rs:3040-3051 | the single-device IPv4 addresses are exactly 10/8, 172.16/12, 192.168/16, 100.64/10 and 169.254/16 |
| ReplayGuard.SessionGuard.CheckAndUpdate | src/ghost/layers/l6_session.rs:155-188 | the sliding window's shift, bit test and bit set, on the whole new state |
| ReplayGuard.SessionGuard.Reset | src/ghost/layers/l6_session.rs:190-195 | a reset empties the window |
| ReplayGuard.CheckIsExact | src/ghost/layers/l6_session.rs:155-188 | a live window accepts exactly the counters that are new and less than a window old, and goes on representing exactly the accepted set |
| ReplayGuard.Worker.DecodeDataFrame | src/ghost/mod.rs:204-286 | authenticate, unframe, only then commit to the window; every failure but an unknown session counts one drop |
| ReplayGuard.WindowsAreExact | src/ghost/mod.rs:204-286 | over every sequence of arrivals and window resets, each window is exactly the set of counters given out since it was last emptied |
| ReplayGuard.YieldsIff | src/ghost/mod.rs:204-286 | an arrival yields plaintext exactly when it authenticates, its session is live, and its counter is new and less than a window behind among those given out since the last reset |
| ReplayGuard.YieldsBodyIff | src/ghost/mod.rs:237-280 | and what it yields is exactly the framed body its region begins with, opened in the peer's direction first |
| ReplayGuard.DeliveredAreBodies | src/ghost/mod.rs:270-280 | everything given out is the body of a packet that arrived |
| ReplayGuard.DroppedIff | src/ghost/mod.rs:204-286 | a drop is counted for every packet that yields nothing, except one that names no session |
| ReplayGuard.AtMostOncePerCounter | src/ghost/mod.rs:204-286 | no two arrivals of one session with one counter both yield plaintext unless that session's window was emptied in between |
| ReplayGuard.YieldsAgainIff | src/ghost/session/mod.rs:574-575 | after an arrival has yielded, a later one with its session and counter yields exactly when it is genuine and live, a reset lies in between, and it is acceptable to what was given out since |
| ReplayGuard.ResetYieldsAgain | src/ghost/session/mod.rs:674-676 | the run: every genuine frame yields, and yields once more after a reset |
| ReplayGuard.ForgeriesAreInvisible | src/ghost/mod.rs:204-286 | removing all frames that fail to authenticate or unframe changes neither the plaintexts that come out nor any window |
| ReplayGuard.YieldsTwiceIff | src/ghost/mod.rs:204-286 | over runs with resets, a sealed frame yields twice in some run exactly when it opens at all |
| ReplayGuard.YieldsTwiceUnresetIff | src/ghost/mod.rs:204-286 | without a reset in between, exactly when it opens under two different header counters |
| ReplayGuard.RewrittenCounterYieldsAgain | src/ghost/mod.rs:243-258 | as opening does not look at the counter, every genuine frame yields again under a rewritten one |
| MsgChain.MessageChain.Advance | src/ghost/session/ratchet.rs:130-138 | sealing takes the key of the present chain and steps it |
| MsgChain.SealerUsesKeyAt | src/ghost/session/ratchet.rs:130-138 | the message sealed n-th is sealed under the key that opening computes for counter n |
| MsgChain.MessageChain.PlanOpen | src/ghost/session/ratchet.rs:139-173 | planning computes the key and the jumped-over keys and changes nothing |
| MsgChain.MessageChain.CommitOpen | src/ghost/session/ratchet.rs:176-208 | committing moves the chain, keeps the jumped-over keys and evicts down to the cap |
| MsgChain.PlannedKeyIsRight | src/ghost/session/ratchet.rs:139-173 | any plan's key is the one the sealing side used for that counter |
| MsgChain.CommitKeepsRight | src/ghost/session/ratchet.rs:176-208 | committing any plan, fresh or stale, leaves only right keys |
| MsgChain.EvictKeepsIff | src/ghost/session/ratchet.rs:192-198 | eviction keeps exactly the keys that have fewer than 1024 above them |
| MsgTasks.RightKey | src/main.rs:397-428 | in every interleaving of tasks planning and committing, every planned key is the one its frame was sealed under |
| MsgTasks.OpensOnce | src/main.rs:397-428 | in every run of clean commits no counter is opened twice |
| MsgTasks.CommitSafeIff | src/main.rs:397-428 | a commit can lead to a counter opened twice exactly when its plan is not the one that would be made now and its counter was not evicted unopened |
| MsgTasks.OverlapRepeats | src/main.rs:397-428 | any two frames ahead of the chain opened by overlapping tasks leave a counter that opens again |
| MsgTasks.KeptIff | src/ghost/session/ratchet.rs:176-208 | in every run of clean commits, a missing counter is still kept exactly when there were never 1024 missing ones above it since it was jumped over |
| MsgTasks.OpensIff | src/ghost/session/ratchet.rs:139-208 | so a counter is offered a key exactly when it is at most 1024 ahead, or missing and never buried |
| MsgReseed.RightKeyAcrossReseeds | src/ghost/session/ratchet.rs:347-396 | in every run with replaced chains in which no commit moves a chain it was not planned on, every planned key is right for the chain it was planned on |
| MsgReseed.FinishRightIff | src/ghost/session/ratchet.rs:373-396 | a commit leaves the chain right exactly when its plan was made on it or does not move it |
| MsgReseed.OldChainTakesOver | src/ghost/session/ratchet.rs:446-473 | if a step is answered between the plan and the commit of a frame ahead of the chain, the keys offered afterwards are those of the chain replaced |
| Pump.ReadIsNeverEmpty | src/socks.rs:467-470 | a read is asked for just what fills the batch, which is never zero bytes, so a zero-byte read means the end |
| Pump.RunPump | src/socks.rs:458-614 | the pump loop's batches, as a function of the reads and timeouts |
| Pump.BatchesCarryTheStream | src/socks.rs:458-614 | every batch is the id and 1 to 850 bytes, and without ids the batches are exactly the bytes read |
| Pump.NothingWaitsLong | src/socks.rs:467-505 | at every point fewer than 850 bytes wait, none after the timer fired, and what was sent and what waits are the bytes read so far |
| Pump.OnlyFlushesAreShort | src/socks.rs:467-505 | a batch goes out before it is full only when the timer fires or the stream ends |
| Pump.CreditNeverUnderflows | src/socks.rs:463-491 | in every interleaving with the replenishing task the counter stays at or above zero, reads happen only with credit, and it is 65536 and what was replenished less what was read, except for what reads went beyond it, at most 849 bytes each |
| HttpReader.ReadRequest | src/control.rs:302-353 | the read loop stops at the first prefix of segments that is complete, over the cap, or the last one there is |
| HttpReader.OnlyTheWholeIsComplete | src/control.rs:302-353 | of all prefixes of a request only the whole one satisfies the reader |
| HttpReader.StopsWithTheRequest | src/control.rs:302-353 | however a request of at most 1 MiB is cut into non-empty segments, the reader stops with exactly it |
| HttpReader.ReadWholeRequest | src/control.rs:302-353 | the loop itself returns exactly the request |
| Whitespace.FindWhiteSpace | abos/abos-cognitive/src/whitespace.rs:1-21 | exactly the maximal quiet runs of two bins or more and the one of any length at the end, in order and disjoint |
| Ico.FlipTwice | src/ghost/icon.rs:77-90 | turning rows upside down and exchanging red and blue undoes itself |
| Ico.ToBgraDib | scripts/make_icon.py:139-161 | the writer's nested loops produce the flipped rows and the empty mask |
| Ico.MaskRows | scripts/make_icon.py:158-160 | the mask has one row per row: the least whole number of 32-bit words with a bit per pixel |
| Ico.WriteIco | scripts/make_icon.py:164-199 | the file, with its running offsets, exactly when every packed field is in range |
| Ico.OffsetsPoint | scripts/make_icon.py:187-198 | every directory entry shows its image's size, planes and depth, and offset and length of exactly its image's bytes |
| Ico.DecodeRows | src/ghost/icon.rs:77-90 | the decoder's nested loops flip any pixel block |
| Ico.DecodeDib | src/ghost/icon.rs:45-96 | which entries decode, are skipped, or overflow, on any bytes |
| Ico.UnsupportedIsSkipped | src/ghost/icon.rs:45-73 | truncated, PNG, short-header, empty, compressed and other-depth entries are skipped |
| Ico.OverflowsIff | src/ghost/icon.rs:75-77 | an entry overflows exactly when its bytes cannot be counted in 32 bits |
| Ico.DecodeIco | src/ghost/icon.rs:99-119 | all readable entries in order, or nothing for a wrong file header |
| Ico.DibReadsBack | src/ghost/icon.rs:45-96 | a written entry decodes to its image wherever in the file it stands |
| Ico.WriteThenDecode | scripts/make_icon.py:139-199 | decoding any written list of images gives the same images in the same order, all of them exactly when none has size zero |

## Left out

- Ciphers, key exchange, signatures and key derivation: libraries; they are terms or parameters here.
- The quantum-mix exchange, which shares the prepared slot with the ratchet: runs that mix both kinds of step; that it blocks a new step is an input of `BeginRatchetStep`.
- Ratchet.Session.ActivateEpoch: the counters it bumps beside the installed epoch are not modelled; the reset of the replay window is an event of its own in `ReplayGuard`.
- RatchetLink.NextKeeps: an epoch number read before finishing is a free choice, and any frame of the peer's history may arrive, so more can happen than the code lets through. Timers are free choices too: a tick may start or abandon at any time.
- RatchetSplit.FlagSafeIff: the two directions are for level links with no finish under way, and those of `ApplyFlagSafeIff` for an only finish that the other end can follow; elsewhere the guard is proved sufficient, and not every unguarded access leads to a split, because a stranded link cannot split.
- ErasureCode.AnyTwoRebuild: the coefficients of the Reed-Solomon library are not modelled; the proof is for every parity that can be undone in each argument.
- Carrier.CarrierNode.Receive: printing and failed sends; a 64-bit packet counter is a natural number.
- Relaying.ForwardedFinitelyOften: sessions and addresses are one fixed assignment per run; a lost or failed send only shortens a run. Every hop is the direct three-datagram path; other transports and bulk frames are not modelled. A shard too long for its datagram makes the sender stop with an error; here the packet does not arrive.
- ReplayGuard.Worker.DecodeDataFrame: whether a session has timed out is a free flag per arrival. That an epoch is installed on a session is a reset event at any time; that a link's ratchet causes it is not tied to `RatchetLink`.
- MsgChain.MessageChain.Advance: 64-bit counter overflow is not modelled.
- MsgTasks.OpensIff: it is about runs of clean commits; after one that is not clean, an opened counter may be offered its key again, as `CommitSafeIff` says.
- MsgTasks.RightKey: it is about one chain; a chain replaced under its number is the subject of `MsgReseed`, which in turn does not count how often a counter opens.
- Beacon.ParseBeaconSections: UTF-8 validity is a parameter, as is the lossy decoding of names in `Relay`.
- HttpReader.ReadRequest: the header look-up that finds `Content-Length` is a function parameter; the read timeout is the end of the segments.
- Pump.RunPump: sending a batch and choosing its circuit are not part of it; the events are reads, timeouts and the end. Waiting for credit is in the credit model beside it.
- Whitespace.FindWhiteSpace: levels are real numbers, so not-a-number bins are not modelled.
- Ico.ToBgraDib: pixel values are bytes already; rounding the floating-point render to bytes is not modelled.
- Ico.DecodeDib: a pixel count beyond 32 bits is an outcome of its own and ends the decoding; what the decoder's arithmetic does then depends on how it is compiled.
- PeerTable.TablesStayConsistent: table steps are atomic one after the other; no bound on the number of sessions is claimed, because not every path checks one.
- Batching and cover traffic, sockets, timers, discovery, transports, the control endpoints and the user interface.
