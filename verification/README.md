# A verified model of the decentralised root of trust

A committee of N members replaces a single signing key: a status list is authoritative
once t members have signed it at one version, each with a stateful XMSS key that must
never sign twice at one slot. This project models the parts of the repository that make
this safe, and proves what they are for:

- the burn-before-sign slot allocator and its two-record journal, under crashes, failed
  writes, lying probes and concurrent processes;
- the committee's publication rounds, with concurrent aggregators and stale reads;
- the anchor, the signed message, the two published record forms and their SSZ wire form;
- the predicates that authorise an update, why the two forms decide alike, and why two
  records accepted at one version carry one list;
- the relying party: verify, then gate, then persist, over arbitrary bytes and restarts;
- the ML-DSA-65 variant of the anchor and the record;
- the exact statistics of the scaling analysis.

`dafny verify dfyconfig.toml` checks everything.

## How the pieces fit

| Module | What it holds |
|---|---|
| `Prelude`, `ByteStrings`, `Text` | results, machine integers and little-endian bytes, the textual state files |
| `Storage` | the filesystem durability contract: the set of images a crash may leave at one path |
| `SlotJournal` | the checksummed record codec, recovery from 8192 bytes, the textual predecessors |
| `SlotProtocol`, `SlotSafety` | one key's slot state as a step system; its invariant; safety over whole runs |
| `JournalFormat`, `SlotCounter` | that system instantiated with the real format; the counter and signer objects, every method of which drives it |
| `MarkProtocol`, `Freshness` | the high-water mark as a step system, and the object that drives it |
| `Ssz` | SimpleSerialize containers, lists and bitlists, each codec a bijection |
| `Anchor`, `Statement` | the committee and its fingerprint; the domain, the message and the slot |
| `Signers`, `StatusList` | pairs to a bitmap and back; both records, construction and wire form |
| `Verifiers`, `Agreement`, `Nodes` | the raw and the aggregate predicate, agreement, the relying parties |
| `Snapshot`, `CommitteeNode` | the edits of the credential list; a demo member: answering proposals, collecting a quorum, publishing |
| `Quorums`, `Rounds`, `Federation` | the members' slot states composed with aggregators, replies and the record cell, over the real bytes; and the nodes whose calls are runs of it |
| `MlDsa` | the ML-DSA-65 committee, record, statement and predicate |
| `Sums`, `Scaling`, `Holm` | analysis of variance, least squares, Holm's adjustment, over the reals |

Three step systems carry the whole-run claims. Their events include every point where the
code can fail or the machine can stop, and a reopen fixes one of the images that unsynced
writes may have left. The classes hold a ghost log of events; their `Valid` says that the
log is a run of the step system and that the fields are the process's state in it, so
whatever sequence of calls is made, the theorems about runs apply to it. What a caller or
a host owes (a truthful probe, a verified record) is not a precondition: each method says
when it keeps the log `Sound`, and the theorems are about sound logs.

## Idealisations

- Hash functions are arbitrary functions with a fixed output length. Binding theorems end
  in "or here are two inputs with one digest".
- A signature verifies only if the member's own node produced it (`Agreement.Ideal`); an
  aggregate proves only if every key it names signed. leanVM's own rule that an
  aggregate's keys have no repeats is part of the same predicate.
- A partially written record either reads as no record, or is the old or the new one.
- Synced bytes are not damaged later, and bytes a reopen has read are durable from then on
  (README.md:143-149).
- I/O results, clocks, the network and what the cryptography returns are parameters.

## Findings

- `AtomicSlotCounter::create` decides with `path.exists()` (src/state/slot_counter.rs:314),
  which answers "no" when the metadata call itself fails. It then installs a fresh journal
  over a live one. `SlotSafety.LyingProbeExactly` gives the exact condition: this is
  harmless if and only if the start it was called with is above every slot already handed
  out. `SlotSafety.SlotTwiceReachable` reaches the failure from an empty path: a key is
  created, hands out one slot, restarts, is created again behind one failed metadata call,
  and hands the slot out a second time. `HighWaterMark::create` reads the metadata error
  and refuses, so it has no such case.
- `collect_signatures` (demo/src/bin/signer.rs:515-518) takes for granted that its caller
  checked `slot_for`; `on_status_request` checks only that the version itself does not
  overflow. It panics there, or on a newly issued credential that is already listed, or in
  a failed aggregation, while it holds the round lock (demo/src/bin/signer.rs:366). The
  poisoned lock then makes every later request that decodes panic too.
  `CommitteeNode.Node.OnStatusRequest` and `CommitteeNode.Node.RoundExactly` state exactly
  when a request panics and that one panic is enough. `CommitteeNode.NoSlotExactly` says that the version after an authentic
  record lacks a slot if and only if the record sits at the last 32-bit slot, and
  `CommitteeNode.LastSlotReachable` gives an anchor and an accepted record that do.
- ML-DSA decoding re-encodes and compares (mldsa/src/status_list.rs:254-256,
  mldsa/src/committee.rs:159-161). `MlDsa.ReencodingIsRedundant` and
  `MlDsa.CommitteeDecodedIsCoherent` show that this check never fires.
- The SSZ standard bounds the total length of an encoding below 2^32 bytes. Decoding needs
  less: `Ssz.DecodesExactly` shows that a value is read back from its bytes if and only if
  every offset fits four bytes, `StatusList.RawDecodesExactly` and
  `StatusList.SnarkDecodesExactly` give the bound for each record, and
  `StatusList.OverlongInputDecodes` is an input past the standard's total that decodes.
  What the SSZ library does with such lengths is not part of this model.

## Model

| member | source | states |
|---|---|---|
| SlotJournal.FillRecord | src/state/slot_counter.rs:42-51 | the byte array filled in place is the record's encoding |
| SlotJournal.RecordLayout | src/state/slot_counter.rs:42-51 | a record byte by byte: the magic, both numbers in little-endian bytes, the key tag, 40 zeros, and the digest of all that |
| ByteStrings.LeAt | src/state/slot_counter.rs:45-46 | byte i of a little-endian number is the one of weight 256^i |
| SlotJournal.RecordCodec | src/state/slot_counter.rs:42-82 | a region decodes to r if and only if it is r's encoding in the region of r's parity; the codec is a bijection |
| SlotJournal.DecodeOfEncode | src/state/slot_counter.rs:42-82 | an encoded record is read back from the region of its parity |
| SlotJournal.EncodeOfDecode | src/state/slot_counter.rs:53-82 | whatever decodes is the encoding of what it decodes to |
| SlotJournal.RecoverJournal | src/state/slot_counter.rs:174-231 | the gathering and sorting loops compute the election of the two records, errors included |
| SlotJournal.RecoverExactly | src/state/slot_counter.rs:174-231 | which 8192-byte images are accepted and what they recover to, as an if-and-only-if on the bytes |
| SlotJournal.RefusedExactly | src/state/slot_counter.rs:174-231 | why any other image of that length is refused: no record, a foreign one, two that are not one apart, or a current one past the window |
| SlotJournal.RecoveryNeverOverflows | src/state/slot_counter.rs:202-221 | on any 8192 bytes the two generations differ and the older one has a successor |
| SlotJournal.ParseOfPrintedLegacy | src/state/slot_counter.rs:146-172 | both textual forms a predecessor printed for this key are read back with their frontier |
| SlotJournal.ParseLegacyExactly | src/state/slot_counter.rs:146-172 | a text is accepted if and only if, after an optional version mark, it is two words: this key's hexadecimal tag and a 64-bit number, its frontier |
| SlotJournal.ForeignLegacyRefused | src/state/slot_counter.rs:158-162 | what was printed for another key is refused as foreign, in either form and whatever its number |
| JournalFormat.JournalIsLawful | src/state/slot_counter.rs:42-82 | the concrete record format meets what the step system assumes of it |
| JournalFormat.JournalNeverRepeats | src/state/slot_counter.rs:305-490 | with the real record and text formats, in every run, slots strictly increase and no two signatures share one |
| JournalFormat.JournalRepeatsAfterALie | src/state/slot_counter.rs:305-329 | with the real formats, the run behind a lying probe that repeats a slot |
| JournalFormat.PrintedLegacyFrontier | src/state/slot_counter.rs:146-172 | a printed v2 or unversioned state stands at the frontier it was printed with |
| JournalFormat.OpenDecisionExactly | src/state/slot_counter.rs:341-402 | exactly which state files are resumed, with which record, and which are migrated, at which frontier: the window and the ambiguous text included |
| JournalFormat.RefusedTextExactly | src/state/slot_counter.rs:341-402 | why a text of this key is refused all the same: its number is past the window, or it is the unversioned one at the top of the range |
| JournalFormat.ForeignFileRefused | src/state/slot_counter.rs:146-172 | a file that a predecessor printed for another key is refused for that reason, whatever its number |
| SlotSafety.StepKeepsInv | src/state/slot_counter.rs:305-490 | every step of create, open, install, reserve and crash keeps: each image a crash may leave has a frontier above every slot handed out |
| SlotSafety.NoSlotTwice | src/state/slot_counter.rs:305-490 | over every run, slots handed out strictly increase and no two signatures share a slot |
| SlotSafety.OneSignaturePerSlot | src/node/signer.rs:95-154 | in every reachable state one slot carries at most one signature |
| SlotSafety.KeepsThroughWrite | src/state/slot_counter.rs:404-424 | an unfinished or failed record write leaves a journal that recovery accepts, at the old frontier or the new one |
| SlotSafety.KeepsAfterSync | src/state/slot_counter.rs:404-424 | after the sync the journal's settled record is the new one |
| SlotSafety.EveryImageRecovers | src/state/slot_counter.rs:174-231 | every image a run may leave is accepted with the same key and end, above every slot handed out and at most one past the end; the ambiguous text and the empty path are the only refusals |
| SlotSafety.FreshJournalReopensExactly | src/state/slot_counter.rs:87-114 | a freshly installed journal reopens for a window if and only if its start is at most one past the window's end |
| SlotSafety.MigrationKeepsFrontier | src/state/slot_counter.rs:87-114 | from any state file, through every failure and crash of the install, each image left stands at the same frontier, and nothing is handed out |
| SlotSafety.SlotTwiceReachable | src/state/slot_counter.rs:305-329 | from an empty path, one missed file after a restart makes the counter hand its first slot out again |
| SlotSafety.LyingProbeExactly | src/state/slot_counter.rs:305-329 | a false "does not exist" is harmless if and only if the new start is above every slot handed out |
| SlotCounter.InstallJournal | src/state/slot_counter.rs:87-114 | on success only the new image can be left, at generation 0; on failure the process holds nothing |
| SlotCounter.AtomicSlotCounter.Create | src/state/slot_counter.rs:305-329 | for every answer of the lock and of the existence probe: refuses a file it sees, untouched, and otherwise installs a journal at the start; and when that is harmless |
| SlotCounter.AtomicSlotCounter.Open | src/state/slot_counter.rs:341-402 | for every answer of the lock: resumes what recovery accepts, migrates exactly a text of this key within the window, refuses anything else with its reason and the disk as it was; a text of another key never hands out a slot |
| SlotCounter.AtomicSlotCounter.PersistNext | src/state/slot_counter.rs:404-424 | advances the generation only after a successful sync; a failure changes no field |
| SlotCounter.AtomicSlotCounter.Reserve | src/state/slot_counter.rs:440-452 | the exact result and error of each case, and that a failure moves nothing |
| SlotCounter.AtomicSlotCounter.ReserveAt | src/state/slot_counter.rs:471-489 | the exact result and error of each case; success burns every slot below the one requested |
| SlotCounter.SignerNode.Sign | src/node/signer.rs:95-104 | signs only at a slot that no image on disk still calls free; a failed signature still burns it |
| SlotCounter.SignerNode.SignAt | src/node/signer.rs:116-154 | signs exactly at the requested slot, exactly when it is free, in the window, and durably spent |
| Quorums.QuorumsMeet | demo/src/config.rs:19-22 | two sets of t of N members share one when 2t > N |
| Rounds.CheckedFollows | demo/src/bin/signer.rs:240-280 | a check against the k-th published value admits version k + 1 and no other, a check against an empty read version 0 and no other, each if and only if it has a slot |
| Rounds.OneQuorumPerVersion | demo/src/bin/signer.rs:229-328 | no two rounds of one version both gather a quorum of signatures |
| Rounds.StepKeepsOrder | demo/src/bin/signer.rs:229-585 | every step of aggregators proposing any version, of members and of replies keeps the publication order |
| Rounds.NextInOrder | demo/src/bin/signer.rs:342-501 | whatever reaches a quorum next has the version after the last one published |
| Rounds.PublishedAuthentic | demo/src/bin/signer.rs:459-476 | what a round publishes authenticates its version and its list to every relying party |
| Rounds.VersionsInOrder | demo/src/bin/signer.rs:342-501 | over every run, whatever is proposed, read or lost, the bytes published authenticate versions 0, 1, 2, ... without repeat, gap or step back |
| Rounds.PublishedOnQuorum | demo/src/bin/signer.rs:229-501 | over every run the k-th published value stands on at least t members that signed its list as version k at slot genesis + k, and nothing else at that slot |
| Rounds.AnswerIsRun | demo/src/bin/signer.rs:229-328 | a member's call, however it ends, is its check followed by its slot events: a run of the rounds |
| Federation.Federation.constructor | demo/src/bin/signer.rs:67-196 | nodes of one anchor that have signed nothing yet start a federation, however their slot state was opened |
| Federation.Federation.Ask | demo/src/bin/signer.rs:229-328 | every call of on_proposal on every node is logged as steps of the rounds |
| Federation.Federation.Serve | demo/src/bin/signer.rs:342-501 | every call of on_status_request is, and the cell grows by exactly what it publishes |
| Federation.Federation.CellInOrder | demo/src/bin/signer.rs:342-501 | after any interleaving of these calls the cell's values authenticate versions 0, 1, 2, ... |
| Federation.Federation.CellOnQuorum | demo/src/bin/signer.rs:342-501 | and each stands on a quorum of the nodes, by their own signing logs |
| Freshness.MarkLineReads | src/state/freshness.rs:186-247 | the line persist prints is what parse reads, for every mark |
| Freshness.ParseMarkExactly | src/state/freshness.rs:228-247 | a text is accepted if and only if it is two words: this anchor's fingerprint, and "none" or a 32-bit number, its mark |
| Text.WordsExactly | src/state/freshness.rs:228-232 | a text splits into some words if and only if it is those words with white space between them |
| Text.ParseUnsignedExactly | src/state/slot_counter.rs:163-166 | a number is read exactly from its decimal form within range, behind any zeros and one optional plus sign |
| Text.HexAt | src/state/slot_counter.rs:140-142 | byte i of a printed tag or fingerprint is what its two digits say |
| Freshness.ForeignMarkRefused | src/state/freshness.rs:218-247 | a mark printed for another anchor is refused, or the two anchors collide |
| Freshness.MarkNeverRollsBack | src/state/freshness.rs:131-201 | with the real mark format, in every run, accepted versions strictly increase, were authentic, and are covered by every readable mark |
| Freshness.Persist | src/state/freshness.rs:186-201 | on success only the new mark can be left; on failure the live mark is as before |
| Freshness.HighWaterMark.Create | src/state/freshness.rs:68-91 | for every answer of the lock and the metadata call: succeeds exactly on an absent file, never overwrites one, and when that is harmless |
| Freshness.HighWaterMark.Open | src/state/freshness.rs:99-117 | for every answer of the lock: succeeds exactly on a text that names this anchor and a mark, and resumes that mark |
| Freshness.HighWaterMark.LoadFromTrustedSource | src/state/freshness.rs:131-164 | replaces only a lost or invalid mark, durably, by the version given, whatever it is; and when that is harmless |
| Freshness.HighWaterMark.TryAdvance | src/state/freshness.rs:175-183 | accepts exactly a strictly newer version that reached the disk, whatever it is offered; otherwise nothing moves |
| MarkProtocol.NeverRollsBack | src/state/freshness.rs:131-201 | over every run accepted versions strictly increase, each was authentic, and every readable mark on disk is at least all of them |
| MarkProtocol.ReadableUnlessLost | src/state/freshness.rs:68-201 | unless the file is lost, every image left holds a readable mark once something was accepted |
| MarkProtocol.ContractedUnlessLost | src/state/freshness.rs:68-164 | unless the file is lost, a caller that offers only verified records keeps every contract, creation's and recovery's included |
| MarkProtocol.ContractExactly | src/state/freshness.rs:68-164 | a creation or a recovery is harmless if and only if it meets its contract; otherwise some continuation accepts a version again |
| Ssz.DecodesExactly | src/protocol/status_list.rs:33-52 | a container value decodes from its bytes if and only if every offset fits four bytes |
| Ssz.DeserializeOfSerialize | src/protocol/status_list.rs:33-52 | every container value with an encoding by the standard decodes from it |
| Ssz.EncodeOfDeserialize | src/protocol/status_list.rs:33-52 | whatever decodes is the encoding of what it decodes to: offsets, gaps and trailing bytes leave no second spelling |
| Ssz.DecodeOfEncodeBits | src/protocol/status_list.rs:23-25 | a bitlist of any length is recovered exactly, sentinel included |
| Ssz.EncodeOfDecodeBits | src/protocol/status_list.rs:23-25 | a byte string is the encoding of at most one bitlist |
| Ssz.EncodedBitAt | src/protocol/status_list.rs:23-25 | bit k of a bitlist is bit k mod 8 of byte k / 8, and the bit after the last is set |
| Anchor.HasDuplicateMembers | src/protocol/committee.rs:54-59 | the scan with a set finds a duplicate exactly when there is one |
| Anchor.NewIsCoherent | src/protocol/committee.rs:114-137 | `new` accepts a committee if and only if 1 <= t <= N <= 2048 and its keys are distinct, keeps it as it is, and caches its own encoding's fingerprint |
| Anchor.DecodedIsCoherent | src/protocol/committee.rs:203-267 | a decoded anchor has the same, and re-encodes to the bytes it came from |
| Anchor.DecodeOfEncode | src/protocol/committee.rs:203-267 | every such anchor decodes from its encoding with equal fields and fingerprint |
| Anchor.AcceptsExactly | src/protocol/committee.rs:203-267 | a byte string decodes to an anchor if and only if the anchor is coherent and these are its bytes |
| Anchor.AnchorWireForm | src/protocol/committee.rs:203-267 | an anchor's bytes: the offset 16, the threshold, the first slot, then key after key |
| Anchor.FingerprintBinds | src/protocol/committee.rs:71-98 | one fingerprint names one committee, or here is a SHA3-256 collision |
| Statement.NewDomain | src/protocol/status_list.rs:128-136 | feeding the hasher piece by piece digests the domain's framing |
| Statement.DomainLayout | src/protocol/status_list.rs:128-136 | what the domain digests, byte by byte: the 46 context characters, format number 2, the algorithm tag, the fingerprint |
| Statement.StatusListMessage | src/protocol/status_list.rs:144-154 | streaming the entries in a loop digests the one framed statement |
| Statement.MessageLayout | src/protocol/status_list.rs:144-154 | what a member signs the digest of, byte by byte: the 47 context characters, the domain, version and entry count in little-endian bytes, each entry in its place |
| Statement.SlotExactly | src/protocol/committee.rs:197-199 | the slot of a version is genesis + version, exactly while that fits 32 bits; two versions of one anchor never share a slot |
| Statement.MessagePreimageInjective | src/protocol/status_list.rs:144-154 | the framing can be read back: domain, version and list are determined by it |
| Statement.MessageBinds | src/protocol/committee.rs:283-294 | one signed message is about one committee, list and version, or a BLAKE2s or SHA3 collision is at hand |
| Signers.SetSigners | src/protocol/status_list.rs:306-313 | the loop sets exactly the bits of the given indices |
| Signers.PairsRoundTrip | src/protocol/status_list.rs:286-355 | the bitmap's indices zipped with the signatures are the sorted input pairs |
| Signers.PairsFaultExactly | src/protocol/status_list.rs:293-304 | pairs are refused exactly when an index repeats or is out of range, and as duplicate exactly when one repeats |
| Signers.OrderIrrelevant | src/protocol/status_list.rs:293-304 | any two orders of the same pairs get the same verdict and the same sorted form |
| Signers.IndicesInRange | src/protocol/status_list.rs:350-355 | the indices a bitmap yields ascend and are below its length |
| StatusList.New | src/protocol/status_list.rs:286-321 | the constructor with its loop builds what the sorted pairs determine, error by error |
| StatusList.ConstructedExactly | src/protocol/status_list.rs:286-355 | a record is built exactly from distinct members of a committee of at most 2048, carries a permutation of its input, and the list and version it was given |
| StatusList.ArrivalOrderIrrelevant | src/protocol/status_list.rs:286-321 | the order signatures arrive in does not change the record |
| StatusList.RawDecodesExactly | src/protocol/status_list.rs:362-398 | a constructible record decodes from its bytes if and only if its last offset, 17 plus the list and the bitmap, fits 32 bits |
| StatusList.RawDecodeOfEncode | src/protocol/status_list.rs:362-398 | every constructible record that has an encoding decodes from it |
| StatusList.RawEncodeOfDecode | src/protocol/status_list.rs:362-398 | an accepted byte string re-encodes to itself although nothing checks it, its indices are in range, its population is its signature count, and `new` builds the same record |
| StatusList.RawAcceptsExactly | src/protocol/status_list.rs:362-398 | a byte string decodes to a record if and only if the record is constructible, these are its bytes and its last offset fits |
| StatusList.RawEncodesExactly | src/protocol/status_list.rs:362-398 | a constructible record has an encoding by the standard if and only if its computed size fits 32 bits |
| StatusList.RawWireForm | src/protocol/status_list.rs:33-42 | a raw record's bytes: tag 1, the three absolute offsets with the version among them, then entries, bitmap and signatures |
| StatusList.SnarkDecodesExactly | src/protocol/status_list.rs:224-247 | a SNARK record does if and only if 13 plus its list fits 32 bits, whatever its proof |
| StatusList.OverlongInputDecodes | src/protocol/status_list.rs:236-247 | an input longer than the standard allows that decodes |
| StatusList.SnarkDecodeOfEncode | src/protocol/status_list.rs:224-247 | every SNARK record that has an encoding decodes from it |
| StatusList.SnarkEncodeOfDecode | src/protocol/status_list.rs:224-247 | an accepted byte string re-encodes to itself |
| StatusList.SnarkAcceptsExactly | src/protocol/status_list.rs:224-247 | a byte string decodes to a SNARK record if and only if these are its bytes and its last offset fits |
| StatusList.SnarkWireForm | src/protocol/status_list.rs:44-52 | a SNARK record's bytes: tag 1, two absolute offsets with the version between them, then entries and proof |
| Verifiers.RawExactly | src/node/raw_verifier.rs:66-125 | a record built from pairs in any order verifies if and only if it was built for this N, has t pairs, genesis + version is a 32-bit slot, and each signature is good under its own member's key at that slot |
| Verifiers.SnarkProvesQuorum | src/node/snark_verifier.rs:48-99 | a proof is accepted if and only if its bytes are the one encoding of a statement that proves: that some quorum of at least t distinct members, named by exactly its keys, signed the record's message at slot genesis + version |
| Verifiers.FormsDecideAlike | src/node/snark_verifier.rs:48-99 | over an ideal aggregate of a raw record's named keys, both predicates give the same verdict, version overflow included |
| Agreement.OneMessagePerSlot | src/node/signer.rs:136-154 | a member that signs only through its counter signs one message per slot |
| Agreement.QuorumOf | src/node/raw_verifier.rs:66-125 | an accepted record of either form stands on t distinct members who signed its message at its slot |
| Agreement.AcceptedListsAgree | src/protocol/committee.rs:197-199 | with 2t > N two accepted records of either form at one version carry one list, or two statements with one digest are at hand |
| Nodes.Advance | src/node/mod.rs:48-54 | the three outcomes and the mark they leave |
| Nodes.RawNode.Accept | src/node/raw_node.rs:41-53 | the outcome as a function of the bytes' verdict and the mark; only a verified, newer, persisted version moves anything |
| Nodes.SnarkNode.Accept | src/node/snark_node.rs:61-69 | the same over the SNARK form |
| Nodes.AcceptedStandOnQuorums | src/node/raw_node.rs:41-53 | in every life of a relying party accepted versions strictly increase and each stands on a quorum that signed that list and version |
| Nodes.PartiesAgree | src/node/snark_node.rs:61-69 | any two relying parties, whatever forms they read and whenever, that accepted one version accepted one list, short of a collision |
| CommitteeNode.Node.OnProposal | demo/src/bin/signer.rs:229-328 | signs if and only if the cell read is empty and the version is 0, or the bytes read decode to v and the version is v + 1, and the counter grants slot genesis + version; the signature is of that list and version at that slot; when each abstention is given, and that it signs nothing |
| CommitteeNode.NextVersionExactly | demo/src/bin/signer.rs:247-267 | the next version is 0 over an empty cell and v + 1 over a record that decodes to v; an unreadable record has none |
| CommitteeNode.PolicyExactly | demo/src/bin/signer.rs:240-292 | a member's check passes for the next version and no other, at slot genesis + version |
| CommitteeNode.Node.CollectSignatures | demo/src/bin/signer.rs:510-585 | the loop keeps the first t arrivals that verify; there is no answer when the version has no slot |
| CommitteeNode.CountedAreGood | demo/src/bin/signer.rs:555-584 | what is counted arrived, verifies and is distinct, and below t nothing good was missed |
| CommitteeNode.CountedInOrder | demo/src/bin/signer.rs:555-584 | what counts are the first good arrivals, in order: a good one is passed over only after t others |
| CommitteeNode.Node.BuildRecord | demo/src/bin/signer.rs:592-656 | the published bytes are the form's encoding of the quorum; a missing prover and a panicking aggregation are told apart |
| CommitteeNode.RawBuildsExactly | demo/src/bin/signer.rs:598-618 | a good quorum becomes a raw record if and only if there is room for it; the record holds its list, version and exactly its signatures |
| CommitteeNode.SnarkBuildsExactly | demo/src/bin/signer.rs:619-653 | a SNARK record is built if and only if there is a prover, it returns, and the proof fits; it panics exactly when a prover does not return |
| CommitteeNode.QuorumRecordVerifies | demo/src/bin/signer.rs:592-656 | whatever arrived, a record built from the quorum counted authenticates its list and version under the anchor |
| CommitteeNode.Node.OnStatusRequest | demo/src/bin/signer.rs:342-501 | what is published verifies, to every relying party of the anchor, as the next version of the list read followed by the entry issued, or without the entry revoked, every other entry kept in order and number; when a request publishes and when it panics, the lock poisoned by an earlier panic included |
| CommitteeNode.Node.RoundExactly | demo/src/bin/signer.rs:366-501 | in terms of the list and version read: a round panics if and only if a fresh credential is already listed, or the changed list has no slot, or its prover crashes; it has bytes to publish if and only if the changed list is built at slot genesis + version |
| CommitteeNode.NoSlotExactly | demo/src/bin/signer.rs:372-395 | the version after an authentic record lacks a slot if and only if the record sits at the last 32-bit slot and is not of the last version |
| CommitteeNode.Node.PanicsAfterLastSlot | demo/src/bin/signer.rs:515-518 | after a record at the last slot every issuance and every revocation of a listed credential panics its round |
| CommitteeNode.LastSlotReachable | demo/src/bin/signer.rs:515-518 | an anchor and a record every relying party accepts, after which every new credential's round panics |
| Snapshot.EditedExactly | demo/src/vc.rs:53-71 | each outcome of a request on a list: an unlisted entry is appended, a listed one revoked is taken out wherever it stands, issuing a listed entry clashes, revoking an unlisted one is refused |
| Snapshot.WithoutRetains | demo/src/vc.rs:66-71 | a revocation keeps every other entry, in its order |
| Snapshot.RetainsOnce | demo/src/vc.rs:66-71 | and that is the only list it may leave |
| Snapshot.RevokedIsAbsent | demo/src/vc.rs:66-71 | after a revocation the entry is absent, every other one is listed if and only if it was, as often as it was |
| MlDsa.RecordLenExact | mldsa/src/status_list.rs:111-117 | the length computed in 64-bit arithmetic is the encoded length for all sizes whose bitmap addition does not wrap, and none when the total does not fit |
| MlDsa.New | mldsa/src/status_list.rs:146-187 | the constructor builds what its sorted pairs determine, error by error |
| MlDsa.ConstructedExactly | mldsa/src/status_list.rs:146-187 | a record is built if and only if the committee is in bounds, its signers are distinct members and its encoding is within the byte limit |
| MlDsa.ConstructedDecodes | mldsa/src/status_list.rs:146-277 | everything `new` accepts encodes within the byte limit and decodes to the same record |
| MlDsa.DecodedIsConstructed | mldsa/src/status_list.rs:241-277 | everything decoded re-encodes to its own bytes and is a record `new` builds |
| MlDsa.ReencodingIsRedundant | mldsa/src/status_list.rs:254-256 | the re-encoding check never fires |
| MlDsa.AcceptsExactly | mldsa/src/status_list.rs:241-277 | a byte string decodes to a record if and only if the record is well formed and these are its bytes, within the limit |
| MlDsa.WireForm | mldsa/src/status_list.rs:219-236 | a record's bytes: tag 2, the three absolute offsets with the version among them, then entries, bitmap and signatures |
| MlDsa.StatementInjective | mldsa/src/status_list.rs:62-78 | the statement determines anchor identifier, version and list, for lists of any length |
| MlDsa.StatementLayout | mldsa/src/status_list.rs:62-78 | the statement byte by byte: the 53 context characters, tag 2, the anchor identifier, the version, the list's offset, each entry in its place |
| MlDsa.AnchorIdLayout | mldsa/src/committee.rs:109-118 | what an anchor identifier digests: the 51 context characters, then the anchor's bytes |
| MlDsa.StatementBinds | mldsa/src/committee.rs:210-216 | one signed digest is about one committee, list and version, or a SHAKE256 or SHA3-384 collision is at hand |
| MlDsa.Validate | mldsa/src/committee.rs:67-95 | the scan and the checks find the first fault of an anchor |
| MlDsa.NewIsCoherent | mldsa/src/committee.rs:125-134 | `new` accepts a committee if and only if its threshold is valid and its keys are distinct and at most 2048, keeps it as it is, and gives it its own encoding's identifier |
| MlDsa.CommitteeDecodeOfEncode | mldsa/src/committee.rs:137-173 | every such anchor decodes from its encoding |
| MlDsa.CommitteeDecodedIsCoherent | mldsa/src/committee.rs:137-168 | a decoded anchor is coherent and re-encodes to its bytes, and no input is refused as non-canonical |
| MlDsa.CommitteeAcceptsExactly | mldsa/src/committee.rs:137-168 | a byte string decodes to an anchor if and only if the anchor is coherent and these are its bytes |
| MlDsa.CommitteeWireForm | mldsa/src/committee.rs:137-173 | an anchor's bytes: the offset 12, the threshold, then key after key |
| MlDsa.VerifyExactly | mldsa/src/verifier.rs:29-46 | a record built from pairs in any order verifies after its round trip if and only if it fits the committee, reaches the threshold and every signature is good |
| Scaling.VarianceDecomposes | tools/analyze_scaling.py:152-182 | between plus within is the total about the grand mean, degrees of freedom included; so the "pairs" squared error times n (n - 1) is the total of the pooled runs |
| Scaling.ReportExactly | tools/analyze_scaling.py:152-192 | every figure reported, by the equation that defines it: session means, mean squares, both other errors, F with its infinite and its missing case, the intraclass correlation with its floor at 0 |
| Scaling.CorrelationIsProportion | tools/analyze_scaling.py:183-191 | the intraclass correlation, when reported, lies in [0, 1] |
| Scaling.LeastSquares | tools/analyze_scaling.py:195-210 | every line's squared error is the fit's plus a term for its offset and one for its slope: the fit is least, and any other slope is strictly worse |
| Scaling.TrendIsLeastSquares | tools/analyze_scaling.py:195-216 | of what `trend` returns: a fit from three values on; the line through the reported mean with the reported slope has the least squared error of all lines, strictly less than any other slope; the reported error times (n - 2) and the spread is that error; lag1 times it is the sum of neighbouring products, and is missing exactly when it is zero |
| Scaling.ResidualsAreOrthogonal | tools/analyze_scaling.py:195-210 | residuals sum to zero and are orthogonal to the run order |
| Scaling.LagIsCorrelation | tools/analyze_scaling.py:211-215 | the lag-1 autocorrelation, when reported, lies in [-1, 1] |
| Holm.Adjust | tools/analyze_scaling.py:219-227 | the loop gives each known entry the running maximum at its rank and leaves the others none |
| Holm.AdjustedInRange | tools/analyze_scaling.py:219-227 | an entry is adjusted exactly if it is known, to a value in [0, 1] |
| Holm.AdjustedIsStepDown | tools/analyze_scaling.py:219-227 | at every level in [0, 1) the adjusted values at or below it are exactly the step-down rejections |
| Holm.NoTrueNullRejected | tools/analyze_scaling.py:219-227 | if k true nulls all have p-values above alpha/k, none of them is adjusted to alpha or less |
| Holm.AdjustedIsClosedTest | tools/analyze_scaling.py:219-227 | an entry is adjusted to alpha or less if and only if the Bonferroni test rejects every set of known entries that contains it |

## Left out

- The cryptography itself: XMSS, ML-DSA, leanVM aggregation and the hash functions are foreign code, idealised as above.
- UTF-8 decoding is any function that reads ASCII as itself; Unicode whitespace follows the White_Space property.
- SlotProtocol: the window end passed to `create` and `open` is at most one bound, which may be the largest 32-bit slot.
- MlDsa.RecordLenExact: leaves out bitmaps within 8 of the largest 64-bit size, where the source's addition is unchecked; its caller refuses more than 2048 members first.
- One key per state path: foreign journals at one's own path are refused by the tag check but are not followed over runs.
- Unsynced bytes that a restarted process reads and a later power loss takes back: the durability contract excludes them.
- SlotCounter.AtomicSlotCounter.PersistNext: a torn image is one that reads as no record; a torn record with a passing checksum is the old or the new one.
- Members that sign outside their counter, or a round they did not check, are outside the claims about rounds.
- A signature that verifies for a round reached its aggregator as that member's answer to that round: request and reply share a connection.
- Federation.Federation.Ask: a federation's nodes are not restarted; crashes and restarts of members are steps of Rounds, whose theorems cover them.
- Liveness of rounds: slots burn on lost rounds, and progress is not promised.
- CommitteeNode.Node.BuildRecord: in the SNARK form a proof that is returned is the ideal aggregate of the quorum it was given; a record of 2^32 bytes or more counts as refused.
- CommitteeNode.Node.OnStatusRequest: credentials are their fingerprints, and publishing is one atomic replacement of the record cell.
- MlDsa.StatementInjective: the statement is built as a value; the buffer it is appended to is not modelled.
- ML-DSA one-statement-per-version: the crate documents that it does not enforce it.
- Anchor.NewIsCoherent: the constructor's panics are error results, in the order of its assertions.
- Scaling: square roots, the t, F and beta distribution functions and floating-point rounding; standard errors appear squared.
- TCP framing, addresses, timeouts, credential JSON, container scripts, reports, benchmarks, fixtures and plotting.
- `Display`, `is_newer`, `index_of`, `remaining` and plain accessors, which add one-branch facts.
