# Verified model of the verifyhash tamper-evidence engine

verifyhash seals files, datasets and agent sessions under Merkle roots, so that a later reader can
tell whether anything changed. This project models the parts that carry that promise and proves
what they are for:

- **the sorted-leaf Merkle tree** (`cli/hash.js`): tree, proofs, path-bound directory roots, streaming
  (`MerkleTree`, `MerkleTheorems`, `MerkleBinding`, `DirectoryRoot`, `Streaming`);
- **the ordered log** (`cli/journal-log.js`), with tree heads, audit paths and consistency proofs as in
  section 2.1 of RFC 6962 (`JournalLog`, `JournalTheorems`);
- **agent sessions** (`cli/core/agent-session.js`, `cli/agent.js`, `cli/agent-hook.js`): events, packets,
  redaction, growth between checkpoints, the transcript mapper (`AgentEvents`, `AgentPackets`,
  `PacketTheorems`, `AgentGrowth`, `Transcript`);
- **change sets, gates and signed bytes** (`cli/receipt.js`, `cli/evidence.js`, `cli/dataset.js`)
  (`ManifestDiff`, `DriftPolicy`, `DatasetProof`, `LicensePolicy`, `CanonicalBytes`);
- **idempotent delivery** (`cli/fulfill-webhook-http.js`) (`BodyReader`, `Delivery`);
- **commit and reveal** (`cli/claim.js` against `contracts/ContributionRegistry.sol`) (`CommitReveal`).

`Hashing`, `Text`, `Ordering`, `RuleOrder` and `Json` hold what these share: digests and their encodings,
UTF-16 and UTF-8, the stable sort, the order of policy reports, and JSON text.

## How collision resistance is stated

The hash is a parameter `h`, any function from byte strings to 32-byte values. No theorem assumes it
injective. Where a claim rests on collision resistance it reads "the claim, or `Clash(h, M)`": two
different messages **in the finite set M** have one digest. M is always named: the messages the prover
and the verifier really hash. Quantifying over all byte strings instead would say nothing, since some
collision always exists.

## Results worth knowing before reading

- A sorted-tree root fixes the *set* of leaves, not the multiset. `RootsAgreeExactly` says exactly when
  two lists share a root, `RootForgetsRepeats` gives a whole family of lists that do, and with the count
  the multiset is fixed after all (`RootAndCountFixMultiset`).
- `toPosixRel` drops one leading `./`. It is idempotent except on paths starting `././`, and "./p" and
  "p" are one leaf. "Two trees share a root iff they contain the identical set of files" therefore holds
  on normal-form paths (`RootsCommitToFiles`), and for seals over other paths the roots still fix the
  normalised paths and contents (`SharedRootSharesFiles`, `DotSlashSealsShareRoot`).
- Against a bare root, an inclusion proof gives membership but not position
  (`BareRootDoesNotFixPosition`); against a full head it gives both, and only the prover's own path
  is accepted (`InclusionIsSound`).
- A growth check from a head of size 0 accepts any root in that head; from any other head it accepts
  exactly the heads of prefixes (`ExtendsExactly`).
- Drift policies chain over A, B, C exactly when `noAdded` or `noRemoved` is set or neither `noChanged`
  nor `allowChangePaths` is (`PassesCompose`, `RemoveThenReAdd`).
- A manifest's MATCH and its per-file diff can disagree in both directions when the recorded root is not
  the root of the listed leaves (`IdenticalMatchesExactly`, `MatchWithoutIdentical`). When it is, an empty
  diff is exactly a MATCH over normal-form paths: a manifest that lists "./p" matches a directory holding
  "p" and still reports a removal and an addition (`MatchExactlyIdentical`, `DotSlashMatchesWithDiff`).
- `manifestDigest` is said to be the same for the same committed set. It keeps the hex spelling of the
  manifest, so that holds exactly where two manifests spell alike, as all that this program writes do
  (`SameValuesSameTextExactly`, `DigestOverValues`).
- A license file is created and then written. A write that breaks off leaves a torn file nothing repairs,
  and every redelivery of that event is a 500 from then on; a 200, once given, is given for good
  (`RedeliveryExactly`, `TornStaysTorn`, `RedeliveryIsIdempotent`).
- A license id is said to be distinct per customer, price and period. It carries the first 12 bytes of the
  dedup key, so it is distinct exactly as far as those are (`LicenseIdsAgreeExactly`); files go by the
  whole key (`KeysTellEventsApart`).
- The contract's comments speak of a commitment made by the revealing sender. A reveal in fact looks it
  up by its hash alone, so the registering sender can be someone else. The contributor of an author-bound
  record is still the account bound into the commitment, and it was on the chain more than
  `MIN_REVEAL_DELAY` blocks earlier (`AuthorBoundWasCommitted`, `RegistrarNeedNotBeContributor`,
  `RegisteredByContributorExactly`).
- The client's comments say the committed claimant wins and front-running cannot redirect the record. A
  copied *reveal* indeed comes too late (`CopiedRevealComesTooLate`). But the hash goes to its first writer
  of any kind: a plain anchor ahead of the reveal takes it, without author-bound attribution
  (`FirstWriterWins`).

Methods carry the loops and the in-place state of the source and are proved against functions or
against the property itself; the lemmas are about those functions.

## Model

| member | source | states |
|---|---|---|
| MerkleTree.BuildTree | cli/hash.js:225-249 | refuses zero leaves; otherwise returns the layers of the ascending, tagged leaves, each the pairing of the one below with the lone node paired with itself; the roots over one and two leaves are given in bytes, smaller digest first |
| MerkleTree.TreeInBytes | cli/hash.js:225-249 | every level of a tree in bytes: tagged leaves, levels half as long rounded up, each node the tag, the smaller child and the larger |
| Hashing.ClashExactly | cli/hash.js:30-35 | the "or two messages collide" of the results below is exactly a failure of the hash to tell the named messages apart: without one the claims are plain |
| Hashing.WordIsNumber | cli/hash.js:167-179 | digests are compared as the numbers their 32 bytes stand for, most significant byte first |
| MerkleTree.ProofForIndex | cli/hash.js:267-279 | one sibling per level, in range at every level including lone odd nodes |
| MerkleTree.FoldProof | cli/proof.js:280-285 | folding a tagged leaf through a proof, pair by sorted pair, as the on-chain verifier does; with one sibling the result is in bytes the node tag, the smaller and the larger digest |
| MerkleTheorems.DepthIsLeast | cli/hash.js:212-217 | the depth is the least d with 2^d >= n |
| MerkleTheorems.ProofsAreComplete | cli/hash.js:251-279 | every generated proof folds to the root and has full depth for every leaf, whatever the number of leaves |
| MerkleTheorems.ProofsAreSound | cli/hash.js:163-179 | any proof of any length that folds a candidate to the root is the prover's own proof of a real leaf, with exactly the tree's depth, or two hashed messages collide |
| MerkleTheorems.NodeIsNoLeaf | cli/hash.js:105-107 | an interior node's value never passes as a tagged leaf |
| MerkleTheorems.ProofNotTooShort | cli/hash.js:203-217 | no accepted proof stops below the leaves |
| MerkleTheorems.ProofNotTooLong | cli/hash.js:203-217 | no accepted proof reaches below the leaves |
| MerkleBinding.RootsAgreeExactly | cli/hash.js:225-249 | two lists share a root exactly when padding with lone-node copies gives one and the same tree |
| MerkleBinding.RootFixesSet | cli/hash.js:203-249 | equal roots mean equal sets of leaves |
| MerkleBinding.RootForgetsRepeats | cli/hash.js:212-217 | the multiset is not fixed: repeating the largest leaf of any odd list of three or more keeps the root |
| MerkleBinding.RootAndCountFixMultiset | cli/hash.js:203-249 | equal roots over equally many leaves mean equal multisets |
| MerkleBinding.RootForgetsOrder | cli/hash.js:37-40 | the root does not depend on the order of its input |
| DirectoryRoot.NormalisingIsNotIdempotent | cli/hash.js:121-130 | normalising twice differs from once exactly on paths that start with "././" |
| DirectoryRoot.PathMessageInjective | cli/hash.js:132-152 | there is exactly one (path, content digest) split of a leaf preimage |
| DirectoryRoot.PathLeafInBytes | cli/hash.js:132-152 | a path leaf in bytes: the hashed domain string, the path without one leading "./", a zero byte, the content digest |
| DirectoryRoot.ListingInFull | cli/hash.js:405-417 | the listing holds exactly one triple per file under its normalised path, ascending by leaf; one file's root is its tagged leaf |
| DirectoryRoot.PathLeavesAgree | cli/hash.js:149-152 | leaves agree exactly on equal normalised paths with equal content |
| DirectoryRoot.RootIgnoresEnumeration | cli/hash.js:385-417 | the directory root is independent of the order files are listed in |
| DirectoryRoot.RootsCommitToFiles | cli/hash.js:30-35 | two trees share a root iff they hold the same files at the same paths with the same content |
| DirectoryRoot.ManifestIgnoresEnumeration | cli/hash.js:405-417 | root and leaf-sorted manifest are both independent of enumeration |
| Streaming.HashFileStream | cli/hash.js:87-103 | for any pattern of short reads into the reused buffer the digest is that of the whole file |
| Streaming.HashDirStream | cli/hash.js:336-368 | streaming gives the root and the manifest of the one-shot computation |
| Streaming.StreamedEqualsOneShot | cli/hash.js:317-329 | the streamed root is the one-shot root of the same tree in any enumeration order |
| JournalLog.ComputeXor | cli/journal-log.js:132-142 | the division-and-remainder loop computes the exclusive or of its inputs |
| JournalLog.XorIsBitwise | cli/journal-log.js:131-142 | which is bitwise: each bit is set exactly where the inputs differ |
| JournalLog.LargestPowerOfTwoLessThan | cli/journal-log.js:155-159 | the doubling loop finds the split point |
| JournalLog.SplitPointUnique | cli/journal-log.js:154-159 | the split point is the only power of two strictly below n with n at most its double |
| JournalLog.HeadsInBytes | cli/journal-log.js:161-191 | the heads of the logs of up to three entries in bytes, from which tags, split and order are plain |
| JournalLog.ProversInFull | cli/journal-log.js:209-353 | the provers refuse exactly the indices and sizes out of range, and a proof names the leaf, index and sizes it is for |
| JournalLog.IterDirsShape | cli/journal-log.js:262-272 | the inner run and border the verifier computes are the bit-by-bit walk from the leaf |
| JournalLog.RootFromInclusionPath | cli/journal-log.js:262-272 | nothing on inconsistent shapes, else the root the path implies |
| JournalLog.VerifyInclusion | cli/journal-log.js:293-313 | accepts exactly when the size is bound and the implied root is the trusted one |
| JournalLog.ShiftedInner | cli/journal-log.js:405-410 | stripping the trailing zeros of the older size before or after the decomposition is the same |
| JournalLog.SeededExactly | cli/journal-log.js:412-422 | the older root seeds both folds exactly when the older size is a power of two |
| JournalLog.VerifyConsistency | cli/journal-log.js:374-438 | the two-fold verifier decides exactly the stated condition on sizes, path and roots; equal sizes need an empty path and equal roots, an empty older log only an empty path |
| JournalTheorems.PathSidesAreIterDirs | cli/journal-log.js:44-46 | top-down recursion and bottom-up index arithmetic walk the same way for every leaf of every tree |
| JournalTheorems.SubSidesAreConsistencyDirs | cli/journal-log.js:44-46 | likewise for consistency proofs between any two sizes |
| JournalTheorems.InclusionIsComplete | cli/journal-log.js:209-228 | every generated inclusion proof verifies against the full head |
| JournalTheorems.InclusionIsSound | cli/journal-log.js:274-313 | whatever is accepted against a full head is the generator's proof of the entry at that index |
| JournalTheorems.BareRootGivesMembership | cli/journal-log.js:284-288 | against a bare root an accepted leaf is still an entry of the log |
| JournalTheorems.BareRootDoesNotFixPosition | cli/journal-log.js:284-288 | but its position is not bound: the last of any three entries passes as entry 1 of 2, and the full head refuses it |
| JournalTheorems.HeadBindsOrderedLog | cli/journal-log.js:161-175 | equal roots mean the same entries in the same order |
| JournalTheorems.ConsistencyIsComplete | cli/journal-log.js:337-353 | every generated consistency proof verifies |
| JournalTheorems.OwnProofDecides | cli/journal-log.js:320-353 | the later log's own proof accepts any head of one of its prefixes |
| JournalTheorems.ConsistencyIsSound | cli/journal-log.js:355-366 | an accepted proof, with any path at all, shows the older root to be the head of a prefix of the later log |
| JournalTheorems.ConsistencyMeansPrefix | cli/journal-log.js:355-366 | accepted between two known logs means one extends the other |
| Json.ReadEscaped | cli/core/agent-session.js:344-361 | reading a JSON string back undoes escaping (section 7 of RFC 8259), for every string including lone surrogates |
| Json.EscapeUnitInFull | cli/core/agent-session.js:344-361 | how each code unit is written: seven short escapes, lower-case \u for other controls and lone surrogates, itself otherwise |
| Json.ReadPrintedArray | cli/core/agent-session.js:344-361 | no two scalar arrays share a JSON text |
| Json.HexInjective | cli/hash.js:160-165 | 0x hex text identifies its digest |
| Text.Utf8Injective | cli/core/agent-session.js:205-225 | the UTF-8 bytes identify the string |
| Text.PointBytesInFull | cli/core/agent-session.js:205-225 | the byte patterns of UTF-8 and the code point in them (section 3 of RFC 3629) |
| Text.TextLeFirstDifference | cli/dataset.js:1369-1371 | the string comparison is by first differing code unit, a proper prefix first |
| AgentEvents.AcceptedShapes | cli/core/agent-session.js:231-245 | exactly two shapes of event are accepted: full, with any carried commitment equal to the payload's, and redacted, with commitment and explicit flag |
| AgentEvents.FirstFailingCheck | cli/core/agent-session.js:252-324 | a rejected event carries the reason of the first check that fails, in the source's order, and an event that fails none is sound |
| AgentEvents.LeafInFull | cli/core/agent-session.js:344-361 | the leaf hashes this JSON text over the event's own fields, the payload showing only as the hash of its UTF-8 |
| AgentEvents.EventBytesInjective | cli/core/agent-session.js:330-361 | the leaf preimage binds seq, ts, actor, type, payload commitment and canonical meta, each unambiguously |
| AgentEvents.TwinKeepsBound | cli/core/agent-session.js:363-390 | the redacted twin holds the commitment and the flag instead of the payload and is otherwise the event; it is sound, has the leaf of its event, and redacting again changes nothing |
| AgentEvents.TwinsAgreeExactly | cli/core/agent-session.js:363-390 | twins are equal exactly when the bound fields are |
| AgentEvents.ValidateSession | cli/core/agent-session.js:404-418 | accepts exactly sound events numbered from 0 without a gap, else locates the first fault and its reason |
| AgentEvents.DisclosureIsComplete | cli/core/agent-session.js:449-480 | every disclosure proof verifies, for the event as held and for its redacted twin |
| AgentEvents.DisclosureInFull | cli/core/agent-session.js:449-517 | an accepted disclosure carries its own seq as leaf index, in range of the bound size; the prover refuses exactly bad sessions and indices |
| AgentEvents.DisclosureIsSound | cli/core/agent-session.js:482-517 | a disclosure accepted against a session head agrees with the session's own event at that seq, on every bound field and on the payload where both show it |
| AgentPackets.BuildPacket | cli/agent.js:304-337 | seals exactly the valid sessions into the canonical packet, else gives the first located fault |
| AgentPackets.VerifyPacket | cli/agent.js:484-590 | accepts exactly when events, leaves, head, counts and signed head all check out, and a reject carries the first check that fails, each signing reason by its own condition |
| AgentPackets.SigningFaultExactly | cli/agent.js:535-575 | each signing reason by its own condition; without one the packet is unsigned and unpinned, or signed over its own head by the claimed and pinned signer |
| AgentPackets.WithheldExactly | cli/agent.js:525-528 | the withheld list is exactly the seqs of redacted events, ascending |
| PacketTheorems.SealedVerifies | cli/agent.js:292-337 | whatever is sealed verifies and carries every event's leaf |
| PacketTheorems.RedactionKeepsAcceptance | cli/agent.js:1209-1234 | redacting an accepted packet gives an accepted packet, under the same signer pin, with the same leaves, head and still-bound head attestation |
| PacketTheorems.RedactionWithholdsExactly | cli/agent.js:1212-1223 | only the requested payloads are gone; every event still binds what it bound |
| PacketTheorems.WithheldGrows | cli/agent.js:1224-1236 | the withheld seqs are the old ones and the requested ones, and full + redacted = events |
| PacketTheorems.RedactTwice | cli/agent.js:1209-1234 | redacting S and then T is redacting their union: the same packet |
| PacketTheorems.RedactionsCommute | cli/agent.js:1209-1234 | in either order |
| PacketTheorems.RunIsOneRedaction | cli/agent.js:1209-1234 | any run of redactions is one redaction of all that was asked for |
| PacketTheorems.RunKeepsAcceptance | cli/agent.js:1209-1234 | after any run the packet is accepted for the same head and leaves |
| PacketTheorems.RunRedact | cli/agent.js:1191-1234 | refuses what does not verify or is out of range, and never takes the branches called unreachable and defensive |
| PacketTheorems.HideButNeverAlter | cli/agent.js:484-533 | two accepted packets with one root have the same length and agree at every seq on ts, actor, type, meta and commitment, and on the payload wherever both disclose it |
| PacketTheorems.SameBoundsSameHead | cli/core/agent-session.js:420-443 | conversely, equal bound fields give one head |
| PacketTheorems.PinFailsClosed | cli/agent.js:478-479 | a pinned verify accepts exactly the sound packets signed over their own head by the pinned vendor; a stripped signature never passes it |
| PacketTheorems.SignedHeadFixesSession | cli/agent.js:542-551 | one signed head never stands for two sessions |
| PacketTheorems.PayloadTamperIsLocated | cli/agent.js:501-507 | a changed payload in a sealed packet is rejected at its own seq, by the commitment check |
| PacketTheorems.EventTamperIsLocated | cli/agent.js:508-516 | a changed bound field is rejected at its own seq, by the leaf check |
| AgentGrowth.RunVerifyGrowth | cli/agent.js:1662-1701 | accepts exactly when the later packet verifies and extends the earlier head; a smaller later packet is a range fault |
| AgentGrowth.ExtendsExactly | cli/agent.js:1669-1697 | the heads accepted are the heads of prefixes and any head of size 0 |
| AgentGrowth.GrowthMeansPrefix | cli/agent.js:1662-1701 | growth decided on whole packets: exactly the heads of prefixes of an accepted packet |
| AgentGrowth.GrowthKeepsEvents | cli/agent.js:1649-1652 | accepted growth from a packet keeps every event of it at its seq |
| AgentGrowth.GrowthComposes | cli/agent.js:1662-1701 | growth from A to B and from B to C gives growth from A to C, and C starts with every event leaf of B |
| AgentGrowth.ChainsAreAppendOnly | cli/agent.js:1662-1701 | over a chain of checkpoints of any length the last packet starts with the leaves of each before it |
| AgentGrowth.ChainsKeepEvents | cli/agent.js:1649-1652 | and over the whole chain no event of an earlier packet was rewritten, reordered, dropped or displaced: bound fields agree at every seq, and payloads wherever both show them |
| AgentGrowth.GrowthSurvivesRedaction | cli/agent.js:1662-1701 | redacting the packets, any number of times, changes no growth decision |
| AgentGrowth.AppendingGrows | cli/agent.js:1662-1701 | a session grown by appending events is always accepted as growth |
| Transcript.MapLine | cli/agent-hook.js:128-160 | a line that is no mappable message is skipped and counted; a text becomes one event and blocks become exactly the kept ones in order, each with the actor, type, payload and metadata of its kind and the line's role, at the line's time; the rest is counted |
| Transcript.DraftsSaidBy | cli/agent-hook.js:133-153 | a user line yields prompts by the user and results by its tools, an assistant line completions and tool calls by the assistant, all at the line's time |
| Transcript.BlocksTranscribed | cli/agent-hook.js:142-158 | exactly the kept blocks, in order, one event each; a block is kept by its kind and the line's role alone |
| Transcript.LinesExactly | cli/agent-hook.js:174 | splitting in three facts: no line holds a line feed, a text without one is one line, and a line feed ends a line with at most one carriage return |
| Transcript.MapTranscriptText | cli/agent-hook.js:171-187 | the events are the lines' contributions laid end to end and numbered from 0, a blank or unparsable line contributing nothing; each non-blank line is malformed, skipped or mapped and pieces of content are conserved |
| Transcript.AppendingExtends | cli/agent-hook.js:171-187 | appending whole lines extends the events and changes none |
| Transcript.MappedSessionSeals | cli/agent-hook.js:171-187 | the mapped session seals exactly when no payload holds a lone surrogate |
| Transcript.GrowingTranscriptGrows | cli/agent-hook.js:171-187 | a transcript sealed again after growing by whole lines is accepted growth of the earlier seal |
| ManifestDiff.DiffManifest | cli/receipt.js:550-589 | the four lists hold exactly the added, removed, changed and unchanged paths of the two last-entry-wins maps, each in path order |
| ManifestDiff.LastEntryWins | cli/receipt.js:550-557 | a later entry for a path replaces an earlier one |
| ManifestDiff.DiffIsDetermined | cli/receipt.js:550-589 | the change set depends on the maps alone, not on entry order |
| ManifestDiff.IdenticalExactly | cli/receipt.js:581-588 | identical means the same paths with the same leaves |
| ManifestDiff.DiffCountsBothSides | cli/evidence.js:366-371 | nothing is lost or counted twice on either side |
| ManifestDiff.SealCounts | cli/evidence.js:366-371 | for seals, each file count is unchanged + changed + removed, respectively added |
| ManifestDiff.IdenticalSealsShareRoot | cli/evidence.js:1756-1761 | the state the renderer calls unreachable is: no two valid seals have an empty change set and different roots |
| ManifestDiff.SharedRootSharesFiles | cli/core/packetseal.js:399-449 | equal roots of valid seals mean the same content at the same normalised paths |
| ManifestDiff.IdenticalExactlySharedRoot | cli/evidence.js:358-364 | against a seal over normal-form paths the change set is empty exactly when the roots are equal and the other seal's paths are in normal form |
| ManifestDiff.DotSlashSealsShareRoot | cli/hash.js:128-152 | otherwise not: "./p" and "p" seal to one root with a non-empty change set |
| DriftPolicy.UnderPrefixIsSegmentAware | cli/evidence.js:527-540 | a prefix takes a path only at a segment boundary, and one trailing slash on it is moot |
| DriftPolicy.CountDriftRules | cli/evidence.js:520-525 | counts the flags that are set and the lists that are not empty |
| DriftPolicy.NoRulesPassAll | cli/evidence.js:404 | a policy with no rules passes everything |
| DriftPolicy.EvaluateDriftPolicy | cli/evidence.js:563-636 | refuses exactly an empty prefix; PASS exactly when the two path-to-content maps satisfy the policy: then every file of A under any frozen prefix is in B unchanged, and with an allow list every edited path is under one of its prefixes; the violations are exactly the broken rules, by path and then rule name |
| RuleOrder.StrictByKeyUnique | cli/evidence.js:622-626 | a report in strict order by path and rule name is fixed by the violations it holds |
| DriftPolicy.ReportIsDetermined | cli/evidence.js:418-419 | the violation list is fixed by the policy and the two file lists |
| DriftPolicy.FrozenPartSurvives | cli/evidence.js:412-414 | PASS keeps every file of A under any frozen prefix, and with only frozen paths set means exactly that |
| DriftPolicy.ViolationsInFull | cli/evidence.js:583-620 | the violations are what the rules say of each added, removed and edited path, one by one |
| DriftPolicy.FrozenListsAddUp | cli/evidence.js:603-618 | freezing two lists of prefixes is freezing each |
| DriftPolicy.PassesCompose | cli/evidence.js:563-636 | for the policies that chain, PASS on A to B and on B to C gives PASS on A to C |
| DriftPolicy.RemoveThenReAdd | cli/evidence.js:563-636 | every other policy has three valid seals that show it does not chain: an edit slipped in as a removal and an addition |
| DatasetProof.VerifyProof | cli/dataset.js:1239-1257 | CONFIRMED exactly when the leaf re-derives from path and content and folds to the recorded root; both legs are reported |
| DatasetProof.BuildDatasetProof | cli/dataset.js:1056-1139 | a member exactly when some entry has the file's content hash; every artifact is confirmed offline; an inconsistent manifest never yields one; the "not found in its own tree" failure is never reached |
| DatasetProof.ConfirmedIsListed | cli/dataset.js:1219-1226 | an artifact confirmed against a self-consistent manifest's root, whoever made it, names content the manifest lists at that path |
| DatasetProof.ConfirmedBytesAreInDataset | cli/dataset.js:1219-1226 | with the file in hand, the directory holds those very bytes at that path |
| DatasetProof.RunDatasetVerify | cli/dataset.js:245-284 | the verdict is recomputed root against recorded root; the diff is the change set and decides nothing |
| DatasetProof.MatchExactlyIdentical | cli/dataset.js:217-225 | for every self-consistent manifest the diff is empty exactly when the verdict is MATCH and every listed path is in normal form |
| DatasetProof.DotSlashMatchesWithDiff | cli/core/manifest.js:170-203 | the condition is needed: a self-consistent manifest may list "./p", and against a directory holding p it is a MATCH with a non-empty diff |
| DatasetProof.IdenticalMatchesExactly | cli/dataset.js:401-405 | on an empty diff, MATCH holds exactly when the manifest is self-consistent: an edited root disagrees |
| DatasetProof.MatchWithoutIdentical | cli/dataset.js:217-225 | the true root over any other valid file list is a MATCH with a non-empty diff; over normal-form paths such a manifest is never self-consistent |
| CanonicalBytes.ReadPrintedFiles | cli/dataset.js:1363-1376 | a reader undoes the canonical printer |
| CanonicalBytes.CanonicalInFull | cli/dataset.js:1363-1376 | the canonical text lists every committed triple once, strictly ascending by path, hints left out |
| CanonicalBytes.LayoutInFull | cli/dataset.js:1373-1376 | the compact layout of an entry, its three keys in fixed order |
| CanonicalBytes.CommasInFull | cli/dataset.js:1373-1376 | one more entry goes between a comma and the closing bracket |
| CanonicalBytes.CanonicalExactly | cli/dataset.js:1353-1376 | equal strings exactly for equal committed sets, whatever the entry order and hints |
| CanonicalBytes.DigestExactly | cli/dataset.js:1378-1387 | one committed set of texts has one digest, and any edit, rename, addition or removal changes it |
| CanonicalBytes.LowerSpelling | cli/dataset.js:1366-1368 | among the spellings of a digest, the lower-case one is the one the program writes |
| CanonicalBytes.SameValuesSameTextExactly | cli/dataset.js:1353-1376 | the same committed digests give the same bytes exactly when both manifests spell them alike |
| CanonicalBytes.DigestOverValues | cli/dataset.js:1378-1387 | over digest values, for manifests in lower case: the same committed set always yields the same digest, and any other set another |
| LicensePolicy.CountPolicyRules | cli/dataset.js:2677-2689 | counts the non-empty lists and the set requirement |
| LicensePolicy.EvaluatePolicy | cli/dataset.js:2710-2784 | PASS exactly when no file breaks an active rule; the violations are exactly the broken rules, each with the hint it broke on or the no-hint text, strictly by path and then rule name |
| LicensePolicy.ViolationsInFull | cli/dataset.js:2733-2769 | what each rule says of a file and which value it reports |
| LicensePolicy.FileOrderDoesNotShow | cli/dataset.js:2772-2776 | the verdict does not depend on the order of the files |
| LicensePolicy.TighteningOnlyAdds | cli/dataset.js:2710-2784 | longer deny lists and shorter, not emptied allow lists only add violations |
| LicensePolicy.ShrinkingAllowExactly | cli/dataset.js:2711-2714 | shrinking the licence allow list keeps every violation exactly when it is not emptied: an emptied list disables the rule |
| LicensePolicy.ShrinkingSourcesExactly | cli/dataset.js:2719-2722 | likewise for the source allow list |
| LicensePolicy.AggregateManifest | cli/dataset.js:590-621 | each histogram has a bucket per key that occurs, holding its count; hint counts are exact |
| LicensePolicy.BucketsSumToFiles | cli/dataset.js:591-593 | no file is dropped: the buckets sum to the file count |
| LicensePolicy.NoHintBucketExactly | cli/dataset.js:549-558 | the bucket of any real hint holds the files with that hint; the no-hint bucket is exact precisely when no hint is spelled like the sentinel |
| BodyReader.Reader.OnData | cli/fulfill-webhook-http.js:148-165 | at most the cap is ever held, and the stream is cut off once it is the drain limit past the cap |
| BodyReader.ReadBody | cli/fulfill-webhook-http.js:138-172 | the outcome depends on the bytes and on how the request ended, never on how the bytes are cut into chunks; 413 by status exactly past the cap and 4 MiB |
| Delivery.KeysTellEventsApart | cli/core/fulfill-intake.js:1016-1058 | different events get different dedup keys |
| Delivery.KeyInFull | cli/core/fulfill-intake.js:1027-1058 | the key hashes a JSON array of the event's own five fields in this order |
| Delivery.LicenseIdsAgreeExactly | cli/fulfill-webhook-http.js:257-264 | a license id is LIC- and the first 24 hex digits of the dedup key, so ids are distinct per (customer, price, period) exactly as far as its first 12 bytes are |
| Delivery.Server.BeginRequest | cli/fulfill-webhook-http.js:217-272 | the part before the await: 401 or 400 on a bad signature, 400 on an unparsable body, the existing file read back, else 422 exactly when the price is unbound or the paid period is over, else the request is parked |
| Delivery.Server.FinishRequest | cli/fulfill-webhook-http.js:274-307 | the part after it: sign, create exclusively and write, or read the winner back; creating and writing can fail apart |
| Delivery.Server.Restart | cli/fulfill-webhook-http.js:217-308 | a crash forgets the requests in flight and keeps the directory, whole and torn files alike |
| Delivery.RunsKeepInv | cli/fulfill-webhook-http.js:217-308 | over all interleavings and crashes each file stems from an authentic request about an event of its key, each 200 carries the licenseId of its event's whole file, and each whole file was created by exactly one answer, unless a crash ate that answer |
| Delivery.FilesNeverChange | cli/fulfill-webhook-http.js:282-292 | a delivered file is never changed or removed |
| Delivery.OneLicensePerEvent | cli/fulfill-webhook-http.js:258-260 | any two 200s for one event carry one licenseId |
| Delivery.LicenseSaysWhatWasPaid | cli/fulfill-webhook-http.js:257-268 | over all runs: a delivered license is for the customer and the bound plan of the authentic event that made it, from the moment of the request to the end of the paid period, which was still ahead |
| Delivery.FailuresDeliverNothing | cli/fulfill-webhook-http.js:223-294 | no failing answer delivers a license; a 4xx, a failed signing and a file that could not be created leave the directory as it was, and the only failure that does not is a write breaking off after the create |
| Delivery.RedeliveryExactly | cli/fulfill-webhook-http.js:201-208 | in any reachable state a redelivery gets the 200 on the spot exactly when the file under its key is whole, and a 500 exactly when it is torn |
| Delivery.TornStaysTorn | cli/fulfill-webhook-http.js:282-292 | a torn file is never repaired: every later redelivery is a 500 |
| Delivery.RedeliveryIsIdempotent | cli/fulfill-webhook-http.js:245-255 | once an event was answered 200, every later redelivery, across crashes and after the paid period, is answered 200 with that same licenseId and mints nothing |
| CommitReveal.CommitmentMessageInjective | cli/claim.js:115-142 | a commitment preimage binds content, committer and salt |
| CommitReveal.CommitmentLayout | cli/claim.js:129-142 | the preimage is content, committer and salt as numbers in three 32-byte words, in this order |
| CommitReveal.CopiedRevealMissesCommitment | cli/claim.js:15-18 | the commitment a copier of a reveal resolves to is not the one it was copied from |
| CommitReveal.CopiedRevealComesTooLate | contracts/ContributionRegistry.sol:343-353 | over all runs: a sender whose own commitment to the content and salt is not registered by the time a reveal can be copied succeeds with no such reveal until more than the delay has passed, whatever anyone does meanwhile |
| CommitReveal.CopiedRevealNeedsOwnCommitment | cli/claim.js:15-18 | a copied reveal that succeeds in that window opens the sender's own earlier commitment, never the one it was copied from |
| CommitReveal.Registry.DoCommit | contracts/ContributionRegistry.sol:328-339 | registers a non-zero commitment that is not on file, else reverts and changes nothing |
| CommitReveal.Registry.WriteRecord | contracts/ContributionRegistry.sol:448-507 | first writer wins and a parent must already be anchored |
| CommitReveal.Registry.DoReveal | contracts/ContributionRegistry.sol:394-418 | opens the sender's own aged commitment once, else reverts and changes nothing |
| CommitReveal.Registry.Execute | contracts/ContributionRegistry.sol:280-418 | every kind of transaction either takes its step or reverts without a trace |
| CommitReveal.RunsKeepInv | contracts/ContributionRegistry.sol:328-507 | in every reachable state each author-bound record rests on an aged commitment bound to its contributor, and the lineage has no cycle |
| CommitReveal.AuthorBoundWasCommitted | cli/claim.js:10-21 | a commitment to the content bound to the contributor was registered more than the delay before the record |
| CommitReveal.RecordsNeverChange | contracts/ContributionRegistry.sol:456-461 | first writer wins: through anything that happens later a record stays as it was written |
| CommitReveal.RegistrarNeedNotBeContributor | contracts/ContributionRegistry.sol:394-418 | the registering sender can be another account: a concrete run |
| CommitReveal.RegisteredByContributorExactly | contracts/ContributionRegistry.sol:394-418 | it is the contributor exactly when the commitment on file names the revealing sender |
| CommitReveal.OpeningIsSingleUse | contracts/ContributionRegistry.sol:414-415 | the same opening finds no commitment the second time |
| CommitReveal.DelayIsOneBlock | contracts/ContributionRegistry.sol:394-418 | a commitment of block n can be opened from block n + 2 on and not before |
| CommitReveal.RunCommit | cli/claim.js:466-551 | the receipt records the block at which the commitment is on file |
| CommitReveal.WaitRevealWindow | cli/claim.js:386-406 | polling ends at the first block number past the window and not before |
| CommitReveal.RunReveal | cli/claim.js:578-667 | refuses a foreign signer, waits for the first block past the window, and sends the reveal, mined in some later state; when it succeeds the record is the committer's, author-bound, at the mining block, under the parent the receipt names |
| CommitReveal.WaitedRevealMeetsDelay | cli/claim.js:552-577 | once the receipt is written, the committer's reveal after the wait meets the delay rule whatever others did, and succeeds exactly when the content is not anchored and the parent is fine |
| CommitReveal.UnknownParentReverts | cli/claim.js:620-648 | a receipt whose parent nobody has anchored is refused with UnknownParent after the wait, and one that names its own content with SelfParent |
| CommitReveal.FirstWriterWins | cli/claim.js:18-21 | being first is part of that condition: whenever a reveal would succeed, a plain anchor of the hash by anyone would too, and the reveal after it reverts |

## Left out

- Real keccak256, SHA-256, HMAC and secp256k1: the hash, the signature check and signer recovery are parameters, total functions of their inputs.
- Hex spelling: digests are values. The source compares some hex case-insensitively and some exactly (verifyInclusion, verifyConsistency and packet heads expect lower case), so an upper-case spelling it would refuse is not distinguished here. `CanonicalBytes` alone keeps hashes as text, where spelling shows.
- Dynamic-type rejects of JavaScript: values that are not strings, not integers, not plain objects or carry unknown fields are outside the types used here.
- Canonicalisation of `meta` (`_canonicalJson` with its depth and node budget): an event carries its canonical text, or the fact that there is none.
- Kind, version and note strings of packets, seals, manifests and policies, and their serialisation other than `canonicalManifestFiles`.
- Back-slash separators in `toPosixRel`: paths are modelled on a host whose separator is already "/".
- Paths without a UTF-8 encoding: the source throws on them, the path type excludes them.
- JournalLog.VerifyConsistency: negative sizes with bare roots are not modelled; sizes are natural numbers.
- Floating-point limits of `Math.pow` in the bit helpers: sizes are unbounded here, so nothing is said of sizes beyond 2^53.
- JavaScript object keys in the histograms of `aggregateManifest` (a hint spelled like an inherited property): histograms are maps.
- `validatePolicy` of the licence policy, which refuses empty list entries before the evaluator sees them.
- Other processes on the output directory: the delivery model has one server at a time, a write is not seen half-done by another request, and the directory holds only files of its own.
- Signature recovery of a delivered license file on replay: a whole file holds the license that was written, a torn one is not readable.
- Reveals sent without waiting (`noWait`, or a receipt without a block number), chain-id guards, gas and reorganisations; block numbers stay below 2^64.
- `hashGit`, directory walking, argument parsing, rendering, exit codes, licence gating and everything in `einvoice/`: no hard invariant.
- `runAgentSeal`, `runAgentProve` and `commit-claim` command lines: their decisions are the modelled core calls.
