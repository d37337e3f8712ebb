# The attestation log, verified

A Dafny model of Vane's tamper-evident attestation log, from the hash tree to the HTTP handlers that publish proofs,
with machine-checked proofs of what the log promises to an auditor. `dafny verify dfyconfig.toml` checks everything.

The log works like this. Every attested action becomes a record; the record's hash is a leaf of a Merkle tree as in
RFC 6962. Appending a record commits, in one database transaction, the record and a signed tree head over all leaves so
far. Anybody can ask for a proof that one tree head extends another (consistency) or that a record is under a tree head
(inclusion). The central results are these.

- *The proof systems are exact* (`Rfc6962Proofs`). Provers recurse over leaves; verifiers see only sizes, sides and
  digests. Each verifier accepts the prover's output for every tree, and accepts nothing else.
- *The canonical text of a value determines the value* (`SignerProofs`, `ObjectGraph`). A parser undoes the printer; two
  values print alike exactly when they differ in key order only; on a heap with shared and circular references the
  printer prints the unfolded tree, or throws exactly when a cycle can be reached.
- *Every head handed out stays provable* (`LogRuns`, `LogSafety`, `LogWorld`, `Routes`). A state machine lets companies
  interleave, transactions fail, commit late or commit without an answer, and the process crash at any point. Along every
  run the stored heads cover exactly the first records, memory is a prefix of the store, and between any two heads, stored
  or published from memory, the later of which memory covers, the proof that the handler builds is accepted against the
  signed roots.
- *The queue makes appends of a company one after the other* (`KeyedQueue`, `QueuedAppends`). A second machine has no
  rule that keeps two calls apart; over every schedule the queue does, so what each log sees is a run of the first
  machine, and indices increase in the order of submission.
- *What is stored is what was attested* (`Attested`). Along every run each row holds what one append was asked to attest; a
  call returns its own record, and that record stays in the table for good.
- *The store accepts an append exactly when memory is up to date* (`LogProgress`), with what breaks and what cures it.
- *An accepted proof shows a logged record, as far as the hash determines it* (`RecordHash`, `PreimageTwins`, `Inclusion`,
  `IssuedHeads`, `Routes`). All that is asked of the head is that the CA signed it.
- The older padded tree (`LegacyMerkle`), the rate limiters (`SlidingWindow`, `RateLimit`, `IssuanceLimit`) and passport
  verification under several keys (`Passport`).

## How to read it

- The hash function is an arbitrary function parameter `H` from byte strings to 32 bytes; nothing is assumed about it.
  Soundness statements read "the conclusion holds, or this pair of byte strings collides": the pair is computed by an
  executable function (`RootEvidence`, `SubverifyEvidence`, `InclusionEvidence`, `ProofEvidence`, `LegacyEvidence`) from
  the data at hand.
- Signatures are an abstract `Scheme` of a signing and a verifying function. Where a result needs more, it says so:
  `KeyPair` (what is signed verifies), or that the message of the head at hand is among those the CA key has signed, which
  may be heads, issued or given up, and any messages that do not begin with the context of tree heads.
- JavaScript strings are sequences of 16-bit code units; `Buffer.from(s, 'utf8')` and the lenient
  `Buffer.from(s, 'hex')` are modelled unit by unit (`JsText`). Since hexadecimal decoding is lenient, proofs are unique
  as bytes, not as text.
- 32-bit shifts are modelled. The split-point loop ends exactly for sizes up to 2^30 (`SplitPoint.LoopEndsExactly`), so
  methods that run it require that much.
- Where the source goes through a list of checks, the list is written out (`Checks`), and the answer is proved to be that of
  the first check that fails. Formats are stated in bytes and in the program's own literals.
- Loops and updated fields of the source are loops and classes here; each such method is proved equal to a function, and
  the theorems are about that function.

Results that are negative, with the exact condition under which the code does meet the property:

- What an inclusion proof shows of a record is a JSON object whose index and timestamp go into the hashed text as they
  come, so a delegated record shares its preimage with two others: its payload can pass for a part of the timestamp, or
  its timestamp for a part of the index, and its delegation for the payload. Every valid proof of a delegated record is as
  valid for both, and for the second the index reported is wrong (`TwinsAreAccepted`). Who holds such a proof can tell.
  Beside a logged record with a clean timestamp, one that holds neither a bar nor a lone surrogate, the record shown is the
  logged one exactly when the text of its own index holds no bar and that of its own timestamp is clean
  (`PreimagePinsRecord`). An index that is a number, or whose text holds no bar, is the true position; the path alone
  always gives it (`AcceptedProofPinsRecord`). The verifier checks none of this. Who writes the log can tell too: with a
  plain ASCII timestamp, as the service writes, a record has a double exactly when it is delegated (`TwinIffDelegated`).
- The padded tree accepts proofs of the right height for every text cut from two neighbouring leaves written one after
  the other, and for no other text (`AcceptedTextIsCut`, `CutTextIsAccepted`); for texts of 64 characters those are the
  leaves. Shorter proofs are those of the nodes at the height where they begin, down to the empty one, which only the
  root has (`ShortProofsExactly`); longer ones open a leaf that is itself the hash of two texts (`LongProofsExactly`).
- The store accepts an append exactly when memory has every stored record and the INTEGER columns have room
  (`AppendAcceptedExactly`). A commit whose answer was lost leaves memory behind, and then no append succeeds while the
  process lives (`LostCommitFreezes`, `FrozenWhileAlive`). A restart helps exactly if it reads every record: loading with no
  append under way does (`LoadRevives`), and from then on the log takes appends for as long as every failure reported
  is a real one (`LiveRun`, `LiveAppends`). Safety is never affected.
- If a leftover transaction commits between the two reads of a restart, memory holds a head over a record that it does
  not have and is behind again (`RestartRace`); every request for an inclusion proof is then refused
  (`RaceRefusesEveryProof`). In general the inclusion route answers with a proof exactly when the head's size is at most
  the number of leaves read (`InclusionRouteHolds`), which after an undisturbed restart it always is.
- Heads are signed inside transactions that may fail. An accepted proof under a head that was signed shows a stored
  record of some company, or the one record of a transaction that was given up (`IssuedHeads.AcceptedProofIsLogged`).

Where the code and its documentation differ, the model follows the code. Lone surrogates are escaped, although section
3.2.2.2 of RFC 8785 requires an error. A passport is still valid at the very second `exp + leeway`, although
`src/passport/verify.ts:46-50` says it is valid only before. A request hash inside a passport is enforced even when the
caller supplies none, unlike the other constraints listed at `src/passport/verify.ts:20-25`.

## Model

| member | source | states |
|---|---|---|
| SplitPoint.SplitBounds | src/crypto/rfc6962.ts:44-48 | the split k of n leaves is a power of two with k < n <= 2k |
| SplitPoint.SplitUnique | src/crypto/rfc6962.ts:44-48 | no other power of two satisfies those bounds |
| SplitPoint.SplitOfPrefix | src/crypto/rfc6962.ts:64-80 | if k < m <= n, where n splits at k, then m splits at k too |
| SplitPoint.LargestPowerOfTwoLessThan | src/crypto/rfc6962.ts:44-48 | the doubling loop, under 32-bit shifts, finds the split for every n from 2 to 2^30 |
| SplitPoint.LoopEndsExactly | src/crypto/rfc6962.ts:44-48 | the loop's guard becomes false after some round if and only if n <= 2^30 |
| JsText.HexRoundTrip | src/crypto/rfc6962.ts:82-100 | lenient hexadecimal decoding undoes encoding |
| JsText.HexEncodeAt | src/crypto/rfc6962.ts:82-90 | two lowercase digits a byte, the high one first |
| JsText.HexDecodeExactly | src/crypto/rfc6962.ts:82-84 | lenient decoding reads the pairs of digits from the start, up to the first pair that is none |
| JsText.HexDigitsExactly | src/crypto/rfc6962.ts:82-84 | digits are those of either case and nothing else |
| JsText.IntTextMeans | src/crypto/sth.ts:39 | an integer in a template literal is a minus sign if it is negative, and its decimal digits without leading zeros |
| JsText.Utf8RoundTrip | src/crypto/signer.ts:138-143 | UTF-8 bytes determine a string without lone surrogates |
| Rfc6962.Cursor.NextNode | src/crypto/rfc6962.ts:245-250 | yields the next 32-byte node and advances, or fails at the end or on a node of another length |
| Rfc6962.SubverifyCursor | src/crypto/rfc6962.ts:257-275 | over the mutable cursor: the same two roots, cursor position and failures as the walk on values |
| Rfc6962.VerifyConsistencyHex | src/crypto/rfc6962.ts:204-238 | the verdict of the consistency verifier for all arguments, malformed ones included; what verdict that is, is stated by ConsistencyExact and AcceptedConsistencyShape |
| Rfc6962.VerifyInclusionHex | src/crypto/rfc6962.ts:152-175 | the bottom-up loop accepts exactly when the decoded path climbs from the leaf hash to the root; byte for byte by InclusionByNodes |
| Rfc6962Proofs.TreeHash | src/crypto/rfc6962.ts:33-57 | the tree hash in bytes: of nothing, of 0x00 and a leaf, and of 0x01, the left and the right root for any power of two k with k < n <= 2k, in this order |
| Rfc6962Proofs.AuditPathEquations | src/crypto/rfc6962.ts:126-142 | the audit path, from the leaf up, with the side of each sibling, as section 2.1.1 of RFC 6962 defines it |
| Rfc6962Proofs.ConsistencyProofEquations | src/crypto/rfc6962.ts:64-80 | PROOF and SUBPROOF as section 2.1.2 of RFC 6962 defines them |
| Rfc6962Proofs.ProofsExist | src/crypto/rfc6962.ts:118-190 | the provers refuse exactly the sizes and indices out of range |
| Rfc6962Proofs.RootPinsLeaves | src/crypto/rfc6962.ts:33-57 | equal roots mean equal lists of leaves, of whatever sizes, or a collision |
| Rfc6962Proofs.SubverifyComplete | src/crypto/rfc6962.ts:64-275 | run on the prover's output followed by anything, the cursor walk consumes exactly that output and returns MTH(D[..m]) and MTH(D) |
| Rfc6962Proofs.SubproofLength | src/crypto/rfc6962.ts:64-80 | a consistency proof has at most ceil(log2 n) + 1 nodes |
| Rfc6962Proofs.SubverifySound | src/crypto/rfc6962.ts:257-275 | a walk that ends in MTH(D) consumed exactly the prover's proof and rebuilt MTH(D[..m]), or a collision |
| Rfc6962Proofs.ConsistencyExact | src/crypto/rfc6962.ts:204-275 | for all 0 <= first <= n and the root of D: accepted if and only if the proof bytes are the prover's, none for first 0 or n, and the first root is MTH(D[..first]), for first n the text of the second root, and for first 0 anything; or a collision |
| Rfc6962Proofs.AcceptedConsistencyShape | src/crypto/rfc6962.ts:211-237 | whatever the roots, only 0 <= first <= second is accepted, with an empty proof where first is 0 or the sizes are equal, and else with two roots and nodes of 32 bytes, at most ceil(log2 n) + 1 of them |
| Rfc6962Proofs.ConsistencyComplete | src/crypto/rfc6962.ts:184-238 | for every 0 <= first <= n the prover's proof is accepted against the two roots |
| Rfc6962Proofs.AcceptedOlderTreeIsPrefix | src/crypto/rfc6962.ts:204-275 | the leaves of an accepted older tree are a prefix of the newer ones, or a collision |
| Rfc6962Proofs.ClimbAuditPath | src/crypto/rfc6962.ts:126-175 | the audit path of leaf i leads from its hash to the root |
| Rfc6962Proofs.AuditPathLength | src/crypto/rfc6962.ts:126-142 | an audit path has at most ceil(log2 n) nodes |
| Rfc6962Proofs.ClimbSound | src/crypto/rfc6962.ts:152-175 | a path that reaches the root is the audit path of the leaf that its sides encode, or a collision, although neither index nor size is known |
| Rfc6962Proofs.InclusionExact | src/crypto/rfc6962.ts:118-175 | accepted if and only if the path is valid and is the audit path of some i with D[i] the leaf, or a collision |
| Rfc6962Proofs.InclusionByNodes | src/crypto/rfc6962.ts:152-175 | on all arguments: without nodes the root is the leaf hash of 32 bytes; each node has the position left or right and 32 bytes, and is one hash of 0x01 and the two sides |
| Rfc6962Proofs.InclusionComplete | src/crypto/rfc6962.ts:118-175 | the proof made for any leaf is accepted against the root |
| Signer.CompareCodeUnits | src/crypto/signer.ts:129-136 | the loop returns less than zero exactly when the first text comes first: it is a proper prefix, or has the smaller unit where the two first differ; zero only for equal texts |
| Signer.BeforeExactly | src/crypto/signer.ts:127-136 | the order of the keys is that one |
| Signer.CodeUnitOrder | src/crypto/signer.ts:127-136 | that comparison is a strict total order |
| Signer.SerializeString | src/crypto/signer.ts:93-125 | the index loop, with its look-ahead for pairs, produces the quoted escape of every sequence of units |
| Signer.EscapeUnitExactly | src/crypto/signer.ts:95-121 | the text of every unit: the five short escapes, quote and backslash, four lowercase digits for other controls and lone surrogates, and the unit itself for all others |
| Signer.PlainExactly | src/crypto/signer.ts:93-125 | a text stands for itself between quotes if and only if it has no control, quote, backslash or lone surrogate |
| SignerProofs.StringRoundTrip | src/crypto/signer.ts:93-125 | unescaping recovers every sequence of UTF-16 units, lone surrogates included |
| SignerProofs.ParseCanonical | src/crypto/signer.ts:32-77 | a parser run on the canonical text of a value, whatever follows it, returns the value with sorted keys and the rest |
| SignerProofs.CanonicalKeysIncrease | src/crypto/signer.ts:58-68 | whoever reads canonical text finds the keys of every object, at every depth, in increasing order of code units |
| SignerProofs.FirstFault | src/crypto/signer.ts:38-86 | a value prints if and only if nothing in it is undefined, a function, a symbol, a BigInt or not finite; the error is that of the first such thing in the order of printing |
| SignerProofs.NumberCharacters | src/crypto/signer.ts:79-88 | the characters of which the text of a number is taken to consist |
| SignerProofs.JsonTokens | src/crypto/signer.ts:39-70 | the words and the punctuation of JSON |
| SignerProofs.CanonicalPrefixFree | src/crypto/signer.ts:32-77 | where a canonical text ends is determined by the text |
| SignerProofs.CanonicalOfSorted | src/crypto/signer.ts:57-69 | sorting every object first changes nothing |
| SignerProofs.IncreasingUnique | src/crypto/signer.ts:58 | a set of keys has one sorted order, so the choice of sorting algorithm does not matter |
| SignerProofs.SameIffSortedAlike | src/crypto/signer.ts:57-69 | values equal up to key order are exactly those with equal sorted forms |
| SignerProofs.CanonicalExact | src/crypto/signer.ts:32-77 | two values print alike if and only if they differ only in the order of object keys |
| SignerProofs.CanonicalWellFormed | src/crypto/signer.ts:90-125 | canonical text never holds an unpaired surrogate |
| SignerProofs.SignedBytesPinValue | src/crypto/signer.ts:138-159 | two values have the same signed bytes if and only if they differ only in key order |
| ObjectGraph.SerializeValue | src/crypto/signer.ts:38-77 | terminates on every heap, computes the traversal and leaves the ancestor set as it was on every exit |
| ObjectGraph.SerializeElements | src/crypto/signer.ts:53-56 | the same for the elements of an array, stopping at the first that throws |
| ObjectGraph.SerializeProperties | src/crypto/signer.ts:57-69 | the same for the sorted properties of an object |
| ObjectGraph.CanonicalizeGraph | src/crypto/signer.ts:32-34 | starts the traversal without ancestors |
| ObjectGraph.UnfoldingUnique | src/crypto/signer.ts:38-77 | an object graph unfolds to at most one tree |
| ObjectGraph.GraphPrintsAsTree | src/crypto/signer.ts:38-77 | what unfolds to a tree prints as that tree, whatever is shared |
| ObjectGraph.PrintsExactly | src/crypto/signer.ts:38-77 | on any heap: a value prints if and only if it unfolds to a tree that prints |
| ObjectGraph.CircularIffCycle | src/crypto/signer.ts:48-50 | when every value that can be reached is supported: "circular" is thrown if and only if a cycle is reachable, and if and only if no finite unfolding exists; otherwise the value prints |
| RecordHash.RecordHashExactly | src/crypto/record-hash.ts:15-32 | the record hash is that of the UTF-8 bytes of index, timestamp, canonical payload and, if there is one, canonical delegation, with a bar between; otherwise the error of the payload, or else of the delegation |
| RecordHash.FalsyExactly | src/crypto/record-hash.ts:22 | which delegations count as none |
| RecordHash.TemplateTexts | src/crypto/record-hash.ts:21 | what a template literal makes of each kind of JSON value |
| RecordHash.ArrayTexts | src/crypto/record-hash.ts:21 | an array is its elements joined by commas, null and undefined leaving nothing |
| RecordHash.PreimagePinsRecord | src/crypto/record-hash.ts:15-23 | whatever JSON values are shown with the preimage bytes of a logged record are that record if and only if index and timestamp agree as text; beside a clean timestamp, if and only if the text of the index holds no bar and that of the timestamp is clean; an index that is a number, or a text without a bar, is the logged one |
| PreimageTwins.TwinsHaveSamePreimage | src/crypto/record-hash.ts:21-22 | every delegated record shares its preimage with two different ones, one with a bar in its timestamp, one with a bar in its index, the timestamp of the latter being clean if and only if the payload text holds no bar |
| PreimageTwins.CanonicalClosed | src/crypto/signer.ts:38-125 | read unit by unit, canonical text starts and ends outside strings and has no bar or backslash outside them |
| PreimageTwins.ScanUtf8 | src/crypto/record-hash.ts:29-30 | reading the hashed bytes comes to the same as reading the text, for all strings |
| PreimageTwins.UndelegatedIsPinned | src/crypto/record-hash.ts:15-23 | whatever JSON values are shown with the preimage bytes of an undelegated record with a plain timestamp are, as text, that record |
| PreimageTwins.TwinIffDelegated | src/crypto/record-hash.ts:15-23 | with a plain timestamp, something different with the same preimage bytes exists if and only if the record is delegated |
| RecordHash.LoneSurrogateInTimestampIsAmbiguous | src/crypto/record-hash.ts:15-32 | wherever U+FFFD stands in a timestamp, a lone surrogate in its place gives a different record with the same preimage bytes |
| TreeHead.SigningInputInjective | src/crypto/sth.ts:37-40 | no two heads with a valid root field are signed over the same bytes |
| TreeHead.SignedHeadVerifies | src/crypto/sth.ts:59-98 | a signed head carries the fields given and verifies under the matching key |
| TreeHead.SigningInputIsNotForeign | src/crypto/sth.ts:34-40 | the bytes signed for any head begin with the context of tree heads |
| TreeHead.SignedHeadWasIssued | src/crypto/sth.ts:12-22 | if the message of a head that verifies was signed at all, the head carries exactly the fields of an issued one, whatever else the key signs under other contexts |
| TreeHead.RootFieldExactly | src/crypto/sth.ts:35 | a valid root field is the hexadecimal text of a digest, and nothing else |
| TreeHead.SigningInputLines | src/crypto/sth.ts:37-40 | what is signed is four lines of ASCII: the context, the root, the size, the time |
| TreeHead.HeadVerifiesExactly | src/crypto/sth.ts:75-98 | a head verifies if and only if its root is the text of a digest and its signature is good for those lines |
| TreeHead.SignHeadExactly | src/crypto/sth.ts:42-67 | signing refuses with the first of its checks that fails, and else returns the fields given with their signature |
| Inclusion.BuiltProofIsAccepted | src/crypto/inclusion.ts:63-171 | the proof built for a covered record is accepted and names its index, whatever was appended after the head was signed |
| Inclusion.BuildExactly | src/crypto/inclusion.ts:63-91 | a proof carries what it was built from; none is built for a record that the head does not cover, or for a head over more leaves than there are |
| Inclusion.VerdictExactly | src/crypto/inclusion.ts:123-171 | a proof is valid if and only if the seven checks pass, record hash and leaf hash recomputed byte for byte; the reason is that of the first that fails, and a valid verdict echoes index, size and root |
| Inclusion.HashFieldsPinned | src/crypto/inclusion.ts:147-156 | the record hash and the leaf hash that a valid proof carries are determined by the rest of it |
| Inclusion.AcceptedProofPinsRecord | src/crypto/inclusion.ts:123-171 | against the root of an honest log the path of an accepted proof leads to a logged record at its true position, whatever index and treeSize the proof claims; it carries that record's hash and leaf hash, and the JSON values shown agree with the record as far as a preimage determines it, the reported index among them, or a collision |
| Inclusion.TwinsAreAccepted | src/crypto/inclusion.ts:123-171 | every valid proof of a delegated record is valid for two different records: one under the same verdict, one under a verdict that reports another index |
| PerfectTree.MthIsTreeRoot | src/crypto/rfc6962.ts:51-57 | MTH is the tree of that shape over the leaf hashes |
| PerfectTree.AuditPathIsTreePath | src/crypto/rfc6962.ts:126-142 | the audit path is the path in that tree, sibling by sibling and side by side |
| LegacyMerkle.PaddedSize | src/crypto/merkle.ts:19-21 | the shift loop finds the least power of two not below n |
| LegacyMerkle.Pad | src/crypto/merkle.ts:19-25 | pads to that size by repeating the last leaf |
| LegacyMerkle.BuildNextLevel | src/crypto/merkle.ts:31-36 | hashes neighbouring nodes into the level above |
| LegacyMerkle.BuildLevels | src/crypto/merkle.ts:28-40 | every level of the recursive perfect tree over the padded leaves, in order |
| LegacyMerkle.ComputeRoot | src/crypto/merkle.ts:42-46 | the root of that tree; sixty-four zeros for no leaves |
| LegacyMerkle.BuildProof | src/crypto/merkle.ts:48-65 | the siblings on the way up from the leaf, or an error out of bounds |
| LegacyMerkle.VerifyProof | src/crypto/merkle.ts:70-82 | accepts exactly when the walk reaches the root |
| LegacyMerkle.LegacyComplete | src/crypto/merkle.ts:48-82 | a built proof verifies against the root, for every list and index |
| LegacyMerkle.PaddedTree | src/crypto/merkle.ts:18-65 | for every list: root and proofs are those of the RFC 6962 shape over the list with its last leaf repeated up to a power of two; sixty-four zeros for none |
| LegacyMerkle.SameTreeOnPowers | src/crypto/merkle.ts:28-65 | over 2^k leaves root and proofs are those of the RFC 6962 shape for the same pair hash |
| LegacyMerkle.LegacySound | src/crypto/merkle.ts:70-82 | an accepted proof of the tree's height for a text of 64 characters starts from an element of the list and is that element's path, or a collision |
| LegacyMerkle.AcceptedTextIsCut | src/crypto/merkle.ts:9-82 | a text of any length with an accepted proof of that height is cut from two neighbouring leaves, or a collision |
| LegacyMerkle.CutTextIsAccepted | src/crypto/merkle.ts:9-82 | every such text has an accepted proof |
| LegacyMerkle.EmptyTextIsCut | src/crypto/merkle.ts:9-13 | the empty text is one of them, for every list of two or more leaves |
| LegacyMerkle.CutOf64IsLeaf | src/crypto/merkle.ts:70-82 | such a text of 64 characters is a leaf |
| LegacyMerkle.ShorterProof | src/crypto/merkle.ts:28-46 | the nodes at any height are the leaves of a tree with the same root |
| LegacyMerkle.ShortProofsExactly | src/crypto/merkle.ts:70-82 | proofs that are too short are accepted for exactly the texts cut from two neighbouring nodes at their lowest level, or a collision; the empty one for the root alone |
| LegacyMerkle.LongProofsExactly | src/crypto/merkle.ts:70-82 | proofs that are too long are accepted if and only if their first steps lead to a leaf and the others are its path, or a collision |
| Chain.NextRecordExactly | src/crypto/chain.ts:29-35 | a record is made if and only if its content is canonical and the key can sign; it holds the payload, timestamp and delegation attested, the next index, the hash of their text and a signature over the canonical text of that hash |
| Chain.RecordVerifiesExactly | src/crypto/chain.ts:74-93 | a record verifies if and only if its hash is that of its content and its signature is good for the quoted hash |
| Chain.AlteredRecordFails | src/crypto/chain.ts:74-93 | of two verifying records with the same hash the preimages are equal, or a collision |
| Chain.NextRecordIsHonest | src/crypto/chain.ts:29-35 | it continues an honest log and verifies under the company key |
| Chain.AttestationChain.Hydrate | src/crypto/chain.ts:19-22 | loads records into an empty chain, refuses otherwise |
| Chain.AttestationChain.ComputeNextRecord | src/crypto/chain.ts:29-35 | computes the next record, which holds what was attested, and changes nothing |
| Chain.AttestationChain.Push | src/crypto/chain.ts:38-43 | appends exactly a record with the next index |
| Chain.AttestationChain.Append | src/crypto/chain.ts:45-49 | computes and appends in one step a record that holds what was attested, or fails and changes nothing |
| Chain.AttestationChain.Verify | src/crypto/chain.ts:71-102 | reports the first record that does not verify; if there is none, the padded root of all hashes |
| Chain.AttestationChain.GetProof | src/crypto/chain.ts:105-115 | for every index in bounds, the record with the padded root of all hashes and a proof of the tree's height that this root accepts |
| Store.AllRecordsExactly | src/db/store.ts:465-481 | every row once, in increasing order of idx |
| Store.AllRecordsOfGapless | src/db/store.ts:465-481 | so a gapless table gives its rows in order |
| Store.AppendedExactly | src/db/store.ts:509-545 | an append adds just its two rows, and is refused if and only if its index is no 32-bit integer or a primary key is taken |
| Store.WithHeadExactly | src/db/store.ts:548-555 | a head of a size that is stored changes nothing; another one is added |
| Store.LatestHead | src/db/store.ts:557-572 | the stored head of the greatest tree size, if any |
| Store.Database.AppendRecordWithSTH | src/db/store.ts:509-545 | both rows or none; refused when a primary key or a column does; an error hides a commit only when its answer was lost; other companies keep their rows |
| Store.Database.InsertSTH | src/db/store.ts:548-555 | inserts a head unless one of its size is stored |
| CheckpointLog.HeadFailsOnlyOnClockOrKey | src/crypto/sth.ts:42-67 | a head over a real tree is refused only for a negative clock or by the key |
| CheckpointLog.NextEntryExactly | src/checkpoint/log.ts:51-67 | what an append asks the store to commit: the record attested, and the CA's head over all earlier leaves and its own, with the time given; nothing if and only if the record cannot be made, the clock is negative or the CA key fails |
| CheckpointLog.AppendWithCheckpoint | src/checkpoint/log.ts:51-74 | the whole new state of chain and store in every outcome; memory advances only after the commit; what is returned holds what the caller attested, under the next index and the time given |
| CheckpointLog.InitTenant | src/api/app.ts:77-103 | loads the records and the latest head, and mints and stores a head for records that none covers |
| LogRuns.AppendedAtEnd | src/db/store.ts:101-110 | the primary keys let an entry in only at the end of the log |
| LogRuns.CommitSound | src/db/store.ts:509-545 | a commit at any time, even long after a crash, keeps the invariant |
| LogRuns.BootCheckSound | src/api/app.ts:84-99 | so does loading the latest head or minting one |
| LogRuns.AnswerOkSound | src/checkpoint/log.ts:66-71 | so does advancing memory after the answer |
| LogSafety.StepSound | src/checkpoint/log.ts:51-74 | every step keeps the invariant |
| LogSafety.RunSound | src/checkpoint/log.ts:36-74 | along every run: a stored head of size k covers exactly the first k records, memory is a prefix of the store with a head that covers it, rows are never changed or removed, and records that all have their heads at the start always do |
| LogSafety.MemoryVerifies | src/api/app.ts:1239-1246 | while the company key stays the same, every record stored or in memory verifies under it |
| LogSafety.UnqueuedAppendsCollide | src/checkpoint/log.ts:76-84 | two appends computed from the same memory ask for the same index and tree size, and the store takes at most one |
| LogSafety.LostCommitFreezes | src/checkpoint/log.ts:66-71 | a commit reported as a failure leaves memory and all transactions under way behind the store |
| LogSafety.FrozenWhileAlive | src/db/store.ts:101-110 | from then on, while the process lives, the records stay as they are and no append succeeds |
| LogProgress.AppendAcceptedExactly | src/db/store.ts:509-545 | in every sound state the store accepts the next append if and only if memory has every stored record and fewer than 2^31 - 1 records are stored |
| LogProgress.LiveRun | src/checkpoint/log.ts:51-74 | a log whose memory is up to date and that has no foreign append under way stays so for as long as every failure reported is a real one |
| LogProgress.LiveAppends | src/checkpoint/log.ts:51-74 | an undisturbed append to it succeeds and adds its record to memory and store |
| LogProgress.LoadRevives | src/api/app.ts:77-103 | loading with no append under way gives such a log, whatever came before, unless a needed head cannot be signed |
| LogProgress.LoadExactly | src/api/app.ts:84-99 | loading mints a head if and only if the log is not empty and no head of its size is stored; it covers all records at the time given; otherwise the tables stay, and memory gets the head of the greatest size |
| LogProgress.RestartRace | src/api/app.ts:84-99 | over any sound tables and for any entry they accept: a commit between the two reads of a restart leaves memory with all earlier records, the head over the new one, and a frozen log |
| LogProgress.RaceIsReachable | src/api/app.ts:84-99 | from every log that takes appends, a crash during an append leads there |
| LogWorld.CompaniesIndependent | src/api/app.ts:105-107 | what one company's log sees of an interleaving is a run of its own events; that logs share nothing but crashes is part of the model and rests on the frames of Store.Database |
| LogWorld.EveryReachableLogIsSound | src/api/app.ts:77-107 | from an empty database every reachable log of every company meets the invariants |
| LogWorld.AppendIsRun | src/checkpoint/log.ts:51-74 | every outcome of the method AppendWithCheckpoint is the end of a run |
| LogWorld.InitIsRun | src/api/app.ts:77-103 | every outcome of the method InitTenant is the end of a run |
| QueuedAppends.OneRunning | src/checkpoint/log.ts:76-94 | two running functions of one key are the same one |
| QueuedAppends.ServicePart | src/api/app.ts:1228-1237 | in every step of queue and logs together, a company's part meets at most one running call |
| QueuedAppends.CallsAreRuns | src/api/app.ts:1228-1237 | over every schedule, with steps that keep no two calls apart, a company's log sees a run |
| QueuedAppends.QueuedAppendsAreRuns | src/api/app.ts:105-107 | from an empty queue and database: each log is the end of a run of its own, with at most one call running |
| QueuedAppends.NothingAwaitedAtStart | src/checkpoint/log.ts:76-94 | whenever a call starts, its company's log is loaded and awaits no answer |
| QueuedAppends.IndicesIncrease | src/checkpoint/log.ts:76-84 | of two calls of a company that return, the one submitted first has the smaller index and tree size, across restarts too |
| QueuedAppends.PushedExactly | src/crypto/chain.ts:38-43 | in that machine too, memory refuses exactly a record that does not come next |
| Attested.EveryRowWasAttested | src/checkpoint/log.ts:51-74 | from an empty database, along every run: each stored record holds what some append of the run was asked to attest, and is stored with a head of that append's time |
| Attested.EveryRowOfEveryCompany | src/api/app.ts:1228-1237 | so it is for every company |
| Attested.NeverAnchors | src/api/app.ts:84-99 | where every record has its head, no step of any run sends a head alone |
| Attested.NoMoreRowsThanAppends | src/db/store.ts:509-545 | along every run at most one record is stored for each append |
| Attested.ReturnedIsOwn | src/api/app.ts:1228-1237 | over every schedule of queue and logs, a call that returns, returns a record that holds what it was itself asked to attest |
| Attested.ReturnedStaysStored | src/checkpoint/log.ts:66-71 | the record of every call that ever returned is in the table at its own index, after whatever crashes and restarts |
| Routes.ConsistencyRouteHolds | src/api/checkpoint-routes.ts:56-102 | whatever happens while the handler reads, its proof is accepted against its roots, and the stored heads it attaches are authentic and have those roots |
| Routes.ConsistencyRouteExactly | src/api/checkpoint-routes.ts:56-102 | the status is that of the first check that fails; otherwise the two roots, the proof, and whichever of the two heads are stored |
| Routes.CoveredHeadsProvable | src/api/checkpoint-routes.ts:56-102 | between any two heads a <= b over stored records, b covered by memory, the proof made from memory is accepted against the signed roots |
| Routes.SavedHeadStaysProvable | src/api/app.ts:357-360 | a head handed out in any earlier state, stored or published from memory, is proved consistent with every later one handed out that memory covers, whatever steps lie between |
| Routes.EveryConsistencyProofIsAccepted | src/api/checkpoint-routes.ts:56-102 | so it is for every company between any two moments of a run from an empty database |
| Routes.MemoryGrows | src/crypto/chain.ts:38-43 | while a process lives its memory only grows |
| Routes.InclusionRouteHolds | src/api/inclusion-routes.ts:45-100 | record, head and leaves read in three different states: a proof is returned if and only if the head's size is at most the number of leaves; it then has the signed root and is accepted with the true index |
| Routes.InclusionRouteExactly | src/api/inclusion-routes.ts:45-100 | the status is that of the first check that fails; otherwise the proof built from what was read |
| Routes.RaceRefusesEveryProof | src/crypto/inclusion.ts:69-71 | after a lost race every request for a proof of a record in memory is refused as a bad request |
| Routes.HandedOutHeadShowsRecord | src/crypto/inclusion.ts:123-171 | an accepted proof with the fields of a head handed out leads to where a record stands in the log and shows it as far as its preimage determines it, or a collision |
| IssuedHeads.UnderWayIffSigned | src/checkpoint/log.ts:60-67 | over every run, the transactions ever under way are exactly those of the start and those whose head some step signs |
| IssuedHeads.UnderWayIsSound | src/checkpoint/log.ts:60-67 | every head signed along a run, of failed transactions too, covers stored records and at most one more |
| IssuedHeads.SignedHeadWasIssuedInRun | src/crypto/sth.ts:75-98 | a head that verifies and whose message was signed has the fields of a head that some step of some company signed |
| IssuedHeads.AcceptedProofIsLogged | src/crypto/inclusion.ts:123-171 | an accepted proof whose head was signed at all leads to the true index of a stored record of some company or of the record of a transaction that was given up, and shows it as far as its preimage determines it, or a collision |
| KeyedQueue.TailMap.Run | src/checkpoint/log.ts:85-94 | chains a promise behind the old tail, and a new tail behind that |
| KeyedQueue.EveryCallIsATask | src/checkpoint/log.ts:86-93 | over every schedule each call becomes one promise that runs its function, under its key, and one new tail, in the order of the calls |
| KeyedQueue.ScheduleKeeps | src/checkpoint/log.ts:85-94 | over every schedule each key has one chain of promises and its tail is never rejected |
| KeyedQueue.OneAtATimeInOrder | src/checkpoint/log.ts:76-94 | over every schedule a function starts only after all those submitted before it under the same key have finished |
| KeyedQueue.OnlyItsOwnFailure | src/checkpoint/log.ts:90-91 | a promise is rejected only by its own function |
| KeyedQueue.NothingBlocks | src/checkpoint/log.ts:89-91 | while a promise is unsettled some step of its own key is possible |
| KeyedQueue.EveryScheduleDrains | src/checkpoint/log.ts:85-94 | without new calls every schedule ends, after the same number of steps whichever functions fail |
| KeyedQueue.KeysIndependent | src/checkpoint/log.ts:86-92 | a step of one key changes neither what another key sees nor which of its steps are possible |
| SlidingWindow.AdmittedBounded | src/api/issuance-rate-limit.ts:31-57 | no half-open window of the given length admits more than the limit |
| SlidingWindow.DeniedUntilReset | src/api/issuance-rate-limit.ts:43-44 | a denied caller is denied before resetMs and admitted from resetMs on: the reset time is exact |
| SlidingWindow.RemainingIsExact | src/api/issuance-rate-limit.ts:51-56 | after an admitted request exactly as many more at the same instant are admitted as remaining says |
| SlidingWindow.ReferenceExactly | src/api/issuance-rate-limit.ts:37-56 | the whole verdict from the admissions in the half-open window: limit, admission, remaining, and the time at which the oldest of them leaves |
| RateLimit.BucketLimiter.Handle | src/api/rate-limit.ts:49-87 | the new bucket and the answer to a request |
| RateLimit.BucketLimiter.Purge | src/api/rate-limit.ts:20-27 | the timer prunes every bucket and drops the empty ones |
| RateLimit.BucketKeyInjective | src/api/rate-limit.ts:52-53 | tier and caller are determined by the bucket key |
| RateLimit.BucketKeyTexts | src/api/rate-limit.ts:52-53 | the keys are the names of the tiers, a colon and the caller |
| RateLimit.PurgedExactly | src/api/rate-limit.ts:20-27 | after a purge the buckets are those with a time in the last minute, and hold just these times |
| RateLimit.BucketVerdict | src/api/rate-limit.ts:49-87 | over every run each answer is that of a limiter that forgets nothing, on the caller's own requests alone |
| RateLimit.AnswerExactly | src/api/rate-limit.ts:49-87 | over every run a request is let through if and only if fewer than 10, 100 or 1000 were in the last 60000 ms, and the answer tells limit, remaining and reset time |
| RateLimit.PurgesChangeNothing | src/api/rate-limit.ts:20-27 | purges inserted anywhere never change an answer |
| RateLimit.MinuteWithinLimit | src/api/rate-limit.ts:6-12 | over every run no half-open window of 60000 ms lets through more than 10 sensitive requests, 100 attestations or 1000 others of one caller |
| RateLimit.DeniedUntilResetMs | src/api/rate-limit.ts:64-77 | whatever other callers and the timer do, a denied caller who is admitted nothing more is admitted again exactly from resetMs on |
| IssuanceLimit.InMemoryRateLimitStore.CheckAndIncrement | src/api/issuance-rate-limit.ts:31-57 | the verdict and the stored times; a denied call stores nothing |
| IssuanceLimit.InMemoryRateLimitStore.Middleware | src/api/issuance-rate-limit.ts:83-108 | tries the three windows in order; windows before the one that denies have counted the request |
| IssuanceLimit.StoreVerdict | src/api/issuance-rate-limit.ts:31-57 | over any calls for one key the verdicts are those of the limiter that forgets nothing |
| IssuanceLimit.WindowKeyInjective | src/api/issuance-rate-limit.ts:92-96 | window and caller are determined by the key |
| IssuanceLimit.WindowsExactly | src/api/issuance-rate-limit.ts:92-96 | keys, lengths and limits of the three windows |
| IssuanceLimit.MiddlewareExactly | src/api/issuance-rate-limit.ts:98-107 | minute, hour and day in this order; the first that denies answers with its limit, and those before it have counted the request |
| IssuanceLimit.PassesExactly | src/api/issuance-rate-limit.ts:98-107 | in every run a request passes if and only if each window has counted fewer than its limit |
| IssuanceLimit.EveryWindowWithinLimit | src/api/issuance-rate-limit.ts:63-66 | over every run no half-open window lets through more than 60 requests a minute or 1000 an hour of one key, or 10000 a day of one company |
| IssuanceLimit.ListsFit | src/api/issuance-rate-limit.ts:31-57 | over every run each stored list is in order and no longer than its limit |
| IssuanceLimit.RetryAfterExact | src/api/issuance-rate-limit.ts:98-103 | in every run a denied request is denied by one of its windows, which, unless another request was counted there, admits it from retryAfter seconds on and not yet a second earlier |
| Passport.MatchScopeLoop | src/passport/verify.ts:291-298 | the loop returns at the first element that decides |
| Passport.MatchScopeFirst | src/passport/verify.ts:282-298 | a scope is granted if and only if some element covers the request and no element before it stops the search; it is the first |
| Passport.CoversExactly | src/passport/verify.ts:282-296 | a scope covers a request if and only if it is "*", the request itself, or a category followed by ":*" of which the request begins with category and colon |
| Passport.VerdictExactly | src/passport/verify.ts:58-275 | the verdict for every token, option and key: the code of the first step that fails, in the documented order, or else the first scope, or the one that covers the tool |
| Passport.LastValidSecond | src/passport/verify.ts:159-169 | a valid passport stays valid up to and including the second exp + leeway, and has expired from then on |
| Passport.VerifyPassportMultiKey | src/api/app.ts:144-157 | accepted if and only if some key accepts, with the scope each accepting key grants, whatever the order of the keys; a bad signature if and only if every key finds it bad |

## Left out

- SHA-256, Ed25519, key encoding and key files: the hash function and the signature scheme are parameters.
- Number-to-text: a finite number is its text over the characters of JSON numbers; that different numbers have different texts, and that -0 prints as 0, is taken from ECMAScript.
- Integers of 10^21 and more, which JavaScript prints in exponent form, as record index, tree size or timestamp.
- Sparse arrays, getters, proxies and objects that change while they are printed.
- The value 0n as a delegation, which JavaScript counts as false; JSON cannot carry it.
- The JSON text columns of the records table: a payload is taken to come back from the database as it went in. Foreign keys and other tables are not modelled.
- A chain so long that spreading its rows into one call in hydrate() exhausts the call stack.
- Fields of a wrong JavaScript type in tree heads, and the root, leaf hash and proof list of inclusion proofs, which the verifiers refuse; the roots and leaf hashes that a caller gives to the path verifiers, which are taken to be text, and sizes that are no integers, which are refused. Index, timestamp and hash of a record shown may be any JSON values, siblings and proof nodes text, bytes or anything else; a path node's position is left, right or anything else.
- Functions, symbols and BigInts as index or timestamp of a record shown: JSON cannot carry them.
- Two concurrent loads of the same company, several server processes and rotation of company or CA keys: one process serves a company with one chain object and a fixed CA key.
- Inputs of an append that cannot be canonicalised or signed are steps that change nothing, so the runs do not list them.
- Trees of more than 2^30 leaves: the split-point loop does not end there (SplitPoint.LoopEndsExactly); the functions on values are defined for all sizes.
- The agent checks of the inclusion route (who owns a record) are parameters of the route.
- Rounding of resetMs to seconds in the headers of the bucket limiter; requests without a bearer key or an address share a caller.
- The Postgres rate-limit store, whose pruning keeps an event exactly one window old and so differs from the store in memory.
- Decoding of a passport's base64url parts and JSON, and the SPIFFE syntax check: claims are given decoded, the check is a parameter. Error message texts are not modelled, except that printing a value into one can throw. Dates are real numbers; a number literal too large for a double is not.
- Promises settle in any order that their dependencies allow; the first-in-first-out order of the microtask queue is not needed and not modelled.
- The latest-checkpoint route, webhooks, OAuth, dashboards and client integrations, which would only add easy members.
- InitTenant: as a method it runs without interruption; interruptions at every point are covered by the steps of LogRuns.
- AppendWithCheckpoint: the transaction is one call with a parameter for what befalls it; late commits are covered by the steps of LogRuns.
