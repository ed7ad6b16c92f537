# Verified model of the M earn program, its Merkle SDK, yield walk and log parser

This project models, in Dafny, four parts of the repository and proves what they promise.

**The sorted Merkle set.** The TypeScript SDK sorts keys, hashes them into a tree whose right
edge is padded and self-hashed, and produces inclusion and exclusion proofs; the Rust program
folds a proof to a root and reads a position from its left/right bits. Hashes are values of
`Hasher`, about which nothing is assumed unless a lemma asks for `CollisionFree` (injective
and domain separated, as the 0x00/0x01 tags intend; `IDEAL` shows such a hash). The central
facts: the verifier accepts exactly one proof per position of the right-edge-expanded tree
(`AcceptedExactlyPaths`), neighbouring positions are neighbours in the sorted list or follow
its maximum (`SlotNeighbours`), and so the two on-chain checks decide membership
(`ChecksDecideMembership`).

**The instruction and log parser.** Two coupled stacks rebuild the call forest of a
transaction and hand each instruction its own slice of one log stream. For every input the
iterative parser equals a recursive descent over the forest the stack heights describe, panics
included (`StructureIsDescent`); on streams as the runtime writes them it gives the forest back
with exact logs (`ParserInvertsRendering`), also when the stream was cut (`TruncationIsClean`);
and on any stream it answers on, no line is lost or handed out twice (`NoLineLost`).

**Yield and index arithmetic.** The iterated floor recurrence of a claim, the four rounding
conversions, and the double-precision multiplier. Doubles are reals with a rounding function
that is monotone, leaves doubles alone, among them the integers up to 2^53, and is off by at most
2^-53 of the value (section 4.3.1 of IEEE 754-2019), so results hold for every such rounding;
`ExactIsIeee` shows there is one.

**The earn program as a state machine.** Its six instructions, and the token-program steps
that account owners may take in between, over global state, mint multiplier, token accounts
and emitted events. Theorems are about all runs.

Files follow the sources: `Merkle*.dfy` (levels, verifier, soundness, prover, object, edits, what
their roots prove, runs, examples), `Call*.dfy` (log stack, parser, forest, containment, rendering,
framing, listing), `YieldWalk.dfy`, `YieldClaim.dfy`, `Conversion.dfy`, `Earn*.dfy` (program, runs, index side),
`KeyOrder.dfy`; `Numbers.dfy` and `Wrappers.dfy` hold what they share. Objects that change in place
(`MerkleTree`, `LogStack`, `LogStream`, `Earn`) are classes whose methods are proved equal to
functions; the lemmas are about those functions. Every lemma is marked `{:induction false}`:
inductions are written out.

## What the model found

- `addLeaf` (sdk/src/merkle.ts:158-195) leaves stale padding behind. On a well-formed tree it
  produces the tree and the root of the enlarged set exactly when there was one key or a positive
  even number of keys. On any tree it produces the rebuilt tree only if there were keys and nothing
  behind them, and `removeLeaf` (sdk/src/merkle.ts:197-221) only if at most the one copy behind an
  odd count was there (`AddRefinesRebuild`, `RemoveRefinesRebuild`). For every tree that keys and
  edits can lead to, `RootIsRightIff` gives the exact condition for a right root.
- Whatever the edits, all stale padding is copies of one key, and that key is all that can be wrong
  with the root: it is proved present, also after it was removed (`RemovedKeyProvable`), and
  exactly the members above it can be proved absent (`DecidesButForStaleKey`). After an unsafe
  addition to a well-formed tree that is the added key, if it is above all the others
  (`AddMayExcludeMember`). `MerkleExamples.dfy` has small inputs. Proofs can be generated for every
  such tree (`EveryTreeIsKept`).
- Above the last key, `getExclusionProof` (sdk/src/merkle.ts:342-349) offers the last leaf's own
  position, which the on-chain verifier accepts exactly when the padded leaf level has a
  power-of-two width (`OfferOverASet`); an accepted proof always exists
  (`ExclusionComplete`), the prover just does not build it.
- `new Set` on key objects (sdk/src/merkle.ts:39) removes no equal keys, and the prover proves the
  first copy. The exclusion proof it offers for an absent value is then rejected exactly when the
  next key below the value was given more than once, besides the case above
  (`DuplicateKeysDefeatTheProver`); a repeated key above the value does no harm.
- A tree built from no keys keeps the zero key as a member when a key is added
  (`PlaceholderStays`).
- The comment at sdk/src/merkle.ts:83 says pairs are sorted before hashing; the code does not
  sort them, and the model follows the code.

## Model

| member | source | states |
|---|---|---|
| KeyOrder.IntegerOrderIsByteOrder | sdk/src/merkle.ts:9-20 | the SDK's big-integer comparison of keys is the byte-wise order Rust uses, equality included |
| MerkleLevels.ZeroBytesSpellZeroKey | sdk/src/merkle.ts:35-37 | the zero key is what all-zero bytes spell, and no other bytes do |
| MerkleLevels.DepthIsCeilLog2 | sdk/src/merkle.ts:84-106 | a tree over n keys has ceil(log2 n) levels above its leaves |
| MerkleLevels.SlotInRange | sdk/src/merkle.ts:84-103 | within the real width of a level, position p is held by node p |
| MerkleLevels.SlotNeighbours | sdk/src/merkle.ts:93-99 | neighbouring positions of the self-hash-expanded tree hold consecutive nodes, unless the left one is the last node of its level |
| MerkleLevels.SlotLast | sdk/src/merkle.ts:97-99 | the last expanded position of every level is held by the level's last node |
| MerkleLevels.IdealHashIsCollisionFree | sdk/src/merkle.ts:109-130 | a leaf/node hash with the tagged properties exists, and none of its digests is a raw value such as the zero root |
| MerkleVerifier.VerifyInTree | programs/earn/src/utils/merkle_proof.rs:15-48 | the folding loop returns the recovered index iff the fold reaches the root, and aborts iff a left sibling stands at level 64 or above |
| MerkleVerifier.AbortIffIndexOverflows | programs/earn/src/utils/merkle_proof.rs:37-47 | the check aborts iff the position spelled by the left/right bits does not fit 64 bits, and otherwise fails iff the fold misses the root |
| MerklePaths.PositionCons | programs/earn/src/utils/merkle_proof.rs:39 | the sum of 2^i over left siblings is the binary number of the left/right bits |
| MerklePaths.PathReachesRoot | programs/earn/src/utils/merkle_proof.rs:21-41 | for any hash, the siblings met from any position of any level fold that node to the root |
| MerklePaths.PathPosition | programs/earn/src/utils/merkle_proof.rs:30-40 | that path reads back as its own position |
| MerklePaths.FoldFromLeafHasFullLength | programs/earn/src/utils/merkle_proof.rs:89-92 | a hashed value folds to a built root only over exactly the tree's depth: no shorter or longer proof passes |
| MerklePaths.FoldsFromLeafExactlyPaths | programs/earn/src/utils/merkle_proof.rs:16-45 | a hashed value folds to the root iff the proof is the path of its position and that position holds the value |
| MerklePaths.AcceptedExactlyPaths | programs/earn/src/utils/merkle_proof.rs:15-48 | for every value, proof and index: accepted with index p iff p is a position, the proof is p's path, no overflow, and p holds the value |
| MerklePaths.InclusionSound | programs/earn/src/utils/merkle_proof.rs:15-48 | an accepted inclusion proof has the tree's depth and its value is in the set |
| MerklePaths.InclusionComplete | sdk/src/merkle.ts:227-285 | for any hash, each member's path is accepted and returns the member's index |
| MerklePaths.RootBindsMembers | programs/earn/src/utils/merkle_proof.rs:43-45 | key lists with one root have the same members |
| MerklePaths.RootsEqualIffSameExpansion | sdk/src/merkle.ts:84-106 | key lists in any order have one root iff their trees are equally deep and hold the same key at every expanded position |
| MerklePaths.RootBindsSet | programs/earn/src/utils/merkle_proof.rs:43-45 | for sorted sets, equal roots iff equal sets |
| MerkleExclusion.AcceptanceHasGrounds | programs/earn/src/utils/merkle_proof.rs:50-133 | absence is accepted iff one of three grounds holds: below index 0, above the all-ones index, or strictly between two indices one apart |
| MerkleVerifier.ShortProofsNeverAbort | programs/earn/src/utils/merkle_proof.rs:50-133 | with proofs below 64 levels the absence check never aborts |
| MerkleExclusion.GapBetweenPositions | programs/earn/src/utils/merkle_proof.rs:115-129 | a value strictly between the keys at neighbouring positions is not in the set, repeated right edges included |
| MerkleExclusion.ExclusionSound | programs/earn/src/utils/merkle_proof.rs:50-133 | for any sorted keys, proofs and neighbours whatsoever, an accepted exclusion means the value is not in the set |
| MerkleExclusion.NeverBothProvable | programs/earn/src/utils/merkle_proof.rs:50-133 | no value has an accepted inclusion and an accepted exclusion proof |
| MerkleExclusion.ExclusionComplete | programs/earn/src/utils/merkle_proof.rs:70-133 | for any hash, every absent value has an accepted exclusion proof |
| MerkleExclusion.IncludableIffHeld | programs/earn/src/utils/merkle_proof.rs:15-48 | for keys in any order, exactly the keys of the leaf level can be proved present |
| MerkleExclusion.ExcludableIffRoom | programs/earn/src/utils/merkle_proof.rs:50-133 | for keys in any order, exactly the values below the first key, above the last or strictly between two adjacent ones can be proved absent |
| MerkleExclusion.ChecksDecideMembership | programs/earn/src/utils/merkle_proof.rs:15-133 | against a built root, includable iff member and excludable iff not |
| MerkleProver.SearchFindsParent | sdk/src/merkle.ts:270-281 | from a first copy, repeated leaves and stale padding included, the search by hash finds the parent at half the index |
| MerkleProver.ProvenIndexLeads | sdk/src/merkle.ts:229-250 | the index the prover starts from is such a start over every leaf level that begins with the keys: a first copy, or the right sibling of one |
| MerkleProver.PositionsAgree | sdk/src/merkle.ts:243-284 | the verifier reads the SDK proof of the j-th key as the position of its first copy, which is j in a set, or as the padded copy of the last one when asked |
| MerkleProver.LastLeafProofAccepted | sdk/src/merkle.ts:342-349 | one proof for a smaller neighbour is accepted iff it is for the last position of a leaf level whose width is a power of two and that position holds the neighbour |
| MerkleProver.OfferedExclusionVerdict | sdk/src/merkle.ts:287-367 | for sorted keys, repeated or not, and whatever padding follows them, the exact condition on which the offered exclusion proof of an absent value is accepted |
| MerkleProver.OfferOverASet | sdk/src/merkle.ts:287-367 | over a set it is accepted iff the value is below the last key or the width is a power of two; over an emptied tree iff it is not the zero key |
| MerkleSdk.SortKeys | sdk/src/merkle.ts:44-45 | the result is sorted and a permutation of the input |
| MerkleSdk.MerkleTree.constructor | sdk/src/merkle.ts:34-52 | the fields are those of the constructed tree, the zero key standing in for no keys |
| MerkleSdk.MerkleTree.UpdateTree | sdk/src/merkle.ts:54-107 | the whole new state: padding in place, all levels, root, and the depth that survives small trees; fewer than two leaves and the depth stay as they were |
| MerkleSdk.MerkleTree.BuildLevels | sdk/src/merkle.ts:84-103 | the level loop computes the recursively defined levels |
| MerkleSdk.MerkleTree.NextLevel | sdk/src/merkle.ts:91-99 | the pair loop hashes neighbours and the lone last node with itself |
| MerkleSdk.MerkleTree.GetTreeIndex | sdk/src/merkle.ts:141-148 | the first index holding the hash, or -1 iff there is none |
| MerkleSdk.MerkleTree.AddLeaf | sdk/src/merkle.ts:158-195 | errors for present and zero keys leave the state; otherwise the new state is that of the splice, extra padding and update |
| MerkleSdk.MerkleTree.RemoveLeaf | sdk/src/merkle.ts:197-221 | an absent key is refused; otherwise padding is dropped, key and hash removed, and the tree updated |
| MerkleSdk.MerkleTree.GetInclusionProof | sdk/src/merkle.ts:227-285 | for every tree that keys and edits can lead to: refuses exactly absent keys, never with "Parent not found"; for any hash the proof has the tree's depth and folds the leaf it starts from to the root, which is the key's unless padding was asked for; collision-free, it is that position's path |
| MerkleSdk.MerkleTree.Climb | sdk/src/merkle.ts:252-284 | for any tree and start the sibling loop finds every parent and folds to the root; collision-free and from a first copy it builds the path of the start |
| MerkleSdk.MerkleTree.GapIndex | sdk/src/merkle.ts:299-317 | the search loop returns the number of smaller keys, rounded up to even past the end |
| MerkleSdk.MerkleTree.GetExclusionProof | sdk/src/merkle.ts:287-367 | for every such tree: refuses exactly present keys; otherwise returns the offer whose verdict is characterised |
| MerkleSdk.MerkleTree.VerifyInclusionProof | sdk/src/merkle.ts:369-384 | true iff the hashed leaf folds to the root |
| MerkleEdits.ConstructorBuilds | sdk/src/merkle.ts:34-52 | from distinct keys in any order the constructor leaves the well-formed tree over exactly those keys |
| MerkleRuns.EveryTreeIsKept | sdk/src/merkle.ts:54-221 | any keys and any run of edits, unsafe ones included, leave leaves that begin with the hashes of the sorted keys, followed at most by copies of one stale key, and the levels, root and depth of those leaves |
| MerkleEdits.RemoveRefinesRebuild | sdk/src/merkle.ts:197-221 | removal of any present key from any tree so reached leaves the keys less one; keys, levels and root are those of a rebuild iff no stale copy, or one behind an odd count, was there; the root is right iff what is held expands like the keys; from a well-formed tree the result is well formed |
| MerkleEdits.AddRefinesRebuild | sdk/src/merkle.ts:158-195 | addition to any tree so reached leaves the keys and one more; keys, levels and root are those of a rebuild iff there were keys and no padding behind them; the root is right iff what is held expands like the keys; on a well-formed tree both hold iff there was one key or a positive even number |
| MerkleEdits.RootIsRightIff | sdk/src/merkle.ts:54-221 | the root of any tree so reached is that of its keys iff keys and stale padding expand to the same positions as the keys alone |
| MerkleEdits.RebuiltIsConstructed | sdk/src/merkle.ts:34-52 | a rebuilt tree has the keys, leaves, levels, root and depth of the constructor called with its keys |
| MerkleRoots.AddMayExcludeMember | sdk/src/merkle.ts:158-195 | after an addition to any tree so reached a member can be proved absent iff it is above the stale key; on a well-formed tree that is the added key alone, iff the size was unsafe and not zero and the key is above all others |
| MerkleEdits.StalePaddingBreaksRoot | sdk/src/merkle.ts:185-191 | a leaf level followed by two stale copies of one key never has the root of the true level |
| MerkleRoots.TreeDecides | programs/earn/src/utils/merkle_proof.rs:15-133 | what the root of any tree so reached proves present and absent, stale padding included |
| MerkleRoots.DecidesButForStaleKey | programs/earn/src/utils/merkle_proof.rs:15-133 | beyond the keys such a root proves present at most its one stale key; it proves members absent iff they are above that key; without one the checks decide membership |
| MerkleRoots.RemovedKeyProvable | sdk/src/merkle.ts:197-221 | a removed key can still be proved present iff it is the stale key and a copy stays, or it was the zero key alone |
| MerkleRoots.OfferVerdict | sdk/src/merkle.ts:287-367 | the verdict on the offered exclusion proof for any tree so reached |
| MerkleRoots.PlaceholderStays | sdk/src/merkle.ts:35-37 | adding a key to a tree built from none gives the root of two keys, not of one |
| MerkleRoots.DuplicateKeysDefeatTheProver | sdk/src/merkle.ts:38-39 | for any keys given, repeated or not, the tree holds them all, and the offer for an absent value is accepted iff nothing is below it, or the next key below was given once and a key is above or the width is a power of two |
| MerkleRuns.EditRunRefinesRebuild | sdk/src/merkle.ts:158-221 | from a well-formed tree any run of edits that adds only at safe sizes ends at the rebuilt tree of the resulting set |
| MerkleRuns.RootsRightIffClean | sdk/src/merkle.ts:158-221 | from a well-formed tree the root is right at every point of a run iff the run adds only at safe sizes |
| MerkleExamples.AddingAFourthKey | sdk/src/merkle.ts:158-195 | adding 4 to 1, 2, 3 gives a wrong root that proves 4 absent |
| MerkleExamples.AddingTwice | sdk/src/merkle.ts:158-195 | adding 6 and then 7 to 1 to 5 gives a wrong root although the second addition finds six keys |
| MerkleExamples.RemovingAStaleKey | sdk/src/merkle.ts:197-221 | adding 6 to 1 to 5 and removing 5 leaves a root that proves 5 present |
| MerkleExamples.OfferAboveFive | sdk/src/merkle.ts:342-349 | over 1 to 5 the proof offered for the absence of 6 is rejected |
| CallLogs.LogStack.Open | substreams/substream-utils/src/instruction.rs:146-166 | the loop succeeds iff the opening rule does, with the same stack, flag and remaining lines |
| CallLogs.LogStack.Close | substreams/substream-utils/src/instruction.rs:168-199 | likewise for closing, and the slice it hands out |
| CallLogs.SilentPrograms | substreams/substream-utils/src/instruction.rs:56-59 | exactly the two signature-checking programs do not log |
| CallParser.StructureFlattened | substreams/substream-utils/src/instruction.rs:202-265 | the two-stack loops answer iff the specification does, with its forest |
| CallParser.LevelIsHeightOrder | substreams/substream-utils/src/instruction.rs:221-224 | the comparison of heights is the order on optional numbers: a missing height is below every present one |
| CallForest.ForestOfIsFaithful | substreams/substream-utils/src/instruction.rs:221-224 | any list of heights reads as a forest that lists back to it, callees higher than callers and siblings never rising |
| CallContainment.HeightsDescribeOneForest | substreams/substream-utils/src/instruction.rs:221-224 | such a forest is the only one its listing can be read as |
| CallForest.CallIsDescent | substreams/substream-utils/src/instruction.rs:214-245 | pushing a call and all it lists, then popping to a level, is one recursive descent handed to its caller |
| CallForest.StructureIsDescent | substreams/substream-utils/src/instruction.rs:202-265 | for every instruction list and log stream the two-stack parser equals recursive descent over the forest of heights, panics included |
| CallContainment.ContainedInNearestLower | substreams/substream-utils/src/instruction.rs:221-262 | for arbitrary heights, each instruction is contained in the nearest earlier one of strictly smaller height, or at top level, a missing height being smaller than every present one |
| CallContainment.Flattened | substreams/substream-utils/src/instruction.rs:323-337 | the recursive collection is the preorder of the forest |
| CallContainment.FlattenedUndoesStructure | substreams/substream-utils/src/instruction.rs:323-337 | flattening a structured list gives the input order, nothing lost or repeated |
| CallRendering.ReadTrace | substreams/substream-utils/src/instruction.rs:146-199 | from any open slices, reading one rendered call consumes exactly its lines and yields its tree, or what survives a cut |
| CallRendering.ParserInvertsRendering | substreams/substream-utils/src/instruction.rs:202-265 | on a rendered transaction the parser returns its forest, each logging instruction with exactly its invoke, own and success lines, without panic |
| CallRendering.TruncationIsClean | substreams/substream-utils/src/instruction.rs:156-188 | cut anywhere by the marker: instructions closed before it keep exact logs, later logging ones get none, the shape is unchanged and nothing behind the marker matters |
| CallFraming.NoLineLost | substreams/substream-utils/src/instruction.rs:146-265 | on any input the parser answers on, each logging instruction gets a slice from one invoke line to a success line with no invoke between, silent ones the empty slice, none only after a marker; no line is handed out twice, and without a marker every line read is handed out |
| CallRendering.DepthHeightsAreWellHeighted | substreams/substream-utils/src/instruction.rs:36-41 | heights counted by call depth always describe the forest they come from |
| CallListing.GetFlattenedInstructions | substreams/substream-utils/src/instruction.rs:267-299 | the weaving loop computes the woven list |
| CallListing.NoSetDropped | substreams/substream-utils/src/instruction.rs:283-297 | every inner set is used iff the sets come with strictly increasing indices of existing instructions |
| CallListing.WovenInOrder | substreams/substream-utils/src/instruction.rs:283-297 | in that order each compiled instruction is followed by exactly its own inner ones |
| CallListing.CompiledAreRoots | substreams/substream-utils/src/instruction.rs:301-321 | the parse of the woven list has exactly the compiled instructions, at height 1, as roots, each over exactly the inner ones woven in behind it, iff every inner instruction reports a height and one above 1; in valid order those are its own |
| YieldClaim.BuildClaim | sdk/src/earn_auth.ts:62-124 | the claim loop over newest-first updates computes the specified walk, snapshot and outcome; it answers "already claimed" iff the last claim index is not below the latest; over a list that never rises it never fails, and if the list lies between the two indices the claim is positive, capped by the balances and fair to the yield |
| YieldClaim.ReversedAt | sdk/src/earn_auth.ts:87-87 | the walk takes the list from its other end |
| YieldClaim.TwoUpdates | sdk/src/earn_auth.ts:104-116 | over two updates the claim is floor(b I'/I) - b, b held at the newer, times the last claim index over the growth |
| YieldBounds.AcceptedIffOrdered | sdk/src/earn_auth.ts:99-102 | where no two neighbours share a second, a walk is accepted iff times rise and indices are positive and never fall |
| YieldBounds.SameSecondSkipped | sdk/src/earn_auth.ts:93-97 | an update of the same second as the one before it can be left out without any change |
| YieldBounds.DivisionTruncates | sdk/src/earn_auth.ts:108-116 | the big-number division drops the fraction whatever the signs |
| YieldWalk.WalkDropsNothing | sdk/src/earn_auth.ts:89-112 | a walk over a list is the walk over any prefix continued over the rest |
| YieldBounds.StepTracksGain | sdk/src/earn_auth.ts:106-108 | one step adds the exact gain per unit of index, less under one rounded unit |
| YieldBounds.YieldBoundedByExact | sdk/src/earn_auth.ts:85-112 | computed yield is at most I_n * sum b(1/I - 1/I') and short of it by less than the sum of I_n/I' |
| YieldBounds.ConstantBalanceTelescopes | sdk/src/earn_auth.ts:106-107 | with a constant balance the exact gain is b(1/I_0 - 1/I_n) |
| YieldBounds.WalkNeverDecreases | sdk/src/earn_auth.ts:104-112 | yield never decreases along an accepted walk |
| YieldBounds.WalkMonotone | sdk/src/earn_auth.ts:104-112 | larger balances are accepted alike and earn at least as much |
| YieldBounds.SplittingNeverPays | sdk/src/earn_auth.ts:104-112 | for any number of earners the sum of yields is at most the yield of the pooled balances |
| YieldBounds.SnapshotIsAnAverage | sdk/src/earn_auth.ts:114-116 | the snapshot is between zero and the largest balance held, and times the index growth it is the yield times the last claim index, short of it by less than one growth |
| YieldBounds.ClaimNeverOverpays | sdk/src/earn_auth.ts:62-124 | over rising updates a claim is never refused, is positive and capped, and multiplied back is at most the computed yield and less than one balance unit short of it; no claim means the yield is below the index gap |
| YieldBounds.RisingUpdatesAccepted | sdk/src/earn_auth.ts:93-102 | positive, never falling indices and times never trigger the invalid-update error, skips included |
| Conversion.WidthsArePowers | programs/earn/src/utils/conversion.rs:57-61 | the limits of the conversions are those of 64 and 128 bits |
| Conversion.AmountFits | programs/earn/src/utils/conversion.rs:90-136 | a principal converts iff the rounded amount fits 64 bits |
| Conversion.PrincipalFits | programs/earn/src/utils/conversion.rs:46-88 | an amount converts iff the index is not zero and the rounded principal fits, rounding up also iff the sum fits 128 bits |
| Conversion.UpToAmountAdjointDownToPrincipal | programs/earn/src/utils/conversion.rs:46-136 | principal_to_amount_up(p) <= a iff p <= amount_to_principal_down(a) whenever both fit |
| Conversion.UpToPrincipalAdjointDownToAmount | programs/earn/src/utils/conversion.rs:67-109 | amount_to_principal_up(a) <= p iff a <= principal_to_amount_down(p) whenever both fit |
| Conversion.IndexAtLeastScale | programs/earn/src/utils/conversion.rs:52-54 | a multiplier of at least one computes with an index of at least the scale, and one with exactly the scale |
| Conversion.IndexOfNear | programs/earn/src/utils/conversion.rs:52-54 | the conversions' index is the scaled multiplier, rounded once and then down; zero for multipliers of zero or less, saturated at the top |
| Conversion.IndexOfMultiplier | programs/earn/src/utils/conversion.rs:52-54 | for indices below 2^52 the multiplier of index i makes the conversions compute with i or i - 1 |
| Conversion.ConversionsUseIndex | programs/earn/src/utils/conversion.rs:46-136 | all four conversions are their formula at that index, shortcut included |
| Conversion.AmountAtIndex | programs/earn/src/utils/conversion.rs:90-136 | at the multiplier of index i a principal p is worth i p / scale, rounded either way, with i or i - 1, or the amount does not fit |
| Conversion.PrincipalAtIndex | programs/earn/src/utils/conversion.rs:46-88 | at the multiplier of index i an amount a is worth a scale / i in principal, rounded either way, with i or i - 1, or the principal does not fit |
| Conversion.ShortcutAgrees | programs/earn/src/utils/conversion.rs:47-50 | at multiplier one all four formulas return the argument, as the shortcut does |
| Conversion.UpThenDownIsIdentity | programs/earn/src/utils/conversion.rs:46-136 | for multipliers of at least one, principal to amount up and back down is the identity |
| Conversion.DownThenUpIsIdentity | programs/earn/src/utils/conversion.rs:67-109 | for multipliers of at least one, principal to amount down and back up is the identity whenever the amount fits |
| Conversion.MultiplierMonotone | programs/earn/src/utils/conversion.rs:151-153 | a larger 64-bit index never has a smaller multiplier |
| Conversion.MultiplierIsDouble | programs/earn/src/utils/conversion.rs:151-153 | the multiplier is a double, within two roundings of index / scale |
| Conversion.MultiplierOrderIsIndexOrder | programs/earn/src/utils/conversion.rs:151-153 | below 2^52 multipliers compare exactly as their indices |
| Conversion.IndexRoundTrip | programs/earn/src/utils/conversion.rs:138-153 | from 1 to 2^52 - 1, index to multiplier and back gives the index or one less |
| Conversion.MultiplierToIndexCases | programs/earn/src/utils/conversion.rs:138-149 | underflow only from -1 down, overflow only above the largest u64, otherwise the product without its fraction |
| EarnProgram.Earn.HandlePropagateIndex | programs/earn/src/instructions/portal/propagate_index.rs:35-81 | accepted iff signed by the portal authority; then the multiplier becomes the larger of the old one and the index's, the root changes iff the new one is not zero and the index not stale, and an event is emitted iff the multiplier rises; nothing else changes |
| EarnProgram.Earn.SetMultiplier | programs/earn/src/utils/conversion.rs:12-44 | afterwards the multiplier is at least the target, has not fallen, and is one of the two |
| EarnProgram.Earn.HandleAdd | programs/earn/src/instructions/open/add_registrar_earner.rs:20-74 | accepted iff the account is frozen with a fixed, non-zero owner proved in the root; then it is thawed, and nothing else changes |
| EarnProgram.Earn.HandleRemove | programs/earn/src/instructions/open/remove_registrar_earner.rs:18-83 | accepted iff the account is thawed with an unprotected owner proved absent; then it is frozen, and nothing else changes |
| EarnProgram.Earn.HandleRecover | programs/earn/src/instructions/admin/recover.rs:16-97 | the whole effect; accepted iff the admin signs, the source is frozen and another account and the amount is covered; then exactly the amount moves, the source stays frozen and the destination is thawed; a failure undoes every step |
| EarnProgram.Earn.HandleUpdatePortalAuthority | programs/earn/src/instructions/admin/update_portal_authority.rs:16-70 | the whole effect; accepted iff the admin signs and the account is usable; then the authority is replaced and exactly its account thawed |
| EarnProgram.Earn.HandleInitialize | programs/earn/src/instructions/admin/initialize.rs:51-254 | accepted iff not initialized, the mint has six decimals, starts accounts frozen, is controlled by the program and its multiplier is not above the given or, migrating, the old program's index, both accounts are usable, and a migrated supply times the index is within the old supply times the scale; then globals and multiplier are set and exactly the two accounts thawed; a failure undoes every step |
| EarnRuns.ThawedIsJustified | programs/earn/src/instructions/open/remove_registrar_earner.rs:32-36 | in every run from an all-frozen start, every thawed account was thawed by a step with a reason (authority, proved membership or admin recover) and never frozen since, and except after recover its owner is fixed |
| EarnRuns.GrantedMembersBelong | programs/earn/src/instructions/open/add_registrar_earner.rs:46-60 | a reason by proof is membership in every key set with that root |
| EarnRuns.AddIffMember | programs/earn/src/instructions/open/add_registrar_earner.rs:20-74 | under an honest root an account can be thawed iff it is frozen, owner-fixed and its non-zero owner is a member |
| EarnRuns.RemoveIffNotMember | programs/earn/src/instructions/open/remove_registrar_earner.rs:47-83 | under an honest root an account can be frozen iff it is thawed, unprotected and its owner is not a member |
| EarnRuns.ZeroRootDecidesNothing | programs/earn/src/instructions/admin/initialize.rs:190-197 | before any root is propagated nobody can be added or removed |
| EarnRuns.RunKeepsTotal | programs/earn/src/instructions/admin/recover.rs:46-97 | over every run, transfers and recoveries included, the sum of all balances stays |
| EarnRuns.OpenedAccount | programs/earn/src/instructions/open/remove_registrar_earner.rs:32-36 | a new account is empty and starts in the mint's default state |
| EarnRuns.StepKeepsControl | programs/earn/src/instructions/portal/propagate_index.rs:13-52 | no step lowers the multiplier, undoes initialization or changes admin or swap authority; only the portal authority's propagation or initialization raises the multiplier, and only the former emits an event; only the admin replaces the portal authority; another root comes only from the portal authority, non-zero and not stale, or from initialization |
| EarnRuns.RootHasSource | programs/earn/src/instructions/portal/propagate_index.rs:35-52 | in every run of a fresh program the root in force was put there by such a step and has stayed since |
| EarnRuns.RiseHasSource | programs/earn/src/instructions/portal/propagate_index.rs:13-63 | in every run a risen multiplier was written by initialization or the portal authority of its time, from that action's index, and has stayed since |
| EarnRuns.EventHasSource | programs/earn/src/instructions/portal/propagate_index.rs:55-77 | every event of a run was emitted by a propagation of the portal authority of its time and reports its index, clock, supply and multipliers |
| EarnRuns.RunKeepsControl | programs/earn/src/utils/conversion.rs:24-36 | over every run the multiplier never falls and admin and swap authority stay |
| EarnRuns.FrozenBalanceStays | programs/earn/src/instructions/admin/recover.rs:13-13 | a frozen account keeps its owner, and no step other than recover changes its balance |
| EarnIndex.InitializeMatches | programs/earn/src/instructions/admin/initialize.rs:133-212 | a successful initialization leaves exactly the multiplier and root of where it starts: the given index and the zero root, or the old program's index and root |
| EarnIndex.MigrationKeepsSupply | programs/earn/src/instructions/admin/initialize.rs:214-220 | after a migration supply times the old program's index, or one less, is at most the old supply times the scale |
| EarnIndex.FittingSupplyMigrates | programs/earn/src/instructions/admin/initialize.rs:214-220 | a supply that stays within it at that index passes the check |
| EarnIndex.PropagateMatches | programs/earn/src/instructions/portal/propagate_index.rs:40-78 | one propagation on doubles decides as the integer rule does, and emits an event iff its index is larger |
| EarnIndex.RunRefinesIntegers | programs/earn/src/instructions/portal/propagate_index.rs:35-81 | for indices below 2^52 every run on doubles has the multiplier and root of the run on integers, and its events are exactly the strict records among the updates, in order |
| EarnIndex.MachineEndsAtLatest | programs/earn/src/instructions/portal/propagate_index.rs:44-52 | a run ends at the largest index seen and at the last non-zero root that was not stale, or the initial root |
| EarnIndex.InitializedRunEndsAtLatest | programs/earn/src/instructions/portal/propagate_index.rs:35-81 | from initialization on, every run on doubles ends with the multiplier of the largest index seen, the last non-stale non-zero root or the initial one, and one event for every update above all before it |
| EarnIndex.StepKeepsChain | programs/earn/src/instructions/portal/propagate_index.rs:55-77 | every step keeps the events a chain: each starts at the multiplier where the last one ended |
| EarnIndex.RunKeepsChain | programs/earn/src/instructions/portal/propagate_index.rs:55-77 | over every run with a clock that never goes back the events form one chain in time order |
| EarnIndex.ChainIndicesIncrease | programs/earn/src/instructions/portal/propagate_index.rs:70-76 | emitted events have strictly increasing indices |
| EarnIndex.EventsFeedTheWalk | sdk/src/earn_auth.ts:89-102 | over any run and any window of its events the walk's check on indices and times never fires |

## Left out

- verifyExclusionProof (sdk/src/merkle.ts:386-421): it compares buffers with `<`, which compares decoded strings; the Rust verifier is modelled instead.
- Keccak, byte encodings and key parsing: hashes are abstract, keys are the integers their bytes spell, not bounded by 2^256.
- MerkleExclusion.ExclusionComplete: stated for trees of fewer than 64 levels (up to 2^63 keys), as is every lemma that says an exclusion proof is accepted; beyond them the verifier aborts on 2^64.
- The caller's array that the constructor extends when it is empty, and that `tree[0]` is the same array as `leaves` until the next update.
- StructuredInstruction objects: trees are values moved between stacks, so shared references, `parent_instruction` and `top_instruction` are not modelled; the final drain does not set the parent.
- CallParser.StructureFlattened: looking up account keys by index, which can also panic, is not modelled.
- Recognising log lines by text, base64 data, database records, protobuf types.
- YieldClaim.BuildClaim: balances and index updates come as arguments instead of from the database; indices are naturals, so the loss of precision of JavaScript numbers above 2^53 is not modelled.
- Conversion.MultiplierToIndex: NaN, infinities and subnormal doubles are not modelled.
- The mint's configuration (decimals, extensions, authorities) does not change during a run: it is part of the environment that initialization checks (programs/earn/src/instructions/admin/initialize.rs:120-184).
- The testing build, in which the admin may also propagate.
- Account plumbing, address derivation, rent and transfer authorisation; minting and burning by the portal.
- Token and system instruction decoding, balance replay, the command line, bots, services and tooling: input and output.
