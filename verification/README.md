# Verified models of the Traigent schema package

A Dafny model of the parts of the Traigent JSON-schema package where a small slip would go
unnoticed: content identities, canonical JSON, exact statistics, the schema differ, the
content-class checks, the dataset-record upgrades, archive extraction and label padding. Code
that changes state step by step is modelled by methods with the same loops and proved against
specification functions; what the code promises is then proved of those functions. Run
`dafny verify dfyconfig.toml` to check everything.

## The files

- `common.dfy`, `sorting.dfy`: results, Python's `sorted`, the order of text.
- `merkle_tree.dfy`, `content_identity.dfy`: the RFC 9162 tree over a normalised bag of rows, and
  the verifier's bit loop, which is shown to climb the recursively split tree.
- `wilson.dfy`, `student_t.dfy`, `interval_claims.dfy`: integer bisections for the Wilson score
  interval, outward Student-t half-widths, and the claim checks built on them.
- `decimal_text.dfy`, `ecma_numbers.dfy`, `canonical_text.dfy`: the text of numbers, strings and
  trees (sections 3.2.2.2, 3.2.2.3 and 3.2.3 of RFC 8785; Number::toString of ECMA-262).
- `json_reader.dfy`, `fp2_meaning.dfy`: a reader by the grammar of RFC 8259 that shares nothing with
  the writer, and what the written text says to it.
- `python_heap.dfy`, `fp2_encoder.dfy`, `fp2_properties.dfy`, `stack_walk.dfy`,
  `best_config_profile.dfy`, `invariants.dfy`: the explicit-stack walks over a heap of shared and
  possibly cyclic containers, each against a recursive reading.
- `json_schema.dfy`, `schema_meaning.dfy`, `schema_differ.dfy`, `differ_soundness.dfy`,
  `differ_limits.dfy`, `differ_misses.dfy`, `silence_account.dfy`: validity as any relation that
  satisfies the one-step equations and when there is one, the comparator, its soundness, each kind
  of silent change with the exact condition under which the silence is right, a pair of schemas for
  which it is wrong, and that there are no other kinds.
- `differ_findings.dfy`, `differ_precision.dfy`: every finding of a comparison told by what one side
  accepts and the other does not, and when one of them is breaking.
- `role_propagation.dfy`, `class_claims.dfy`, `content_ratchet.dfy`: role spreading, class claims,
  and the commit-by-commit ratchet.
- `dataset_composition.dfy`, `dataset_leakage.dfy`: what an issuer-verified DS2 or DS3 row means.
- `tar_extraction.dfy`: planning, approval and extraction into an empty destination.
- `utf8.dfy`, `label_padding.dfy`: labels as bytes, padded to buckets and packed into envelopes.
- `dataset_digest.dfy`: the dataset-version digest, from rows up to examples.

## What the proofs found

- The inclusion-proof verifier authenticates membership, but not every claimed index and tree size.
  A proof is accepted exactly when it carries a member with its true audit path and its claim takes
  the same left and right turns (`AcceptedIffProvesMember`). So a leaf left of the tree's split
  keeps its index, under exactly the sizes that split at the same point
  (`LeftLeavesKeepTheirIndex`), while the proof of a leaf right of it is also accepted under other
  indices and infinitely many sizes (`RightLeavesLoseTheirIndex`). A verifier that knows the true
  size is safe (`AcceptedProofsNameTheirLeaf`); any accepted claim names the right index exactly
  when its size splits like the true one on the way to it (`AcceptedIndexIsTrueIff`).
- The Wilson docstring gives the quadratic's value at the top of the scale as `(n-k)^2`; it is
  `(n-k)^2` times the fourth power of the scale (`VertexInRange`). The sign argument is unaffected.
- An honest mean claim is refused as out of bounds when its half-width reaches past the registered
  bounds, and otherwise as degenerate exactly when the sample shows no spread (`CheckMeanClaim`).
- The differ never reads `const`, `not`, `format`, `multipleOf`, `uniqueItems`, `contains`,
  `if`/`then`/`else`, the exclusive bounds, `dependencies` or `additionalItems`: any change of them
  is silent for every role (`UnreadKeywordsExactly`).
- It compares positional `items` by their text only. With the same text and a changed `$ref` target
  it reports nothing for any role (`PositionalRefsExactly`).
- Its other silent changes, each of which can break what the role watches:
  - on a request, a whole `enum` introduced, a property or pattern property added whatever the
    object's `additionalProperties`, and a `oneOf` branch that widens;
  - on a response, a whole `enum` dropped, a rewritten pattern, a property removed whatever the new
    object's `additionalProperties`, a pattern property removed unless the new object is open, and
    a `oneOf` branch that narrows;
  - under the conservative role, a property added to or removed from an open object and a pattern
    property added to one.
- For each kind a lemma `…Exactly` says, for every schema without refs, that the change adds no
  finding and which condition makes the silence right; a lemma in `differ_misses.dfy` gives a pair
  of schemas that breaks it. There are no further kinds: a comparison that raises nothing and misses
  an incompatible change reached one of those above (`WrongSilenceIsListed`, where a `oneOf` branch
  counts once its text changed or it holds refs), and a quiet comparison that reaches none is sound
  (`InsideIffNothingReached` with `DifferSound`).
- The differ also raises BREAKING where nothing the role watches changed for the worse: `type` or
  `enum` dropped on a request or introduced in a response (`DroppedTypeBreaks`,
  `DroppedEnumBreaks`), and combinators it does not compare branch by branch. A request node whose
  keywords only loosen, or a response node whose keywords only tighten, gets a breaking finding of
  its own for these reasons and no others (`HarmlessEditRaisesIff`).
- In `_class_problems` the second test of the dialect after the `$ref` conjunct can never succeed,
  because such nodes returned earlier.
- The script's header says the legacy register only shrinks through a disposition; the code
  refuses every shrinking of it (`LegacyOnlyShrinks`).

## Conventions

Text is a sequence of code points. Hashes and role digests are injective constructors. A finite
float is its sign and the repr text of its magnitude. A node's place in a schema is a path of
slots; findings carry that path, their rule, severity and subject.

## Model

| member | source | states |
|---|---|---|
| MerkleTree.Split | traigent_schema/example_identity.py:740-745 | The doubling loop returns the split point of RFC 9162 |
| MerkleTree.SplitPointIsUnique | traigent_schema/example_identity.py:740-745 | The split point is the one power of two k with k < n <= 2k |
| MerkleTree.SkipRightEdgeLevels | traigent_schema/example_identity.py:895-900 | Skipping right-edge levels spends no audit node: the root along the remaining path is unchanged |
| MerkleTree.FoldStep | traigent_schema/example_identity.py:909-919 | One round of the bit loop climbs exactly one level of the recursively split tree |
| MerkleTree.FoldAuditPath | traigent_schema/example_identity.py:903-920 | The fn/sn loop of section 2.1.3.2 of RFC 9162 returns exactly the root the recursive tree shape gives the leaf and path, or fails where that has none |
| MerkleTree.OnlyTruePathReachesRoot | traigent_schema/example_identity.py:748-765 | Completeness and soundness against the true size: a path leads to the tree hash iff it is the generated audit path of that very leaf |
| MerkleTree.ClaimReachesRootIff | traigent_schema/example_identity.py:903-920 | For every claimed index and size, a leaf and path reach the tree hash iff some true place holds that leaf, the path is its audit path and the claim takes the same turns |
| MerkleTree.LeftClaims | traigent_schema/example_identity.py:903-920 | A claim takes the turns of a leaf left of the split iff it has its index and a size with the same split point |
| MerkleTree.RightClaims | traigent_schema/example_identity.py:903-920 | A claim takes the turns of a leaf right of the split iff it stands right of its own split and takes the remaining turns there |
| MerkleTree.TurnsDetermineIndex | traigent_schema/example_identity.py:903-920 | For one size the turns determine the index |
| MerkleTree.SameIndexClaims | traigent_schema/example_identity.py:903-920 | A claim of the true index takes the true turns iff its size splits like the true one on the way to it |
| MerkleTree.AcceptedIffRightLength | traigent_schema/example_identity.py:903-920 | Whatever its content, a path is folded to some root iff its length is the one (index, size) dictates |
| MerkleTree.TreeHashIsInjective | traigent_schema/example_identity.py:748-755 | Under a collision-free hash the tree hash determines the list of leaves |
| MerkleTree.LeavesStandInOrder | traigent_schema/example_identity.py:732-755 | Read left to right, the leaves of a tree hash are the list that was hashed |
| MerkleTree.RootKeepsLeaf | traigent_schema/example_identity.py:903-920 | Whatever is placed at a leaf is still in the digest its path leads to |
| ContentIdentity.Normalize | traigent_schema/example_identity.py:782-797 | Rows are merged to strictly ordered pairs with summed counts; it fails exactly on a malformed row or a sum above the limit |
| ContentIdentity.ValidMemberIff | traigent_schema/example_identity.py:156-160 | Valid rows are exactly those spelled `ex1:k<16 hex>:<64 hex>` and `exv1:k<16 hex>:<64 hex>` with one key id, which is the one they are filed under, and a safe positive count |
| ContentIdentity.NormalFormAscends | traigent_schema/example_identity.py:795-796 | Of two leaves the earlier has the smaller id at the first difference, or the same id and the smaller version |
| ContentIdentity.NormalFormIsUnique | traigent_schema/example_identity.py:782-797 | Two bags with the same summed counts have the same normal form, in whatever order the rows came |
| ContentIdentity.NormalFormConservesCounts | traigent_schema/example_identity.py:782-797 | Merging rows neither loses nor invents occurrences |
| ContentIdentity.SingleKeyId | traigent_schema/example_identity.py:800-812 | The one key id all rows and the caller agree on, or the exact reason there is none |
| ContentIdentity.ComputeMultisetRoot | traigent_schema/example_identity.py:823-855 | A root is computed exactly when no reason against it applies, and it is the root of the rows |
| ContentIdentity.SameRootIffSameMultiset | traigent_schema/example_identity.py:823-855 | Two item lists get the same root iff they have the same key id and are the same multiset with counts summed, in any order |
| ContentIdentity.IsSubMultiset | traigent_schema/example_identity.py:947-954 | True iff the key ids agree and every pair occurs in the outer multiset at least as often |
| ContentIdentity.BuildInclusionProof | traigent_schema/example_identity.py:869-882 | A proof is built exactly for members of the multiset, and it is the proof for that member |
| ContentIdentity.VerifyInclusionProof | traigent_schema/example_identity.py:923-939 | What the verifier accepts, stated in terms of the top-down tree shape |
| ContentIdentity.BuiltProofsVerify | traigent_schema/example_identity.py:869-939 | Completeness: every proof that is built verifies |
| ContentIdentity.AcceptedIffProvesMember | traigent_schema/example_identity.py:923-944 | Exact acceptance: a proof against a root is accepted iff it carries some member and its audit path, under a claim that takes the turns of that member's place |
| ContentIdentity.AcceptedProofsNameTheirLeaf | traigent_schema/example_identity.py:923-944 | An accepted proof names the leaf at its index, with the audit path that would have been built, iff it claims the true tree size |
| ContentIdentity.AcceptedIndexIsTrueIff | traigent_schema/example_identity.py:923-944 | An accepted proof names its member's true index iff the claimed size splits like the true one on the way to that index, down to where it turns left |
| ContentIdentity.AcceptedProofsNameMembers | traigent_schema/example_identity.py:923-939 | Whatever size and index it claims, an accepted proof names a member of the multiset |
| ContentIdentity.LeftLeavesKeepTheirIndex | traigent_schema/example_identity.py:923-944 | For a leaf left of the split a claim is accepted iff it names the true index and a size with the same split point |
| ContentIdentity.RightLeavesLoseTheirIndex | traigent_schema/example_identity.py:923-944 | For a leaf right of the split the same proof is accepted under every power of two that could be the split point, so under infinitely many sizes |
| Wilson.QuadraticIsScore | traigent_schema/certification/agent_quality_verifier.py:1406-1411 | The integer quadratic of the source is the score test with denominators cleared |
| Wilson.WilsonBounds | traigent_schema/certification/agent_quality_verifier.py:1355-1438 | The two bisections return the floor of the lower root and the ceiling of the upper root; the clamps change nothing, every enclosed proportion is inside, and low < high |
| Wilson.IntervalIsUnique | traigent_schema/certification/agent_quality_verifier.py:1355-1438 | There is only one such interval |
| Wilson.WiderQuantileContains | traigent_schema/certification/agent_quality_verifier.py:1355-1438 | A larger quantile gives a containing interval |
| Wilson.IntervalMirrors | traigent_schema/certification/agent_quality_verifier.py:1355-1438 | Counting failures instead of successes mirrors the interval |
| Wilson.VertexInRange | traigent_schema/certification/agent_quality_verifier.py:1396-1418 | The vertex lies between 0 and the scale; at 0 and at the scale the quadratic is k^2 and (n-k)^2 times the fourth power of the scale |
| Wilson.RoundsHalfUp | traigent_schema/certification/agent_quality_verifier.py:1344-1352 | The point estimate is the nearest integer, halves rounded up |
| Wilson.PointIsEnclosed | traigent_schema/certification/agent_quality_verifier.py:1344-1438 | The rounded point estimate never leaves the interval |
| StudentT.HalfWidthIsOutward | traigent_schema/certification/agent_quality_verifier.py:1441-1476 | The half-width is a true outward bound: squared and cleared of roots it is never below t sd / sqrt(n) |
| StudentT.HalfWidthIsTight | traigent_schema/certification/agent_quality_verifier.py:1441-1476 | One unit less already falls short of t sd / sqrt(n) widened by one part in a million, the error of the scaled root |
| StudentT.HalfWidthMonotone | traigent_schema/certification/agent_quality_verifier.py:1441-1476 | Monotone in spread and quantile, antitone in sample count |
| StudentT.HalfWidthIsZeroIffNoSpread | traigent_schema/certification/agent_quality_verifier.py:1441-1476 | The interval collapses exactly when the sample shows no spread |
| StudentT.QuantileBucketsByCoverage | traigent_schema/certification/agent_quality_verifier.py:1225-1236 | The grouping loop gives each coverage its buckets in order |
| StudentT.LookupFailsIffNoBucket | traigent_schema/certification/agent_quality_verifier.py:1315-1341 | The lookup fails exactly when the coverage has no bucket up to the degrees of freedom |
| StudentT.LookupBorrowsLargestBucket | traigent_schema/certification/agent_quality_verifier.py:1315-1341 | Otherwise it borrows from the largest bucket that does not exceed them |
| StudentT.LookupNeverUnderestimates | traigent_schema/certification/agent_quality_verifier.py:1315-1341 | Bucketing never understates an antitone quantile |
| StudentT.MoreSamplesNeverWiden | traigent_schema/certification/agent_quality_verifier.py:1315-1476 | Lookup and half-width together: more samples never widen the interval |
| IntervalClaims.CheckWilsonClaim | traigent_schema/certification/agent_quality_verifier.py:2159-2220 | A binary-rate claim passes iff point and interval are the recomputed ones under the looked-up quantile and within the registered bounds; every refusal carries the code of the first row violated, and an honest claim trips none but the bounds |
| IntervalClaims.CheckMeanClaim | traigent_schema/certification/agent_quality_verifier.py:2159-2220 | A mean claim passes iff it is the recomputed one under the looked-up quantile, with spread and within bounds; an honest claim is out of bounds iff it leaves them, and degenerate iff it stays within and shows no spread |
| EcmaNumbers.ShortestDigitsKeepValue | traigent_schema/fp2.py:102-120 | (s, n) denotes the same value as the repr text and s has no leading or trailing zero |
| EcmaNumbers.LayoutDenotes | traigent_schema/fp2.py:135-147 | Each of the four notations denotes 0.s * 10^n |
| EcmaNumbers.LayoutNotation | traigent_schema/fp2.py:135-147 | An exponent is written exactly below 10^-6 and from 10^21 on, after one digit that is not zero, and no notation holds an idle zero |
| EcmaNumbers.SameTextIffSameValue | traigent_schema/fp2.py:123-147 | Two repr texts print alike exactly when they denote the same value |
| EcmaNumbers.NumberTextInjective | traigent_schema/fp2.py:123-147 | Different numbers, zeros and signs included, are written differently |
| EcmaNumbers.IntTextIsNumberText | traigent_schema/fp2.py:159-166 | An integer of at most 21 digits is written alike as an int and as a float |
| DecimalText.SignificantFormIsUnique | traigent_schema/fp2.py:102-120 | A positive value has one digits-and-exponent form without insignificant zeros |
| CanonicalText.BytesCompareAsUnits | traigent_schema/fp2.py:61-81 | Comparing big-endian UTF-16 bytes is comparing code units |
| CanonicalText.Utf16Injective | traigent_schema/fp2.py:61-81 | Different encodable texts have different sort keys |
| CanonicalText.UnitsAreSurrogates | traigent_schema/fp2.py:61-81 | A character above 0xFFFF becomes a high and a low surrogate that carry its upper and lower ten bits |
| CanonicalText.StringReadsBack | traigent_schema/fp2.py:84-99 | An escaped string can be read off the front of any text: escapes are never ambiguous |
| CanonicalText.TextReadsBack | traigent_schema/fp2.py:259-292 | A printed value can be read off the front of any text that goes on with a delimiter |
| CanonicalText.TextIsInjective | traigent_schema/fp2.py:259-292 | Two trees have the same canonical text only if they are the same tree |
| JsonReader.StringReads | traigent_schema/fp2.py:84-99 | A string written by the encoder reads back as that string by section 7 of RFC 8259, whatever follows |
| JsonReader.EscapeIsShortest | traigent_schema/fp2.py:50-99 | Each character is written in the shortest way that reads as it, with lower-case digits, and no other text of that length reads as it |
| JsonReader.NumberReads | traigent_schema/fp2.py:102-147 | A written number reads back as that number by section 6 of RFC 8259 |
| JsonReader.MagnitudeIsCanonical | traigent_schema/fp2.py:135-147 | The notation in terms of its characters: when there is an exponent, its sign, one digit before its point, no idle zero and no bare point |
| JsonReader.ValueReads | traigent_schema/fp2.py:259-292 | A printed value reads back as the tree it was printed from, whatever delimiter follows |
| JsonReader.TextReads | traigent_schema/fp2.py:259-292 | The canonical text of a tree is JSON text of exactly that tree |
| Fp2Encoder.EncodeScalarWritesTree | traigent_schema/fp2.py:150-195 | A scalar is refused for the reason its tree has, or written as its tree |
| Fp2Encoder.DictChildren | traigent_schema/fp2.py:198-217 | Keys are checked and sorted, then names, separators and values are scheduled in canonical order |
| Fp2Encoder.ListChildren | traigent_schema/fp2.py:220-228 | Items are scheduled in order with their separators |
| Fp2Encoder.OpenContainer | traigent_schema/fp2.py:231-256 | Depth, cycle and key checks, then the children reversed on the stack above a close marker |
| Fp2Encoder.Encode | traigent_schema/fp2.py:259-292 | On every heap, cyclic ones included, the work-stack encoder terminates with the canonical text of the recursive reading, or with the same first reason |
| Fp2Encoder.OpenedIsScheduled | traigent_schema/fp2.py:231-256 | Entering keeps the open set equal to the containers whose close marker is still on the stack |
| Fp2Encoder.SteppedIsScheduled | traigent_schema/fp2.py:259-292 | So does every pop |
| Fp2Encoder.ContainerWeighsLess | traigent_schema/fp2.py:259-292 | The termination measure falls when a container is entered, cyclic heaps included |
| Fp2Properties.FailsIffPathTooLongOrCyclic | traigent_schema/fp2.py:231-292 | Over scalars and keys that each encode, canonicalisation fails iff some path from the root passes more than 100 containers or repeats one; shared acyclic parts are accepted |
| Fp2Properties.SameTextIffSameTree | traigent_schema/fp2.py:295-318 | Two values print the same iff they unfold to the same tree, members sorted by UTF-16 code units and numbers by value |
| Fp2Properties.TextIgnoresMemberOrder | traigent_schema/fp2.py:198-217 | Listing the members of any object in another order leaves the canonical text unchanged |
| Fp2Meaning.ScalarRefusedIff | traigent_schema/fp2.py:150-195 | A scalar is refused exactly when it is an integer beyond 2^53 - 1, a non-finite float or text with a lone surrogate, each with its own reason |
| Fp2Meaning.UnfoldDepicts | traigent_schema/fp2.py:175-292 | Whatever a value unfolds to shows it: scalars as themselves, lists in order, dicts with exactly their keys in ascending UTF-16 order |
| Fp2Meaning.TextShowsValue | traigent_schema/fp2.py:259-318 | The canonical text of a value, read by the grammar of RFC 8259, shows that value |
| DatasetDigest.HashIgnoresRowOrder | traigent_schema/content_identity.py:123-138 | The hashed bytes do not depend on row order, even when ids collide |
| DatasetDigest.HashesIffEncodable | traigent_schema/content_identity.py:118-138 | Rows hash at all iff every id and every projected text is free of lone surrogates |
| DatasetDigest.HashDeterminesProjections | traigent_schema/content_identity.py:123-138 | Two datasets are hashed alike only if they hold the same projections in id order |
| DatasetDigest.ChangedExampleChangesDigest | traigent_schema/content_identity.py:70-138 | Any change to one example's input text or expected output changes the digest, whatever becomes of its id |
| DatasetDigest.DigestDeterminesContents | traigent_schema/content_identity.py:70-138 | Datasets with one digest hold the same contents, repeats included |
| DatasetDigest.DigestIgnoresExampleOrder | traigent_schema/content_identity.py:70-138 | Reordering the examples never changes the digest |
| DatasetDigest.RowsCompareByText | traigent_schema/content_identity.py:129-135 | Sorting by the UTF-8 bytes of the canonical text is sorting by its code points |
| DatasetDigest.RowsDoNotTie | traigent_schema/content_identity.py:123-138 | Rows of equal id and equal text are the same row, so sorting is deterministic |
| DatasetDigest.HashedRowsAscend | traigent_schema/content_identity.py:129-137 | What is hashed is the array of all projections, by the UTF-16 order of the id first and by the order of the text second |
| DatasetDigest.ProjectionShows | traigent_schema/content_identity.py:122-128 | The hashed projection of an example, read as JSON, holds its expected output or null and its input text or texts, and nothing else |
| BestConfigProfile.OpenProfileContainer | traigent_schema/best_config_profile.py:400-430 | The close marker first, then the children in order; refused on depth, cycle or a key that is no string |
| BestConfigProfile.Prevalidate | traigent_schema/best_config_profile.py:320-366 | The walk refuses a value for the same first reason as a recursive reading that visits children last first |
| BestConfigProfile.RefusedIff | traigent_schema/best_config_profile.py:285-430 | A value is refused exactly for an unsafe whole number, a foreign type, a key that is no string, or a path that is too long or cyclic, and the reason given is one that is there |
| BestConfigProfile.PrevalidatedCanonicalises | traigent_schema/best_config_profile.py:320-366 | After prevalidation the encoder can only meet a non-finite number or a lone surrogate, although it visits children in the opposite order |
| Invariants.PushCanonicalChildren | traigent_schema/invariants.py:357-367 | Children are queued above the close marker, or a key that is no string refuses the object |
| Invariants.PrevalidateCanonical | traigent_schema/invariants.py:254-367 | Terminates on every heap, accepts exactly the canonical values and refuses the others for the first reason the recursive reading meets, children last first |
| Invariants.AcceptableIffPaths | traigent_schema/invariants.py:254-354 | The canonical values apart from any walk: no path from the root passes more than 100 containers or one twice, everything reached is exact, and the unfolding has at most 100,000 nodes |
| Invariants.AdmitSpends | traigent_schema/invariants.py:334-354 | Reserving children in advance charges each node of the unfolding exactly once: what is admitted has a tree the budget covers, and what is left of the budget is exact |
| Invariants.EnteringKeepsPending | traigent_schema/invariants.py:334-367 | Entering a container leaves the walk the same verdict and the same remaining budget |
| Invariants.UnrollLoosens | traigent_schema/invariants.py:389-419 | A tree found inside open containers is the same tree anywhere shallower |
| Invariants.ExpandValidatedPair | traigent_schema/invariants.py:370-386 | Two nodes of one type differ at once, or agree exactly when all queued child pairs agree |
| Invariants.FloatsCompareByValue | traigent_schema/invariants.py:386-386 | Float equality is equality of the denoted numbers, signed zeros included |
| Invariants.RefusalsHaveReasons | traigent_schema/invariants.py:254-367 | A refusal as non-canonical shows something inexact, a refusal for bounds shows too many nodes or a path that is too long or cyclic |
| Invariants.SameTreeIffAlike | traigent_schema/invariants.py:370-419 | Two trees are equal exactly when the values are alike: of one exact type, floats by the number they denote, lists item by item, dicts key by key |
| Invariants.CompareValidated | traigent_schema/invariants.py:389-419 | On admitted pairs the walk terminates and is true iff the unfoldings are the same tree: exact types, key order and sharing forgotten |
| Invariants.ExactStructuralEqual | traigent_schema/invariants.py:422-449 | A verdict is given iff both sides are canonical, and it says whether the two JSON values are alike; otherwise the left side's refusal comes first |
| JsonSchema.Deref | scripts/breaking_schema_check.py:406-436 | The hop loop resolves a chain as the recursive definition does: 25 hops, cycle and missing target included |
| JsonSchema.DerefKeepsMeaning | scripts/breaking_schema_check.py:406-436 | Resolution keeps the meaning of a fragment, even where it stops early |
| JsonSchema.DerefFollowsChain | scripts/breaking_schema_check.py:406-436 | Resolution ends where the chain of refs does: at a fragment that is no ref, as cyclic after 25 hops or before a key already seen, as unresolved before a key that does not exist |
| SchemaDiffer.Report.EmitKeyword | scripts/breaking_schema_check.py:222-267 | The role matrix: narrowed breaks requests, widened breaks responses, either breaks the conservative role |
| SchemaDiffer.Report.ResolveNodePair | scripts/breaking_schema_check.py:570-637 | Which pairs end the comparison and with which finding |
| SchemaDiffer.Report.CompareSlots | scripts/breaking_schema_check.py:840-940 | Members of either side in sorted order: one-sided ones reported by the other side's closedness, shared ones compared |
| SchemaDiffer.Report.CompareCombinator | scripts/breaking_schema_check.py:1006-1098 | oneOf, anyOf and allOf: appeared, disappeared, malformed, miscounted or compared branch by branch |
| SchemaDiffer.Report.CompareNode | scripts/breaking_schema_check.py:522-567 | Appends exactly the role-free list of changes, graded for the role, in reporting order, and terminates on recursive refs |
| DifferSoundness.StepLoosens | scripts/breaking_schema_check.py:522-567 | One step of validation is monotone along looser keywords and looser subschemas |
| DifferSoundness.RefFreeMeansSame | scripts/breaking_schema_check.py:970-1003 | A fragment without refs means the same in every tree |
| DifferSoundness.QuietNodeLoosens | scripts/breaking_schema_check.py:522-567 | A node without findings in a direction demands no more in that direction |
| DifferSoundness.DifferSound | scripts/breaking_schema_check.py:522-567 | With nothing breaking and no stopped comparison, a request schema keeps accepting all it accepted, a response schema accepts nothing new, a conservative pair accepts the same; for any meaning of the schemas, over the fragment `InFragment` |
| SilenceAccount.WrongSilenceIsListed | scripts/breaking_schema_check.py:522-567 | Completeness: a comparison that raises nothing and misses an incompatible change reached a pair of objects showing one of ten kinds of change |
| SilenceAccount.InsideIffNothingReached | scripts/breaking_schema_check.py:522-567 | A quiet comparison lies in the fragment of `DifferSound` iff it reaches none of the ten kinds |
| SilenceAccount.UnfitShows | scripts/breaking_schema_check.py:640-1098 | A quiet pair of objects that breaks the condition of soundness shows one of the kinds, named with its property, pattern or branch |
| DifferSoundness.SilentReportIsSound | scripts/breaking_schema_check.py:522-567 | The same, of the findings the comparator appended |
| DifferFindings.TypeFindings | scripts/breaking_schema_check.py:658-691 | `type`: the findings are the constraint introduced or dropped and the types only one side lists, graded by role |
| DifferFindings.EnumFindings | scripts/breaking_schema_check.py:694-734 | `enum`: the same, but dropping it is told as a loss and introducing it as a gain |
| DifferFindings.RankFindings | scripts/breaking_schema_check.py:737-758 | `additionalProperties`: a finding iff some extra member is accepted by one side only, unless both have value schemas |
| DifferFindings.PatternFindings | scripts/breaking_schema_check.py:761-777 | `pattern`: a loss wherever a string may be lost, a gain where some may be gained and none lost |
| DifferFindings.MaxFindings | scripts/breaking_schema_check.py:788-798 | Upper bounds: a finding for a quantity iff some measure meets one side only; breaking for a request iff one is lost, for a response iff one is gained |
| DifferFindings.MinFindings | scripts/breaking_schema_check.py:801-811 | Lower bounds: the mirror image |
| DifferFindings.RequiredFindings | scripts/breaking_schema_check.py:814-837 | `required`: a finding for exactly each name whose absence one side only accepts |
| DifferFindings.OneSidedFindings | scripts/breaking_schema_check.py:856-967 | A property or pattern of one side only: which finding it gives by what members either side accepts there |
| DifferFindings.ItemsFindings | scripts/breaking_schema_check.py:970-1003 | `items`: a finding iff some element is accepted by one side only, unless both have one schema; other shapes end the comparison |
| DifferFindings.CombinatorFindings | scripts/breaking_schema_check.py:1006-1098 | A combinator appeared or gone is a loss or gain iff some verdicts on the branches pass one side only; malformed or miscounted lists are breaking |
| DifferFindings.NodeFindings | scripts/breaking_schema_check.py:522-567 | Two schema objects give exactly the findings of their own keywords and of the subschemas looked into |
| DifferFindings.FindingsAreTold | scripts/breaking_schema_check.py:522-637 | A whole comparison reports exactly the findings its nodes tell, each at its place, or the one it ends with |
| DifferPrecision.NodeRaises | scripts/breaking_schema_check.py:522-567 | Two schema objects raise something breaking iff a keyword, one-sided member or combinator gives cause or a shared subschema does |
| DifferPrecision.RaisesIffBroken | scripts/breaking_schema_check.py:522-637 | A comparison raises something breaking iff a `$ref` dangles or some node it reaches gives cause, told by acceptance |
| DifferPrecision.HarmlessEditRaisesIff | scripts/breaking_schema_check.py:222-267 | A request whose keywords only loosen, or a response whose keywords only tighten, gets a breaking finding iff one of the false alarms applies or a shared subschema raises one |
| DifferPrecision.DroppedTypeBreaks | scripts/breaking_schema_check.py:640-691 | Dropping `type` from any schema accepts all it accepted, yet is breaking on a request, and its introduction on a response |
| DifferPrecision.DroppedEnumBreaks | scripts/breaking_schema_check.py:694-734 | The same of `enum` |
| SchemaMeaning.GuardedRegistryHasMeaning | scripts/breaking_schema_check.py:406-436 | The validation equations have a solution whenever every ref cycle passes through properties or items |
| SchemaMeaning.RecursiveFragmentsHaveMeaning | scripts/breaking_schema_check.py:406-436 | So registries of fragments that refer to themselves and each other below properties and items have a meaning |
| DifferLimits.SelfComparisonFindsNoChange | scripts/breaking_schema_check.py:522-567 | Comparing a schema with itself reports no change of any keyword |
| DifferLimits.QuietEdit | scripts/breaking_schema_check.py:522-567 | An edit of one part of a node is as quiet as that part, whatever else the node holds |
| DifferLimits.EnumIntroducedExactly | scripts/breaking_schema_check.py:694-705 | Introducing an enum on a request adds no finding to any ref-free schema, and is compatible iff every accepted instance is listed |
| DifferLimits.EnumDroppedExactly | scripts/breaking_schema_check.py:694-705 | Dropping an enum from a response adds no finding, and is compatible iff nothing unlisted is accepted now |
| DifferLimits.PatternRewrittenExactly | scripts/breaking_schema_check.py:761-777 | Rewriting a pattern on a response adds no finding, and is compatible iff every string accepted now matched before |
| DifferLimits.UnreadKeywordsExactly | scripts/breaking_schema_check.py:522-567 | Changing const, not, format and the like adds no finding for any role, and is compatible iff, in each direction the role watches, all accepted instances meet the other side's keywords |
| DifferLimits.PropertyAddedExactly | scripts/breaking_schema_check.py:880-916 | An added property adds no finding iff the role is request or the old object is open, and is then compatible iff every instance accepted before fits it (always on a response) |
| DifferLimits.PropertyRemovedExactly | scripts/breaking_schema_check.py:856-877 | A removed property adds no finding iff the role is response or the new object is open, and is then compatible iff every instance accepted now fitted it (always on a request) |
| DifferLimits.PatternAddedExactly | scripts/breaking_schema_check.py:943-967 | An added pattern property adds no finding iff the role is request or the old object is open, and is then compatible iff all matching members of what was accepted fit it |
| DifferLimits.PatternRemovedExactly | scripts/breaking_schema_check.py:919-936 | A removed pattern property adds no finding iff the role is response and the new object not open, or request and open; on a response it is compatible iff all matching members of what is accepted now fitted it |
| DifferLimits.OneOfBranchWidenedExactly | scripts/breaking_schema_check.py:1033-1053 | Widening a oneOf branch on a request adds no finding, and is compatible iff no accepted instance newly matches the branch |
| DifferLimits.OneOfBranchNarrowedExactly | scripts/breaking_schema_check.py:1033-1053 | Narrowing a oneOf branch on a response adds no finding, and is compatible iff nothing accepted now matched the branch before and no longer does |
| DifferLimits.PositionalRefsExactly | scripts/breaking_schema_check.py:970-1003 | Positional items of one text add no finding for any role, and are compatible iff, in each direction the role watches, every accepted array fits them as the other tree reads their refs |
| DifferMisses.MeaningsExist | scripts/breaking_schema_check.py:522-567 | The pairs below are not vacuous: both trees have meanings |
| DifferMisses.EnumIntroducedIsMissed | scripts/breaking_schema_check.py:694-705 | A pair under every meaning: an enum introduced on a request is silent and narrows |
| DifferMisses.EnumDroppedIsMissed | scripts/breaking_schema_check.py:694-705 | A pair under every meaning: an enum dropped from a response is silent and widens |
| DifferMisses.PatternRewrittenIsMissed | scripts/breaking_schema_check.py:761-777 | A pair under every meaning: a rewritten pattern on a response is silent and widens |
| DifferMisses.UnreadKeywordIsMissed | scripts/breaking_schema_check.py:522-567 | A pair under every meaning: a const introduced is silent and narrows, on a request and for the conservative role |
| DifferMisses.DroppedKeywordIsMissed | scripts/breaking_schema_check.py:522-567 | A pair under every meaning: a const dropped is silent and widens, on a response and for the conservative role |
| DifferMisses.PropertyAddedIsMissed | scripts/breaking_schema_check.py:880-916 | A pair under every meaning: a property added to an open object is silent and narrows, on a request and for the conservative role |
| DifferMisses.ConstrainedPropertyAddedIsMissed | scripts/breaking_schema_check.py:880-916 | A pair under every meaning: so it is on a request where the extras were constrained |
| DifferMisses.PropertyRemovedIsMissed | scripts/breaking_schema_check.py:856-877 | A pair under every meaning: a property removed from an open object is silent and widens, on a response and for the conservative role |
| DifferMisses.PatternAddedIsMissed | scripts/breaking_schema_check.py:943-967 | A pair under every meaning: a pattern property added to an open object is silent and narrows, on a request and for the conservative role |
| DifferMisses.PatternRemovedIsMissed | scripts/breaking_schema_check.py:919-936 | A pair under every meaning: a pattern property removed from a constrained object is silent on a response and widens |
| DifferMisses.TupleItemsHideRefs | scripts/breaking_schema_check.py:970-1003 | A pair under every meaning: positional items with the same text are silent although the fragment their ref leads to changed |
| DifferMisses.OneOfBranchWidenedIsMissed | scripts/breaking_schema_check.py:1033-1053 | A pair under every meaning: a oneOf branch that widens is silent on a request and newly rejects |
| DifferMisses.OneOfBranchNarrowedIsMissed | scripts/breaking_schema_check.py:1033-1053 | A pair under every meaning: a oneOf branch that narrows is silent on a response and newly accepts |
| RolePropagation.PropagateRoles | scripts/breaking_schema_check.py:1502-1517 | Least fixpoint: a file has a role iff some file with that direct role reaches it, in whatever order the passes run and with cycles |
| RolePropagation.SpreadOnce | scripts/breaking_schema_check.py:1507-1516 | A pass reports a change iff some file gained a role; without one the roles are closed along every edge |
| RolePropagation.MorePairs | scripts/breaking_schema_check.py:1506-1516 | Termination: every changing pass leaves fewer missing pairs of file and role |
| ClassClaims.ClassProblems | scripts/content_class_lint.py:532-599 | Recursion and branch loops give the reasons of the recursive reading, each with its branch prefix |
| ClassClaims.ReasonsAre | scripts/content_class_lint.py:532-599 | The reasons of any node: every reason of every conjunct, led to by its branch, unless one conjunct gives none; or the one reason of a node not looked into |
| ClassClaims.EmptyHasGround | scripts/content_class_lint.py:595-599 | An empty answer rests on one satisfied conjunct |
| ClassClaims.GroundMakesEmpty | scripts/content_class_lint.py:595-599 | One satisfied conjunct is enough for an empty answer |
| ClassClaims.ClaimHolds | scripts/content_class_lint.py:532-599 | With no reasons, every value the node accepts is null or in the class, for any nesting of refs and combinators in both dialect modes, given a sound leaf check |
| ClassClaims.CircularClaimsAreRefused | scripts/content_class_lint.py:532-599 | Nodes whose every way to justify the class leads to one of themselves again, through refs and combinators, are refused at every depth and in both dialects |
| ClassClaims.EmptyCycleIsRefused | scripts/content_class_lint.py:532-599 | Corollary: a reference that only leads back to itself is refused at every depth |
| ClassClaims.OutOfDepthProvesNothing | scripts/content_class_lint.py:551-556 | At exhausted depth an empty answer is given only to nodes that accept null at most, and then for every class |
| ClassClaims.MoreRoomKeepsProofs | scripts/content_class_lint.py:532-599 | An empty answer stays empty at any smaller depth |
| ContentRatchet.RatchetProblems | scripts/content_class_manifest.py:128-169 | Reports exactly the problems the inputs deserve, in the order of the checks; none without an anchor but a stale manifest |
| ContentRatchet.Departures | scripts/content_class_manifest.py:157-168 | Every location that left legacy content without a truthful, verifiable disposition is reported, and no other |
| ContentRatchet.AcceptedIffInOrder | scripts/content_class_manifest.py:128-169 | No problem deserves a report iff the manifest is live, nothing is newly legacy, the register lost nothing, no disposition changed and every departure is in order |
| ContentRatchet.DepartureInOrderIsQuiet | scripts/content_class_manifest.py:157-168 | A departure recorded with the class the location now carries, or `removed`, and a reference in order raises no problem |
| ContentRatchet.LastEntryWins | scripts/content_class_manifest.py:152-153 | The disposition of a location is the last one listed for it |
| ContentRatchet.ReportInOrder | scripts/content_class_manifest.py:139-169 | Problems are reported check by check, newcomers and departures in ascending order of location |
| ContentRatchet.LegacyOnlyShrinks | scripts/content_class_manifest.py:128-169 | Along a run of accepted commits legacy content only shrinks and the register only grows |
| ContentRatchet.DispositionsStay | scripts/content_class_manifest.py:152-156 | A recorded disposition is never edited or dropped later in the run |
| ContentRatchet.DeparturesAreFinalAndRecorded | scripts/content_class_manifest.py:128-169 | A location that left did so once, never returns, and carries one unchanging disposition naming the class it left for and a reference the files of that commit verify |
| TarExtraction.PlanTarMembers | scripts/_path_safety.py:185-204 | The plan is the regular members in order; refused exactly on a special member under reject or a repeated destination |
| TarExtraction.RejectNonDirectoryParents | scripts/_path_safety.py:207-221 | The upward walk finds a fault iff a planned non-directory stands above a planned path |
| TarExtraction.PrevalidateTarMembers | scripts/_path_safety.py:162-182 | Approves exactly the consistent archives; a refusal names a fault of the first stage that finds one: names and links, then types and repeats, then parents, then required directories |
| TarExtraction.PlannedAre | scripts/_path_safety.py:185-204 | Every file and directory of the archive is planned where its name leads, with its content, and nothing else is |
| TarExtraction.ApprovedIffSound | scripts/_path_safety.py:99-232 | An archive is approved iff, said of its members alone, names and links stay below, types are allowed, no two collide, no file stands in the way and required directories are there |
| TarExtraction.FileTree.ExtractOne | scripts/_path_safety.py:256-266 | Writes one plan whenever nothing stands in its way, touching nothing else |
| TarExtraction.NextIsClear | scripts/_path_safety.py:235-266 | In an approved plan no exclusive create meets an existing path and no file is needed as a directory |
| TarExtraction.ExtractValidated | scripts/_path_safety.py:235-266 | Fails exactly on an unapproved archive, before any write; an approved one completes and the tree holds exactly what was planned |
| TarExtraction.ArchiveOrderIsIrrelevant | scripts/_path_safety.py:162-266 | Reordering the members changes neither the verdict nor the tree |
| DatasetComposition.CheckDeclaredPartition | traigent_schema/certification/dataset_record_verifier.py:1162-1179 | Passes iff the cells are at most 40, distinct, non-empty and sum to the declared count |
| DatasetComposition.CheckLeavesUnique | traigent_schema/certification/dataset_record_verifier.py:1037-1039 | Set size tells repeats: passes iff the leaves are pairwise different |
| DatasetComposition.CheckCellRoots | traigent_schema/certification/dataset_record_verifier.py:1190-1241 | True iff leaves were supplied and every cell, the tags and the item-set root are recomputed; a count mismatch is named iff the first bad cell has one |
| DatasetComposition.DeriveDs2 | traigent_schema/certification/dataset_record_verifier.py:2328-2350 | DS2 is issuer-verified iff shape, partition and roots all hold for a list within bounds; when it stays declared, and which failure a bad shape or partition gives |
| DatasetComposition.Ds2VerifiedMeans | traigent_schema/certification/dataset_record_verifier.py:1162-1241 | Exactly item_count distinct leaves, each in exactly one declared cell, each cell holding its declared number |
| DatasetComposition.Ds2RootsAreOfLeaves | traigent_schema/certification/dataset_record_verifier.py:1190-1241 | The signed item-set root and cell roots are those of the supplied leaves, listed in code-point order |
| DatasetComposition.Ds2VerifiedIff | traigent_schema/certification/dataset_record_verifier.py:1162-1241 | The checks pass exactly when every declared count, key and root is true of the supplied leaves |
| DatasetComposition.Ds2LeavesAreUnique | traigent_schema/certification/dataset_record_verifier.py:1190-1241 | Two lists that verify against one composition hold the same tagged leaves up to order |
| DatasetLeakage.CheckLeafListDigests | traigent_schema/certification/dataset_record_verifier.py:1309-1339 | Passes iff every supplied list has its declared count and digest |
| DatasetLeakage.CheckAttestation | traigent_schema/certification/dataset_record_verifier.py:1649-1715 | True iff manifest, report and attestation carry the one digest of what is attested, scope and blinds agree and supplied corpora match; false only without one; each refusal exactly when its check is the first to fail |
| DatasetLeakage.CheckOverlapAndDisjointness | traigent_schema/certification/dataset_record_verifier.py:1342-1388 | Passes iff every checkable finding reports its true overlap and none asserted disjoint intersects, counting those checked; a refusal names the first finding that fails and why |
| DatasetLeakage.DisjointnessEstablished | traigent_schema/certification/dataset_record_verifier.py:1391-1439 | True iff some pair is named and every named pair, whichever way round, is asserted, supplied and disjoint |
| DatasetLeakage.DeriveDs3 | traigent_schema/certification/dataset_record_verifier.py:2353-2404 | When DS3 is issuer-verified, abstained or refused |
| DatasetLeakage.VerifyLeakage | traigent_schema/certification/dataset_record_verifier.py:2465-2491 | The stages in order: DS3 is issuer-verified iff the digests, the attestation, the findings and the coverage all hold and no list is too long to read |
| DatasetLeakage.Ds3VerifiedMeans | traigent_schema/certification/dataset_record_verifier.py:2353-2404 | Issuer-verified: every overlap or disjointness finding has both corpora supplied, digest-checked, attested and disjoint, and reports overlap zero |
| DatasetLeakage.OneAttestationBinds | traigent_schema/certification/dataset_record_verifier.py:1662-1680 | One report binds at most one attestation: the bound digest covers everything attested |
| DatasetLeakage.UpgradingAttestationIsUnique | traigent_schema/certification/dataset_record_verifier.py:1649-1715 | Two attestations under which one report reaches the upgrade are the same attestation |
| DatasetLeakage.Ds3VerifiedIff | traigent_schema/certification/dataset_record_verifier.py:1309-2404 | DS3 is issuer-verified exactly when everything declared and signed is true of the supplied lists and every relevant finding is backed by supplied, attested, disjoint corpora |
| DatasetLeakage.Ds3ListsAreUnique | traigent_schema/certification/dataset_record_verifier.py:1309-2404 | Two suppliers who both reach the upgrade supplied the same tokens |
| Utf8.DecodeUndoesEncode | scripts/labels_reference.py:222-229 | Encoding to UTF-8 loses nothing |
| Utf8.EncodeUndoesDecode | scripts/labels_reference.py:232-245 | Every well-formed byte string is the encoding of its text: shortest forms only |
| Utf8.BytesOfScalar | scripts/labels_reference.py:222-229 | Lead and continuation bytes of section 3 of RFC 3629: which there are and how they spell the value |
| Utf8.BytesCompareAsText | traigent_schema/content_identity.py:129-135 | The UTF-8 bytes of two texts compare as their code points |
| LabelPadding.PadAccepts | scripts/labels_reference.py:222-229 | Exactly labels of at most 255 UTF-8 bytes are padded, to the least bucket with room |
| LabelPadding.PaddedLayout | scripts/labels_reference.py:222-229 | A padded label is its bytes, 0x80 and zeros up to 32, 64, 128 or 256 bytes |
| LabelPadding.UnpadRefusals | scripts/labels_reference.py:232-248 | Which bytes do not unpad, and for which of the four reasons |
| LabelPadding.UnpadUndoesPad | scripts/labels_reference.py:222-245 | Unpadding a padded label gives it back, labels that end in NUL included |
| LabelPadding.PadUndoesUnpad | scripts/labels_reference.py:222-245 | Whatever unpads is the one padded form of its label |
| LabelPadding.UnpackUndoesPack | scripts/labels_reference.py:267-278 | Unpacking returns what was packed iff version, key length and ciphertext length are the supported ones |
| LabelPadding.EnvelopeLayout | scripts/labels_reference.py:267-269 | Where version, epoch, key and ciphertext stand in a packed envelope, most significant byte first |
| LabelPadding.PackUndoesUnpack | scripts/labels_reference.py:267-278 | Every blob that unpacks is what its parts pack to |

## Left out

- DifferSoundness.DifferSound: holds over the fragment `InFragment`, not over all pairs, because the comparator is silent about the ten kinds of change above; the condition is sufficient, not necessary. The keywords it never reads are one text judged by a predicate on the instance; they must be equal on both sides and hold no refs.
- DifferLimits.UnreadKeywordsExactly: keywords whose verdict depends on a sibling keyword (`additionalItems` beyond the positions, boolean exclusive bounds of draft 4) are judged on the instance alone.
- SchemaDiffer.Report.CompareNode: does not model message texts, the old and new values a finding repeats, or Python's equality of `true` and `1` in malformed schema fragments.
- JsonSchema.Deref: joining a ref to a base uri and looking up a JSON pointer are a function and a map; keywords beside a `$ref` are ignored, as Draft-07 does and the comparator too.
- JsonSchema.DerefKeepsMeaning: types, literals, patterns and malformed fragments are judged by arbitrary predicates, so nothing depends on a validator's details.
- ClassClaims.ClaimHolds: the check of a node's own value keywords (`semantic_problem`) and reference resolution are parameters; the first is assumed sound.
- ContentRatchet.RatchetProblems: problems are constructors, not messages; how the files of a commit answer a reference is a parameter of that commit.
- TarExtraction.PrevalidateTarMembers: which of several faults within one stage is named is not stated; resolving a member name to a path is given.
- Fp2Encoder.Encode: starts from the repr of a float; Python's shortest-repr algorithm and IEEE rounding are not modelled.
- JsonReader.ReadText: the grammar of RFC 8259 without white space between tokens and with a lower-case exponent letter, which is all the encoder writes; repeated member names are read as they come.
- DatasetDigest.ChangedExampleChangesDigest: examples have the types the schema gives them; the type errors of malformed ones are left out.
- ContentIdentity.ComputeMultisetRoot: raw-item coercion, the conflicting-ids report and warnings are left out.
- DatasetLeakage.CheckLeafListDigests: the order in which several mismatching lists are met is not modelled.
- IntervalClaims.CheckWilsonClaim: only the interval rows of stage S5, over a quantile table of positive quantiles.
- RolePropagation.PropagateRoles: files are given with their direct roles and references; crawling documents for them is left out.
- Location strings in errors of the profile walk, and the path bookkeeping behind them.
- Real cryptography: SHA-256, HMAC, HKDF, HPKE and signatures.
- Git, tar bytes, `Path.resolve`, command lines and reports.
- The equality-check stages of the certificate verifiers and their error-code vocabularies: one branch settles each.
- The OpenAPI walk of the differ, its allowlist and acknowledgements.
