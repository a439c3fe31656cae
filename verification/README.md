# Decision procedures of the candidate contracts

The `contracts_*` modules of `neuralscape-service` decide questions about schemas, histories and object
graphs: whether a new JSON Schema still accepts everything an old one accepted, whether a set of stage receipts
supports a claimed job status, whether a graph handed over by a caller is small, shallow and acyclic enough to
be read. They are pure procedures with memos, worklists, budgets and recursion, and most of what they promise
spans many calls. This project models them in Dafny and proves those promises. `ask.py` contributes one more:
which rows of evidence a prompt shows.

## The components

**Schema compatibility** (`JsonSchema`, `SchemaNarrowing`, `SchemaWidening`, `SchemaWalk`, `SchemaInclusion`,
`SchemaCompatibility`, `Versions`). `JsonSchema` gives JSON values and schemas and what validity means, for the keywords of
`_MODELED` (`contracts_pack.py:217-221`): the assertions of sections 6.1 to 6.5 of JSON Schema Validation
(draft 2020-12) and the applicators of sections 10.2.1 and 10.3 of JSON Schema Core, with `#/$defs` references.
Validity is given by derivations of bounded height, one relation for acceptance and one for rejection.
`NeverBoth` shows the two disjoint; `ValidityIsSpecified` shows that, where recursion passes through
`properties` or `items` (the caveat of section 9.4.1 of JSON Schema Core), the usual recursive equation holds;
`GuardedIsTotal` shows that every value is then accepted or rejected. `SchemaInclusion` says what it means that
one schema includes another while references on the comparison stack are assumed compatible: up to a height,
whatever the old schema accepts the new one accepts, and whatever the new one rejects the old one rejects, where
only the derivation on the given side is bounded. An assumption is discharged by induction on that height, and
finitely many derivations are brought to a common height, so nothing is asked of the recursion in either document.
`SchemaWidening` says the same on keywords alone: two schemas are `Related` when, at every depth, no keyword of the
new one asks for more, with no regard to node identities, memos or stacks. `SchemaWalk` says which comparisons a
comparison leads to, how many there can be, and whether each can be followed. `SchemaCompatibility` is the
comparison: a class `Run` with the step counter, the lowest assumption used, and the `clean` and `dirty` memos;
`Valid()` says that every clean pair is an inclusion that rests on no assumption and that no dirty pair is related.
Its main result, `CheckNative`, goes both ways: without a version bump, a clean comparison means that the schemas are
related and that every document valid under the old one is valid under the new one, for all schemas; and related
schemas compare clean, whenever the comparison can be followed within its depth and its budget. Related are, among
others, schemas that differ only in widened constraints and added optional properties (`RelaxedIsRelated`).

**Lifecycle claims** (`StageOrder`, `Lifecycle`, `Validators`, `ClaimRules`, `ClaimChecker`, `ClaimTheorems`).
`Lifecycle` says what makes intents and receipts valid, and `Validators` decides it step by step. `ClaimRules`
states which aggregate status a set of receipts supports. `ClaimChecker` is the indexing, the judgement of
applications in topological order and the final decision, proved to compute exactly that. `ClaimTheorems` draws
the consequences over all histories.

**Bounded discovery** (`Discovery`, `NativeGraph`, `Heights`, `EnteredOnce`, `PrivateCopy`,
`ExpandedWork`). One budget with a
depth frontier, a worklist that expands a node again when a shallower authoritative path reaches it, heights
memoized per container with late growth carried to ancestors, and sizes counted per path but measured once per
container. `NativeGraph` holds the captured graph, its paths and cycles, and the tree it unfolds to when there are
no cycles. `Heights` works on any graph, cyclic ones included: capture, and each entry found late, is refused only
if a path from the root is too long, and when it is not refused no path is, unless the root reaches a cycle, which
reconstruction refuses.

**Fast forms and their simple ones** (`JsonHeap`, `JsonEquality`, `JsonKeys`, `RemovedValues`, `JsonIdentity`,
`SourceSpans`, `NativeJson`, `PinSnapshot`). Equality by worklist, hash-consed keys, hashed uniqueness,
byte-mask character boundaries, and rebuilds of shared graphs by explicit stacks, each against what it must
agree with. Equality and keys spend the budget of the running comparison (`Walked`, `Spend`, `Over`); an exhausted
budget is an outcome of its own, and ghost logs show that it was spent on each container, or pair of containers,
that the values reach once.

**Policy and evidence** (`PolicyEvaluation`; `StableSorting`, `EvidenceRows`). Delegation bounded by the
issuer's rights, and selection by composed stable sorts.

`Options`, `Collections` and `Numbers` hold what several of them share.

Objects that the source updates in place are classes with the same fields, its loops are loops with
invariants, and its pure functions are functions. State that several methods keep is described by one predicate
over values, hidden in the methods and handled by small lemmas. Exceptions are result datatypes.

## Model

| member | source | states |
|---|---|---|
| SchemaCompatibility.CheckNative | neuralscape-service/contracts_pack.py:1604-1627 | no finding means an explicit version bump, or that the schemas are related keyword by keyword and every document valid under the old schema is valid under the new one, for every recursion and every reading of patterns; related schemas have no finding when the comparison can be followed within its depth and budget; a bump has none; the list is bounded |
| SchemaCompatibility.CleanMeansStillValid | neuralscape-service/contracts_pack.py:1579-1590 | an inclusion that rests on no assumption keeps every valid document valid, and every document the new schema shows invalid was invalid |
| SchemaWidening.RelaxedIsRelated | neuralscape-service/contracts_pack.py:1580-1584 | adding an optional property where the old schema left room for it, or widening a constraint, at any depth and below references, leaves the schemas related |
| SchemaWidening.CopiesAreRelated | neuralscape-service/contracts_pack.py:1580-1590 | two separately read copies of one document are related, whatever the identities of their nodes |
| SchemaWidening.AlternativeRelated | neuralscape-service/contracts_pack.py:1315-1332 | if at every depth some new alternative is as wide as an old one, one of them is as wide at every depth |
| SchemaWidening.FollowsChain | neuralscape-service/contracts_pack.py:776-792 | references are followed to the end of their chain, or 32 of them |
| SchemaNarrowing.KeptMeansNoNarrower | neuralscape-service/contracts_pack.py:1335-1374 | the comparison of assertions is clean exactly when, field by field, no type, value, bound, pattern, uniqueness, step or required name asks for more |
| SchemaCompatibility.Run.Compare | neuralscape-service/contracts_pack.py:1040-1148 | a clean result is an inclusion resting on no assumption below the lowest one recorded; related schemas are clean unless something below could not be followed; a reference met again in the same direction is assumed, a boolean must be unchanged, an unresolved reference is reported; at most the comparisons of the walk are charged; the memo stays true |
| SchemaCompatibility.Run.CompareChecked | neuralscape-service/contracts_pack.py:1162-1207 | a pair is remembered as clean only when it is an inclusion whatever references are active later; a dirty pair always has findings to replay and is not related unless something could not be followed; findings stay below the path of the pair |
| SchemaCompatibility.Settle | neuralscape-service/contracts_pack.py:1196-1204 | a clean pair's assumption about its own reference is discharged by the pair itself, and one that used none below its base is an unconditional inclusion |
| SchemaInclusion.Discharge | neuralscape-service/contracts_pack.py:1066-1084 | an inclusion shown while assuming itself on re-entry holds without the assumption |
| SchemaCompatibility.Run.CompareKeywords | neuralscape-service/contracts_pack.py:1287-1435 | clean keyword comparisons together make the old node included in the new one |
| SchemaInclusion.KeywordsIncluded | neuralscape-service/contracts_pack.py:1335-1435 | assertions, listed and unlisted properties, additional properties and elements, each not narrowed, keep every accepted value accepted and leave rejected only what was rejected |
| SchemaCompatibility.Run.CompareUnions | neuralscape-service/contracts_pack.py:1297-1333 | siblings of a union, pairwise `oneOf` branches and matched `anyOf` alternatives make the old union included in the new one |
| SchemaInclusion.UnionsIncluded | neuralscape-service/contracts_pack.py:1297-1333 | the same for all values: exactly-one and at-least-one alternatives are preserved |
| SchemaCompatibility.Run.AlternativesEquivalent | neuralscape-service/contracts_pack.py:843-865 | success means every branch is included in its counterpart in both directions, the second with the definitions swapped |
| SchemaCompatibility.EquivalentOneOfAcceptTheSame | neuralscape-service/contracts_pack.py:843-865 | two `oneOf` whose branches are pairwise equivalent accept exactly the same documents |
| SchemaCompatibility.Run.MatchAlternatives | neuralscape-service/contracts_pack.py:1315-1332 | no finding means every old alternative is included in some new one; each old alternative is charged for when there are new ones to try |
| SchemaCompatibility.Run.CompareListed | neuralscape-service/contracts_pack.py:1376-1390 | a listed property is still listed and its new schema includes the old one |
| SchemaCompatibility.Run.CompareUnlisted | neuralscape-service/contracts_pack.py:1391-1399 | a newly listed property includes what the old additional properties accepted |
| SchemaCompatibility.Run.CompareRequired | neuralscape-service/contracts_pack.py:1409-1411 | one finding for each newly required name and none otherwise |
| SchemaCompatibility.Run.CompareAdditional | neuralscape-service/contracts_pack.py:1412-1422 | properties neither schema lists stay accepted |
| SchemaCompatibility.Run.CompareElements | neuralscape-service/contracts_pack.py:1423-1435 | elements at old, new and later positions stay accepted |
| SchemaCompatibility.Run.Resolve | neuralscape-service/contracts_pack.py:776-792 | follows at most 32 references; a reference to no definition leads nowhere |
| SchemaNarrowing.CompareAssertions | neuralscape-service/contracts_pack.py:1335-1374 | clean exactly when types, values, bounds, pattern, uniqueness and multiples are not narrowed |
| SchemaNarrowing.AssertionsKeptSound | neuralscape-service/contracts_pack.py:1335-1374 | every value the old assertions admit, assertions not narrowed admit too |
| SchemaNarrowing.CompareBounds | neuralscape-service/contracts_pack.py:1356-1367 | a bound gets a finding exactly when it is added or tightened in its own direction; none is reported otherwise |
| SchemaNarrowing.WholeQuotients | neuralscape-service/contracts_pack.py:828-837 | when the old step is a whole number of new steps every multiple of the old is one of the new |
| SchemaCompatibility.ExplicitBump | neuralscape-service/contracts_pack.py:1571-1601 | a bump needs two declared versions of which the new one is neither equal, in the sense of the source language, nor provably older |
| Versions.IsVersionBump | neuralscape-service/contracts_pack.py:1560-1568 | different versions are a bump unless both are numbered after one prefix and the new number is not greater as a number |
| Versions.VersionNumber | neuralscape-service/contracts_pack.py:1537-1553 | the longest run of trailing decimal digits, without leading zeros, keeping its numeric value |
| Versions.NumberGreaterIsGreater | neuralscape-service/contracts_pack.py:1556-1557 | comparing length and then text is comparing the numbers, of any length |
| Versions.BumpsOneWay | neuralscape-service/contracts_pack.py:1560-1568 | of two numbered versions with one prefix, only one direction is a bump |
| JsonEquality.JsonEqual | neuralscape-service/contracts_pack.py:463-505 | decides structural equality of the trees two shared values unfold to; or the budget of the running comparison is exceeded, and what was charged is covered by opening pairs of containers the comparison reaches, each once; equal values were compared in full, every pair reached opened and charged |
| JsonKeys.Keys.KeysAgree | neuralscape-service/contracts_pack.py:510-517 | two keys handed out by one table are equal exactly when the values they were given for are JSON-equal |
| JsonKeys.ShapesDecideEquality | neuralscape-service/contracts_pack.py:541-555 | two containers get one number exactly when kind and members agree |
| JsonKeys.Keys.KeyOf | neuralscape-service/contracts_pack.py:526-558 | a key means the value it was given for and keys already given keep their meaning; there is none only when the value nests more than 48 levels from where it is looked at, through the memo of shallowest failures too, or when the budget is exceeded; what is charged is exactly the scalars read and the containers looked at, each at most once from one depth |
| RemovedValues.Removed | neuralscape-service/contracts_pack.py:566-590 | reports, in order, exactly the old values with no JSON-equal new value, whichever are too deep to key; or the budget is exceeded, all of it accounted for by containers keyed once from one depth and by comparisons of an old with a new value that open each pair once |
| NativeJson.Copy | neuralscape-service/contracts_pack.py:1456-1531 | a document is refused as cyclic only when it reaches a container on its own way, and as no JSON only when it reaches something that is none; one that does neither is copied as the same graph and unfolds to the same tree, one copy per container, a dictionary as a dictionary and a list or tuple as a list; too many nodes only when the entries of distinct containers alone pass the limit |
| NativeJson.Converter.Convert | neuralscape-service/contracts_pack.py:1473-1516 | each node is counted; an open container is a cycle, a known one its copy, one that is no JSON is refused, a new one gets an empty shell |
| NativeGraph.IsomorphicSameTree | neuralscape-service/contracts_pack.py:1456-1465 | a copy that renames containers one to one unfolds to the same trees |
| StageOrder.TopologicalStages | neuralscape-service/contracts_lifecycle.py:1986-2009 | succeeds exactly on acyclic graphs and lists every stage once after its upstreams |
| StageOrder.ChainDescends | neuralscape-service/contracts_lifecycle.py:1986-2009 | along any chain of upstreams positions in the order strictly descend |
| Lifecycle.SourceSetsMatchMeaning | neuralscape-service/contracts_lifecycle.py:1930-1942 | against distinct expected records the length-and-lookup comparison is equality of the sets of source versions, with no record repeated |
| Lifecycle.ReferenceSetsMatchMeaning | neuralscape-service/contracts_lifecycle.py:1944-1957 | the comparison of references is set equality without repeats on either side |
| Lifecycle.SelectedMeaning | neuralscape-service/contracts_lifecycle.py:2012-2021 | a stage selects exactly the declared preconditions whose records it names |
| Lifecycle.SelectedInOrder | neuralscape-service/contracts_lifecycle.py:2012-2021 | it selects one for each name, in the order of the names |
| Validators.CheckReceipt | neuralscape-service/contracts_lifecycle.py:1354-1432 | a receipt passes exactly when its attempts, citations, sources, handles, status, times and error fit together |
| Validators.CheckRequirement | neuralscape-service/contracts_lifecycle.py:1211-1244 | a requirement passes exactly when it asks for at most one output, repeats no precondition, upstream or committed record and is not its own upstream |
| Validators.CheckWellFormed | neuralscape-service/contracts_lifecycle.py:1266-1310 | an intent passes exactly when its targets are its own, its preconditions distinct, its requirements valid with distinct stages and effects, every name resolves and every stage applies distinct records |
| ClaimChecker.CheckIntent | neuralscape-service/contracts_lifecycle.py:1270-1311 | an intent is valid exactly when its requirements are, their stages and effects are distinct, every name resolves, inputs are distinct and upstreams are acyclic |
| ClaimChecker.IndexReceipts | neuralscape-service/contracts_lifecycle.py:1711-1739 | finds a conflict exactly when two different receipts of one attempt involve an applied one or are both last; otherwise the indices hold the last receipt of each stage and every applied attempt |
| ClaimChecker.CheckApplication | neuralscape-service/contracts_lifecycle.py:1754-1798 | an applied receipt passes exactly when its inputs, commitments, outputs, upstream support, witness and citations are what its requirement calls for, judged on the set of receipts |
| ClaimChecker.AgreeOnResults | neuralscape-service/contracts_lifecycle.py:1799-1812 | two applied receipts agree exactly when their sets of sources, commitments and outputs are equal |
| ClaimChecker.CheckApplications | neuralscape-service/contracts_lifecycle.py:1750-1813 | passes exactly when all applications of required stages are supported and agree; then the satisfied stages are those with an applied receipt |
| ClaimChecker.Decide | neuralscape-service/contracts_lifecycle.py:1815-1874 | accepts exactly the claims the receipts support, fences and retries of stages not satisfied included |
| ClaimChecker.ValidateRequiredStageClaim | neuralscape-service/contracts_lifecycle.py:1645-1874 | acceptance and the phase that refuses are functions of the set of receipts and the intent |
| ClaimTheorems.VerdictIgnoresOrderAndCopies | neuralscape-service/contracts_lifecycle.py:1711-1813 | no permutation and no extra copy of a receipt changes any verdict |
| ClaimTheorems.ExactlyOneClaim | neuralscape-service/contracts_lifecycle.py:1815-1874 | consistent receipts support exactly one of the seven statuses |
| ClaimTheorems.CitationsDescend | neuralscape-service/contracts_lifecycle.py:1778-1798 | a citation of an applied required receipt names exactly one receipt, applied, of the same intent, at an earlier stage of any topological order |
| ClaimTheorems.CausalChainEnds | neuralscape-service/contracts_lifecycle.py:1750-1798 | following citations visits strictly earlier stages, so it ends within the position of the first |
| ClaimTheorems.SourcesConserved | neuralscape-service/contracts_lifecycle.py:1753-1764 | a source is applied exactly when it is a declared precondition whose record the stage names, or committed by a receipt cited |
| ClaimTheorems.SatisfactionGrows | neuralscape-service/contracts_lifecycle.py:1741-1748 | over consistent growing histories satisfied stages stay satisfied with the same results |
| ClaimTheorems.AppliedMeansAllSatisfied | neuralscape-service/contracts_lifecycle.py:1888-1914 | the applied status is supported exactly when every required stage has an applied receipt |
| ClaimTheorems.AppliedIsFinal | neuralscape-service/contracts_lifecycle.py:1854-1872 | once the applied status is supported it is the only one ever supported again |
| ClaimTheorems.StartedIsForever | neuralscape-service/contracts_lifecycle.py:1839-1844 | once a required receipt records a start the accepted status is never supported again |
| ClaimTheorems.JobIsApplied | neuralscape-service/contracts_lifecycle.py:1750-1813 | there are consistent histories with causal links: one of two stages, the second citing the first, supports the applied status |
| Discovery.DiscoveryBudget.ChargeNode | neuralscape-service/contracts_limits.py:155-167 | an object is charged once; the error comes exactly when spent before or one new object too many, and stays |
| Discovery.DiscoveryBudget.ChargeEdge | neuralscape-service/contracts_limits.py:169-178 | entries add up, repeats included; the error exactly when the total would pass the limit |
| Discovery.DiscoveryBudget.Visit | neuralscape-service/contracts_limits.py:180-208 | expansion is asked for a new object or a shallower authoritative path, which becomes its depth; at most the depth limit plus two times for one object |
| Discovery.GraphFreeze.Expand | neuralscape-service/contracts_engines.py:123-234 | an expanded container charges all its entries and offers its children one level deeper, authoritative only below exact storage, none from the snapshot depth limit |
| Discovery.GraphFreeze.Freeze | neuralscape-service/contracts_engines.py:102-234 | within the budget every model and exact container discovered is captured with what it stores, what a discovered container holds is discovered unless it lies at the snapshot depth limit, and each authoritative depth is that of a shortest authoritative path from the roots so far, whichever entry is taken next; what was captured stays captured; it ends; past the budget a path from a root without repeated containers before its end really passes a limit |
| Heights.WithinDepth | neuralscape-service/contracts_common.py:606-738 | capture of any graph is refused only if a path of containers from the root is longer than the limit; when it passes none is, or the root reaches a cycle; shared containers are walked once |
| Heights.Capture.CaptureNative | neuralscape-service/contracts_common.py:606-738 | the height returned is the length of some path, a container met while it is captured counting as zero, and keeps within the limit; every recorded height stays above those of all that is held unless something holds itself; a refusal means a path from the root is too long |
| Heights.GrowHeight | neuralscape-service/contracts_common.py:584-603 | on any recorded holders, cyclic ones included, it ends; every holder that was higher than what it holds, or whose content grew, ends up higher; nothing is raised beyond the length of a path to the container grown; an error only when such a height at the deepest level reached passes the limit |
| Heights.Capture.AdoptLate | neuralscape-service/contracts_common.py:1085-1091 | an entry found late is refused only if some path from the root, through it or any entry found before, is now too long; otherwise none is, or the root reaches a cycle; the heights are then right again for the next |
| Heights.HeightDecides | neuralscape-service/contracts_common.py:577-603 | once all is captured the height of the root passes the limit only with a path that does, and without a cycle exactly then |
| PrivateCopy.CopySnapshot | neuralscape-service/contracts_common.py:741-781 | refused exactly when the nodes counted per path exceed the limit plus one; otherwise the same tree, one copy per container with the same sharing; refused or not, in at most one call more than the entries of the distinct containers entered |
| PrivateCopy.Copier.Copy | neuralscape-service/contracts_common.py:755-779 | one value: refusal, tree, sharing and per-path size, a known container costing one call and none entered twice |
| ExpandedWork.Inventory.ChargeExpandedWork | neuralscape-service/contracts_common.py:784-816 | an entry is refused exactly when its per-path size takes the running total past the limit; measuring it takes calls linear in the entries of containers not measured before |
| ExpandedWork.ChargeAll | neuralscape-service/contracts_common.py:784-816 | a call passes exactly when the per-path sizes of all its entries together do; measuring takes one call for each entry and each entry of distinct containers |
| PinSnapshot.Pin | neuralscape-service/contracts_freshness.py:482-533 | the copy unfolds to the tree with every leaf pinned, one rebuilt copy per container to which every reference goes; refused exactly when some leaf cannot be pinned |
| JsonIdentity.IdentityDecidesEquality | neuralscape-service/contracts_inference.py:1079-1099 | identities are equal exactly when values are JSON-equal: booleans are no numbers, 1 is 1.0, objects unordered |
| JsonIdentity.NumberKeysDecideEquality | neuralscape-service/contracts_inference.py:1025-1037 | number keys are equal exactly when the numbers are |
| JsonIdentity.BytesRoundTrip | neuralscape-service/contracts_inference.py:1036-1037 | an integer of any size is recovered from its big-endian two's complement bytes |
| JsonIdentity.SizeSuffices | neuralscape-service/contracts_inference.py:1036-1036 | the bytes chosen leave room for the sign of every integer |
| JsonIdentity.SizeIsLeast | neuralscape-service/contracts_inference.py:1036-1036 | no shorter whole number of bytes would leave that room, for integers that take more than one byte |
| JsonIdentity.UniqueItems | neuralscape-service/contracts_inference.py:1136-1144 | reports a duplicate exactly when two positions hold JSON-equal items |
| JsonIdentity.Allowed | neuralscape-service/contracts_inference.py:1179-1188 | set membership of identities is JSON equality with some listed value |
| SourceSpans.BoundaryIsCharacterStart | neuralscape-service/contracts_inference.py:194-197 | at every offset of every text the byte test holds exactly where a character begins or the text ends (section 3 of RFC 3629) |
| SourceSpans.Utf8Boundaries | neuralscape-service/contracts_inference.py:149-157 | the accumulated offsets are exactly the positions of characters and the end |
| SourceSpans.ValidateSpan | neuralscape-service/contracts_inference.py:175-187 | a span is accepted exactly when its bytes are the encoding of a run of whole characters of that source version; each refusal exactly in its case |
| SourceSpans.RunIsUnique | neuralscape-service/contracts_inference.py:175-187 | the run of characters an accepted span covers is unique |
| SourceSpans.EncodingDetermines | neuralscape-service/contracts_inference.py:190-191 | two texts with the same bytes are the same text |
| SourceSpans.EncodeCharWellFormed | neuralscape-service/contracts_inference.py:151-157 | the bytes of a character are one of the well-formed ranges of section 4 of RFC 3629, and stand for it |
| SourceSpans.OnlyEncoding | neuralscape-service/contracts_inference.py:190-191 | well-formed bytes stand for a character, and are the ones it is encoded in: no overlong form and no surrogate |
| PolicyEvaluation.DecisionMeaning | neuralscape-service/contracts_policy_reference.py:1307-1404 | an allow exactly when action, snapshot, tenant, current membership, rights and delegation permit it; each refusal of unsupported terms exactly in its case |
| PolicyEvaluation.DelegationNeverWidens | neuralscape-service/contracts_policy_reference.py:1362-1397 | what a delegate is allowed its issuer, as an independent principal with the issuing credential and its recorded membership version, is allowed too |
| PolicyEvaluation.DelegationIsIntersection | neuralscape-service/contracts_policy_reference.py:1362-1397 | a delegate is allowed exactly what lies under its ceiling and both it and its issuer are allowed independently |
| PolicyEvaluation.RemovalRevokes | neuralscape-service/contracts_policy_reference.py:1307-1404 | taking away a subject's membership denies it and all delegates it issued everything, and changes neither outcome nor reason of any decision about anyone else |
| PolicyEvaluation.OrderIsIrrelevant | neuralscape-service/contracts_policy_reference.py:1407-1436 | reordering statements or memberships changes neither outcome nor reason |
| PolicyEvaluation.AddedDenyOnlyNarrows | neuralscape-service/contracts_policy_reference.py:1424-1436 | after adding a deny exactly the former allows it does not match remain |
| PolicyEvaluation.UnrelatedStatementChangesNothing | neuralscape-service/contracts_policy_reference.py:1407-1436 | a statement about another action or resource, about nobody involved, or bound to another credential than the one used changes neither outcome nor reason |
| PolicyEvaluation.DenyDenies | neuralscape-service/contracts_policy_reference.py:1424-1436 | a deny of the action on the resource to the principal or its issuer, bound to no credential or to the one used, denies |
| PolicyEvaluation.RightMeaning | neuralscape-service/contracts_policy_reference.py:1407-1436 | a right is an allow for the subject, its credential or none, the action and the resource, and no such deny |
| EvidenceRows.SelectRows | neuralscape-service/ask.py:261-282 | over the budget, keeps exactly the rows with fewer than 120 rows ahead by keyword hit, then score, then recency, then position |
| EvidenceRows.NoneOutranked | neuralscape-service/ask.py:275-282 | no dropped row is a keyword hit where a kept one is none, or else scores higher, or else is newer; among equals the earlier was kept |
| EvidenceRows.CappedMeaning | neuralscape-service/ask.py:261-272 | every row that is no episode stays, and the first three episodes |
| EvidenceRows.ShownRows | neuralscape-service/ask.py:231-294 | the rows shown are a permutation of the rows kept, promoted ones first, chronological within each group with undated rows last, ties in the order kept |
| EvidenceRows.ShownInOrder | neuralscape-service/ask.py:283-294 | nothing promoted comes after what is not, and otherwise nothing comes after a newer row, rows without a time being last |
| StableSorting.SortsCompose | neuralscape-service/ask.py:277-281 | sorting stably by one order and then by another is sorting once by the second and then the first |
| StableSorting.FirstElements | neuralscape-service/ask.py:282-282 | what a cut keeps is what has fewer elements before it |

## Left out

- CheckNative: a finding between schemas that are not related is not shown to be a real narrowing of the values accepted: the relation on keywords is deliberately stronger than inclusion.
- CheckNative: the budget shared by the contracts of one `compare_schemas` call, and the budget of walked values inside a comparison, are not modelled, so the model may go on where the source reports that it stopped.
- Compare: annotations, constraints beside `$ref`, root and pointer references, embedded `$id` resources, `unevaluated*`, `patternProperties`, malformed keyword values and every keyword outside the modelled set are left out, with the guards that report them; the source expands cyclic definitions there and compares them by name, which is not a semantic equality.
- CompareChecked: the memo is keyed by node values that include an identity instead of by object identities; a dictionary built during a comparison has no identity and is never remembered, where the source may remember one that stays alive.
- CompareAssertions: numbers are real numbers; rounding of binary floating point and the shortest text of a step are not modelled, and regular expressions are a parameter, compared only as texts.
- Findings hold a structured path and kind instead of message text; the order of findings within a dictionary is arbitrary.
- Bumped: the decimal value of a character is a parameter.
- JsonEqual: values of types that JSON does not have are left out, and so are calls outside a running comparison, where an exhausted budget counts as different; `_removed_values` is only called inside one.
- Copy: which objects are no JSON (of another type, with a key that is no string or two keys with one text) is a parameter; a dictionary's entries are read by name and text.
- AdoptLate: the path on which the holder is rebuilt is given; entries of a view that is no mapping, which record no holder, are left out.
- CaptureNative: node and edge charges made while capturing, model fields, extras and hooks are left out; the captured graph is a map from identities to stored entries. Python object identity, its reuse and the retention of objects are identities by definition.
- Freeze: the worklist takes any entry next, where the source takes the last; what a model's storage holds is read as given.
- Visit: a depth that is not a natural number, refused by the source, cannot be given.
- Pin: pinning a date is a pure function of the leaf, undefined for a zone without an offset; the memo of pinned leaves is therefore not modelled.
- TopologicalStages: stages are visited in an arbitrary order instead of by value; the result is any order with the stated property.
- ValidateRequiredStageClaim: which phase refuses is modelled, not the message within a phase; revalidation of the objects handed in, and the reading of dates, are preconditions.
- Receipts: field lengths, safe-counter limits and the identity of resolver fields beyond equality are left out.
- IdentityDecidesEquality: metering, interning and subclasses of the built-in types are left out; a not-a-number is one value, equal to itself, as its key says.
- SourceSpans: surrogates have no encoding and are excluded from texts, as evidence that holds one is refused before spans are read.
- PolicyEvaluation: capture and validation of the snapshot, device identifiers and decision metadata are left out; an unjudged statement field is one flag.
- EvidenceRows: dates are numbers in the order of their texts, with 0 for none; the library sort is a stable insertion sort.
- Registry, digests, examples, the report over schema sets, inference metering, language-model calls, storage, prompts and token counting are outside the model.
