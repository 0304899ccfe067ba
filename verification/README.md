# A verified model of the ODRL conformance tooling and of the engine it judges

ds-odrl-engine-rs decides ODRL policies. Around the engine stand programs that translate
policies into its wire form, judge its answers against expected reports, edit requests, and
carry bytes across its WebAssembly boundary. This project models those programs, and the parts
of the engine they rely on, and proves what they promise. Results are stated for all inputs; what a
theorem asks of its input beyond that is said where the theorem is described, and again under
"Left out".

The main results:

* **The comparer is exact.** `Conformance.CompareCase` returns no mismatch precisely on the
  cases that satisfy a declarative predicate written without loops, indexes or sorting, and it
  does not depend on the order of anything it is given (`Reordering.PassingIgnoresOrder`).
  `Expectations.ConformsIff` restates that predicate over the entries of the trees and the nodes of
  the merged policies, every state by its name, and `Expectations.AddsWhatIsDemanded` says which
  entry asks for which outstanding duty.
* **The comparer against the engine itself.** Take a request's own detailed answer, restated as one
  expectation for each RDF rule, as the expected outcome of that request.
  `OwnRequest.OwnAccountPassesIff` says when that passes: exactly when the policies resolve and
  name the loaded profile, every one of them is addressed to the caller and names known actions
  only, no duty in force has a chain of consequences longer than the engine walks, the clones of
  every composite rule are alike (`Composites.ClonesAgreeIff`: attempted alike unless one is active,
  and duties in force satisfied alike), and under deny mode no duty that is due shares its id with an
  obligation in a way that misleads the comparer. The theorem asks for distinct policy ids, for rule
  trees and id trees of one shape, and that a duty's id tells whether its chain ends there; every
  request translated from a file whose rules, and whose policies, have distinct local names meets all
  three (`NodeNames.TranslatedIsReadable`). Past the bound on consequences the coarse answer lists a duty
  the detailed account never shows as terminal, and under deny mode and open behaviour a denial is
  read back as an Allow (`OwnVerdict.DeepChainIsMisjudged`); `OwnVerdict.VerdictAgreesIff` gives the
  exact condition for one policy.
* **What the engine answers.** `Answers.AnswerMeans` says the whole answer of the request: which
  policies are looked at, what is reported of each and in which order, what is decided and which
  duties are listed, in terms of when a rule bears on a request (`DecisionMeaning.InPlayIff`) and when
  a duty is settled (`DecisionMeaning.OutstandingIff`), themselves stated over the claims, the declared
  edges between actions and the targets. A rule that does not bear on a request can be removed.
* **Inheritance.** The ancestor walk succeeds exactly on well-founded parents, returns the
  deduplicated all-paths preorder, and the engine's remembering walk computes the same thing.
  Projecting rules to ids succeeds where merging the rules does, and commutes with it exactly when
  the policy's rules have the shape of the shadow its id stands for (`Merging.MergeCommutesIff`).
  `Heritage.ResolvedMeans` says what a resolved policy takes from whom, over the declared parents.
* **Atomization.** A composite rule becomes the row-major product of its actions and targets,
  and the rule tree and the id tree beside it keep the same shape and actions at every depth, so
  that translated policies are what merging starts from (`PolicyTranslation.TranslatedAddressesAgree`).
  `FileRules.PolicyIsSaid` says from the triples alone which rule stands in which list, in which order
  and with what in it.
* **The constraint compiler.** It preserves meaning, refuses exactly at the leftmost obstacle,
  grows no faster than the cube root of three to the number of tests (a bound that is reached), and
  grants whatever one nested engine constraint would, the two parting exactly where cutting the tree
  at the engine's depth limit makes a true tree false (`Dnf.NativeAgreesIff`). Translation followed
  by the engine agrees with the expected report exactly when every action that reaches the engine is
  declared (`EndToEnd.DecidesAsExpected`); which rules reach it is said from the request and the
  triples (`Translation.InScopeIff`).
* **JSON patches.** Each patch is characterised by every lookup into the document; a run stops
  at the first inapplicable patch; patches at places apart from one another may be made in any
  order.
* **dateTimes.** Dictionary order of canonical strings is order in time, the instant is kept
  exactly, distance from UTC included, and two accepted strings are rewritten alike exactly when they
  denote one instant. `DateTimes.AcceptedIff` and `DateTimes.ReadIff` say which strings those are.
* **The WebAssembly boundary.** Packing loses nothing, live regions stay disjoint over any run,
  and a run leaves live regions as it found them exactly when no request was placed at an address
  whose top bit is set.

## How it is laid out

One module to a file. `Wrappers`, `Collections`, `Bags`, `Lexicographic`, `Digits` and `Chains`
are shared groundwork. `Constraints`, `Rules`, `Policies`, `Actions`, `Decisions`, `Merging` and
`Evaluation` are the engine, and `ConstraintLaws`, `DecisionMeaning`, `AccountMeaning`, `Heritage` and
`Answers` say what it does in terms of its input; `Reports`, `Compare`, `Conformance`, `Verdicts`,
`Reordering`, `Expectations` are the comparer; `Places`, `InForce`, `OwnAccount`, `CutOffs`,
`OwnVerdict`, `Composites`, `OwnRequest` hold the two against each other, `Misreadings` shows inputs on
which they part, `OwnCases` that there always are such cases, and `NodeNames` is about requests read
from a file. `Inheritance`, `AncestorWalks`, `Graph`, `Triples`, `Atomization`, `PolicyTranslation`,
`FileRules`, `FileConstraints` are the RDF side, `Dnf`, `DnfGrowth`, `GroundTruth`, `Translation`,
`EndToEnd` the constraint compiler and its runner, and `JsonPointers`, `Patches`, `JsonLookups`,
`DateTimes`, `Words`, `Abi` the smaller programs.

Where a program and its specification share a definition, a lemma says the same thing without that
definition: over triples, characters, entries of a tree, or the rules and claims of a request.

Programs that loop over state are methods or classes proved equal to a specification function;
what the source promises is then proved about that function. Messages are tagged values, since
only whether there is one, and of which kind, matters. Comparison of two literals as instants,
durations or numbers is a parameter of a `World`.

`dafny verify dfyconfig.toml` checks the whole project.

## Where the code and its documentation part

* `compliance-rdf-runner/src/compare.rs:435-449` describes the verdict as following the engine's
  own precedence. It does, except for `DeniedOnlyByCutObligations` (an input in
  `OwnVerdict.DeepChainIsMisjudged`) and `AllowedThoughRead`: ids stand for duties, so a duty of a
  permission is read as an obligation when some obligation's chain holds a duty of the same id, and
  an allowed request is then read as denied (an input in `Misreadings.SharedDutyIsMisjudged`).
* `compliance-rdf-runner/src/compare.rs:266-292` expects one state of every clone that counts. A
  composite rule none of whose clones is active, some attempted and some not, conforms to no
  expectation that states an attempt (`Composites.SplitPermissionsNeverConform`, with a permission of
  two targets in `Misreadings.TwoTargetsNeverConform`).
* `compliance-rdf-runner/src/compare.rs:140-146` takes an id among the policy's obligations for the
  obligation itself. An RDF duty that is also the consequence of another is then not expected where
  the engine lists it (`Composites.ExpectedIsListedIff`, with an input in
  `Misreadings.DutyOfTwoPlaces`).
* An unstated prohibition is treated as inactive: `Verdicts.UnstatedProhibitionPinsAllow`. A pinned
  verdict is the only one consistent with the tree exactly when the tree is `Settled`.
* With no expected policy the comparer pins Allow. The engine never allows a request none of whose
  policies it looked at, and what it looked at has to be accounted for
  (`OwnRequest.PassingAccountsForAll`), so a case that expects nothing never passes, whatever was
  asked (`OwnRequest.NothingExpectedNeverPasses`).
* Two policies with one id: the engine merges each, the id shadow answers for the later one
  (`Merging.SharedIdBreaksTheMerge`). What the two merge to has one shape exactly when the policy's
  own lists have the shape of the later one's shadow (`Merging.MergeCommutesIff`).
* Sibling rules and a native nested constraint do not always decide alike: past the engine's depth
  limit a nested constraint is false. It never grants more than the siblings do, and they agree on a
  request exactly when the tree, if true, stays true once cut at the limit (`Dnf.NativeAgreesIff`,
  with an input on which they part in `Dnf.TooDeepDisagrees`).
* Several refinements of one action are nested to the left, one level for each, so more than 65 of
  them can never be met (`Atomization.RefinementsAreAnded`, with 66 that hold one by one in
  `Atomization.SixtySixNeverHold`).
* `engine/src/abi.rs` promises that two frees per round trip leave nothing behind. The
  command-line host gives up without freeing when it cannot write the request, which is exactly
  when the request's address has its top bit set (`Abi.RunsConserveRegions`, with such a run in
  `Abi.HighRequestLeaks`); the browser host cannot read such addresses at all
  (`Words.BrowserReadsLowPointers`).

## Model

| member | source | states |
|---|---|---|
| Inheritance.SucceedsIffWellFounded | compliance-rdf-runner/src/translate.rs:474-504 | started on an empty stack the walk succeeds exactly when every reachable id is known and no reachable id is its own ancestor |
| Inheritance.OrderIsDedupedPreorder | compliance-rdf-runner/src/translate.rs:493-503 | deduplicating level by level gives the first-occurrence deduplication of the all-paths depth-first preorder, so a diamond's shared ancestor stands once, at its first visit |
| Inheritance.OrderIsProperAncestors | compliance-rdf-runner/src/translate.rs:474-504 | a successful walk has no duplicates and its members are exactly the proper ancestors |
| Inheritance.OrderIgnoresStack | engine/src/wire.rs:1416-1464 | under any stack of the id's own descendants the walk finds what a fresh walk finds, which is why remembering is sound |
| AncestorWalks.AncestorWalk.AncestorOrder | compliance-rdf-runner/src/translate.rs:474-504 | the stack walk terminates, computes the specified order or the specified error, and restores the stack on success |
| AncestorWalks.MemoWalk.AncestorOrder | engine/src/wire.rs:1416-1464 | the remembering walk refines the plain one: same result, same errors, and every entry it adds is right wherever it is read again |
| Merging.MergedPolicyIds | compliance-rdf-runner/src/translate.rs:451-470 | the id shadow of a policy with the lists of all its ancestors appended in walk order, or the walk's error |
| Merging.InheritFrom | engine/src/wire.rs:1316-1372 | one policy with its ancestors' rules, first-set party fields and profiles, and whether the declared conflict strategies differ |
| Merging.ResolveOne | engine/src/wire.rs:1316-1372 | one policy's turn on the shared walk gives what a walk of its own would |
| Merging.ResolveInheritFrom | engine/src/wire.rs:1316-1372 | the whole request resolved, or the first policy's error, independent of the memo |
| Merging.MergeCommutesIff | compliance-rdf-runner/src/translate.rs:433-470 | for every policy of a request, ids shared or not, merging the ids succeeds exactly when merging the rules does, and the two lay out lists of one shape exactly when the policy's own lists have the shape of the shadow its id is indexed at |
| Merging.MergeCommutes | compliance-rdf-runner/src/translate.rs:433-470 | in particular, with distinct ids, projecting rules to ids and then merging lays out lists of the same shape and actions as merging the rules |
| Merging.MergedAddressesAgree | compliance-rdf-runner/src/compare.rs:97-138 | where a policy has the shape of the shadow its id is indexed at, every duty address valid in the merged rules finds a node of the merged ids, with that rule's action, and no other address does |
| Merging.SharedIdBreaksTheMerge | compliance-rdf-runner/src/translate.rs:451-458 | two policies that share an id, concretely, for which the two merges have different lists |
| Rules.AddressesAgree | compliance-rdf-runner/src/compare.rs:97-138 | over trees of one shape, looking a duty address up in the rules and in the ids finds a place in both or in neither |
| Policies.Index | engine/src/wire.rs:1319 | every policy id is indexed, at a policy of that id, the last one |
| Heritage.ParentsAreDeclared | engine/src/wire.rs:1442-1448 | an id stands for the last policy that carries it, and its parents are exactly those that policy lists, in order, or none |
| Heritage.KnownAreDeclared | engine/src/wire.rs:1319 | an id is known exactly when some policy of the request carries it |
| Heritage.RefusalMeans | engine/src/wire.rs:1425-1440 | a refused walk names an id that is reached and unknown, or a path from the start that comes back to one of its own ids |
| Heritage.ResolvedMeans | engine/src/wire.rs:1316-1372 | a resolved policy is the merge of a line of policies, itself and then its ancestors in depth-first order of first meeting: the rules of each in turn, the first assigner and the first assignee set along the line, every profile once and in order, and strategies that differ exactly when two of the line declare different ones |
| Heritage.MergedIdsMeans | compliance-rdf-runner/src/translate.rs:451-470 | a merged shadow holds the lists of the last shadow of its id followed by those of its ancestors, one after the other |
| Heritage.MergeableIff | compliance-rdf-runner/src/translate.rs:451-504 | an id is merged exactly when all reached from it is known and not its own ancestor, and a refusal tells the truth |
| Collections.AbsorbAddsInOrder | engine/src/wire.rs:1452-1459 | pushing what is missing adds it once each, in the order in which it first comes up |
| Graph.RdfList | compliance-rdf-runner/src/graph.rs:172-189 | on an acyclic chain the walk ends and returns the items of the longest well-formed run of cells from the head |
| Chains.WholeChainIsUnique | compliance-rdf-runner/src/graph.rs:172-189 | a head has one maximal run of cells, so the walk has one possible result |
| Chains.EndingIsAcyclic | compliance-rdf-runner/src/graph.rs:172-189 | a run of cells that comes to an end never meets a cell twice |
| Graph.ReadLaidOut | compliance-rdf-runner/src/graph.rs:172-189 | a sequence laid out as `rdf:first`/`rdf:rest` cells (section 5.2 of RDF Schema 1.1) is read back in order |
| Atomization.TranslateActions | compliance-rdf-runner/src/translate.rs:162-192 | the refined actions of a node in file order, refinements conjoined left to right, or the first error |
| Atomization.TranslateAction | compliance-rdf-runner/src/translate.rs:171-190 | one action value: a bare resource, or a wrapper whose refinements are conjoined in order; a literal is refused |
| Atomization.RefinementsAreAnded | compliance-rdf-runner/src/translate.rs:177-186 | the conjoined refinement is true exactly when every refinement is, each at its own depth, and never when there are more than 65 |
| Atomization.SixtySixNeverHold | engine/src/constraint.rs:595-598 | 66 refinements each of which holds, translated to one that does not |
| Atomization.TranslateConstraints | compliance-rdf-runner/src/translate.rs:246-250 | the constraints of a node in file order, or the first that cannot be translated |
| Atomization.TranslateRule | compliance-rdf-runner/src/translate.rs:233-304 | a node's atomic rules beside their id trees, or the first error met |
| Atomization.TranslateShared | compliance-rdf-runner/src/translate.rs:246-279 | constraints, duties, remedies and consequence of a node, translated once for all its atomic rules |
| Atomization.TranslateConsequence | compliance-rdf-runner/src/translate.rs:258-279 | at most one consequence, and that one not composite; anything else is refused |
| Atomization.TranslateRulesAt | compliance-rdf-runner/src/translate.rs:308-322 | the atomic rules of every node under a property, in order, or the first error |
| Atomization.ExpandRule | compliance-rdf-runner/src/translate.rs:281-303 | the two nested loops build the row-major product |
| Atomization.AtomizationIsTheProduct | compliance-rdf-runner/src/translate.rs:233-304 | section 2.7 of the ODRL Information Model 2.2: as many atomic rules as actions times max(1, targets), the one at row i and column j carrying the ith action and jth target and sharing everything else of the node |
| Atomization.AtomsAreOfThePairs | compliance-rdf-runner/src/translate.rs:281-303 | no atomic rule comes from anything but a pair of one action and one target |
| Atomization.Lockstep | compliance-rdf-runner/src/translate.rs:233-322 | rule tree and id tree have the same nesting and actions at every duty, remedy and consequence |
| Triples.LocalNameIff | compliance-rdf-runner/src/graph.rs:60-62 | a local name is all that stands behind the last slash or hash |
| Triples.ObjectIff | compliance-rdf-runner/src/graph.rs:111-113 | a lookup finds the object of the first triple about that subject and property |
| Triples.ObjectIdsAreGiven | compliance-rdf-runner/src/graph.rs:122-128 | the nodes found under a property are the objects of the triples about it that are not literals, in file order |
| FileRules.TranslatedIsSaid | compliance-rdf-runner/src/translate.rs:233-304 | read triple by triple: one atomic rule for each action and target given, in file order, with that action, its refinements, that target, and the duties, remedies and consequence given for it, at every depth |
| FileRules.TargetsAreSaid | compliance-rdf-runner/src/translate.rs:147-155 | the targets are those given, or none, and are refused exactly when one of them is a literal |
| PolicyTranslation.TranslatePolicy | compliance-rdf-runner/src/translate.rs:367-431 | one policy and its id shadow, or the first refusal in the order parties, permissions, prohibitions, obligations, conflict |
| PolicyTranslation.TranslatePolicies | compliance-rdf-runner/src/translate.rs:680-686 | every policy node of a request in order, or the first refusal |
| FileRules.PolicyIsSaid | compliance-rdf-runner/src/translate.rs:367-431 | read triple by triple: permissions are the atomic rules of the nodes given under `odrl:permission`, in file order, prohibitions and obligations those under their own properties, the id trees beside them the same; parties, profiles and parents by their local names |
| FileRules.RulesStandWhereGiven | compliance-rdf-runner/src/translate.rs:383-385 | a rule is a permission of the policy exactly when it is an atomic rule of a node a triple gives under `odrl:permission`, and so for prohibitions and obligations |
| FileRules.PartyIsSaid | compliance-rdf-runner/src/translate.rs:370-381 | the party given, or none; refused exactly when there are two |
| PolicyTranslation.TranslatedIsShadowed | compliance-rdf-runner/src/translate.rs:367-431 | a translated policy and its shadow have one id, one list of parents, and rule lists of one shape |
| PolicyTranslation.TranslatedAddressesAgree | compliance-rdf-runner/src/translate.rs:433-470 | from the file through merging: where no two policy nodes share a local name, every duty address of a merged policy finds the node of the merged shadow with that action |
| NodeNames.TranslatedOfNodes | compliance-rdf-runner/src/translate.rs:15-31 | every id tree a rule node translates to carries, at every depth, the local name of a rule node of the file and a consequence exactly when that node has one |
| NodeNames.TranslatedIsReadable | compliance-rdf-runner/src/translate.rs:15-31 | a request translated from a file no two of whose rule nodes share a local name, nor two of its policy nodes, meets every hypothesis of OwnRequest.OwnAccountPassesIff |
| Actions.CoversAction | engine/src/profile.rs:294-317 | the coverage loop ends and gives the specified answer, whatever cycles the edges form |
| Actions.Lookup | engine/src/profile.rs:303 | an action is found exactly when it is declared, and what is found is a declaration of it |
| Actions.CoversIffIncluded | engine/src/profile.rs:269-317 | a rule's action covers a request exactly when declared `odrl:includedIn` edges lead from the one to the other, or they are equal |
| Actions.CoversTransitive | engine/src/profile.rs:269-317 | coverage composes |
| Actions.EdgesAreDeclared | engine/src/profile.rs:294-317 | an edge leads where the first declaration of the action says, and nowhere else |
| ConstraintLaws.NamedTestsMean | engine/src/constraint.rs:635-676 | what each of the ten operators asks of the claim, in terms of its values and the pieces of the right operand |
| ConstraintLaws.OrderingsMean | engine/src/constraint.rs:147-200 | each ordering operator holds exactly when some value of the claim stands to the operand in one of its ways |
| ConstraintLaws.LogicalsMean | engine/src/constraint.rs:595-630 | within the depth limit `and` is all, `or` is some and `xone` is exactly one of the children, and beyond it nothing holds |
| ConstraintLaws.SplitGivesPieces | engine/src/constraint.rs:635-676 | the candidates of a list operand are what stands between its commas |
| DecisionMeaning.InPlayIff | engine/src/decision.rs:431-450 | a rule is in play exactly when it names no target, the asked one or one of its collections, its action is the asked one or includes it by declared edges, its refinement is true and all its constraints are |
| DecisionMeaning.OutstandingIff | engine/src/decision.rs:520-541 | a duty is outstanding exactly when neither it nor any of the four it may fall back on is constrained and true, and what is listed is the last one looked at |
| DecisionMeaning.RefusedIffUnknown | engine/src/decision.rs:955-1079 | a policy is refused exactly when it names, in a rule or in a duty, remedy or consequence within the bound, an action nobody declares, and for such an action |
| DecisionMeaning.DecisionMeans | engine/src/decision.rs:1468-1592 | otherwise it is allowed exactly when a permission that bears on the request is granted, or an open policy has none, no prohibition bears on it unless the permission wins by declaration, and under deny mode every obligation is settled; and denied in all other cases |
| DecisionMeaning.IdleProhibitionChangesNothing | engine/src/decision.rs:431-450 | a prohibition with a false refinement or constraint, about another action, or aimed at another target can be removed without changing the decision |
| DecisionMeaning.IdlePermissionChangesNothing | engine/src/decision.rs:431-450 | so can such a permission, beside others or under closed behaviour |
| DecisionMeaning.LonePermissionAllowsWhatItBearsOn | engine/src/decision.rs:1468-1592 | a lone permission without duties allows exactly the requests it bears on |
| Decisions.DutyChainReports | engine/src/decision.rs:1981-2025 | a report for each hop of a consequence chain, in force only until one is satisfied or the bound is passed |
| Decisions.DutyListReports | engine/src/decision.rs:1880-1885 | the reports of every duty of a list, in order |
| Decisions.DerivePermissionReports | engine/src/decision.rs:1615-1790 | each permission with the reports of its duties, in order |
| Decisions.DeriveProhibitionReports | engine/src/decision.rs:1790-1878 | each prohibition with the reports of its remedies, in order |
| Decisions.DeriveDetailedRuleReports | engine/src/decision.rs:1615-1888 | the detailed account of a policy: permissions with their duties, prohibitions with their remedies, then obligations |
| AccountMeaning.AccountMeans | engine/src/decision.rs:1615-1888 | the account holds a report exactly when it says of a rule or duty what is so: attempted if the rule concerns the request, active if it is in force, a duty active if it is upheld and no duty above it is done, and the other states those of its case |
| AccountMeaning.AccountInOrder | engine/src/decision.rs:1615-1888 | each permission before its duties, then each prohibition before its remedies, then obligations, and nothing twice |
| AccountMeaning.ListedMeans | engine/src/decision.rs:1099-1226 | a duty is listed as outstanding exactly when it is the last one looked at of an unsettled chain whose permission bears on the request, whose prohibition is in force, or which is an obligation |
| AccountMeaning.ListedInOrder | engine/src/decision.rs:1468-1592 | obligations, then duties of permissions, then remedies, each in the order of the policy |
| Evaluation.EvaluateAll | engine/src/wire.rs:1611-1683 | every policy is either evaluated or named as skipped, in order |
| Evaluation.EvaluateRequestDetailed | engine/src/wire.rs:1534-1882 | the engine's coarse answer and detailed account of a whole request, with each way a request is refused outright |
| Answers.MismatchIff | engine/src/wire.rs:1164-1207 | a policy is skipped exactly when it is no offer, names an assignee, and a claim the engine reads for its kind does not show the caller to be that party or a member of it |
| Answers.AnswerMeans | engine/src/wire.rs:1534-1860 | the whole answer: an empty request is denied, an unresolvable one or one of another profile is an error; otherwise every policy not addressed to somebody else is reported in order with its account or the unknown action it names, an unknown action is an error, and the request is allowed exactly when some policy was looked at and all of them allow; and which duties are listed |
| Lexicographic.SortComparesMultisets | compliance-rdf-runner/src/compare.rs:383-401 | two lists of pairs sort to the same list exactly when they hold the same pairs the same number of times |
| Compare.CompareRuleReport | compliance-rdf-runner/src/compare.rs:512-580 | a mismatch for each stated dimension that disagrees and for nothing else |
| Compare.IndexReports | compliance-rdf-runner/src/compare.rs:250-264 | the index sends each rule to all its clones in order, and each report without a rule gives a mismatch |
| Compare.CompareSelected | compliance-rdf-runner/src/compare.rs:279-292 | a mismatch for each disagreement of any selected clone, or the one saying there is no clone |
| Compare.CollectDuties | compliance-rdf-runner/src/compare.rs:301-306 | a pair for each selected duty report, in order |
| Compare.CompareExpectation | compliance-rdf-runner/src/compare.rs:267-308 | one expected rule: its mismatches against the active clones or all of them, whether it was found, and its outstanding duties |
| Compare.CompareExpectations | compliance-rdf-runner/src/compare.rs:266-308 | mismatches of every expected rule against its selected clones, the rules matched, and the duties expected outstanding |
| Compare.CollectUnmentioned | compliance-rdf-runner/src/compare.rs:310-320 | a mismatch for exactly the indexed rules nothing matched, in whatever order the map is walked |
| Compare.ComparePolicy | compliance-rdf-runner/src/compare.rs:229-320 | exactly the mismatches one expected policy calls for, and the duties expected of it |
| Compare.ComparePolicies | compliance-rdf-runner/src/compare.rs:211-321 | over all expected policies: the first that cannot be merged, or exactly the mismatches each calls for with all verdicts and expected duties |
| Compare.CheckCoverage | compliance-rdf-runner/src/compare.rs:330-353 | a mismatch for exactly the policies reported but not expected and the policies skipped |
| Compare.CheckAnswer | compliance-rdf-runner/src/compare.rs:355-412 | mismatches of the pinned decision, of the outstanding duties as a multiset, and of the stated decision |
| Conformance.CompareCase | compliance-rdf-runner/src/compare.rs:211-415 | refused only for the first expected policy that cannot be merged; otherwise no mismatch exactly when the case conforms |
| Conformance.EmptyIffConforms | compliance-rdf-runner/src/compare.rs:211-415 | nothing is called for exactly when every policy, every report, the decisions and the duties satisfy the declarative predicate |
| Expectations.ConformsIff | compliance-rdf-runner/src/compare.rs:211-418 | a case conforms exactly when it passes as read off its trees: every expected policy reported and not refused, every report expected, every expected rule reported and each of its reports that stand as stated, nothing skipped, the decision as read, the duties listed those demanded, the stated decision the engine's |
| Expectations.AgreesIff | compliance-rdf-runner/src/compare.rs:64-91 | a stated state agrees exactly when it is the name of the state reported, for each dimension and each state; a duty has no attempt |
| Expectations.MismatchNames | compliance-rdf-runner/src/compare.rs:512-580 | what disagrees is reported under its policy and rule, an attempt stated of a duty as one there cannot be |
| Expectations.ConcernsIff | compliance-rdf-runner/src/compare.rs:97-138 | a report is about the node at its index in the list of its kind, or so many consequences below the duty its address names |
| Expectations.FindsTheFirst | compliance-rdf-runner/src/compare.rs:153-184 | looking an id up finds the first duty that has it: obligations, duties of permissions, remedies, each followed down its consequences |
| Expectations.AddsWhatIsDemanded | compliance-rdf-runner/src/compare.rs:294-309 | an expectation adds a duty to those expected outstanding exactly when it is of a duty, stated active and stated unperformed, the first node of its id has no consequence, it is no obligation under deny mode and some report stands for it; one entry for each report that stands, with that node's action |
| Expectations.UnsaidAddsNothing | compliance-rdf-runner/src/compare.rs:294-309 | in particular one that leaves activation or performance unsaid adds nothing |
| Expectations.ExpectsWhatIsDemanded | compliance-rdf-runner/src/compare.rs:227-309 | all duties expected are those demanded, policy by policy and rule by rule |
| Expectations.VerdictMeans | compliance-rdf-runner/src/compare.rs:450-487 | a tree reads as Allow exactly when it states no prohibition active and, under deny mode, no obligation owed, and either states a permission active or has none under open behaviour; it pins nothing exactly when it states neither, there are permissions, and duties are advisory |
| Conformance.ActivationIsDecidedByAnyClone | compliance-rdf-runner/src/compare.rs:266-292 | an expected Active passes only beside an active clone, an expected Inactive only where no clone is active |
| Merging.MergeByIndex | compliance-rdf-runner/src/translate.rs:451-458 | what an id merges to depends on nothing but which shadow each id names |
| Merging.DistinctIndexAlike | compliance-rdf-runner/src/translate.rs:451-458 | with distinct ids every order of the shadows names the same ones |
| Reordering.PassingIgnoresOrder | compliance-rdf-runner/src/compare.rs:211-415 | with distinct policy ids, reordering expected policies, rule reports, actual reports, duties or id shadows changes neither refusal nor passing |
| Verdicts.PinnedIffForced | compliance-rdf-runner/src/compare.rs:362-381 | a decision is asserted exactly when every way of settling the indeterminate policies gives it under deny-override |
| Verdicts.PinnedVerdictIffSettled | compliance-rdf-runner/src/compare.rs:435-488 | a pinned verdict is the verdict of every completion of the tree exactly when nothing left unsaid could overturn it |
| Verdicts.UnstatedProhibitionPinsAllow | compliance-rdf-runner/src/compare.rs:450-488 | a concrete tree, silent on its prohibition, that is pinned all the same |
| Places.ReportPlaces | engine/src/decision.rs:1615-1888 | every report of a policy is about a place of that policy, and no two about the same one |
| Places.ReportsResolve | compliance-rdf-runner/src/compare.rs:97-138 | over a shadow of the same shape every report of the engine resolves to a rule |
| Places.FindsACarrier | compliance-rdf-runner/src/compare.rs:153-185 | searching the merged ids for the id of a duty finds a duty that carries it |
| Places.TerminalByAddress | compliance-rdf-runner/src/compare.rs:202-206 | where nodes of one id all end their chain or none does, looking an id up tells for each of its duties whether the chain ends there |
| Places.ObligationChainByAddress | compliance-rdf-runner/src/compare.rs:468-471 | a duty's id is found in an obligation's chain exactly when some duty of that id hangs under an obligation |
| InForce.ActiveDutyReports | engine/src/decision.rs:1981-2025 | the active duty reports of a policy are those on the duties in force: what they hang on is in play, every duty above them is unsatisfied, and they are within the bound |
| OwnAccount.OwnTreeExists | compliance-rdf-runner/src/compare.rs:250-278 | every account can be restated with one expectation for each rule, made of a clone that counts for it |
| OwnAccount.OwnTreeConformsIff | compliance-rdf-runner/src/compare.rs:247-321 | rule by rule, a policy's account conforms to its own restatement exactly when the clones that count for each rule are in the same four states |
| OwnAccount.OwnOutstandingIsListed | compliance-rdf-runner/src/compare.rs:294-307 | where clones agree, the duties expected of the restatement, with those taken for an obligation of the same id, are exactly the account's terminal outstanding ones |
| CutOffs.ChainLists | engine/src/decision.rs:520-540 | a chain's reports show exactly its outstanding duty, or nothing when the chain is cut off |
| CutOffs.PolicyLists | engine/src/decision.rs:1099-1265 | what the coarse answer lists is what the account shows plus the duties that were cut off |
| CutOffs.NothingMissingIffUncut | engine/src/decision.rs:520-540 | the two accounts of outstanding duties are the same multiset exactly when no duty in force was cut off |
| OwnVerdict.VerdictAgreesIff | compliance-rdf-runner/src/compare.rs:435-488 | the verdict read off a restated account agrees with the engine's decision except for a policy denied only by cut-off obligations and, under deny mode, one whose rules allow and whose obligations are met while a duty of an obligation's id is due on some rule |
| OwnVerdict.UncutVerdictAgrees | compliance-rdf-runner/src/compare.rs:435-488 | where no obligation is cut off, a denial is never read as an Allow |
| OwnVerdict.DeepChainIsMisjudged | engine/src/decision.rs:520-540 | one obligation with five consequences for which the engine denies and its account pins Allow |
| Composites.ClonesAgreeIff | compliance-rdf-runner/src/compare.rs:266-292 | the clones that count agree exactly when, for each id, its permissions (and its prohibitions) are attempted alike unless one is active, and its duties in force are satisfied alike |
| Composites.NoneTakenIff | compliance-rdf-runner/src/compare.rs:140-149 | under deny mode no duty to be listed is taken for an obligation exactly when none in force, unsatisfied and last of its chain shares its id with one |
| Composites.ExpectedIsListedIff | compliance-rdf-runner/src/compare.rs:294-307 | where clones agree, what is expected of one policy is what the engine lists for it exactly when nothing in force is cut off and no duty to be listed shares its id with an obligation |
| Composites.SplitPermissionsNeverConform | compliance-rdf-runner/src/compare.rs:266-292 | permissions of one id, none active, some attempted and some not: no expectation that states an attempt conforms |
| Composites.SplitProhibitionsNeverConform | compliance-rdf-runner/src/compare.rs:266-292 | the same of prohibitions |
| Misreadings.DutyOfTwoPlaces | compliance-rdf-runner/src/compare.rs:140-149 | one duty as an obligation and as the consequence of another: the engine evaluates the policy, and under no restatement of its account are the duties it lists the ones expected |
| Misreadings.SharedDutyIsMisjudged | compliance-rdf-runner/src/compare.rs:450-488 | a request the engine allows under deny mode, every restatement of which is read as a denial |
| Misreadings.TwoTargetsNeverConform | compliance-rdf-runner/src/compare.rs:266-292 | a permission with two targets, asked about one of them without its purpose: no expectation that states an attempt conforms |
| OwnRequest.OwnAccountPassesIff | compliance-rdf-runner/src/compare.rs:211-415 | a request's own answer, restated and expected of it, passes exactly when the policies are looked at, nobody else's and recognized, nothing in force is cut off, composite rules are alike, and no duty is mistaken for an obligation of its id |
| OwnCases.OwnCaseExists | compliance-rdf-runner/src/compare.rs:211-418 | whatever is asked and answered, policies that have their shadows have a case of the kind that theorem speaks of |
| OwnRequest.OwnDutiesConformIff | compliance-rdf-runner/src/compare.rs:383-401 | where clones agree, expected and listed duties are one multiset exactly when none was cut off or taken for an obligation |
| OwnRequest.OwnDecisionConformsIff | compliance-rdf-runner/src/compare.rs:362-381 | where nothing is cut off, the pinned decision is the engine's exactly when some policy denies or every allowed one is read right |
| OwnRequest.PassingAccountsForAll | compliance-rdf-runner/src/compare.rs:325-381 | whatever a case expects of the engine's own answer, it passes only if the engine looked at the policies, none was somebody else's, the case names every one of them and, with distinct ids, none was refused for an unknown action |
| OwnRequest.NothingExpectedNeverPasses | compliance-rdf-runner/src/compare.rs:330-381 | in particular a case that expects nothing of the engine's own answer never passes, whatever the request |
| Dnf.GrowProduct | compliance-runner/src/translate.rs:252-266 | the nested loops give the product, prefix by prefix |
| Dnf.ToDnf | compliance-runner/src/translate.rs:238-277 | the recursive compiler computes the specified expansion or the specified refusal |
| ConstraintLaws.NamesResolve | compliance-runner/src/translate.rs:221-231 | which operator each of the six names stands for |
| ConstraintLaws.OtherNamesAreRefused | compliance-runner/src/translate.rs:221-231 | any other name is refused, by itself |
| Dnf.ExpandPreservesMeaning | compliance-runner/src/translate.rs:238-277 | under every valuation of the tests, a tree is true exactly when all tests of some conjunct are, an empty `and` being true and an empty `or` false |
| Dnf.RefusedAtLeftmost | compliance-runner/src/translate.rs:238-277 | compilation is refused exactly when an unsupported operator or an `xone` stands outside every `xone`, and names the leftmost |
| Dnf.AndRefused | compliance-runner/src/translate.rs:252-266 | a product that is already empty hides no later obstacle |
| Dnf.NativeIsTheCutTree | engine/src/constraint.rs:591-630 | one nested engine constraint is true exactly when the tree, with everything below the depth limit false, is |
| Dnf.NativeAgreesIff | engine/src/constraint.rs:591-630 | for every tree that compiles, a nested constraint that is true makes the compiled form true, and the two decide alike exactly when cutting the tree at the limit does not make a true tree false |
| Dnf.NativeAgreesWithDnf | engine/src/constraint.rs:591-630 | in particular they decide alike on every tree within the limit |
| Dnf.TooDeepDisagrees | engine/src/constraint.rs:595-598 | one level deeper a true test is false to the engine and true compiled |
| DnfGrowth.DnfIsBounded | compliance-runner/src/translate.rs:252-273 | of n tests come d conjuncts with d cubed at most 3 to the n, none with more than n tests |
| DnfGrowth.ExpandCounts | compliance-runner/src/translate.rs:252-273 | the number of conjuncts is a product over `and` and a sum over `or` |
| DnfGrowth.BoundIsReached | compliance-runner/src/translate.rs:252-273 | for every k a conjunction of k three-way disjunctions compiles to conjuncts whose number, cubed, is three to the number of its tests |
| FileConstraints.ParsedIsSaid | compliance-runner/src/odrl.rs:121-159 | read triple by triple: a logical constraint is the `odrl:and` of the nodes given, else the `odrl:or`, else the `odrl:xone`, in file order and at every depth; any other node is one test, of the names and the literal given first |
| DnfGrowth.ParsedHasNoEmptyJunction | compliance-runner/src/odrl.rs:121-159 | no tree the parser builds has an empty `and` or an empty `or` |
| DnfGrowth.ParsedIsBounded | compliance-runner/src/odrl.rs:121-159 | so everything the parser can hand over compiles within the bound |
| GroundTruth.ExpectedDecision | compliance-runner/src/ground_truth.rs:47-79 | allow exactly when some permission report is active and no prohibition report is; never an error |
| GroundTruth.NoteTriple | compliance-runner/src/ground_truth.rs:56-70 | one triple raises a flag exactly when it states a report of that class active |
| GroundTruth.StatesActiveIff | compliance-runner/src/ground_truth.rs:56-70 | a triple states a report of a class active exactly when it gives the active state to a node whose first type is that class |
| GroundTruth.ReportExists | compliance-runner/src/ground_truth.rs:47-79 | rules of any classes and states have a report of the kind `EndToEnd.DecidesAsExpected` speaks of |
| GroundTruth.ActiveIffStated | compliance-runner/src/ground_truth.rs:47-79 | on a report with a node for each rule, a class is active exactly when some rule of it is stated active |
| Translation.TranslateRules | compliance-runner/src/translate.rs:318-379 | the engine rules of both kinds in source order, or the reason of the first rule that blocks |
| Translation.BuildRules | compliance-runner/src/translate.rs:370-379 | one sibling engine rule for each conjunct, the injected constraints in front |
| Translation.Translate | compliance-runner/src/translate.rs:311-432 | the whole request, or a skip |
| Translation.SkippedIffBlocked | compliance-runner/src/translate.rs:341-368 | translation is skipped exactly when a rule that suits the request, as `Translation.InScopeIff` says it from the triples, has an obstacle; the reason is the leftmost of the first |
| Translation.InScopeIff | compliance-runner/src/translate.rs:281-349 | a rule is translated exactly when its assignee and its target are each absent, the request's own, or a collection a triple joins it to, and no duty report on its duty states a violation |
| Translation.OutOfScopeIsRemoved | compliance-runner/src/translate.rs:336-349 | a rule outside that scope can be removed from the policy without changing what is translated |
| Translation.EngineRuleStatesTheParty | compliance-runner/src/translate.rs:351-379 | each engine rule carries its conjunct behind a test that the caller is who asks, or without one where the rule is addressed to nobody, and has the rule's action or the asked one |
| Translation.VocabularyIff | compliance-runner/src/translate.rs:165-176 | the base vocabulary includes read, write and distribute in use, sell and give in transfer, and nothing else |
| Translation.ClaimsMean | compliance-runner/src/translate.rs:409-413 | claimed are the caller and the literal of the first `dct:issued` triple, and nothing else |
| Translation.RequestAsks | compliance-runner/src/translate.rs:381-430 | what the request asks and under which profile, and the one policy it carries when any rule is left |
| Translation.BaseConstraintsHold | compliance-runner/src/translate.rs:351-360 | the injected `sub` constraints are always met by the injected claims |
| Translation.RuleActiveIffInPlay | compliance-runner/src/translate.rs:320-379 | a source rule that suits the request is active, about the asked action and with a true constraint, exactly when one of its sibling engine rules is in play |
| Translation.KindActiveIffInPlay | compliance-runner/src/translate.rs:320-379 | the same over all rules of a kind, those out of scope included |
| Translation.KindUnknownIff | compliance-runner/src/translate.rs:320-379 | the engine meets an unknown action exactly when a rule that suits the request, compiles and could be met names one outside the vocabulary |
| EndToEnd.TranslatedIsDecided | compliance-runner/src/translate.rs:87-93 | the engine's decision on a translated policy is the closed, prohibition-first reduction of which source rules are active, or an error exactly for an unknown action |
| EndToEnd.DecidesAsExpected | compliance-runner/src/ground_truth.rs:16-24 | against a report that states each source rule's activity, engine and expectation agree exactly when every action that reaches the engine is declared |
| EndToEnd.CompareWithReport | compliance-runner/src/main.rs:48-82 | one fixture from translation to result: skipped exactly when blocked, failed exactly for an undeclared action |
| JsonPointers.PointerRoundTrip | coverage-probes/src/patch.rs:47-60 | every path has a pointer (sections 3 and 4 of RFC 6901), and reading it gives the path back |
| JsonPointers.IndexesAreCanonical | coverage-probes/src/patch.rs:94-96 | no array element has two names |
| JsonLookups.TokensIff | coverage-probes/src/patch.rs:94-96 | a text names a path exactly when it is so many pieces without slashes, a slash in front of each, every piece scanned to its token with `~1` a slash and `~0` a tilde (sections 3 and 4 of RFC 6901) |
| JsonLookups.IndexIff | coverage-probes/src/patch.rs:94-96 | a token is an index exactly when it is that number's shortest decimal numeral |
| JsonLookups.ResolveIff | coverage-probes/src/patch.rs:94-96 | a path resolves to what it leads to, member by key and item by numeral |
| Patches.Document.ApplyPatches | coverage-probes/src/patch.rs:89-118 | the loop leaves the document and returns the error the specification says, also when it stops half way |
| Patches.StopsAtFirstRefusal | coverage-probes/src/patch.rs:86-118 | a failing run leaves exactly the effect of the patches before the first inapplicable one, and reports that one |
| Patches.SucceedsIffEachApplies | coverage-probes/src/patch.rs:86-118 | a run goes through exactly when each pointer resolves to an object of the document as updated so far and each removed key is there |
| JsonLookups.ApplicableIff | coverage-probes/src/patch.rs:94-118 | a patch can be made exactly where its pointer leads to an object, which for a removal has the key |
| JsonLookups.RefusalMeans | coverage-probes/src/patch.rs:94-115 | a refusal is for a pointer that leads nowhere, for the kind of value it leads to, or for the missing key |
| Patches.PatchMeans | coverage-probes/src/patch.rs:30-41 | after a patch every lookup at or below its site finds the new value or nothing, above it a value of the same kind, elsewhere the same value |
| Patches.NothingElseChanges | coverage-probes/src/patch.rs:89-118 | whether or not a run goes through, no place apart from all its sites changes |
| Patches.AppliedAppend | coverage-probes/src/patch.rs:89-118 | applying one list and then another is applying their concatenation |
| Patches.PatchesCommute | coverage-probes/src/patch.rs:89-118 | two patches neither of whose full paths is a prefix of the other's may be swapped |
| Patches.OrderIsIrrelevant | coverage-probes/src/patch.rs:89-118 | pairwise so, any permutation of a run succeeds or fails alike and ends in the same document |
| Patches.RemoveUndoesSet | coverage-probes/src/patch.rs:30-41 | removing a key just set always succeeds, and restores the document exactly when the key had been absent |
| DateTimes.CanonicalKeepsTheInstant | bench/odrl-pap/translate_pap.py:139-157 | the canonical string denotes exactly the same instant, its distance from UTC included, and is its own canonical string |
| DateTimes.AcceptedIff | bench/odrl-pap/translate_pap.py:145-157 | a string is accepted exactly when it is read, its zone is at no distance from UTC and its fraction is a whole number of milliseconds; which of the three fails first is the refusal |
| DateTimes.ReadIff | bench/odrl-pap/translate_pap.py:139-148 | a string is read exactly when it is spelled by the pattern, with a final newline or without, and as it is spelled |
| DateTimes.CanonicalIsSpelled | bench/odrl-pap/translate_pap.py:152-157 | a canonical string is spelled with the digits read, three digits of the same fraction, and `Z` |
| DateTimes.CanonicalOrderIsTime | bench/odrl-pap/translate_pap.py:34-41 | dictionary order of canonical strings is chronological order of the instants |
| DateTimes.OneSpellingEach | bench/odrl-pap/translate_pap.py:34-41 | two accepted strings are rewritten alike exactly when they denote the same instant |
| DateTimes.MillisecondsAreExact | bench/odrl-pap/translate_pap.py:152-156 | padding and cutting to three digits keeps the fraction's exact value whenever the cut digits are zeros |
| Digits.DictionaryIsNumeric | bench/odrl-pap/translate_pap.py:34-41 | of two numerals of one width the smaller number comes first in the dictionary |
| Words.OrIsSum | engine/src/abi.rs:60 | the shifted pointer and the masked length share no bit, so bitwise or adds them |
| Words.UnpackUndoesPack | engine/src/abi.rs:60 | for every 32-bit pointer and length, top bits included, the command-line host reads both back |
| Words.BrowserReadsLowPointers | site/src/engine_bridge.rs:184-190 | the browser host reads a pointer back, packed or alone, exactly when its top bit is clear, and otherwise gives up or reads zero |
| Abi.Guest.Alloc | engine/src/abi.rs:16-27 | a new live region under the layout of its length, apart from every other |
| Abi.Guest.Dealloc | engine/src/abi.rs:33-37 | ends one live region, freed under the layout of its allocation |
| Abi.Guest.Evaluate | engine/src/abi.rs:45-61 | the packed value names a new region that holds the answer to the request bytes; no byte outside it changes |
| Abi.PlacedIsDisjoint | engine/src/abi.rs:16-27 | a region placed where there is room keeps the live regions disjoint, and freeing it restores them |
| Abi.WriteMemory | release-history/src/host.rs:120-122 | bytes are written at the sign-extended offset, or nothing is when that lies outside the memory |
| Abi.ReadMemory | release-history/src/host.rs:136-137 | a read succeeds exactly when the pointer is not negative and the bytes lie inside the memory, and gives the bytes lying there |
| Abi.Collect | release-history/src/host.rs:134-137 | the unpacked pointer and length are those packed, and the answer is read exactly when the address is low |
| Abi.FreeBoth | release-history/src/host.rs:139-144 | the two frees end exactly the two regions |
| Abi.Send | release-history/src/host.rs:107-122 | the request has a region of its own and lies in it exactly when its address is low; no other byte changes |
| Abi.Exchange | release-history/src/host.rs:124-147 | the answer is read through the unpacked pointer exactly when its address is low, and both buffers are freed either way |
| Abi.RoundTrip | release-history/src/host.rs:107-148 | what the host is told in every case, which regions stay live, and that nothing outside the two regions changes |
| Abi.LayoutIsSmallest | engine/src/abi.rs:16-27 | a layout holds its buffer and at least one byte, and no more than that |
| Abi.ReplyIff | release-history/src/host.rs:107-148 | the host is given the engine's answer exactly when the request fits, both addresses have a clear top bit and the engine does not trap; and otherwise which error |
| Abi.RunsConserveRegions | engine/src/abi.rs:29-37 | over every run live regions stay disjoint and none is lost, and the run restores them exactly when no request leaked |
| Abi.HighRequestLeaks | release-history/src/host.rs:115-122 | a request placed at the lowest high address, on an idle guest, is never freed |
| Abi.Serve | release-history/src/host.rs:107-148 | a run of round trips gives each reply and leaves the live regions of the specification |

## Left out

- The engine's parsing and rendering, `describe_reason`, premise and condition reports, performable actions, left-operand collection and JSON-LD context: they carry no decision.
- Comparison of literals as instants, durations and numbers (`engine/src/temporal.rs`, `engine/src/constraint.rs:147-222`): a parameter of `Constraints.World`, since rounding and calendar rules are a subject of their own.
- `translate_constraint` of the RDF runner, with its `rdf:List` operands: a parameter of `Atomization.Source`, so that the shadow theorems hold for any constraint translation.
- Single lookups of `translate_policy` (the kind, the conflict strategy, the parents listed) are parameters of `PolicyTranslation.Lookups`; `translate_claims`, `translate_config` and the rest of `translate_request` are left out.
- PolicyTranslation.TranslatePolicy: assumes duty, remedy and consequence edges never lead back to their start, as for Atomization.TranslateRule.
- Turtle and JSON parsing, file reading, command lines, exit codes, report rendering, the site, the benches and the other harnesses.
- Atomization.TranslateRule: assumes duty, remedy and consequence edges never lead back to their start (`Ranked`); on a cyclic file the source does not return.
- DnfGrowth.ParsedHasNoEmptyJunction: assumes logical constraints do not contain themselves, as above.
- Graph.RdfList: assumes an acyclic chain; on a cyclic one the source does not return.
- Merging.MergeCommutes: stated for distinct policy ids; `Merging.MergeCommutesIff` gives the exact condition for any ids.
- OwnRequest.OwnAccountPassesIff: asks for distinct policy ids, and that nodes of one id all end their chain of consequences or none does (`Coherent`). Only two RDF rules with one local name can break the latter, a risk the source documents (`compliance-rdf-runner/src/translate.rs:15-31`); `NodeNames.TranslatedIsReadable` shows nothing else does.
- OwnAccount.OwnTreeExists: a restatement states all four dimensions of every rule, while a hand-written tree may leave some unstated.
- DateTimes.CanonicalOrderIsTime: for ASCII digits only; the original pattern also accepts other decimal digits. Chronological order is that of the seven fields, so `24:00:00` is not identified with the next midnight.
- JsonPointers.IndexesAreCanonical: an index too large for a machine word is a number here and a failed parse in the source; neither is inside any array.
- Abi.Guest.Alloc: the allocator always finds room; the source does not check for a null pointer.
- Abi.Guest.Evaluate: the engine is a function from request bytes to answer bytes, whose answer fits a buffer; trapping leaves nothing else allocated.
- Abi.RoundTrip: the reply is bytes, not yet checked to be UTF-8, and calls of `alloc` and `dealloc` do not trap.
