# UMBRA analysis tools: a verified model

This project models the algorithmic cores of the UMBRA organism's evidence
tools, together with the production dominance relation they reconstruct, and
proves what those cores keep, decide and report, for every input or every run.

| file | what it models |
|---|---|
| `Wrappers.dfy`, `TextOrder.dfy` | optional values; code-point string order, `sorted` listings, decimal rendering |
| `Dominance.dfy`, `ChannelMeaning.dfy` | supported dominance: the production relation, the offline single-pass reconstruction with its analysis options, the prefix relation, the four-drive relation; every reported list and label said of the recorded channels |
| `PartialOrder.dfy`, `DominanceOrder.dfy`, `DominanceCycles.dfy` | strict orders on finite pools; which of the relations are strict orders, and which statuses allow a cycle |
| `Frontier.dfy`, `Projection.dfy`, `LiteralCases.dfy` | frontier and winner in production, in the prefix projection and in the literal cases |
| `AnalysisModes.dfy`, `ProjectedRelations.dfy` | the analysis modes and their counters |
| `Trees.dfy`, `UuidTokens.dfy`, `UuidAlpha.dfy`, `UuidIdentity.dfy`, `UuidLookAlikes.dfy` | UUID tokenisation threaded through a tree, as a canonical form up to renaming, which occurrences are one identity, and exactly which texts spoil it |
| `LeafDifferences.dfy`, `DifferenceOrder.dfy`, `ModelMultiset.dfy`, `BodyNames.dfy` | structural difference, sort-based model comparison, scoped body-reference renaming |
| `SeedAllocators.dfy`, `SeedReach.dfy`, `SeedReports.dfy` | probing seed allocators, which values they take, and the disjointness reports built on them |
| `FileStore.dfy`, `Publication.dfy` | a store with volatile and durable contents, and the durable writers over it |
| `Publishers.dfy`, `PublisherRuns.dfy`, `PublisherOutcomes.dfy`, `PublisherReports.dfy`, `PublisherCrashes.dfy`, `PublisherRaces.dfy` | any number of create-once publishers interleaved step by step |
| `Deadline.dfy` | viable-loss deadlines against tick-by-tick drift, and the obligations built from them |
| `Services.dfy` | the two readers of modal services |
| `PairCounts.dfy`, `ProfileAudit.dfy`, `TraceAccounting.dfy`, `TraceTally.dfy` | pair counters, the profile audit and the conflict-exposure tally |

Text detected as a UUID is given as such: a string is a sequence of plain text
and UUID pieces. Hashes, JSON renderings and effect tables are parameters. Scores,
orders and physiology are exact reals; a file is a sequence of bytes with a flag
saying whether its content would survive a crash.

## Where the code and its promise part

These are results of the model, each proved with its exact condition.

- The offline reconstruction equals the retained production attempt exactly on
  the pairs that do not pass: a passing pair retains no blocking channels, while the
  reconstruction lists its strict channels there
  (`Dominance.ReconstructionMatchesExactlyWhenNotPassed`, shown on a pair by
  `Dominance.PassingPairIsMisreported`).
- A passing pair has no blocker category and is still classified
  `MULTIPLE_BLOCKERS` (`Dominance.PassingIsUncategorised`).
- Ignoring unknown channels breaks transitivity. It is transitive for given status
  patterns exactly when the condition of
  `DominanceOrder.IgnoringUnknownTransitiveExactly` holds. Candidates with given status
  patterns can form a cycle exactly under the condition of
  `DominanceCycles.CanCycleExactly`, and over a cycle the frontier is empty.
- The prefix projection does not refuse duplicate identities; its frontier is
  certain to be non-empty exactly when the identities are all distinct or all equal
  (`Projection.FrontierDefinedExactly`). The projection breaks ties toward the
  greater identity, production toward the smaller
  (`Projection.TieBreaksAgreeExactly`, `Projection.TiedPairDiffers`).
- UUIDs in dictionary keys are never renamed (`UuidAlpha.KeysAreNotRenamed`). A text
  that holds a whole token is confused, after UUIDs enough to number it, with one of
  them, and no other text is (`UuidLookAlikes.NeverConfusedExactly`).
- Body-name equivalence is symmetric exactly when no unlisted reference is captured,
  and transitive exactly when a reference captured in the middle does not move on
  (`BodyNames.SymmetricExactly`, `BodyNames.TransitiveExactly`); both failures occur
  (`BodyNames.CaptureBreaksSymmetry`, `BodyNames.CaptureBreaksTransitivity`).
- The AS-010 `overlap` field is empty whatever happened
  (`SeedReports.As010OverlapSaysNothing`), and the AS-012 `disjoint` field is false
  whatever happened (`SeedReports.BuildAs012`). The AS-011 field can fail through its
  three fixed preflight seeds alone, exactly when one is historical or the starts
  crowd a stretch that ends at it (`SeedReports.BuildAs011`).
- The single unchecked write of the AS-009 writer publishes whatever that write
  took. A crash during the call is harmless exactly when it took everything or what
  a crash could already have left (`Publication.SingleWriteExactly`).
- An existence check before a replace protects the target exactly while no other
  replace falls in between; from any start without a target any publisher can
  overwrite any other's finished work (`PublisherRaces.FinishedWorkCanBeReplaced`).
- In every run a crash leaves exactly what showed under the target at some moment
  since the last directory sync (`PublisherCrashes.CrashLeavesExactly`), so a payload
  is durable exactly when nothing else showed since then. An idempotent publisher can
  succeed before that (`PublisherRaces.EarlySuccessCanBeLost`). In runs whose replaces
  are all guarded, its success is durable exactly when the target was there at first
  or somebody has synced the directory (`PublisherCrashes.SuccessIsDurableExactly`).
- The slack added before rounding a deadline changes it exactly when the room
  falls short of a whole tick by no more than the slack
  (`Deadline.DeadlineIsLastViableTickExactly`). Every listed owner has such a value
  (`Deadline.ListedDeadlineCanBeOneTooMany`); on recorded values with four decimals it
  never happens.
- The two service readers differ exactly on frames with a service one of whose
  requirements has a text outside the four known ones while none is UNKNOWN or
  UNSUPPORTED (`Services.FramesAgreeExactly`).
- In the exposure audit, the test that candidate views differ is implied by the
  conflict test and never decides anything.
- The published count of compressed pairs is short by exactly the pairs that differ
  in class and share their successor, and can be negative.

## Model

| member | source | states |
|---|---|---|
| `Dominance.SupportedDominance` | umbra_core/distributed_competition.py:189-241 | the early-returning production loop computes the attempt whose meaning `ReconstructionMatchesExactlyWhenNotPassed` gives |
| `Dominance.ChannelPairs` | tools/as003d_analyze.py:94-182 | the single pass with its first-blocker bookkeeping computes the explanation whose fields the next lemmas characterise |
| `Dominance.ScanKeys` | tools/as003d_analyze.py:110-151 | after the loop every list holds exactly its channels in order, and the strict list used by production stops before the first worse channel |
| `Dominance.CategoriesOf` | tools/as003d_analyze.py:161-170 | each category is in the list exactly when its kind of channel occurs, once and in a fixed order; no improvement only when there is nothing else |
| `Dominance.ExplanationMeaning` | tools/as003d_analyze.py:152-181 | "production passed" holds exactly when some allowed channel is better, none is worse and none blocks |
| `Dominance.ReasonMeaning` | tools/as003d_analyze.py:152-160 | each of the four reasons is reported exactly under its declarative condition, worse before blocked before no improvement |
| `Dominance.ReportedChannelsMeaning` | tools/as003d_analyze.py:138-160 | a worse reason names the least worse channel and keeps the strict channels before it; otherwise all strict channels are kept and a block lists exactly the blocked channels |
| `Dominance.FirstWorseIsLeast` | tools/as003d_analyze.py:139-146 | the first worse channel met in sorted order is the least one, and the strict channels before it are those below it |
| `Dominance.ClassificationMeaning` | tools/as003d_analyze.py:161-170 | MULTIPLE_BLOCKERS is reported exactly for two kinds of blocker or for a pass |
| `Dominance.PassingIsUncategorised` | tools/as003d_analyze.py:168-170 | exactly the passing pairs have no category, and they are labelled MULTIPLE_BLOCKERS |
| `Dominance.PassingPairIsMisreported` | tools/as003d_analyze.py:159-170 | on any one channel with a higher order the better candidate passes, its reconstruction differs from production and its label is MULTIPLE_BLOCKERS |
| `Dominance.ReconstructionMatchesExactlyWhenNotPassed` | tools/as003d_analyze.py:253-276 | the reconstructed attempt equals the production attempt if and only if the pair does not pass; both agree on passing, and a pass differs in the blocking channels only |
| `Dominance.PairRelation` | tools/as003e_research.py:188-205 | the prefix relation lists better, worse and blocking channels in order and passes exactly when the unrestricted relation passes on the prefixed channels |
| `Dominance.PrefixRelationIsRestrictedPass` | tools/as003e_research.py:188-205 | the prefix relation and the single pass restricted to the same channels agree |
| `Dominance.LevelsAgree` | tools/as003k_research.py:159-162 | on four drives with an absent level as unknown, the literal relation is supported dominance |
| `ChannelMeaning.PassesMeans` | tools/as003d_analyze.py:99-160 | said of the recorded statuses and orders alone: a pass is somewhere better, nowhere worse, and no one-sided or unknown channel that is not ignored |
| `ChannelMeaning.ListsMean` | tools/as003d_analyze.py:115-151 | each list holds, in name order, exactly its channels: one-sided when exactly one side lacks the channel, unknown when neither lacks it and not both support it, worse and better by the two orders |
| `ChannelMeaning.CategoriesMean` | tools/as003d_analyze.py:161-170 | each category, and each single classification, by the existence of such channels |
| `ChannelMeaning.StartsWithMeans` | tools/as003e_research.py:189 | a key is allowed exactly when the characters of some prefix open it |
| `ChannelMeaning.PrefixScopeMeans` | tools/as003e_research.py:189-199 | the prefix relation looks at exactly the recorded keys under a prefix and ignores nothing |
| `PartialOrder.DominatedBySurvivor` | tools/as003e_research.py:247 | in a finite pool under a strict order every member is undominated or beaten by an undominated one |
| `DominanceOrder.Irreflexive` | tools/as003d_analyze.py:110-181 | nothing eliminates itself, under all options |
| `DominanceOrder.Asymmetric` | tools/as003d_analyze.py:110-181 | two candidates never eliminate each other, under all options |
| `DominanceOrder.Transitive` | tools/as003d_analyze.py:110-181 | elimination is transitive despite unknown and one-sided channels, on any channel selection |
| `DominanceOrder.IgnoringUnknownExtends` | tools/as003d_analyze.py:124-130 | ignoring unknown channels keeps every elimination |
| `DominanceOrder.IgnoringUnknownCycle` | tools/as003d_analyze.py:299-300 | with any three channels, three candidates form a cycle under that mode |
| `DominanceOrder.IgnoringUnknownEmptiesFrontier` | tools/as003d_analyze.py:299-314 | over the three candidates of such a cycle nobody survives |
| `DominanceOrder.IgnoringUnknownTransitiveExactly` | tools/as003d_analyze.py:124-130 | for given statuses of three candidates, the mode is transitive for all orders if and only if no chain can arise, or the middle one knows every channel both ends know and one end knows every channel the other link compares |
| `DominanceCycles.CanCycleExactly` | tools/as003d_analyze.py:124-130 | a cyclic list of status patterns of any length can be ordered into a cycle if and only if neighbours have the same applicability and every link has a channel known to both its ends and not to some member |
| `DominanceCycles.CycleEmptiesFrontier` | tools/as003d_analyze.py:299-314 | nobody survives over the members of any cycle |
| `DominanceOrder.RemovingChannels` | tools/as003d_analyze.py:99-101 | a passing pair still passes on selected channels exactly when a better channel is selected |
| `Frontier.Resolve` | umbra_core/distributed_competition.py:244-280 | the errors in the order of the checks; otherwise the one resolution of the pool: attempts, frontier, eliminated names, winner |
| `Frontier.ResolvePool` | umbra_core/distributed_competition.py:256-280 | from a non-empty pool the empty-frontier error cannot happen |
| `Frontier.PairTable` | umbra_core/distributed_competition.py:257-266 | the pair loop records every attempt and marks exactly the non-survivors |
| `Frontier.SelectWinner` | umbra_core/distributed_competition.py:270-273 | the winner has the greatest term, and among those the least identity |
| `TextOrder.LtExactly` | umbra_core/distributed_competition.py:270-273 | the text order that sorts names and breaks ties is decided at the first difference by code point, a proper prefix first |
| `Frontier.IndexByIdentity` | umbra_core/distributed_competition.py:253-255 | the size comparison detects duplicate identities exactly |
| `Frontier.EveryEliminationHasSurvivor` | umbra_core/distributed_competition.py:257-267 | every eliminated candidate is eliminated by a surviving one |
| `Frontier.FrontierNonEmpty` | umbra_core/distributed_competition.py:267-269 | a non-empty pool has survivors |
| `Frontier.ResolutionUnique` | umbra_core/distributed_competition.py:256-280 | a pool has only one resolution |
| `Frontier.ResolutionMeans` | umbra_core/distributed_competition.py:257-280 | said of the candidates: the frontier holds exactly those nobody passes against, the eliminated names exactly the others, each attempt whether it passed, and the winner comes first by term and name |
| `Frontier.OrderIndependent` | umbra_core/distributed_competition.py:244-280 | the same views in another order resolve to the same outcome, failures included |
| `Frontier.AuditPairs` | tools/as003d_analyze.py:242-279 | against any retained attempts: a key error exactly when a pair was not retained, otherwise a mismatch for exactly the pairs whose reconstruction differs |
| `Frontier.AuditOfProduction` | tools/as003d_analyze.py:253-276 | against retained production attempts, the mismatches are exactly the eliminations |
| `Projection.ProjectDecision` | tools/as003e_research.py:220-260 | per decision: relation count, eliminated count, frontier size, full-frontier flag, both winners; no row exactly when the frontier is empty |
| `Projection.CompareWithAll` | tools/as003e_research.py:228-235 | the inner loop counts the relations of one candidate and collects the names it eliminates |
| `Projection.Maximum` | tools/as003e_research.py:255-256 | `max` by term and then by the greater identity |
| `Projection.DominatedMeans` | tools/as003e_research.py:227-234 | a name is eliminated exactly when some candidate beats one that bears it |
| `Projection.PrefixTransitive` | tools/as003e_research.py:188-205 | the prefix relation is transitive |
| `Projection.UniquePoolSurvives` | tools/as003e_research.py:227-247 | with unique identities every candidate survives or is beaten by a survivor |
| `Projection.FrontierDefinedExactly` | tools/as003e_research.py:247-255 | for given identities the frontier is never empty, and `max` over it defined, if and only if all identities are distinct or all are equal |
| `Projection.WinnerChangesExactly` | tools/as003e_research.py:255-258 | the projected winner differs from the full-pool winner exactly when the latter is eliminated |
| `Projection.TieBreaksAgreeExactly` | tools/as003e_research.py:256 | production's and the projection's tie-breaks choose alike if and only if the greatest term belongs to one candidate |
| `Projection.TiedPairDiffers` | tools/as003e_research.py:255-256 | two candidates with one term: production takes the smaller name, the projection the greater |
| `Projection.NoRelationExactly` | tools/as003e_research.py:248-254 | no relation, nobody eliminated and a full frontier are the same thing, and eliminations never outnumber relations |
| `Projection.RelationsNumber` | tools/as003e_research.py:227-235 | the relation count is the number of ordered pairs of positions of which the first beats the second |
| `Projection.EliminatedPlusSurviving` | tools/as003e_research.py:247-254 | with unique identities, eliminated and surviving candidates add up to the pool |
| `LiteralCases.EvaluateCases` | tools/as003k_research.py:165-193 | the three metrics count the reduced, residual and saturated cases, and reduced plus saturated is all |
| `LiteralCases.CaseFacts` | tools/as003k_research.py:171-178 | the frontier is as large as the pool exactly in saturated cases, which are exactly the cases that are not reduced |
| `LiteralCases.DominatedExactly` | tools/as003k_research.py:171 | a name is eliminated exactly when another row knows and reaches every one of its levels and exceeds one |
| `LiteralCases.CaseKeepsSurvivor` | tools/as003k_research.py:171-172 | every candidate of a case is kept or dominated by a kept one |
| `LiteralCases.SaturatedCasesAreResidual` | tools/as003k_research.py:175-178 | a saturated case of two or more candidates is residual |
| `AnalysisModes.IsolationReportsExactly` | tools/as003d_analyze.py:301-314 | on any decision the mode reports a pair exactly when no channel is one-sided between the two and, where a third candidate lacks the channel, the first is nowhere worse and somewhere better |
| `AnalysisModes.SharedChannelsNeverBlock` | tools/as003d_analyze.py:291-295 | on universally shared channels the ignore options make no difference |
| `AnalysisModes.RemovalKeepsExactly` | tools/as003d_analyze.py:296-298 | removing a channel family keeps an elimination exactly when it was better outside that family |
| `AnalysisModes.RemovalReportsExactly` | tools/as003d_analyze.py:296-298 | a removal mode reports a pair exactly on the evidence outside that family: nothing blocks or is worse there and something is better |
| `AnalysisModes.SharedModeReportsExactly` | tools/as003d_analyze.py:291-295 | the shared mode reports a pair exactly when on the channels every candidate supports no order is lower and some is higher |
| `AnalysisModes.FamilyExactly` | tools/as003d_analyze.py:70-87 | a channel is in a family exactly when it opens with one of its prefixes, so the order of the tests is immaterial, and in "other" when with none |
| `AnalysisModes.UnrestrictedModes` | tools/as003d_analyze.py:287-300 | the full mode is the production relation; excluding unknown only stops them from blocking |
| `AnalysisModes.PhysiologyModeIsPrefix` | tools/as003d_analyze.py:289-290 | the physiology mode of one tool is the prefix relation of the other for that prefix |
| `ProjectedRelations.CountRelations` | tools/as003d_analyze.py:282-324 | the counters are the ordered pairs, the relations the mode reports and the decisions with one |
| `ProjectedRelations.CountDecision` | tools/as003d_analyze.py:308-317 | the nested loop over one decision |
| `ProjectedRelations.PairsNumber` | tools/as003d_analyze.py:309-317 | the nested loop counts every pair of positions in the relation once |
| `ProjectedRelations.AllOrderedPairs` | tools/as003d_analyze.py:309-313 | n candidates of different names give n(n-1) ordered pairs |
| `ProjectedRelations.RateAtMostHalf` | tools/as003d_analyze.py:309-325 | in every mode and over all decisions, relations are at most half of the ordered pairs |
| `ProjectedRelations.ExcludingUnknownReportsNoLess` | tools/as003d_analyze.py:299-300 | excluding unknown channels reports at least the relations and decisions of the full mode |
| `ProjectedRelations.IsolationReportsNothingExactly` | tools/as003d_analyze.py:301-324 | over any decisions the isolation mode counts zero if and only if no pair of any decision is isolated in that way |
| `ProjectedRelations.IsolationOfPairsReportsNothing` | tools/as003d_analyze.py:301-324 | over decisions between at most two candidates it counts zero |
| `ProjectedRelations.IsolationOfThreeReports` | tools/as003d_analyze.py:301-324 | with a third candidate that lacks the channel it does count |
| `UuidTokens.Identities.Replace` | tools/as003pr2_forensics.py:66-70 | a known UUID keeps its token, a new one gets the next number; the table stays injective with tokens 1..n, and by `UuidIdentity.SameTokenExactly` tokens tell different UUIDs apart |
| `UuidTokens.Identities.FrozenSemantic` | tools/as003pr2_forensics.py:54-73 | the recursive walk with its shared table computes the specification, and the table afterwards lists the UUIDs in first-occurrence order; `UuidIdentity.CanonicalIsWritten` says what each occurrence becomes |
| `UuidTokens.CanonicalForm` | tools/as003pr2_forensics.py:54-56 | a top-level call starts from an empty table |
| `UuidIdentity.LowerExactly` | tools/as003pr2_forensics.py:67 | lower-casing identifies two texts exactly when they agree character by character up to the case of ASCII letters |
| `UuidIdentity.LowerOfLower` | tools/as003pr2_forensics.py:67 | a text without upper-case ASCII letters is its own lower case |
| `UuidIdentity.SameTokenExactly` | tools/as003pr2_forensics.py:67-70 | two occurrences get the same token exactly when they are the same UUID up to letter case |
| `UuidIdentity.CanonicalIsWritten` | tools/as003pr2_forensics.py:54-73 | the comparison value is the tree with each UUID replaced by its token in the finished table, at every depth, hash keys dropped |
| `UuidIdentity.RelationKeptExactly` | tools/as003pr2_forensics.py:288-292 | two fields of one record compare as one identity exactly when they hold the same UUID: the repeated and the changed relation of the listed cases |
| `UuidIdentity.ItemsNumbered` | tools/as003pr2_forensics.py:63-70 | tokens number the identities in reading order, items by position |
| `UuidIdentity.FieldsNumbered` | tools/as003pr2_forensics.py:57-70 | and fields by name, whatever the order in which they were stored |
| `TextOrder.DecimalDenotes` | tools/as003pr2_forensics.py:69 | the number in a token or path step is rendered so that its digits denote it |
| `UuidAlpha.RenamingInvariant` | tools/as003pr2_forensics.py:54-73 | trees carried into each other by an injective renaming of lower-cased UUIDs have the same frozen form |
| `UuidAlpha.EqualExactlyWhenRenamed` | tools/as003pr2_forensics.py:54-73 | on trees without a whole token in their text, frozen forms are equal if and only if such a renaming exists, hash keys dropped |
| `UuidLookAlikes.NeverConfusedExactly` | tools/as003pr2_forensics.py:54-73 | for every plain text and given UUIDs enough to number its tokens: after them it compares equal to look-alike-free trees only by renaming if and only if it holds no whole token |
| `UuidLookAlikes.SafeTextExactly` | tools/as003pr2_forensics.py:54-73 | the same for every plain text with identities of any form: it is never confused, whatever comes first, if and only if it holds no whole token |
| `UuidLookAlikes.LookAlikeIsConfused` | tools/as003pr2_forensics.py:66-72 | every text with a token in it, after the UUIDs it numbers, freezes like a look-alike-free tree no renaming carries it to |
| `UuidLookAlikes.CutFreezesBack` | tools/as003pr2_forensics.py:66-72 | replacing each token by the UUID it numbers and freezing gives the text back |
| `UuidAlpha.KeysAreNotRenamed` | tools/as003pr2_forensics.py:57-62 | dictionaries with equal frozen forms have equal keys apart from the hash keys, so UUID keys are not renamed; the cases listed at lines 285-290 expect otherwise |
| `LeafDifferences.LeafDifferences` | tools/as003pr2_forensics.py:199-219 | the recursive walk growing its row list computes the difference specification |
| `LeafDifferences.RowsAreExactlyTheDifferences` | tools/as003pr2_forensics.py:199-219 | a row is reported if and only if its path leads to a type mismatch, unequal leaves, a missing key or a length mismatch with these two columns |
| `LeafDifferences.EmptyExactlyWhenEqual` | tools/as003pr2_forensics.py:199-219 | no rows exactly when the trees are equal |
| `DifferenceOrder.PlacesInOrder` | tools/as003pr2_forensics.py:199-219 | the report lists every genuine difference once and in reading order: keys by name, a length mismatch before the items, items by number |
| `DifferenceOrder.OneDifferencePerPlace` | tools/as003pr2_forensics.py:199-219 | one place shows one pair of values |
| `DifferenceOrder.NotBeforeItself` | tools/as003pr2_forensics.py:199-219 | reading order is irreflexive, so the places of a report are all different |
| `LeafDifferences.SwapExchangesColumns` | tools/as003pr2_forensics.py:199-219 | swapping the trees keeps the rows and their order and exchanges control and shadow |
| `LeafDifferences.JoinMeans` | tools/as003pr2_forensics.py:201-218 | the path text puts one slash between neighbouring steps and nothing else |
| `LeafDifferences.RecordedSides` | tools/as003pr2_forensics.py:206-213 | a missing key is recorded as null and a length mismatch by the two lengths |
| `LeafDifferences.TypesMean` | tools/as003pr2_forensics.py:200 | two values have one type exactly when both are text, lists, dictionaries, null, booleans, integers or floats |
| `ModelMultiset.SortSpec` | tools/as003pr2_forensics.py:97 | the stable sort returns the same rows in order of their rendering |
| `ModelMultiset.SortStable` | tools/as003pr2_forensics.py:97 | rows that render alike keep their order of arrival |
| `ModelMultiset.RowsMean` | tools/as003pr2_forensics.py:96-97 | row by row, every field but the identifier is kept with its value |
| `ModelMultiset.OrderBlindExactly` | tools/as003pr2_forensics.py:95-97 | the sorted list forgets arrival order if and only if distinct rows render differently |
| `ModelMultiset.ComparisonIsMultisetEquality` | tools/as003pr2_forensics.py:155-156 | with an injective rendering, equal results mean equal multisets of identifier-free models |
| `ModelMultiset.RenamingAndReorderingInvariant` | tools/as003pr2_forensics.py:155-156 | renaming keys and model ids and storing in another order changes nothing |
| `BodyNames.ReflexiveExactly` | tools/as003pr4_identity_contract.py:46-52 | a record is equivalent to itself exactly when no two roles share an id |
| `BodyNames.SymmetricExactly` | tools/as003pr4_identity_contract.py:46-52 | equivalence reverses if and only if every left reference to a right id is listed on the left |
| `BodyNames.TransitiveExactly` | tools/as003pr4_identity_contract.py:46-52 | equivalence composes if and only if the unlisted left references captured in the middle keep their name |
| `BodyNames.CaptureBreaksTransitivity` | tools/as003pr4_identity_contract.py:41-52 | three one-body records with distinct ids whose first two steps hold and whose composition fails |
| `BodyNames.EquivalenceInScope` | tools/as003pr4_identity_contract.py:46-52 | on records whose references are all listed and whose ids are unique it is an equivalence |
| `BodyNames.MeansEqualByRole` | tools/as003pr4_identity_contract.py:25-52 | in scope, equivalence means the same roles and the same content once ids are replaced by roles |
| `BodyNames.RenameAgree` | tools/as003pr4_identity_contract.py:36-43 | two renamings give the same tree exactly when they agree on the ids in reference fields |
| `BodyNames.RenameTwice` | tools/as003pr4_identity_contract.py:36-43 | renaming twice is renaming by the composition |
| `BodyNames.RoleIdsExactly` | tools/as003pr4_identity_contract.py:26-27 | every role is read, with the id of the last entity that plays it |
| `BodyNames.RenamedAtPath` | tools/as003pr4_identity_contract.py:36-43 | renaming keeps every path, and changes exactly the texts whose innermost field name is a body reference, also inside lists |
| `BodyNames.CaptureBreaksSymmetry` | tools/as003pr4_identity_contract.py:41-52 | for any two ids, an unlisted reference is captured and symmetry fails |
| `SeedAllocators.ProbeUp` | tools/as009_seed_registry.py:68-69 | increment probing ends and returns the first unused value from the start |
| `SeedAllocators.UsedSeeds.Fresh` | tools/as012_prepare.py:70-75 | one allocation adds exactly its seed to the shared used set |
| `SeedAllocators.UsedSeeds.FreshBatch` | tools/as011_prepare.py:50-57 | a batch allocates in order, each seed the first free one given those before |
| `SeedAllocators.ProbeBounded` | tools/as009_seed_registry.py:68-69 | a probe passes the greatest used value by one at most |
| `SeedAllocators.AllocationDisjoint` | tools/as009_seed_registry.py:91-95 | allocated seeds are pairwise distinct and disjoint from what was used before, for every hash |
| `SeedAllocators.AllocationUnique` | tools/as009_seed_registry.py:65-71 | starts and used set determine the seeds |
| `SeedReach.TakenExactly` | tools/as009_seed_registry.py:65-71 | a free value is taken if and only if some stretch ending there has at least as many starts as free values |
| `SeedReach.SameSeedsInAnyOrder` | tools/as009_seed_registry.py:91-95 | the set of seeds does not depend on the order of the rounds |
| `SeedAllocators.ProbeCyclic` | tools/as008_seed_registry.py:69-71 | cyclic probing ends whenever a slot is free and returns the first free one in cyclic order |
| `SeedAllocators.DeriveCyclic` | tools/as008_seed_registry.py:62-74 | given room for all rounds, every round takes the first free slot of what remains |
| `SeedAllocators.CyclicDisjoint` | tools/as008_seed_registry.py:62-74 | the cyclic seeds are in range, distinct and disjoint from history |
| `SeedAllocators.CyclicNeedsRoom` | tools/as008_seed_registry.py:70-71 | an allocation exists only if that many slots are free |
| `SeedReports.BuildAs008` | tools/as008_seed_registry.py:62-105 | 32 in-range seeds disjoint from history, seed i of regime g the cyclically first free slot from the hash of that regime and round, and a report that says so |
| `SeedReports.BuildAs009` | tools/as009_seed_registry.py:91-125 | 16 distinct seeds avoiding history and the forbidden list, seed i of regime g the first free value from the hash of that regime and round, and a report that says exactly that |
| `SeedReports.BuildAs010` | tools/as010_seed_registry.py:50-70 | 32 distinct new seeds, each the first free value from the hash of its regime and round; the reported historical count is the size of the set before allocation |
| `SeedReports.As010OverlapSaysNothing` | tools/as010_seed_registry.py:70 | the overlap expression is empty for all sets, also for seeds that repeat history |
| `SeedReports.BuildDownstream` | tools/as010_downstream_seed_manifest.py:64-87 | one seed each for three groups and four for the ablations, each the first free value from the hash of its group and index; the verdict passes exactly when no uncollected formal seed is reached from the starts, so always when the formal seeds were collected |
| `SeedReports.BuildAs011` | tools/as011_prepare.py:50-73 | each seed is the first free value from the hash of its label, given those before; `disjoint` holds exactly when no preflight seed is historical or reached from the starts |
| `SeedReports.PreflightClearExactly` | tools/as011_prepare.py:69-73 | that condition on starts and history is disjointness from history and from the generated seeds |
| `SeedReports.PreflightCanCollide` | tools/as011_prepare.py:67-73 | it fails for every history with a preflight seed and every hash that starts at one |
| `SeedReports.BuildAs012` | tools/as012_prepare.py:70-124 | three distinct new seeds, each the first free value from the hash of its label, reported as colliding with themselves: `disjoint` is false for every history and hash |
| `FileStore.CreateKeeps` | tools/as003b_capture.py:36 | creating a temporary file changes nothing a crash can leave under the target |
| `FileStore.FileChangeKeeps` | tools/as003b_capture.py:38-44 | writing or syncing an unpublished file changes nothing there either |
| `FileStore.ReplaceKeeps` | tools/as003b_capture.py:49 | replacing by a synced complete file adds only the whole payload to what a crash can leave |
| `FileStore.SyncedTargetIsDurable` | tools/as003b_capture.py:50-54 | after the directory sync a crash leaves exactly the payload |
| `FileStore.ReplaceBeforeSyncLosesEverything` | tools/as003b_capture.py:44-49 | without the file sync before the replace a crash can leave any content, even after the directory sync |
| `FileStore.UnsyncedPublishLosesEverything` | tools/as003b_capture.py:36-54 | created, written in any pieces and replaced into place without the file sync, a crash can leave any content even after the directory sync |
| `FileStore.WritingUnsettles` | tools/as003b_capture.py:38-44 | a write makes what a crash leaves in that file uncertain again |
| `Publication.Store.WriteAll` | tools/as003b_capture.py:38-43 | for any partial writes: the loop fails if and only if some write takes nothing while bytes remain, and otherwise every byte is in the file; the trace is exactly its writes |
| `Publication.Store.DurableBytes` | tools/as003b_capture.py:33-54 | at every point of the call a crash leaves the target as before or whole; each outcome holds exactly under its condition, so with writes that do not stall a free temporary name gives durable publication exactly when the target is free |
| `Publication.Store.PublishLedger` | tools/as014_evidence.py:27-56 | the same, with outcomes exactly by existing target and stalled write, for the writer with two checks, readback and cleanup; the temporary name is always gone |
| `Publication.Store.PublishBytes` | tools/as003pr6b_evidence.py:32-56 | the same for the idempotent writer; an existing target is never touched and decides the outcome, and without one only a stalled write fails |
| `Publication.Store.DurableJson` | tools/as009_seed_registry.py:74-88 | one unchecked write: the call passes through exactly the five states of that write and durably publishes what it took |
| `Publication.SingleWriteExactly` | tools/as009_seed_registry.py:74-88 | for every store and every count: the payload is durable exactly if all was taken, and every moment of the call is crash-safe exactly if all was taken or a crash could already leave what was |
| `Publishers.NextInv` | tools/as014_evidence.py:41-56 | every step of every interleaved publisher keeps the invariant: private whole temporary files, and only whole synced payloads under the target |
| `PublisherRuns.RunInv` | tools/as014_evidence.py:27-56 | the invariant holds at every moment of every run, any number of publishers of all three kinds |
| `PublisherRuns.NeverAMixture` | tools/as003pr6b_evidence.py:38-52 | at every moment, before and after a crash, the target is as at first or one publisher's whole payload |
| `PublisherRuns.ChecksBeforeReplace` | tools/as003b_capture.py:47-49 | nobody replaces without an own check that found nothing |
| `PublisherRuns.ReplaceOverwritesExactly` | tools/as014_evidence.py:45-47 | a replace overwrites a target if and only if another replace fell after every such check of the publisher |
| `PublisherRuns.CreateOnce` | tools/as014_evidence.py:28-47 | if no replace falls between a check and the publisher's own replace, content never changes after it first appears |
| `PublisherOutcomes.PublishedPayloadIsThere` | tools/as014_evidence.py:47-52 | in such runs, who has replaced or succeeded finds its own payload under the target |
| `PublisherOutcomes.SuccessIsDurable` | tools/as014_evidence.py:47-52 | in such runs, from its directory sync on a publisher's payload survives every later crash |
| `PublisherReports.ExistingTargetStays` | tools/as003pr6b_evidence.py:38-42 | in every run that starts with a target it is never touched: ledgers fail, idempotent publishers succeed exactly with its own content, captures never succeed |
| `PublisherReports.SuccessReadItsPayload` | tools/as014_evidence.py:51-56 | in every run a ledger or idempotent publisher that reports success has itself read its payload under the target |
| `PublisherReports.FinishedLeavesNoTemporary` | tools/as014_evidence.py:53-56 | in every run a ledger or idempotent publisher that failed or succeeded leaves no temporary file, and a failed capture leaves its own |
| `PublisherCrashes.LostExactly` | tools/as003b_capture.py:49-54 | in every run, a crash can leave no target if and only if there was none at first and no directory sync has happened |
| `PublisherCrashes.CrashLeavesExactly` | tools/as003b_capture.py:33-54 | in every run, a crash leaves under the target exactly what showed there at some moment since the last directory sync |
| `PublisherCrashes.DurableExactly` | tools/as003b_capture.py:49-54 | in every run, guarded or not, a payload is durable if and only if it is all that showed since the last directory sync |
| `PublisherCrashes.SuccessIsDurableExactly` | tools/as003pr6b_evidence.py:38-52 | in guarded runs a replace or success, early success included, is durable if and only if the target was there at first or somebody synced the directory |
| `PublisherRaces.FinishedWorkCanBeReplaced` | tools/as003pr6b_evidence.py:38-49 | from every start without a target there is a run in which one publisher finishes and another replaces its content: the condition is needed |
| `PublisherRaces.EarlySuccessCanBeLost` | tools/as003pr6b_evidence.py:38-42 | an idempotent publisher can return success while a crash would leave no target |
| `PublisherRaces.WritingCanFail` | tools/as003b_capture.py:36-46 | from every start without a target any publisher can fail after any part of its payload; the target stays absent, and a capture leaves exactly that part in its temporary file |
| `Deadline.DeadlineIsLastViableTickExactly` | tools/as003pr6_analysis.py:446-459 | in the band, the closed form is the last viable tick of the drift if and only if the slack does not round up, and otherwise is one too many |
| `Deadline.SlackRoundsUp` | tools/as003pr6_analysis.py:446-459 | in every law wide enough, half a slack short of n + 1 whole ticks the deadline is n + 1 and the value is lost at that tick |
| `Deadline.ListedDeadlineCanBeOneTooMany` | tools/as003pr6_analysis.py:54-60 | every listed owner has a value in its band whose deadline 1 is one too many |
| `Deadline.GridDeadline` | tools/as003pr6_analysis.py:446-459 | for every listed owner and value in ten-thousandths, viable at exactly the ticks 0 to the deadline |
| `Deadline.GridIsClear` | tools/as003pr6_analysis.py:455-459 | the added slack never changes the result on that grid |
| `Deadline.OutOfBandDeadline` | tools/as003pr6_analysis.py:449-458 | outside the band: 0 exactly when no later tick is viable, none exactly when one is |
| `Deadline.DropsByOnePerStep` | tools/as003pr6_analysis.py:446-459 | a drift step takes one tick off a positive deadline and leaves zero at zero, for all reals |
| `Deadline.Mirrored` | tools/as003pr6_analysis.py:449-459 | the upward branch is the mirror image of the downward one |
| `Deadline.ListedLawsAreSane` | tools/as003pr6_analysis.py:54-60 | every listed band is wider than one drift step |
| `Deadline.DirectionsOpposeDrift` | tools/as003pr6_analysis.py:54-72 | the required effect of every listed owner works against its drift |
| `Deadline.Obligations` | tools/as003pr6_analysis.py:462-479 | one obligation, in name order, for exactly the owners that are lost or still viable; an unlisted owner fails the call |
| `Services.AvailableServices` | tools/as003pr3_analyze.py:72-97 | the nested loops keep, in opportunity order, the services whose four requirements are MUST or MAY |
| `Services.ServicesFromFrame` | tools/as003pr6_analysis.py:139-168 | all services in opportunity order with their combined modality |
| `Services.ServedInOrder` | tools/as003pr6_analysis.py:141-167 | one row for each served opportunity and no other, in name order |
| `Services.RowsServeTheirKind` | tools/as003pr6_analysis.py:142-159 | a row exists exactly for a kind that a capability in the tables of the analysis serves, with that capability and exactly its owners |
| `Services.CountedExactly` | tools/as003pr3_analyze.py:88-96 | a row is counted exactly when its four requirements are MUST or MAY, unchanged |
| `Services.RequirementsAreRecorded` | tools/as003pr3_analyze.py:82-87 | the four requirements are the rows recorded under the capability and the opportunity |
| `Services.MissingRowIsNeverCounted` | tools/as003pr3_analyze.py:58-59 | a service with a missing row is UNKNOWN or UNSUPPORTED to the audit and not counted by the analysis |
| `Services.IdentitiesDistinct` | tools/as003pr6_analysis.py:157 | different services have different identities |
| `Services.FramesAgreeExactly` | tools/as003pr6_analysis.py:139-168 | filtering the second list by combined MUST or MAY gives the first if and only if no opportunity is misread |
| `Services.ReadersAgreeExactly` | tools/as003pr3_analyze.py:88-96 | on any rows, the filtered list is never shorter, and equal exactly when nothing is misread |
| `Services.KnownModalitiesAgree` | tools/as003pr6_analysis.py:124-136 | with the four known modalities nothing is misread |
| `Services.MisspeltModalityDiffers` | tools/as003pr6_analysis.py:128-136 | one unknown text makes the audit claim MUST where the analysis counts nothing |
| `Services.CombinedIsWeakest` | tools/as003pr6_analysis.py:128-136 | the combined modality is the weakest of the parts |
| `Services.CombinedIgnoresOrder` | tools/as003pr6_analysis.py:128-136 | it depends on the multiset of parts only |
| `Services.CombinedOfParts` | tools/as003pr6_analysis.py:128-136 | combining two combined lists is combining their concatenation |
| `Services.KindTablesAgree` | tools/as003pr6_analysis.py:73 | the two kind tables, kept in two tools in opposite directions, agree |
| `Services.OwnerTablesAgree` | tools/as003pr6_analysis.py:74 | so do the two owner tables, once sorted |
| `PairCounts.CountDistinctions` | tools/as003pr3_analyze.py:136-140 | the loop over combinations counts the pairs that differ |
| `PairCounts.PairDistinctionsFormula` | tools/as003pr3_analyze.py:136-140 | it is n(n-1)/2 less the pairs inside each class |
| `PairCounts.PairDistinctionsIgnoreOrder` | tools/as003pr3_analyze.py:136-140 | it does not depend on the order of the candidates |
| `PairCounts.PairDistinctionsPositive` | tools/as003pr3_analyze.py:136-140 | it is positive exactly when two classes occur |
| `TraceAccounting.CountPairDistinctions` | tools/as003pr3_analyze.py:136-140 | the count over the sorted items of a profile map |
| `TraceAccounting.DistinctionsMeaning` | tools/as003pr3_analyze.py:165-168 | a row has distinctions exactly when two candidates are classified differently |
| `TraceAccounting.ProfileMapExactly` | tools/as003pr3_analyze.py:62-69 | the map holds exactly the classes of the last profile of each identity, UNKNOWN where that one has none |
| `TraceAccounting.NamedExactly` | tools/as003pr3_analyze.py:62-69 | a name is in the map exactly when it is not empty and some profile bears it |
| `TraceAccounting.TwoClassesExactly` | tools/as003pr3_analyze.py:62-69 | two classes occur exactly when the last profiles of two identities are classified differently |
| `TraceAccounting.IsOrdinary` | tools/as003pr3_analyze.py:100-105 | at least two views, and all four owners present and in their bands |
| `TraceAccounting.ConflictDimensions` | tools/as003pr3_analyze.py:108-125 | lists, in name order, exactly the owners off their ideal on which two views give different supported orders |
| `TraceAccounting.ConflictMeans` | tools/as003pr3_analyze.py:108-125 | an owner is in conflict exactly when it is off its ideal and two views support different orders under its physiology name |
| `TraceAccounting.MultiDriveViewsDiffer` | tools/as003pr3_analyze.py:194-196 | a multi-drive row always has differing views, so that conjunct of exposure is redundant |
| `TraceTally.Analyze` | tools/as003pr3_analyze.py:161-203 | every counter is the number of rows, pairs or candidates with its defining property, class by class |
| `TraceTally.AddClasses` | tools/as003pr3_analyze.py:164-166 | each candidate raises exactly its class by one |
| `TraceTally.ClassCountsAddUp` | tools/as003pr3_analyze.py:163-166 | over any rows and any classes that cover them, the totals of the classes add up to the number of candidates |
| `TraceTally.CountersNest` | tools/as003pr3_analyze.py:194-203 | exposed with distinction <= exposed <= multi-drive <= ordinary <= rows, and the side inequalities |
| `TraceTally.ReassessTrace` | tools/as003pr3_analyze.py:143-281 | over a whole planning trace: unknown exactly with an incomplete row, expressed exactly when in an exposed row the last profiles of two identities are classified differently, not exposing exactly when no row is exposed |
| `TraceTally.Split` | tools/as003pr3_analyze.py:147-148 | the complete rows in order and with repetitions, and the number of rejected ones |
| `ProfileAudit.Summarize` | tools/as003pr6_analysis.py:278-337 | the counters are the pairs that differ in each field; the published count is compressed pairs less masked pairs |
| `ProfileAudit.PairsOfCandidates` | tools/as003pr6_analysis.py:325-337 | the counters of a tick are counters of pairs of its candidates, all of them compared |
| `ProfileAudit.RecordsKeep` | tools/as003pr6_analysis.py:294-322 | a record keeps its candidate's classification and effects, and the services of its tick for every branch |
| `ProfileAudit.CompressedCountExactly` | tools/as003pr6_analysis.py:330-337 | the subtraction never exceeds the true count and equals it if and only if every class-different pair also differs in its successor |
| `ProfileAudit.ReportCanBeNegative` | tools/as003pr6_analysis.py:330-337 | for any physiology and effects, two candidates of different class with the same effects give a published count of -1 |
| `ProfileAudit.ResultingDiffersExactly` | tools/as003pr6_analysis.py:290-296 | successors differ exactly when branch counts do or a branch treats some owner of the physiology differently |
| `ProfileAudit.AppliedMeans` | tools/as003pr6_analysis.py:290-292 | a resulting state has the same owners, each at its value plus its own effect or unchanged |
| `ProfileAudit.WitnessesDifferWithBranchCount` | tools/as003pr6_analysis.py:297-304 | full witness sets differ exactly where branch counts differ |
| `ProfileAudit.AllPairs` | tools/as003pr6_analysis.py:325-326 | a tick contributes n(n-1)/2 pairs |

## Left out

- Floating-point rounding and NaN: orders, terms, physiology and deadlines are exact reals, so float ties and overflow are not modelled.
- Dominance.ChannelPairs: the optional per-channel detail rows are not kept; a channel is its status and order, without provenance.
- Rates and percentages derived from the counters.
- Projection.ProjectDecision: the learned-change, unknown-block and conflict flags and counters, and the totals over decisions, are not modelled.
- Retained attempts are kept as a nested table, so the order of the attempt list is not modelled.
- UuidLookAlikes.SafeTextExactly: the identities that spoil a text may be any names, not only texts the UUID pattern matches; `UuidLookAlikes.NeverConfusedExactly` speaks of given UUIDs.
- UUID detection, SHA-256, JSON text and regular expressions: pre-segmented strings, an arbitrary hash function, and value equality or an injective rendering stand for them.
- `_translate_model_tokens`, `_model_token_map`, `_accepted_world` and `_world_semantics`: projections built on the comparators modelled here.
- Dictionary keys that are not strings, and tuples and sets inside frozen values.
- The scans that collect historical seeds: the historical set is an input, and groups and regimes appear as one list of starts.
- BuildAs008: needs room for 32 seeds in the range, because the original loops for ever otherwise.
- Real files, permissions, other directories, and the name-suffix check of the AS-014 publisher; a crash is what may be read afterwards, and no publisher runs on after it.
- Services.ServicesFromFrame: route and completion demands and validity horizons, which pass through unchanged, are not modelled.
- Deadline.Obligations: the constant provenance texts and the frame fingerprint of an obligation are not modelled.
- Publication.Store.PublishLedger: the second check and the readback cannot fail without another publisher and are stated as facts there; module Publishers models them as branches.
- ProfileAudit.Summarize: reason, branch results, selected witnesses, source modalities and horizons are counted like the fields that are modelled and are not repeated.
- TraceTally.Analyze: the opportunity-modality, future-uncertainty, frontier and overflow counters and the listed rows are not modelled.
- The schedulability evaluation, planning frames and candidate evaluation that consume deadlines and services.
- Static audits, import checks, report texts, command lines, and the other evidence publishers of the same shape.
