# Course-selection engine — a Dafny model

This project models `ProjectionService`, the course-selection engine of a
degree-planning backend. Given a curriculum (`malla`), a student's academic
history (`avance`) and a credit cap (`topeCreditos`), the engine proposes the
courses to take next term. It works in four steps:

1. **Prerequisite predicate** (`hasPrereqs`). It splits the prerequisite string on commas, trims each piece and drops empty pieces. It holds when every remaining code is approved.
2. **Eligibility filter.** It drops approved courses. It keeps a course if it was failed or if its prerequisites are met. Each kept course is tagged `REPROBADO` or `PENDIENTE`.
3. **Ranker.** It puts failed courses first, then sorts by ascending level, then by descending credits. The sort is stable, so full ties keep curriculum order.
4. **Greedy packer.** It makes one pass over the ranked list. A course that fits under the cap is taken and one that does not fit is skipped. The pass stops once the total reaches the cap.

The result holds the selection, its credit total and the rules applied. The
rules echo the effective cap: the input when it is finite and positive, 22
otherwise.

Modules, one per component:

| file | module | contents |
|---|---|---|
| `wrappers.dfy` | `Wrappers` | `Option`, for optional fields |
| `text.dfy` | `Text` | ECMAScript `trim` and one-character `split`, with their laws |
| `domain.dfy` | `Domain` | `Course`, `AvanceItem`, `Motivo`, `ProjectionCourse`, `ProjectionResult`, the cap input, credit sums |
| `prereqs.dfy` | `Prereqs` | `hasPrereqs` and the token list of a prerequisite string |
| `eligibility.dfy` | `Eligibility` | approved/failed code sets, the eligibility filter |
| `ranking.dfy` | `Ranking` | the comparator and a stable insertion sort |
| `packing.dfy` | `Packing` | the greedy pass, as a recursive function and as the loop |
| `projection.dfy` | `Projection` | the effective cap, `build`, and the end-to-end invariants |
| `scenarios.dfy` | `Scenarios` | worked examples on small curricula |

Two details of the code:

- The loop leaves when `total >= tope`. The total never exceeds the cap, so this happens exactly when the total equals the cap.
- The history labels the engine reads are the strings `APROBADO` and `REPROBADO`; any other label is ignored.

## Model

| member | source | states |
|---|---|---|
| Text.TrimSplitsOff | backend/src/domain/services/projection.service.ts:32 | `trim` only removes whitespace: the input is whitespace, then the trimmed string, then whitespace |
| Text.TrimLeavesNoOuterWhitespace | backend/src/domain/services/projection.service.ts:32 | `trim` leaves no whitespace at either end of its result; with `Text.TrimSplitsOff` this pins down `trim` exactly |
| Text.TrimIdempotent | backend/src/domain/services/projection.service.ts:36 | trimming an already trimmed token changes nothing |
| Text.JoinSplit | backend/src/domain/services/projection.service.ts:34-35 | splitting on commas loses nothing: re-joining the pieces with commas gives the input back |
| Text.SplitJoin | backend/src/domain/services/projection.service.ts:34-35 | splitting a comma-join of comma-free pieces gives exactly those pieces |
| Text.SplitWithoutSeparator | backend/src/domain/services/projection.service.ts:35 | a string without a comma splits into one piece, itself |
| Prereqs.TokensAreCodes | backend/src/domain/services/projection.service.ts:34-37 | every required code is non-empty, has no surrounding whitespace and contains no comma |
| Prereqs.HasPrereqsIff | backend/src/domain/services/projection.service.ts:31-38 | `hasPrereqs` holds exactly when every non-empty trimmed comma token of the raw prerequisite string is approved; the early return for a blank string agrees with this rule |
| Prereqs.BlankPrereqRequiresNothing | backend/src/domain/services/projection.service.ts:31-33 | a missing prerequisite string, or one made only of commas and whitespace, is satisfied by every approved set |
| Prereqs.TokensAtComma | backend/src/domain/services/projection.service.ts:34-37 | a comma adds no requirement: the tokens of `a,b` are the tokens of `a` followed by those of `b` |
| Prereqs.TokensIgnoreOuterWhitespace | backend/src/domain/services/projection.service.ts:32-37 | trimming the whole string before splitting yields the same tokens as splitting the raw string |
| Prereqs.HasPrereqsOfJoin | backend/src/domain/services/projection.service.ts:34-38 | a course whose list is `a,b` is unlocked exactly when both `a` and `b` are satisfied |
| Eligibility.CodesWithStatus | backend/src/domain/services/projection.service.ts:48-53 | a code is in the approved (failed) set exactly when some history entry for that code carries the `APROBADO` (`REPROBADO`) label |
| Eligibility.Candidatos | backend/src/domain/services/projection.service.ts:55-71 | a proposed course is exactly the tagged copy of some curriculum course that is not approved and is failed or has its prerequisites met; there are at most as many as curriculum courses |
| Eligibility.CandidatosAppend | backend/src/domain/services/projection.service.ts:55-62 | the filter decides course by course and keeps curriculum order |
| Eligibility.CandidateFacts | backend/src/domain/services/projection.service.ts:55-70 | a candidate is not approved, is tagged `Reprobado` exactly when failed, has no section, and is failed or unlocked by a curriculum course with its code, credits and level |
| Ranking.ComparatorConsistent | backend/src/domain/services/projection.service.ts:73-77 | the comparator is reflexive, sign-antisymmetric and transitive, and it ties exactly the courses equal on reason, level and credits |
| Ranking.Rank | backend/src/domain/services/projection.service.ts:73-77 | the ranked list is a permutation of the candidates, sorted by the comparator, and every group of tied courses keeps its input order |
| Ranking.RankOrder | backend/src/domain/services/projection.service.ts:74-76 | in the ranked list, failed courses come before pending ones, then levels ascend, then credits descend |
| Ranking.RankIsTheStableSort | backend/src/domain/services/projection.service.ts:73-77 | any sorted arrangement that keeps tied courses in input order equals the ranked list, so any stable sort gives the same result |
| Packing.PackFrom | backend/src/domain/services/projection.service.ts:81-87 | a pass that starts within the cap ends within the cap |
| Packing.PackFromExtends | backend/src/domain/services/projection.service.ts:81-87 | the pass only appends; what it appends is an order-preserving subsequence of the scanned candidates, and its credits make up exactly the growth of the total |
| Packing.PackTotalIsSum | backend/src/domain/services/projection.service.ts:79-85 | the reported total is the credit sum of the selection |
| Packing.PackKeepsOrder | backend/src/domain/services/projection.service.ts:81-83 | the selection is an order-preserving subsequence of the ranked candidates |
| Packing.PackStep | backend/src/domain/services/projection.service.ts:81-87 | one more candidate: nothing changes once the total has reached the cap; otherwise the candidate is taken when `total + creditos <= tope` and skipped when it exceeds the cap |
| Packing.PackLoop | backend/src/domain/services/projection.service.ts:79-87 | the `for`/`break` loop computes the same selection and total as the recursive pass, with total = credit sum and total <= cap |
| Packing.BreakOnlySavesWork | backend/src/domain/services/projection.service.ts:86 | when all credits are positive, leaving the loop at the cap selects the same as scanning to the end |
| Projection.EffectiveTope | backend/src/domain/services/projection.service.ts:43-46 | the effective cap is always positive |
| Projection.Build | backend/src/domain/services/projection.service.ts:41-98 | `reglas.topeCreditos` is the input cap when finite and positive and 22 otherwise; both rule flags are set; the total is the selection's credit sum and does not exceed the effective cap |
| Projection.SelectionFollowsRanking | backend/src/domain/services/projection.service.ts:79-90 | the selection is an order-preserving subsequence of the ranked candidates, and each selected course is a candidate |
| Projection.SelectionExcludesApproved | backend/src/domain/services/projection.service.ts:48-55 | no selected course is approved, even if the history also marks it failed |
| Projection.SelectionIsEligible | backend/src/domain/services/projection.service.ts:57-70 | every selected course is tagged `Reprobado` exactly when failed, has no section, and is failed or has its curriculum course's prerequisites approved |
| Projection.SubsequenceOfSortedIsSorted | backend/src/domain/services/projection.service.ts:73-87 | packing cannot break the ranking: what it keeps of a sorted list stays sorted |
| Projection.SelectionInPriorityOrder | backend/src/domain/services/projection.service.ts:73-87 | in the selection, every failed course precedes every pending one, then levels ascend, then credits descend |
| Projection.NothingLeftToTake | backend/src/domain/services/projection.service.ts:55-91 | a fully approved curriculum gives an empty selection and a zero total |
| Scenarios.SingleOpenCourse | backend/src/domain/services/projection.service.ts:41-98 | one open course and no history: it is proposed as pending, total 4 |
| Scenarios.UnmetPrerequisiteBlocks | backend/src/domain/services/projection.service.ts:31-62 | a course whose prerequisite is not approved is not proposed; a non-finite cap becomes 22 |
| Scenarios.FailedCourseBypassesPrerequisites | backend/src/domain/services/projection.service.ts:57-70 | a failed course is proposed as `Reprobado` although its prerequisite is unmet |
| Scenarios.GreedyIsNotOptimal | backend/src/domain/services/projection.service.ts:73-87 | with cap 8, the 6-credit course is ranked first and taken; the 5-credit course is skipped, although alone it would fit |
| Scenarios.AllApproved | backend/src/domain/services/projection.service.ts:48-55 | a fully approved curriculum yields nothing |
| Scenarios.ApprovedWinsOverFailed | backend/src/domain/services/projection.service.ts:48-55 | a course recorded both as failed and as approved is not proposed |
| Scenarios.StrayCommasAndSpaces | backend/src/domain/services/projection.service.ts:34-37 | the prerequisite string `" A , ,B,"` requires exactly `A` and `B` |

## Left out

- The React pages (`frontend/src/pages/*.tsx`) are left out. They hold UI state and HTTP calls.
- The web controller is left out: routing, DTO validation, persistence, favourites and demand aggregation. Its DTO rejects caps below 1, so the default of 22 is reached only through other callers. The model handles every cap regardless.
- Offer enrichment is not modelled. Its code is not part of this model. `nrc` is always absent in the model.
- The cap, credits and levels are modelled as exact, unbounded integers. A non-finite cap is the explicit `NotFinite` case. Fractional caps and credits (any non-integer JavaScript number) are not modelled. JavaScript numbers are doubles, exact only up to 2^53. Beyond that, the sums `total + c.creditos` and the difference `a.nivel - b.nivel` round; the model does not.
- Strings are sequences of Unicode scalar values, not UTF-16 code units. Every character `trim` removes is in the Basic Multilingual Plane, so `trim` and `split(',')` behave the same on both.
- `Array.prototype.sort` is modelled by one stable insertion sort. `Ranking.RankIsTheStableSort` shows that every stable sort with this comparator gives the same order.
- Determinism and the absence of exceptions are not stated as lemmas. Every operation is a total, pure Dafny function, so both hold by construction.
- Projection.EffectiveTope: its contract only states positivity. The full rule (the input when finite and positive, 22 otherwise) is stated on `Projection.Build`, in terms of `reglas.topeCreditos`.
