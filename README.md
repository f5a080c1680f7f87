# Disc-Golf course engine in Dafny

This project models the course engine of the Disc-Golf scorecard app (`app.js`). The engine has four parts.

- **Rule tables** (module `Rules`, `rules.dfy`). These are the seven goals and the directed moves between them:
  - BLOCKED, the moves that may not be thrown;
  - START_BLOCKED_TO, the goal the tee may not aim at;
  - FIXED_TO: holes 9 and 18 end at Green;
  - MIN_VISITS: each goal is visited at least twice;
  - the par tables PAR3 and PAR5, with `keyFor`, `isAllowed` and `parFor`.
- **What a course is** (module `Courses`, `courses.dfy`). A course is 18 holes `{from, to, par}` that form a walk from the tee. Two definitions of it are proved equivalent:
  - hole by hole, as the generator and the decoder build it;
  - position by position, as the rules are stated.
- **The backtracking generator** (module `Generator`, `generator.dfy`). This covers `shuffle`, `candidatesFrom`, `dfs` and `generateCourse`.
  - The search state is the class `Search`. Its fields `usedEdges`, `toCounts` and `result` are updated in place and rolled back exactly as in the source.
  - `dfs` is proved sound: on success, `result` is a complete course.
  - `dfs` is also proved complete. On failure, the state is unchanged and no complete course extends the holes placed so far. The pruning bound never cuts off a completable prefix.
  - `dfs` is split into pieces. `Dfs` holds the base case and the call of `candidatesFrom`. `TryEach` is the loop over the candidates. `TryThrow` is one whole candidate step: apply, prune, recurse and roll back. Inside it, `Push` is the apply step and `Pop` is the rollback.
  - `Math.random` is a parameter. The draws of every `shuffle` are given, and `Shuffle` is proved to be Fisher-Yates with those draws. The draws fix the order in which the candidates are tried, and so the course that is returned.
  - Every complete course can be generated. For each complete course `c`, the draws `GuideTo(c)` bring, after each prefix of `c`, the next goal of `c` to the front of the candidates (`Generator.Reachable`). Under draws that do this, `generateCourse` returns exactly `c`.
- **The share-token codec** (module `Codec`, `codec.dfy`). This covers `encodeCourse` and `decodeCourse`.
  - `DecodeCourse` runs the source's checks in the source's order. It is proved to return exactly the declarative `Decode`.
  - `Decode` is proved to accept a token exactly when its fragments name the goals of a complete course. It then returns that course.
  - From this, the round trip and the canonicity of re-encoding follow.
- **The scorecard arithmetic** (module `Scoring`, `scoring.dfy`). This covers:
  - `diffToNumber` and `scoreClass`;
  - the `computeProgress` count and percentage;
  - the par, diff and throw sums of `computeSums`.

The source keys its rule tables by strings `"From->To"`. The model keys them by the pair `(From, Goal)`. `Rules.KeyForInjective` proves that two moves have the same key exactly when they are the same move, so the two representations agree.

Observations about the rule tables and the search, all proved below:

- BLOCKED lists both directions of every pair, so legality between goals is symmetric (`Rules.AllowedSymmetric`).
- PAR3 and PAR5 are disjoint, so the order in which `parFor` consults them never matters (`Rules.ParTablesDisjoint`).
- The `from === "Tee" && START_BLOCKED_TO` check in `decodeCourse` repeats a check that `isAllowed` already makes (`Rules.AllowedFromTee`).
- A single `dfs(1, "Tee")` is an exhaustive search. It returns false only when no complete course exists, and a complete course does exist (`Generator.GenerationNeverFails`). So `generateCourse` never returns null, although the code checks for it.
- The code has no retry loop around the search, and the model follows the code. The proof above shows that a retry is never needed.

## Model

| member | source | states |
|---|---|---|
| Rules.AllGoalsListed | app.js:3 | GOALS lists each of the seven goals exactly once |
| Rules.GoalsComplete | app.js:3 | every goal of the domain is in GOALS |
| Rules.ParFor | app.js:127-132 | every par is 3, 4 or 5 |
| Rules.ParExactly | app.js:127-132 | the par is 5 exactly for PAR5 moves, 3 exactly for PAR3 moves, and 4 exactly for moves in neither table |
| Rules.ParTablesDisjoint | app.js:42-58 | PAR3 and PAR5 share no move |
| Rules.ParSymmetric | app.js:40-58 | between goals, the par of a move equals the par of the reverse move ("and vice versa") |
| Rules.ParFromTee | app.js:42-52 | from the tee only White is a par 3; every other opening hole is a par 4 |
| Rules.AllowedExactly | app.js:118-125 | a move is refused exactly when it is a self-move, a BLOCKED move, or Tee to Green |
| Rules.AllowedFromTee | app.js:122-123 | from the tee every goal except Green is allowed |
| Rules.AllowedSymmetric | app.js:6-15 | between goals, a move is allowed exactly when its reverse is |
| Rules.KeyForInjective | app.js:116 | two moves have the same key string exactly when they are the same move |
| Rules.SameName | app.js:119 | `from === to` holds exactly for the self-move: the tee never equals a goal name |
| Courses.ZeroCounts | app.js:192 | the initial visit table has every goal at zero, which agrees with the empty course |
| Courses.EveryGoalVisited | app.js:205-208 | the min-visits loop returns true exactly when every goal's count is at least MIN_VISITS |
| Courses.EdgesSnoc | app.js:224 | placing a hole adds exactly its move to the set of used moves |
| Courses.VisitsSnoc | app.js:226 | placing a hole adds one visit to its goal and none to the others |
| Courses.VisitsIsMultiplicity | app.js:226 | a goal's visit count is the number of holes that end at it |
| Courses.PrefixRulesIff | app.js:218-226 | placing holes one by one under the checks gives exactly the courses that keep every rule at every position |
| Courses.PrefixRulesSnoc | app.js:218-226 | one more hole keeps the position-wise rules exactly when it passes the placement checks |
| Courses.CountsCovered | app.js:205-207 | counts that agree with the holes pass the min-visits check exactly when every goal has two visits |
| Courses.ValidCourseIff | app.js:184-258 | a complete course is exactly 18 holes that keep every rule at every position and visit every goal twice |
| Courses.ValidCourseFacts | app.js:17-27 | a complete course starts at the tee, chains its holes, ends holes 9 and 18 at Green, does not open at Green, repeats no move, and has pars from the table |
| Courses.ValidPrefixClosed | app.js:202-249 | every prefix of a validly built partial course is validly built |
| Courses.CompletableIsValid | app.js:202-249 | only a validly built partial course of at most 18 holes can be completed |
| Generator.Shuffle | app.js:134-141 | the array loop computes Fisher-Yates with the given draws, and the result is a permutation of the input |
| Generator.FisherYatesPermutes | app.js:136-139 | every run of swaps, whatever the draws, permutes the input |
| Generator.FisherYatesFront | app.js:136-139 | draws that pick partner 0 at step k and leave every other element in place bring element k to the front |
| Generator.AllowedOnlyExactly | app.js:199 | the filter keeps exactly the allowed targets and adds nothing |
| Generator.CandidatesExactly | app.js:195-200 | whatever the draws, the candidates are exactly the allowed goals of the hole's pool: Green alone for holes 9 and 18, all of GOALS otherwise |
| Generator.CandidatesFrom | app.js:195-200 | candidatesFrom returns the allowed goals of the pool in the order the draws shuffle them into, and it holds exactly the allowed goals of the pool |
| Generator.GuideToIsRandom | app.js:137 | the steering draws are in range: each swap partner is an index from 0 to i |
| Generator.GuideToFront | app.js:195-200 | the steering draws for a complete course put the goal of its next hole first in the shuffled pool |
| Generator.Reachable | app.js:195-218 | for every complete course some draws make each of its holes the first candidate tried after the holes before it |
| Generator.NextOfCourse | app.js:218-226 | the hole after a prefix of a complete course is the move from the prefix's end with the table's par, and it passes the placement checks |
| Generator.GuidedNext | app.js:195-218 | under draws that steer to a complete course, the first candidate after a prefix of it is the goal of its next hole |
| Generator.GuidedStep | app.js:211-226 | under draws that steer to a complete course, the first candidate after a prefix of it places its next hole, which passes the checks |
| Generator.GuidedSameNext | app.js:195-218 | two complete courses that the same draws steer to continue a common prefix with the same hole |
| Generator.GuidedAgree | app.js:195-218 | two complete courses that the same draws steer to agree on their first k holes |
| Generator.GuidedUnique | app.js:195-218 | the draws steer to at most one complete course |
| Generator.CompletedBy | app.js:202-249 | a prefix of a complete course can be completed |
| Generator.AllVisits | app.js:226 | the visits over all goals add up to the number of holes |
| Generator.PruneSound | app.js:228-234 | a partial course that owes more visits than it has holes left cannot be completed, so the prune never discards a solution |
| Generator.NextHole | app.js:211-218 | a completable partial course is completed through some allowed candidate of the next hole |
| Generator.FullPrefix | app.js:203-209 | 18 placed holes can be completed only if they already visit every goal twice |
| Generator.Apply | app.js:223-226 | applying a fitting hole keeps usedEdges and toCounts in agreement with result |
| Generator.Rollback | app.js:242-245 | rolling back undoes the apply exactly |
| Generator.Search.constructor | app.js:191-193 | the search starts with no holes, no used moves and all counts at zero |
| Generator.Search.Need | app.js:229-233 | `need` is the number of visits still owed over all goals |
| Generator.Search.Dfs | app.js:202-249 | on success, result is a complete course extending the old result; on failure, result, usedEdges and toCounts are unchanged and no complete course extends the old result; under draws that steer to a complete course extending the old result, it succeeds with exactly that course |
| Generator.Search.TryEach | app.js:217-248 | the loop over the candidates either completes the course, or leaves the state unchanged and then no candidate's hole starts a completion; under draws that steer to a complete course extending result, it succeeds with exactly that course |
| Generator.Search.Push | app.js:223-226 | the apply step adds the move, pushes the hole and counts its goal |
| Generator.Search.Pop | app.js:242-245 | the rollback step restores the three pieces of state as they were before the apply |
| Generator.Search.TryThrow | app.js:223-245 | one candidate either completes the course or leaves the state unchanged, and then no complete course starts with that candidate; when the candidate's hole starts a complete course the draws steer to, it succeeds with exactly that course |
| Generator.GenerateCourse | app.js:184-258 | a course is always returned (never null) and it is complete; it is exactly the course the draws steer to, when there is one |
| Generator.GenerationNeverFails | app.js:253-255 | the rule tables admit a complete course, so the search from the tee never fails |
| Codec.Split | app.js:473 | splitting gives at least one part, and no part contains a comma |
| Codec.Rebuild | app.js:476-499 | hole i of the rebuilt walk starts at the tee or the previous goal, ends at the i-th goal, and has the table's par |
| Codec.ParseGoalExactly | app.js:486 | a fragment is accepted exactly when it is a goal's name, and it then stands for that goal |
| Codec.ParseAllExactly | app.js:482-486 | all fragments are accepted exactly when each one names a goal, and the goals are read position by position |
| Codec.DecodeCourse | app.js:471-510 | the decoder loop returns exactly the declarative decoding of the token |
| Codec.DecodeApply | app.js:496-499 | pushing a hole that passed every check keeps the rebuilt walk, the used moves and the counts in agreement |
| Codec.DecodeFinish | app.js:502-506 | after 18 accepted holes the token decodes to the rebuilt course exactly when every goal is visited twice |
| Codec.RejectName | app.js:486 | a fragment that names no goal makes decoding fail |
| Codec.RejectHole | app.js:488-494 | decoding fails when a hole misses its fixed goal, is not allowed, or repeats a move |
| Codec.RebuildPrefix | app.js:476-499 | the first k rebuilt holes are the walk of the first k goals |
| Codec.NameShape | app.js:465-473 | goal names are non-empty and have no comma and no surrounding white space, so they survive the join, split and trim |
| Codec.SplitJoin | app.js:465-473 | splitting a comma-join of comma-free parts gives the parts back |
| Codec.JoinSplit | app.js:465-473 | joining the parts of a split gives the string back |
| Codec.TrimmedNonEmptyKeeps | app.js:473 | trimming and dropping empty fragments leaves non-empty trimmed fragments alone |
| Codec.FragmentsOfEncoding | app.js:465-473 | the fragments read from an encoded course are its goal names |
| Codec.RebuildTos | app.js:476-499 | rebuilding the walk from a valid course's goals gives the course back |
| Codec.ParseNames | app.js:465-486 | the goal names of a course are read back as its goals |
| Codec.DecodeExactly | app.js:471-510 | a token decodes to course c exactly when c is complete and the token's fragments are c's goal names |
| Codec.RoundTrip | app.js:463-510 | decoding the encoding of a complete course gives that course |
| Codec.Canonical | app.js:463-510 | re-encoding a decoded token gives a token with the same fragments that decodes to the same course |
| Codec.DecodeRejects | app.js:474-490 | a token is refused if it has not 18 fragments, if the 9th or 18th is not Green, or if the first is Green |
| Codec.AcceptedShape | app.js:474-490 | accepted fragments are 18, the first is not Green, and the 9th and 18th are Green |
| Codec.EmptyToken | app.js:465-474 | without a course the token is empty, and the empty token decodes to no course |
| Scoring.DiffToNumber | app.js:143-148 | a score cell reads as a diff from -2 to +3, and it reads as 0 exactly for null, "" and "0" |
| Scoring.OptionValuesRoundTrip | app.js:30-38 | every option value reads back as the diff it offers |
| Scoring.ScoreClassOfThrows | app.js:150-154 | the class is under, even or over exactly when the throws are below, at or above par |
| Scoring.RoundedPercent | app.js:284 | the percentage is the value of played/18*100 rounded to the nearest integer |
| Scoring.ComputeProgress | app.js:275-287 | played counts the holes where either player has a score, and pct is its rounded percentage, from 0 to 100 |
| Scoring.PlayedBounds | app.js:278-283 | played is at most the number of holes; it is full exactly when every hole has a score and zero exactly when none has |
| Scoring.PercentEnds | app.js:284 | the bar shows 100 exactly when all 18 holes are played and 0 exactly when none is |
| Scoring.SumDiff | app.js:303-307 | the loop adds the diffs of cells start to end-1 |
| Scoring.ParSumAppend | app.js:291-293 | the par sum of two runs of holes is the sum of their par sums |
| Scoring.DiffSumAppend | app.js:308-314 | the diff sum of two runs of cells is the sum of their diff sums |
| Scoring.ParSumBounds | app.js:291-292 | pars of 3 to 5 per hole bound the par sum |
| Scoring.DiffSumBounds | app.js:303-307 | diffs of -2 to +3 per cell bound the diff sum, and blank cells add nothing |
| Scoring.ThrowsPerHole | app.js:316-323 | par total plus diff total equals the sum of the per-hole throws |
| Scoring.CourseParRange | app.js:291-293 | the par of a complete course is between 54 and 90 |
| Scoring.ParTotalIsCoursePar | app.js:291-293 | for an 18-hole course the par row is the par sums of holes 1-9, of holes 10-18 and of all 18 holes |
| Scoring.PlayerSums | app.js:308-323 | a player's front, back and total diffs are the diff sums of holes 1-9, 10-18 and 1-18; the throws are par plus diff, zero without a course, and add up to the per-hole throws |
| Scoring.ComputeSums | app.js:289-356 | the par row is the par sums of holes 1-9, 10-18 and all holes, zero without a course; each player's row holds the diff sums of holes 1-9, 10-18 and all, and the throws as par plus diff, which add up to the per-hole throws; the course par is between 54 and 90 for a complete course |

## Left out

- The DOM, rendering, the theme, toasts, haptics, the clipboard and the URL are left out. They are user-interface I/O, not engine logic.
- Percent-encoding is left out. `encodeURIComponent` and `decodeURIComponent` are not modelled: the token is the text after percent-decoding. The `try`/`catch` of `decodeCourse` is left out with them, so a malformed escape sequence, which makes the source return null, is outside the model.
- Generator.Shuffle: the draws of `Math.random` are a parameter, given as any function with values in range. The uniform distribution of the draws, and so of the shuffles and courses, is not modelled.
- Generator.GenerateCourse: the draws of all shuffles in one search are given as one function of the holes placed so far. Each call of `candidatesFrom` in a search follows a different partial course, so this covers every run of the search.
- Generator.GenerateCourse: the reset of `selectedHole` and of both score arrays (app.js:186-188) is not modelled. That state belongs to the scorecard UI.
- Scoring.DiffToNumber requires the cell to be null or one of the SCORE_OPTIONS values. Those are the only values the score selects can store. `Number()` on arbitrary text is not modelled.
- Scoring.ComputeProgress, Scoring.ComputeSums and Scoring.PlayerSums require 18 cells per player. The score arrays are always created with 18 entries.
- REQUIRE_UNIQUE_THROWS is the constant `true`. The model always enforces unique moves, and the branch for `false` is not modelled.
- The string keys of BLOCKED, PAR3, PAR5 and `usedEdges` are modelled as `(From, Goal)` pairs. `Rules.KeyForInjective` shows that this loses nothing.
- `toCounts` and `counts` are modelled as a map from goals to integers instead of an object keyed by goal names.
