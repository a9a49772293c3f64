# BookGPT recommender core, modelled in Dafny

This project models the decision logic of a book recommender service. The
service has three parts, and each is written here as pure functions over
immutable data, with the properties the code promises stated as contracts and
lemmas.

- **The hybrid blender** (`hybrid_recommend`). It takes content-based
  neighbours of the user's four most recent books (ten per book) and five
  collaborative recommendations, and scores them on one scale. It merges them
  so that every title appears once and the first occurrence wins. It then
  sorts the entries stably by score, largest first, and keeps twelve.
  Module `Hybrid`.
- **The user-based collaborative filter** (`recommend_collaborative`). It
  builds the rating matrix: the mean of a pair's ratings, or 0 when the user
  never rated the book. Neighbours are the target's similarity column, sorted
  descending, with its first entry cut off. Each book's prediction is the
  similarity-weighted rating with a `1e-9` damping term. Books the target
  rated are dropped, the `top_n` best predictions are chosen, and their first
  query rows are returned in query order. Module `Collaborative`.
- **The goal and habit rules** (`goal_recommender.py`):
  - log preprocessing: module `Sessions`;
  - the goal-regression guard and error shape: module `Goals`;
  - the rule-based reading-time recommendation: module `Timing`;
  - inactivity detection: module `Inactivity`;
  - the weekly mission: module `Mission`;
  - the all-users bundle: module `Bundle`.

Shared modules:
- `Numerics` holds Python's `round` (half to even), `int()` (truncation), and
  pandas' `mean`, `median` and `mode`.
- `Sorting` holds the stable descending sort and the ascending distinct index
  of a `groupby`.
- `Wrappers` holds `Option` and `Result`.

Three inputs are parameters of the model rather than computed values:
- the cosine similarity between users, as a function `sim(v, u)`;
- the content index, as a function from title, author and count to
  neighbours;
- the linear-regression fit, as a function that either predicts a value or
  fails with a message.

Timestamps are whole seconds on the naive local clock, each with its ISO week
number. The reference instant of the inactivity check is an argument.

All source paths below are relative to the repository root, and
`recommender/` stands for `recommend_api/recommender/`.

## Model

| member | source | states |
|---|---|---|
| Hybrid.ContentCandidates | recommend_api/recommender/hybrid.py:12-13 | a content candidate is a neighbour of one of the first four seeds, and every neighbour of those seeds is a candidate |
| Hybrid.LaterSeedsIgnored | recommend_api/recommender/hybrid.py:12 | recent books after the fourth never change the content candidates |
| Hybrid.ContentCandidatesBound | recommend_api/recommender/hybrid.py:12-13 | when the index returns at most the requested ten neighbours, there are at most forty content candidates |
| Hybrid.MergeIsFirstOccurrences | recommend_api/recommender/hybrid.py:17-41 | the two loops sharing one `seen` set produce exactly the reference list: the first candidate of every title, in candidate order |
| Hybrid.MergeLoopAppend | recommend_api/recommender/hybrid.py:17-41 | running the content loop, then the collaborative loop on the same `seen` set, is one loop over the concatenated candidates |
| Hybrid.FirstOccurrencesTitles | recommend_api/recommender/hybrid.py:17-41 | the merged list holds every candidate title and no other |
| Hybrid.FirstOccurrencesDistinct | recommend_api/recommender/hybrid.py:18-41 | the merged list never repeats a title |
| Hybrid.FirstOccurrencesInOrder | recommend_api/recommender/hybrid.py:17-41 | merged entries appear in the order their titles were first seen |
| Hybrid.MergedIsFirst | recommend_api/recommender/hybrid.py:20-41 | every merged entry is the first candidate that carries its title |
| Hybrid.FirstOccurrenceWins | recommend_api/recommender/hybrid.py:20-41 | a title the content side offers keeps alpha times the similarity of its first content entry, whatever the collaborative side predicts; a collaborative-only title scores (1 - alpha) times the prediction of its first collaborative entry |
| Hybrid.CandidateOrigin | recommend_api/recommender/hybrid.py:20-41 | every merged entry is a scored content candidate or a scored collaborative recommendation |
| Hybrid.Blend | recommend_api/recommender/hybrid.py:43-44 | the result has min(merged length, 12) entries, is ordered by score non-increasing, and holds only merged entries |
| Hybrid.BlendDistinct | recommend_api/recommender/hybrid.py:18-44 | no two results share a title, and each result is the first candidate with its title |
| Hybrid.BlendKeepsBest | recommend_api/recommender/hybrid.py:43-44 | a merged entry cut off by the twelve-entry limit scores no higher than any kept entry |
| Hybrid.BlendStable | recommend_api/recommender/hybrid.py:43 | among equal scores, the entry whose title was seen first comes first, so content entries precede collaborative ones |
| Hybrid.HybridRecommend | recommend_api/recommender/hybrid.py:10-44 | end to end: at most twelve entries, ordered by score, each a scored content neighbour of the first four seeds or a scored entry of the user's top-5 collaborative list |
| Hybrid.MixedScalesExample | recommend_api/recommender/hybrid.py:23-43 | with alpha 0.8, a collaborative-only prediction of 4.0 (score 0.8) outranks a content match of similarity 0.9 (score 0.72) |
| Sorting.SortDesc | recommend_api/recommender/hybrid.py:43 | the sorted list is a permutation, has non-increasing keys, and keeps every group of equal keys in its original order |
| Sorting.SortedStableUnique | recommend_api/recommender/hybrid.py:43 | two lists that are both sorted by key and agree on every equal-key group are equal, so the stable sort's output is determined |
| Sorting.SortDescStable | recommend_api/recommender/hybrid.py:43 | a stable sort keeps any order that the input had among equal keys |
| Collaborative.CellMissingIsZero | recommend_api/recommender/collaborative.py:27 | a (user, book) pair nobody rated reads 0 in the matrix |
| Collaborative.CellWithinRatings | recommend_api/recommender/collaborative.py:27 | duplicate ratings of one pair are averaged, so the cell lies within any bounds of those ratings |
| Collaborative.NeighbourSelection | recommend_api/recommender/collaborative.py:38 | exactly one user is dropped: the first of the descending similarity column, who is most similar to the target; the target is left out exactly when it is that user |
| Collaborative.SelfExcludedOnStrictMaximum | recommend_api/recommender/collaborative.py:38 | when every other user is strictly less similar, the neighbours are exactly the other users |
| Collaborative.SelfKeptOnTie | recommend_api/recommender/collaborative.py:38 | on a similarity tie with a lower user id, that other user is dropped and the target stays among its own neighbours |
| Collaborative.PredictionBounded | recommend_api/recommender/collaborative.py:39-40 | with non-negative similarities and matrix cells in [0, hi], every prediction lies in [0, hi] |
| Collaborative.Unrated | recommend_api/recommender/collaborative.py:42-43 | the candidate books are exactly the matrix columns the target did not rate above zero, ascending |
| Collaborative.RecommendCollaborative | recommend_api/recommender/collaborative.py:33-57 | a user without ratings gets nothing. Otherwise the result has min(top_n, unrated books) records, one per book, all unrated by the target. Each record is built from its book's first query row and carries that book's prediction. Records come in query-row order. No unrated book left out is predicted higher than a returned one |
| Collaborative.EmittedRecords | recommend_api/recommender/collaborative.py:46-47 | selecting rows by book and dropping duplicates keeps each book's first row once, in row order, with its prediction mapped on |
| Collaborative.RecommendationFacts | recommend_api/recommender/collaborative.py:42-46 | the number of records is min(top_n, unrated books), and every record names an unrated book |
| Collaborative.RecommendationBest | recommend_api/recommender/collaborative.py:45 | `head(top_n)` of the descending predictions leaves out no book predicted higher than a kept one |
| Sessions.Preprocess | recommend_api/recommender/goal_recommender.py:18-35 | preprocessing fails exactly when the table has neither a `read_at` nor a `created_at` column, or lacks `minutes_read`, or lacks `pages_read`; the failure names the first of these checks that fails, in that order; otherwise each session is well formed and there are no more sessions than rows |
| Sessions.FailureIgnoresRows | recommend_api/recommender/goal_recommender.py:20-33 | whether preprocessing fails depends on the columns only, so a table without a numeric column fails even with no rows |
| Sessions.ReadAtPreferred | recommend_api/recommender/goal_recommender.py:21-24 | with a `read_at` column, the `created_at` column never affects the result |
| Sessions.SessionsOfKeepsStamped | recommend_api/recommender/goal_recommender.py:22-28 | exactly the rows with a usable timestamp survive, and each becomes a session with its own user and timestamp |
| Sessions.SessionsOfAppend | recommend_api/recommender/goal_recommender.py:28-34 | preprocessing works row by row: two blocks of rows give their sessions concatenated |
| Sessions.SessionsOfRow | recommend_api/recommender/goal_recommender.py:28-34 | a single row gives no session when its timestamp is missing or unparseable, and its own session otherwise |
| Sessions.HourOf | recommend_api/recommender/goal_recommender.py:29 | the hour lies in 0..23 and names the one-hour slot of the day that contains the instant |
| Sessions.WeekdayAdvances | recommend_api/recommender/goal_recommender.py:30-31 | one day later is one weekday later, with Sunday followed by Monday |
| Sessions.WeekendIsSaturdayOrSunday | recommend_api/recommender/goal_recommender.py:30-31 | `weekday >= 5` holds exactly on the days named Saturday and Sunday |
| Sessions.NumberOr0 | recommend_api/recommender/goal_recommender.py:32-33 | an empty cell and a non-number read as 0; a number reads as itself |
| Sessions.PagesPerMinute | recommend_api/recommender/goal_recommender.py:34 | with positive minutes the rate times the minutes gives the pages; otherwise the rate is 0 |
| Sessions.MakeSession | recommend_api/recommender/goal_recommender.py:29-34 | a session keeps its row's user and timestamp and the coerced minutes and pages |
| Sessions.RecentWeeks | recommend_api/recommender/goal_recommender.py:87-88 | the (up to) four largest ISO week numbers present, largest first; any week left out is smaller than all of them; a non-empty log has at least one |
| Goals.UserGoals | recommend_api/recommender/goal_recommender.py:42 | a user's goal rows are exactly the table rows with that user id |
| Goals.RecommendGoals | recommend_api/recommender/goal_recommender.py:41-64 | there is no answer exactly when the user has fewer than two goal rows |
| Goals.PredictionShape | recommend_api/recommender/goal_recommender.py:48-62 | keys are set in order (books implies minutes, reviews implies books), and the error key is present exactly when reviews is missing |
| Goals.PredictionValues | recommend_api/recommender/goal_recommender.py:49-62 | each value is the truncated prediction of its own fit at 300, 5 or 3; the first failing fit's message becomes the error, and later fits leave no value |
| Goals.OtherUsersIgnored | recommend_api/recommender/goal_recommender.py:42 | goal rows of other users never change a user's answer |
| Goals.AllFitsSucceed | recommend_api/recommender/goal_recommender.py:48-59 | with fits that never fail, all three values are set and no error is recorded |
| Timing.PeriodOfHourIsWindow | recommend_api/recommender/goal_recommender.py:74-79 | each hour of the day falls in exactly one part of the day: 5-10 morning, 11-14 afternoon, 15-18 late afternoon, 19-22 evening, otherwise night |
| Timing.RankIsLabelOrder | recommend_api/recommender/goal_recommender.py:82 | the tie-break order on parts of the day is the string order of their labels, which is how `mode()` sorts them |
| Timing.TopPeriod | recommend_api/recommender/goal_recommender.py:81-82 | the chosen part of the day is at least as frequent as any other, and alphabetically first among the equally frequent |
| Timing.TopHour | recommend_api/recommender/goal_recommender.py:83 | the chosen hour is at least as frequent as any other, and the earliest among the equally frequent |
| Timing.AverageMinutes | recommend_api/recommender/goal_recommender.py:84 | the typical length is the median if non-zero, else the mean if non-zero, else 20, so it is never zero |
| Timing.AverageMinutesPositive | recommend_api/recommender/goal_recommender.py:84 | with no negative minutes the typical length is positive, and it is 20 when every session logged 0 minutes |
| Timing.SessionMinutes | recommend_api/recommender/goal_recommender.py:85 | the suggested length is at least 5, and equals round-half-even(1.1 * typical) whenever that reaches 5 |
| Timing.SessionMinutesMonotone | recommend_api/recommender/goal_recommender.py:85 | a longer typical session never gives a shorter suggestion |
| Timing.DaysPerWeek | recommend_api/recommender/goal_recommender.py:87-90 | days per week lies in [1, 7]; it is the rounded mean session count of the recent weeks, clamped |
| Timing.DaysPerWeekAtMostSessions | recommend_api/recommender/goal_recommender.py:87-90 | never more days are suggested than there were sessions |
| Timing.DaysPerWeekSingleWeek | recommend_api/recommender/goal_recommender.py:87-90 | when all sessions fall in one week, days per week is the session count, capped at 7, so it counts sessions, not distinct days |
| Timing.RuleBasedTime | recommend_api/recommender/goal_recommender.py:70-98 | the answer is a cold start exactly below `min_sessions` sessions, and then it is the fixed default (20h, evening, 20 minutes, 3 days); otherwise it combines the top period, top hour, session length and days per week; always at least 5 minutes and 1 to 7 days |
| Timing.SingleSessionIsColdStart | recommend_api/recommender/goal_recommender.py:71-72 | one session with the default minimum of three gives exactly the cold-start record |
| Timing.EveningScenario | recommend_api/recommender/goal_recommender.py:74-83 | sessions at 20h, 20h, 21h and 19h give the evening and 20h |
| Inactivity.LastRead | recommend_api/recommender/goal_recommender.py:107 | the last read time is the time of one of the user's sessions, and no session of the user is later |
| Inactivity.DaysSince | recommend_api/recommender/goal_recommender.py:108 | the whole days elapsed are floored: d days cover at most the elapsed time and d + 1 days exceed it |
| Inactivity.DetectInactivity | recommend_api/recommender/goal_recommender.py:104-110 | one row per user, in ascending user order, each with the user's latest session, the days elapsed since it and the threshold flag |
| Inactivity.OneRowPerUser | recommend_api/recommender/goal_recommender.py:107 | a user has a row exactly when the user has a session, and user ids strictly increase down the table |
| Inactivity.InactiveIffElapsed | recommend_api/recommender/goal_recommender.py:108-109 | a user is inactive exactly when at least threshold times 86400 seconds have passed since the last session |
| Inactivity.LaterSessionResets | recommend_api/recommender/goal_recommender.py:107-108 | a session no earlier than the user's last becomes the last read, and the days are counted from it |
| Inactivity.TenDaysScenario | recommend_api/recommender/goal_recommender.py:104-110 | a user last seen ten days before the reference instant is ten days inactive and flagged at the default threshold of 5 |
| Mission.Fixed2RoundTrip | recommend_api/recommender/goal_recommender.py:133-138 | the two-decimal rendering of the rate parses back to the rate in hundredths, rounded half to even |
| Mission.Fixed2 | recommend_api/recommender/goal_recommender.py:133-138 | the rendering has two digits after a point, and a leading minus exactly for a negative rate |
| Mission.BaseBounds | recommend_api/recommender/goal_recommender.py:121-123 | with no negative minutes, the base lies between 0 and the rounded total of logged minutes |
| Mission.Success | recommend_api/recommender/goal_recommender.py:127-130 | there is no rate exactly when there is no goal table or no goal has a positive target; otherwise it is the mean of the last three defined completed/target ratios |
| Mission.OnlyRecentGoalsCount | recommend_api/recommender/goal_recommender.py:128-129 | once three later goals have a positive target, older goals no longer change the rate |
| Mission.Adjust | recommend_api/recommender/goal_recommender.py:124-140 | the mission lies in [10, 2000]. The rationale is no-goal-info exactly without a rate, low exactly below 0.6, high exactly above 0.9, and average otherwise. Below 0.6 the minutes are 0.9 times the base, rounded, but at least 10. Above 0.9 they are 1.2 times the base, rounded. Otherwise, and without a rate, they are 1.1 times the base, rounded. Every value is clamped to [10, 2000] |
| Mission.AdjustMonotone | recommend_api/recommender/goal_recommender.py:124-140 | for a non-negative base, a better success rate never gives fewer minutes |
| Mission.AverageIsNeutral | recommend_api/recommender/goal_recommender.py:124-138 | an average success rate gives the same minutes as no goal information |
| Mission.Recommend | recommend_api/recommender/goal_recommender.py:116-141 | an empty log gives exactly 60 minutes with the cold-start rationale, and only an empty log gives that rationale; otherwise the base is adjusted; always within [10, 2000] |
| Mission.HalfMetScenario | recommend_api/recommender/goal_recommender.py:128-133 | a base of 100 with three goals half met gives 90 minutes and the rationale text `low_success_rate(0.50)_reduce` |
| Bundle.Unique | recommend_api/recommender/goal_recommender.py:182 | the user list holds every user of the log exactly once |
| Bundle.UniqueOrdered | recommend_api/recommender/goal_recommender.py:182 | users are listed in the order of their first appearance in the log |
| Bundle.ComputeAll | recommend_api/recommender/goal_recommender.py:179-203 | the pass fails exactly when preprocessing fails, or when the log has no `log_id` column for the monthly report; a preprocessing failure is passed on unchanged. Otherwise there is one entry per listed user, in that order, and each is the bundle built for that user from the preprocessed sessions |
| Bundle.OneEntryPerUser | recommend_api/recommender/goal_recommender.py:182-201 | a user has an entry exactly when the user has a session, and no user has two |
| Bundle.EntryFacts | recommend_api/recommender/goal_recommender.py:188-193 | a user's bundle is never the cold-start mission. Its time rule is a cold start exactly below three sessions. It has a goal prediction exactly from two goal rows on |
| Bundle.EntryInactivity | recommend_api/recommender/goal_recommender.py:194-200 | a user's inactivity entry is the user's own row of the inactivity table, flagged exactly after five days |
| Bundle.RowOfFindsUser | recommend_api/recommender/goal_recommender.py:194 | looking a user up in the inactivity table finds the row computed for that user |
| Numerics.RoundHalfEven | recommend_api/recommender/goal_recommender.py:85 | the result is within half a unit of the argument and even on a tie, which is Python's `round` |
| Numerics.RoundHalfEvenUnique | recommend_api/recommender/goal_recommender.py:85 | any integer within half a unit, and even on a tie, is the rounded value |
| Numerics.RoundHalfEvenMonotone | recommend_api/recommender/goal_recommender.py:85 | rounding never reverses order |
| Numerics.Trunc | recommend_api/recommender/goal_recommender.py:51 | `int()` of a float truncates toward zero, on both signs |
| Numerics.Clamp | recommend_api/recommender/goal_recommender.py:90 | `max(lo, min(hi, x))` lies in [lo, hi], is x inside it and the nearer bound outside |
| Numerics.Median | recommend_api/recommender/goal_recommender.py:84 | at most half of the values lie strictly below the median and at most half strictly above it. The median is the mean of the two middle terms of the sorted values, and for an odd count both are the single middle term |
| Numerics.MedianBounds | recommend_api/recommender/goal_recommender.py:84 | the median lies within any bounds of the values |
| Numerics.MeanBounds | recommend_api/recommender/goal_recommender.py:89 | a mean lies within any bounds of its terms |
| Numerics.Mode | recommend_api/recommender/goal_recommender.py:82-83 | the mode occurs in the column, is at least as frequent as any value, and is the smallest among the equally frequent |

## Left out

- Database access and SQL: `load_data`, the query in `build_user_similarity`,
  the connection helpers in `recommender/utils.py`. They are I/O; the rating
  rows and the log and goal tables are inputs.
- The Flask routes in `recommend_api/app.py`. They shape JSON and loop over
  users by calling the core.
- The content-based recommender (`recommender/content_based.py`). It wraps a
  sentence-embedding model and a FAISS index. The blender takes its output as
  the `Nearest` parameter.
- The cosine similarity computation (scikit-learn). The similarity between
  users is the parameter `sim`, and no property of cosine similarity is
  assumed except where a lemma's precondition states one.
- The least-squares fits of `LinearRegression`. A fit is the `Fitter`
  parameter. Only the guard, the call order, the truncation and the error
  shape are modelled.
- `monthly_report` and the report frame it adds to the bundle's result. It
  feeds only a report table, not the recommendations. The model keeps one way
  it can fail on a log that preprocesses: it counts a `log_id` column
  (`recommender/goal_recommender.py:159`), so a log without one makes the
  whole pass fail.
- Bundle.ComputeAll: the failure is not modelled in two cases. A goal table
  without `user_id`, `target_minutes`, `completed_minutes`, `target_books`
  or `completed_books` makes the monthly report raise
  (`recommender/goal_recommender.py:163-168`); goal rows here always carry
  those fields. A session whose user id is empty is dropped by the inactivity
  table's `groupby` but still listed, so the lookup at line 194 raises; user
  ids here are always integers.
- Date parsing, `day_name` locale text beyond the English names, time zones,
  and the ISO calendar. A timestamp is whole seconds with its ISO week number
  given. An unparseable or empty timestamp cell is `None`.
- The current time. `detect_inactivity` without `as_of` reads the clock; the
  model always takes the reference instant as an argument.
- Floating point. Scores, ratings and rates are exact reals. The `1e-9`
  damping term is kept exactly, and NaN and infinity do not arise. Rounding
  an exact product can differ from rounding the float product. For example,
  Python computes `55 * 1.1` as `60.50000000000001` and rounds it to 61,
  where the model rounds 60.5 to 60. Such cases can change a rule's
  `session_minutes` and a weekly mission by one minute.
- Dictionary and JSON shapes. The bundle is a sequence of entries in the
  order of the user list, not a dict keyed by user id.
- The `'user_id' in goals.columns` fallback of `compute_all_recommendations`.
  The goal table always has a user column here.
- pandas' sort algorithm. The descending `sort_values` calls are modelled as
  stable sorts: ties in the similarity column keep the ascending user order
  of the matrix index, and ties in predictions keep ascending book order.
- Timing.RuleBasedTime: requires a non-empty history or a positive
  `min_sessions`. With `min_sessions=0` and no sessions the source takes the
  mode of an empty column, which raises.
- Mission.Base: the fallback `median * 3` for a log without weeks is not
  modelled. A non-empty log always has a latest week, and an empty log has
  already returned the cold-start default, so the fallback cannot run.
- Collaborative.Prediction: when the similarity total plus `1e-9` is exactly
  zero, the model gives 0 where floats would give infinity or NaN. Exact
  reals reach this only through negative similarities that cancel.
- The header comment of `recommender/hybrid.py` speaks of three content
  results per book and a collaborative top-3. The code asks for ten per book
  and a top-5, and the model follows the code.
