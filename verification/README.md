# Voting component of the collaborative project/task manager

This project models the voting component of a project and task management web
application. The component does two jobs:

1. It shows an up-vote count, a down-vote count and an average rating for one
   task. These are recomputed from the `voting` and `slider_votes` tables on
   every render.
2. It lets the logged-in user cast an up/down vote, cast a 1–5 slider rating,
   or retract both. A cast updates the user's existing row for the task in
   place, or inserts a new row when there is none. A retraction deletes the
   user's rows by id.

The remote tables are modelled as in-memory sequences of rows. Each table has
its own id counter standing in for the store's identity column. The store
semantics follow the data-access hooks: insert one row, update the rows whose
id matches, delete the rows whose id matches.

Modules:

- `Rows` (`rows.dfy`): the row type shared by both tables, the component's
  `find` lookup of the user's own row, and the table invariants. The
  invariants are unique ids, ids below the counter, and the intended at most
  one row per (user, task).
- `Store` (`store.dfy`): insert, update-by-id and delete-by-id. They keep the
  id invariants, and with unique ids an update or delete touches the row
  holding that id, if any, and no other.
- `Tally` (`tally.dfy`): the filtered counts and the displayed average. The
  `x / n || 0` expression is modelled with a small JavaScript number type
  (`NaN`, infinities, exact reals).
- `Upsert` (`upsert.dfy`): a cast or a retraction on one table, written as
  functions. Lemmas cover what changes, what stays, uniqueness, and how the
  counts move.
- `VotingComponent` (`voting_system.dfy`): the class `VotingSystem`. It holds
  both tables, both id counters and the log of requests sent to the store.
  Its methods are the three handlers `HandleVote`, `HandleSliderVote` and
  `HandleRetractVote`, and the two steps of the retraction, `RetractOwnVote`
  and `RetractOwnSliderVote`. Each is proved against the `Upsert` functions.

The store's answer to each request is a boolean parameter: accepted, or failed
and caught by the handler. The session is an `Option` of the user id.

## Model

| member | source | states |
|---|---|---|
| `Rows.Find` | src/components/VotingSystem.jsx:21-30 | Returns the index of a row that belongs to this user and task. No earlier row does. The result is `None` exactly when no row does. |
| `Store.UpdateById` | src/integrations/supabase/index.js:343 | Same length as the table. Every row with the payload's id becomes the payload. Every other row is unchanged. |
| `Store.DeleteById` | src/integrations/supabase/index.js:353 | The result holds exactly the rows whose id differs from the deleted id, and is no longer than the table. |
| `Store.UpdateByIdAt` | src/integrations/supabase/index.js:340-348 | With unique ids, updating by the id of row `i` is the table with row `i` replaced and nothing else changed. |
| `Store.DeleteByIdAt` | src/integrations/supabase/index.js:350-358 | With unique ids, deleting the id of row `i` removes row `i` alone. The other rows keep their order. |
| `Store.DeleteAppend` | src/integrations/supabase/index.js:353 | Deletion by id distributes over concatenation of tables. |
| `Store.ApplyKeepsTableInvariant` | src/integrations/supabase/index.js:330-358 | Insert (with the next id), update and delete all keep ids unique and below the id counter. |
| `Store.DeleteKeepsOnePerUserTask` | src/integrations/supabase/index.js:350-358 | A deletion keeps at most one row per (user, task). |
| `Tally.Filter` | src/components/VotingSystem.jsx:142-144 | The filter holds exactly the rows of the list that meet the criterion, and is no longer than the list. |
| `Tally.FilterCountsMatches` | src/components/VotingSystem.jsx:142-143 | A filter's length equals the number of positions whose row meets the criterion. |
| `Tally.VoteCountsAreMatchCounts` | src/components/VotingSystem.jsx:142-143 | Up-votes count exactly the rows with this task and vote 1. Down-votes count exactly those with vote -1. No other row is counted. |
| `Tally.UpPlusDownAtMostTaskRows` | src/components/VotingSystem.jsx:142-143 | Up-votes plus down-votes is at most the number of vote rows for the task. |
| `Tally.FilterCountAfterReplace` | src/components/VotingSystem.jsx:142-143 | Replacing one row changes a count only by whether the old row and the new row meet the criterion. |
| `Tally.FilterCountAfterRemove` | src/components/VotingSystem.jsx:142-143 | Removing one row lowers a count by one exactly when that row met the criterion. |
| `Tally.Divide` | src/components/VotingSystem.jsx:144 | JavaScript division. The result is NaN exactly for 0 / 0 and finite exactly for a non-zero divisor, in which case quotient times divisor is the dividend. A non-zero dividend over 0 is an infinity with the dividend's sign. |
| `Tally.OrZero` | src/components/VotingSystem.jsx:144 | `|| 0` turns NaN into 0 and keeps every other number. |
| `Tally.AverageRatingValue` | src/components/VotingSystem.jsx:144 | The displayed average is always finite. It equals the task's rating sum divided by the length of the whole slider-vote list, or 0 for an empty list. |
| `Tally.AverageZeroWithoutRows` | src/components/VotingSystem.jsx:144 | With no slider row for the task, including an empty list, the average is 0. |
| `Tally.RatingSumBounds` | src/components/VotingSystem.jsx:144 | A sum of ratings in [1, 5] lies between their number and five times their number. |
| `Tally.AverageRatingInRange` | src/components/VotingSystem.jsx:144 | If every rating is in [1, 5], the average lies in [0, 5]. It is positive exactly when the task has a rating. |
| `Tally.AverageDilutedByOtherTasks` | src/components/VotingSystem.jsx:144 | A single rating 4 for task 1 next to one rating for task 2 displays 2.0, while the mean of task 1's ratings is 4.0. |
| `Tally.MeanRatingInRange` | src/components/VotingSystem.jsx:144 | The corrected average (sum over the task's own rating count) lies in [1, 5] when the task has a rating and every rating is in [1, 5]. |
| `Tally.AverageIsMeanForSingleTask` | src/components/VotingSystem.jsx:144 | When every slider row belongs to the task, the displayed average equals the corrected mean. |
| `Tally.MeanRatingExample` | src/components/VotingSystem.jsx:144 | Ratings 4 and 2 for a task, with no other slider rows, display 3.0 and have mean 3.0. A task without ratings has mean 0. |
| `Tally.VoteCountExample` | src/components/VotingSystem.jsx:142-143 | Two up-votes and a down-vote for task 1 beside one up-vote for task 2 show counts 2 and 1 for task 1 and 1 and 0 for task 2. |
| `Upsert.CastUpserts` | src/components/VotingSystem.jsx:44-47 | If the user has a row for the task, a cast replaces only that row's value; its id, user and task stay and every other row is unchanged. Otherwise it appends exactly one row (next id, user, task, value) and leaves the existing rows as they were. |
| `Upsert.CastStoresValue` | src/components/VotingSystem.jsx:44-47 | After a cast the user's row for the task exists and holds the cast value. At most one row per (user, task) is preserved. |
| `Upsert.CastKeepsRatingsInRange` | src/components/VotingSystem.jsx:77-80 | Casting a rating in [1, 5] keeps every rating of the table in [1, 5]. |
| `Upsert.RetractRemovesOwnRow` | src/components/VotingSystem.jsx:110-111 | A retraction removes exactly the user's first row for the task, keeping the others in order. Without such a row it changes nothing. |
| `Upsert.RetractLeavesNoRow` | src/components/VotingSystem.jsx:109-117 | With at most one row per (user, task), a retraction leaves the user no row for the task and keeps that uniqueness. |
| `Upsert.RetractKeepsTableInvariant` | src/components/VotingSystem.jsx:110-116 | A retraction keeps ids unique and below the id counter. |
| `Upsert.CastThenRetract` | src/components/VotingSystem.jsx:44-116 | Casting and then retracting leaves the user no row for the task, when the table had one row per (user, task). |
| `Upsert.CastMovesCount` | src/components/VotingSystem.jsx:44-47 | A cast moves the task's count of value `x`: minus one if the user's previous vote was `x`, plus one if the new vote is `x`. Other tasks' counts do not move. |
| `Upsert.SwitchingVoteMovesTally` | src/components/VotingSystem.jsx:150-153 | The buttons are disabled on the current vote. So a cast of 1 adds one up-vote and removes the down-vote if there was one, and a cast of -1 does the reverse. |
| `Upsert.RetractMovesCount` | src/components/VotingSystem.jsx:110-111 | A retraction lowers the task's count of `x` by one exactly when the user's vote was `x`. Nothing else moves. |
| `VotingComponent.VotingSystem.constructor` | src/components/VotingSystem.jsx:9-10 | The component starts from the fetched tables with no request sent. |
| `VotingComponent.VotingSystem.HandleVote` | src/components/VotingSystem.jsx:32-63 | No session: nothing sent, nothing changed. Otherwise exactly one request (update or insert) is sent. The vote table becomes the cast result only if the store accepts it, and the slider table never changes. After an accepted cast the user's vote is the cast value, and one row per (user, task) is preserved. |
| `VotingComponent.VotingSystem.HandleSliderVote` | src/components/VotingSystem.jsx:65-96 | The same for ratings on the slider table. It also keeps every rating in [1, 5], and the vote table never changes. |
| `VotingComponent.VotingSystem.HandleRetractVote` | src/components/VotingSystem.jsx:98-132 | No session: nothing sent, nothing changed. Otherwise the vote row's deletion is sent, then the slider row's, each only if present. A refused vote deletion stops before the slider row. The result is Succeeded exactly when both steps went through. When each table had at most one row per (user, task), the user then has no row left for the task in either table. |
| `VotingComponent.VotingSystem.RetractOwnVote` | src/components/VotingSystem.jsx:110-113 | Sends a delete by id for the user's vote row if present. The table becomes the retraction result only when accepted, and the slider table is unchanged. |
| `VotingComponent.VotingSystem.RetractOwnSliderVote` | src/components/VotingSystem.jsx:114-117 | The same for the user's slider row, leaving the vote table unchanged. |

## Findings

| source | as written | input that shows it | evidently intended | confidence | as-written member | corrected member |
|---|---|---|---|---|---|---|
| src/components/VotingSystem.jsx:144 | The task's rating sum is divided by `sliderVotes.length`, the number of slider rows for ALL tasks. | Slider rows `{task 1, rating 4}` and `{task 2, rating 2}`: task 1 displays 2.0. | The mean of the task's own ratings: divide by the number of matching rows (4.0 here), 0 when there are none. | high; not executed | `Tally.AverageDilutedByOtherTasks` | `Tally.MeanRatingInRange` |

`Tally.AverageRating` models the displayed value as written. `Tally.MeanRating`
is the corrected definition; its range and a worked example are proved. The two
coincide when every slider row belongs to the task (`Tally.AverageIsMeanForSingleTask`).
Nothing else in the component reads the average.

## Left out

- Toasts are reduced to the handler's `Outcome` (not logged in, succeeded,
  failed). The loading and error placeholders (lines 134-140), `toFixed(1)`
  formatting and the Slider and Button widgets are rendering only.
- The cached `userVote` / `userSliderVote` state (lines 18-19, 24, 28, 112,
  116) is not a separate field. Each handler runs the component's `find` on the
  current tables, so a stale cache is not modelled.
- Races between concurrent or repeated submissions are not modelled. So are
  requests still in flight and query-cache invalidation (`invalidateQueries`
  in the hooks). Handlers run one at a time to completion.
- The store's answer is a parameter per request. The model does not include
  network failures that partially apply a request, nor an insert that fails
  after consuming an identity value.
- The session comes from an authentication provider that is not part of this
  model. It is a parameter, `None` when nobody is logged in.
- Ids and values are unbounded integers. The int8/int4 column widths are not
  modelled, and neither is a type mismatch under JavaScript's strict equality
  in the `find`/`filter` predicates.
- The floating-point division is modelled with exact reals (JavaScript
  infinities are kept as a constructor). Rounding and negative zero are not
  modelled.
- The order of a fetched table: both tables are read with `select('*')` and
  no ordering, so `find` takes the first match in whatever order the database
  returns. The model takes that order to be insertion order, with an update
  keeping the row in place. Where a table holds two rows for one (user, task),
  which one `find` sees is fixed by this choice. So are the ensures of
  `Upsert.CastStoresValue`, `VotingComponent.VotingSystem.HandleVote` and
  `VotingComponent.VotingSystem.HandleSliderVote` that the user's value is the
  cast value. With at most one row per (user, task) the order does not matter.
- The other data-access hooks (lists, single-row queries, the other tables)
  and every other page and component are outside this model.
