# FitVibe points ledger in Dafny

FitVibe is a single-page fitness app. Users log activities (steps, running,
cycling, gym, meditation, swimming). Each activity earns points at a fixed rate
per type, and points pay for rewards from a catalog. All data lives in an
in-browser store, `MockDB`. This project models that store and the pure logic
around it, and proves properties of the model:

- `types.dfy` (module `Types`): the records: users, activities, rewards and
  redemptions.
- `constants.dfy` (module `Constants`): the rate table, the reward catalog and the
  points formula the app applies when an activity is logged. Rates are exact
  fractions (1/100, 1, 4/5, 6/5, 1/2, 3/2). Rounding is `Math.round`'s: to the
  nearest integer, with halves rounded up.
- `storage.dfy` (module `Storage`): the store itself, as the class `MockDB`. Its
  fields are the users, activities and redemptions tables and the session pointer.
  The login, signup, logout, add-activity, delete-activity and redeem operations
  are methods that reassign those fields. The queries are functions. Every method
  states its complete new state and names the fields it may change in its
  `modifies` frame. Every method also keeps three properties:
  - emails are unique;
  - balances are non-negative, given non-negative points;
  - the ledger is balanced (`Consistent`).
- `ledger.dfy` (module `Ledger`): the lookups and the deletion filter the store
  uses. It also holds the ledger invariant `Balanced`, with one preservation lemma
  for each operation that changes the tables. `Balanced` says:
  - user ids are unique, and activity ids are unique (redemption ids are not
    constrained);
  - every activity's points are non-negative;
  - every balance is at least the points the user earned minus the points the
    user spent, and at most the points the user earned;
  - a user who never redeemed a reward has exactly the points of their remaining
    activities.
- `dashboard.dfy` (module `Dashboard`): the dashboard's statistics. These are the
  activity count, the active minutes, the seven-day points chart (a loop, as in
  the app) and the five most recent entries.
- `seqs.dfy`, `sorting.dfy`: generic `find`/`filter` helpers, and the stable
  descending sort that the two queries use.

Inputs the app takes from its environment are parameters here:

- fresh UUIDs: `newId`;
- the current time: `now`;
- the parsing of date strings into timestamps for sorting: `timeOf`;
- the seven day keys of the chart: `dayKeys`.

The methods put no freshness precondition on `newId`. Instead, each method's
`Consistent` clause names the condition it needs:

- `Signup`: the new id is used nowhere in the store (`IdUnused`), which is what a
  random UUID provides;
- `AddActivity`: no activity has the new id yet, and the points are non-negative;
- `DeleteActivity`: no condition;
- `RedeemReward`: the reward's cost is non-negative.

Some behaviour of the code is easy to miss, and the model follows it:

- `login` with an unknown email returns null. It does not raise an error.
- `addActivity` for a user id no user has still records the activity. It only
  skips the credit.
- `getCurrentUser` treats an empty session id as no session, because the code
  tests `!id`.
- A user's balance is not always earned minus spent. Deleting an activity clamps
  the balance at 0, so after a redemption, deleting an activity can leave the
  balance above earned minus spent. `Balanced` therefore proves equality only for
  users who never redeemed a reward. For all others it proves bounds: the balance
  is at least earned minus spent and at most earned.

`Storage.ExampleSignup` and `Storage.ExampleLedger` are client methods. They go
through the worked examples using the methods' contracts and the definitions of
the lookup functions (`EmailIndex`, `UserIndex`, `GetCurrentUser`):

- a second signup with the same email fails;
- 30 minutes of running earn 30 points;
- a 500-point reward is refused to a user with 30 points;
- deleting a 30-point activity when the balance is 20 leaves 0.

## Model

| member | source | states |
|---|---|---|
| Constants.PointsConfig | constants.ts:11-54 | every activity type has one entry with a positive rate; the unit is steps exactly for STEPS and minutes for every other type |
| Constants.RatesAsConfigured | constants.ts:13-48 | the fractions equal the configured decimal rates 0.01, 1, 0.8, 1.2, 0.5 and 1.5 |
| Constants.RoundHalfUp | App.tsx:70 | the result r satisfies r - 1/2 <= n/d < r + 1/2, which is Math.round of the quotient |
| Constants.RoundHalfUpUnique | App.tsx:70 | exactly one integer satisfies those bounds, so they determine the rounding |
| Constants.Points | App.tsx:70 | points are value times rate rounded half up, and a non-negative value earns non-negative points |
| Constants.PointsRoundValueTimesRate | App.tsx:70 | with the rate as a real number, points lie within 1/2 of value * rate, rounding halves upwards |
| Constants.PointsMonotone | App.tsx:70 | a larger value never earns fewer points |
| Constants.PointsExamples | App.tsx:70 | RUNNING 30 gives 30 points, STEPS 5000 gives 50, MEDITATION 15 gives 8 |
| Constants.CatalogWellFormed | constants.ts:56-105 | the catalog has six rewards with ids r1 to r6, all distinct, each costing a positive number of points |
| Seqs.FirstIndex | services/storage.ts:81 | the index returned is the first element satisfying the test; no index means no element satisfies it |
| Seqs.FilterContents | services/storage.ts:95 | the result of the filter holds exactly the elements that pass the test, each as often as in the input |
| Seqs.FilterIsSubsequence | services/storage.ts:95 | filtering keeps the relative order of the kept elements |
| Sorting.SortDescSorted | services/storage.ts:66 | the sort is a permutation of its input, in descending key order |
| Sorting.SortDescStable | services/storage.ts:66 | the sort is stable: elements with equal keys keep their input order |
| Sorting.SelectSortedDesc | services/storage.ts:66 | filter-then-sort returns exactly the selected elements with their multiplicities, in descending key order |
| Ledger.UserIndex | services/storage.ts:81 | finds the first user with the given id, or no user if none has it |
| Ledger.EmailIndex | services/storage.ts:25 | finds the first user whose email is exactly the given one, or no user if none has it |
| Ledger.ActivityIndex | services/storage.ts:92 | finds the first activity with the given id, or none |
| Ledger.RemoveActivity | services/storage.ts:95 | removes every activity with the id and adds none; all other activities stay, in their order and with their multiplicities |
| Ledger.EarnedAppend | services/storage.ts:76-83 | appending an activity adds its points to its owner's earnings only |
| Ledger.EarnedRemove | services/storage.ts:95-102 | deleting a uniquely-identified activity takes exactly its points off its owner's earnings only |
| Ledger.EarnedCovers | services/storage.ts:102 | with non-negative points, an owner's earnings cover any one of their activities, so that for a user who never redeemed (balance equals earnings) deletion never reaches the clamp, and for every user the clamped balance stays at most the remaining earnings |
| Ledger.SignupKeepsBalanced | services/storage.ts:38-46 | adding a zero-point user under an unused id keeps the ledger balanced |
| Ledger.AddKeepsBalanced | services/storage.ts:70-85 | appending an activity and crediting its owner keeps the ledger balanced |
| Ledger.DeleteKeepsBalanced | services/storage.ts:91-104 | removing an activity and debiting its owner, clamped at 0, keeps the ledger balanced |
| Ledger.RedeemKeepsBalanced | services/storage.ts:113-133 | charging a reward of non-negative cost and recording its redemption keeps the ledger balanced |
| Storage.MockDB.constructor | services/storage.ts:11-14 | a store with no saved keys has empty tables and no session, and is consistent |
| Storage.MockDB.Login | services/storage.ts:22-31 | the first user with an exactly equal email is returned and becomes the session; an unknown email returns nothing and changes nothing; the tables are outside the frame |
| Storage.MockDB.Signup | services/storage.ts:33-50 | a taken email fails with nothing changed; otherwise exactly one zero-point user is appended and becomes the session; email uniqueness, non-negative balances and the ledger invariant are kept |
| Storage.MockDB.GetCurrentUser | services/storage.ts:52-57 | no user when there is no session, the id is empty or no user has the id; otherwise the first user with the session id |
| Storage.MockDB.Logout | services/storage.ts:59-61 | only the session pointer changes, and it becomes empty |
| Storage.MockDB.GetActivities | services/storage.ts:64-67 | exactly that user's activities, each as often as in the table, by date newest first |
| Storage.GetActivitiesStable | services/storage.ts:66 | activities with the same date keep their table order |
| Storage.MockDB.AddActivity | services/storage.ts:69-88 | exactly one activity is appended with the given fields and the fresh id; only the first user with the owner id gains exactly its points; with no such user the users are unchanged; the three invariants are kept |
| Storage.MockDB.DeleteActivity | services/storage.ts:90-105 | an unknown id changes nothing; otherwise all activities with the id go, the others keep their order, and only the owner's balance changes, to max(0, balance - points); the invariants are kept |
| Storage.MockDB.GetRewards | services/storage.ts:108-110 | the catalog: six rewards with distinct ids and positive costs |
| Storage.MockDB.RedeemReward | services/storage.ts:112-136 | an unknown user or a balance below the cost fails with no change; otherwise only that balance drops by exactly the cost and stays non-negative, and one redemption holding the reward as passed is appended |
| Storage.MockDB.GetRedemptions | services/storage.ts:138-141 | exactly that user's redemptions, each as often as in the table, most recent first |
| Storage.GetRedemptionsStable | services/storage.ts:140 | redemptions with the same time keep their table order |
| Dashboard.StatsAppend | components/Dashboard.tsx:24-27 | the count and the active minutes of two lists together are the sums of those of each list |
| Dashboard.TotalMinutesOfTimed | components/Dashboard.tsx:25-27 | the total minutes are the sum of the values of the activities that are not STEPS |
| Dashboard.DayPointsAppend | components/Dashboard.tsx:37-38 | a day's points grow by an activity's points exactly when its date starts with that day's key |
| Dashboard.DayPointsBounded | components/Dashboard.tsx:37-38 | with non-negative points, a day's total lies between 0 and the total of the whole list |
| Dashboard.ChartData | components/Dashboard.tsx:30-46 | the chart has seven entries, oldest day first, each with the points of the activities on its day |
| Dashboard.RecentActivities | components/Dashboard.tsx:48 | the recent activities are a prefix of the list of length min(5, n) |
| Dashboard.RecentAreNewest | components/Dashboard.tsx:48 | on a list sorted newest first, no left-out entry is newer than a recent one |

## Left out

- Persistence: the `localStorage` reads and writes and the JSON encoding are not modelled. The tables are fields, and a missing key is an empty table.
- Simulated latency and asynchrony: the `setTimeout` waits, the promises and `Promise.all` are not modelled. These are waits with no logic, and each operation is modelled as one atomic step.
- Concurrency: interleaved read-modify-write of the stored tables from several callers is not modelled.
- Fresh values: `crypto.randomUUID()` and `new Date().toISOString()` are parameters.
- Date parsing: `new Date(s).getTime()` is the parameter `timeOf`, a total function to integers. Invalid dates, which give `NaN` and leave the sort order unspecified, are not modelled.
- Chart day keys: the seven day keys come from the clock, so they are the input `dayKeys`. The weekday label of each chart entry is not modelled either; an entry holds its day key instead.
- Floating point: rates are exact fractions. `Math.round` of a floating-point product can differ from exact rounding on some values. Such differences are not modelled.
- Activity values are integers. The form's `Number(value)` also accepts fractions, which are not modelled.
- Rendering, routing and form state in the components, and the icons, colours, labels and number formatting of the configuration, are not modelled.
- The affordability check in the rewards page is not modelled. It repeats the store's own check.
- The password field is not modelled. It is never checked.
- Storage.MockDB.AddActivity: the ledger invariant is stated to hold only when the points are non-negative and the new id is unused by any activity.
- Storage.MockDB.Signup: the ledger invariant is stated to hold only when the new id is unused anywhere in the store.
- Storage.MockDB.RedeemReward: the ledger invariant is stated to hold only for a reward with a non-negative cost. A negative cost would raise the balance above the points earned. The catalog's costs are all positive.
- Ledger.RedeemKeepsBalanced: requires a non-negative cost, for the same reason.
