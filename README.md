# Bass Bash tournament logger: verified model of the catch log and leaderboards

The app is a single Streamlit page, `contest-fish-app.py`. A contestant
("technician") submits a catch with a name, a length in inches, an optional
weight in pounds and a tagged flag. A submission that passes the guard
`tech and length > 0` becomes one row of the session table. That row holds the
trimmed name, the length, the weight (nulled when it is not positive), the
tagged flag, a timestamp and the day. The page then takes the rows dated today
and shows two leaderboards. "Most fish" is `value_counts` on the Technician
column. "Biggest bass" is the first row of a descending sort on length. Below
them, the winner lines read row 0 of each board.

This project models that logic in Dafny, one module per part:

- `Text` (text.dfy) models Python's `str.strip()` and the exact set of code
  points `str.isspace()` accepts. The slicing is written once for any
  character class, as `str.strip(chars)` is, and then used with whitespace.
- `Records` (records.dfy) holds the `CatchRecord` row and the `Submission`
  from the form. It also holds the submit guard `Accepts`, the weight rule and
  the record builder `NewRecord`.
- `Session` (session.dfy) holds the class `SessionLog`. Its field `data`
  stands for `st.session_state.data`. A new log is empty, and `Submit`
  validates a submission and then appends one record.
- `Today` (today.dfy) holds the filter of line 41 and its characterisation.
- `Ranking` (ranking.dfy) is a descending sort on a numeric key, used for both
  `value_counts` ordering and `sort_values(..., ascending=False)`.
- `Leaderboard` (leaderboard.dfy) holds the per-technician tally, the
  most-fish table, the biggest-bass `head(1)` and the winners guard.
  `LeaderboardExamples` (leaderboard_examples.dfy) works two small tables
  through these definitions.

Clock reads (`datetime.now()`, `date.today()`) are parameters: `now` is an
abstract `Instant` and `today` an abstract `Day` (both `int`). Lengths and
weights are `real`.

Two behaviours of the code shape what the model promises:

- The guard tests the untrimmed name (line 26) and the row stores the trimmed
  one (line 28), so a name of blanks is accepted and logged as `""`
  (`Records.BlankNameLoggedEmpty`). `Session.SessionLog.Valid` therefore
  promises only a trimmed name, not a non-empty one.
- pandas' default `sort_values` is not stable, so no contract fixes which tied
  row comes first. The model's insertion sort happens to be stable.

## Model

| member | source | states |
|---|---|---|
| `Text.Leading` | contest-fish-app.py:28 | the count is the longest prefix in the class: every counted character is in it and the next one is not |
| `Text.Trailing` | contest-fish-app.py:28 | the count is the longest suffix in the class: every counted character is in it and the one before is not |
| `Text.StripIsCore` | contest-fish-app.py:28 | `strip()` returns a middle slice `s[i..j]` of the name whose cut-off prefix and suffix are all whitespace |
| `Text.StripIsStripped` | contest-fish-app.py:28 | the stripped name neither starts nor ends with whitespace |
| `Text.StripEmptyIffAllSpace` | contest-fish-app.py:28 | the stripped name is empty exactly when the raw name is all whitespace |
| `Text.StripIdempotent` | contest-fish-app.py:28 | stripping twice gives the same as stripping once |
| `Records.StoredWeight` | contest-fish-app.py:30 | the weight is null exactly when the submitted weight is at most 0, and otherwise it is the submitted weight (so it is positive) |
| `Records.NewRecord` | contest-fish-app.py:27-34 | the row carries the stripped name (no surrounding whitespace), the submitted length and tagged flag, the weight rule, and the given timestamp and day; a submission passing the guard yields a well-formed row (positive length, positive weight when present) |
| `Records.BlankNameLoggedEmpty` | contest-fish-app.py:26-28 | a non-empty all-whitespace name with a positive length passes the guard and is stored as the empty technician name |
| `Records.VisibleNameLoggedNonEmpty` | contest-fish-app.py:28 | a name that is not all whitespace is stored as a non-empty technician name |
| `Session.SessionLog.constructor` | contest-fish-app.py:11-15 | a new session log is the empty table and satisfies the log invariant |
| `Session.SessionLog.Submit` | contest-fish-app.py:25-38 | accepted exactly when the raw name is non-empty and the length is positive; on rejection the log is unchanged; on acceptance the log grows by exactly one record, at the end, equal to `NewRecord` of the submission, with every earlier record unchanged and in order; the invariant that every row is well formed is kept |
| `Today.OnDate` | contest-fish-app.py:41 | every row of the view is a log row dated today, and the view is no longer than the log |
| `Today.KeptPositions` | contest-fish-app.py:41 | the kept positions lie in the log, strictly increase, and include a position exactly when that row is dated today |
| `Today.OnDateSelects` | contest-fish-app.py:41 | the k-th row of the view is the log row at the k-th kept position, so the view is the subsequence of rows dated today, in log order |
| `Today.OnDateAppend` | contest-fish-app.py:41 | filtering a concatenation gives the concatenation of the filtered parts |
| `Today.OnDateIdempotent` | contest-fish-app.py:41 | filtering today's view again by today changes nothing |
| `Today.AppendedRecordView` | contest-fish-app.py:35-41 | an appended row lands at the end of its own day's view and in no other day's view |
| `Ranking.SortDescCorrect` | contest-fish-app.py:52 | the descending sort is a permutation of its input with keys non-increasing down the result |
| `Ranking.SortDescMembers` | contest-fish-app.py:52 | sorting keeps exactly the same members |
| `Leaderboard.CountPositiveIffPresent` | contest-fish-app.py:47 | a technician's count is positive exactly when some record belongs to them |
| `Leaderboard.TallyCorrect` | contest-fish-app.py:47 | grouping gives one row per technician present and no one else, each with that technician's true number of records, and the counts sum to the number of records |
| `Leaderboard.MostFishCorrect` | contest-fish-app.py:47-48 | the most-fish table lists each technician of today's rows exactly once with their true count; the counts sum to the number of rows and never increase down the table; the table is non-empty exactly when there are rows |
| `Leaderboard.LeaderHasMost` | contest-fish-app.py:62 | for a non-empty set, row 0 of the most-fish table exists, has a positive true count, and is at least every technician's count |
| `Leaderboard.BiggestIsLongest` | contest-fish-app.py:52-53 | `head(1)` of the descending length sort has one row exactly when there are rows; that row is one of them and at least as long as each of them |
| `Leaderboard.TodaysWinners` | contest-fish-app.py:41-63 | no winners exactly when no row is dated today; otherwise row 0 of each board exists; the most-fish winner has the largest true count of the day, and the biggest bass is a row of today at least as long as every row of today |
| `Leaderboard.LoggedCatchCountsToday` | contest-fish-app.py:33-47 | a catch logged today lands at the end of today's view, adds one to its technician's count and leaves every other count unchanged |
| `LeaderboardExamples.MostFishExample` | contest-fish-app.py:47-48 | catches by A, B and A give the most-fish table A with 2, then B with 1 |
| `LeaderboardExamples.BiggestExample` | contest-fish-app.py:52 | when exactly one catch is the longest, that catch is the biggest bass |

## Left out

- Every Streamlit call, such as the page setup, form widgets, messages, metrics and tables (lines 5-7, 18-23, 36, 38, 44, 49, 54-55, 57-58, 61, 64-65), and the text formatting of the winner lines on 62-63. This is rendering. The row-0 reads on 62-63 are modelled by `TodaysWinners`. `Submit` returns `accepted` where the page shows its success or error message, and `TodaysWinners` returns `None` where the page shows "No catches logged today yet."
- `@st.cache_data` and the `st.session_state` mechanics (lines 9-15). This is framework hosting of state. The log is an object, created empty, that owns its sequence.
- `datetime.now()` and `date.today()`. These read the clock, so they are parameters. The model assumes nothing about how the timestamp relates to the day, and the two clock reads in one submission are independent.
- The widget bounds `min_value=0.0` (lines 20-21). These are UI constraints. The model accepts any real length and weight, and the guard alone decides.
- Floating-point behaviour, such as NaN and rounding. Lengths and weights are exact reals, and only `>`, `<=` and `>=` are used on them.
- The order among tied rows. When counts are equal, or several records share the maximum length, no contract says which one comes first. pandas does not fix this order.
- The tag-number field and the length histogram. They belong to the other variant of the app and are not in `contest-fish-app.py`.
