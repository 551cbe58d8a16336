# recall-guard: SM-2 review scheduling, modelled in Dafny

recall-guard is a spaced-repetition flashcard service. Each question row carries four
scheduling columns: `interval`, `easeFactor`, `repetitions` and `nextReviewDate`. When a user
submits a review with a quality score from 0 to 5, the SM-2 step recomputes these columns.
The repository then answers two queries over the whole table:

- the *daily question*, which is the due question with the earliest date;
- the *memory status*, which counts unstable (due) and safe (not yet due) questions.

This project models that core:

- `sm2.dfy` (module `Sm2`): the SM-2 step as a pure function `NextState`, with lemmas about one
  review and about whole sequences of reviews.
- `storage.dfy` (module `Storage`): `DatabaseStorage`, a class over an in-memory table (`rows`)
  plus the serial counter `nextId`. `CreateQuestions` and `UpdateQuestionReview` change the
  table in place. The daily-question and lookup queries are functions that read it.
  `GetMemoryStatus` is the counting loop.
- `server_routes.dfy` (module `ServerRoutes`): the review handler. It validates the body,
  looks the question up (404 when it is missing), runs the SM-2 block on local variables as the
  handler does, and writes the result back. The module also holds the part of note creation
  that maps the language model's questions to insert rows.
- `shared_routes.dfy` (module `SharedRoutes`): the review body's quality bound and `buildUrl`.
  `includes` and `replace` follow JavaScript, so a `$&`, `$$`, `` $` `` or `$'` in a string
  value is expanded the way `replace` expands it (the GetSubstitution operation of
  ECMA-262). `String(n)` of an integer is given as its decimal numeral.
- `schema.dfy` (module `Schema`) and `wrappers.dfy` (module `Wrappers`): the row type and `Option`.

Modelling choices:

- Ease factors are exact `real`s. `Math.round(x)` is `(x + 0.5).Floor`. On exact reals this
  agrees with ECMA-262's definition: the nearest integer, with a tie going towards +∞.
- Dates are whole day numbers. "Now" and "today" are parameters.

What the code does, and the model with it:

- No query or update filters by user. The handlers call the repository without a user id.
- Note creation has no fallback question. When the model's reply holds no `questions` array,
  or the call fails, nothing is inserted (`ServerRoutes.EmptyReplyAddsNothing`).
- The code accepts any number in [0, 5] as a quality, integers or not.
- In `shared/schema.ts`, no `questions` column other than the serial `id` has a default. The insert items carry only `noteId`,
  `questionText` and `answerText`. So the model takes the remaining columns (user id and
  initial schedule) as an explicit `RowDefaults` parameter. The serial `id` is the table's
  `nextId` counter.
- The code leaves ties among earliest due questions to the database. The model picks the first
  such row in table order. Ids grow along the table, so this is the lowest id
  (`Storage.EarliestDueLowestId`).

## Model

| member | source | states |
|---|---|---|
| `Sm2.EaseDelta` | server/routes.ts:90 | For qualities 0 to 5, the ease change before the clamp lies between -0.80 and +0.10. |
| `Sm2.NextState` | server/routes.ts:72-94 | After any review the ease factor is at least 1.3, and the next review date is the review day plus the new interval. |
| `Sm2.JsRound` | server/routes.ts:82 | `Math.round` gives the integer within half a unit of x, with a half rounded up. |
| `Sm2.FirstSuccess` | server/routes.ts:76-78 | With quality >= 3 and no repetitions, the interval becomes 1 and repetitions become 1. |
| `Sm2.SecondSuccess` | server/routes.ts:79-80 | With quality >= 3 and one repetition, the interval becomes 6 and repetitions become 2. |
| `Sm2.LaterSuccess` | server/routes.ts:81-84 | With quality >= 3 and any other repetition count, the interval becomes round(old interval x OLD ease factor) and repetitions grow by exactly 1. |
| `Sm2.Lapse` | server/routes.ts:85-88 | With quality < 3, repetitions become 0 and the interval becomes 1, whatever the prior state. |
| `Sm2.EaseUpdate` | server/routes.ts:90-91 | The new ease factor is the larger of 1.3 and the old ease factor plus the quality's delta. |
| `Sm2.EaseIgnoresStreak` | server/routes.ts:90 | The new ease factor depends only on the old ease factor and the quality, not on interval, repetitions or day. |
| `Sm2.EaseDeltaTable` | server/routes.ts:90 | The delta is exactly -0.80, -0.54, -0.32, -0.14, 0 and +0.10 for qualities 0 to 5. |
| `Sm2.EaseDeltaOrder` | server/routes.ts:90 | Over 0..5 the delta never decreases with quality. It is positive only at 5 and negative exactly for 0 to 3. |
| `Sm2.DueAgainAfterInterval` | server/routes.ts:93-96 | The row written back after a review is due on a day exactly when that day is at least the review day plus the new interval. |
| `Sm2.IntervalStaysPositive` | server/routes.ts:76-94 | With a prior interval >= 1 and ease factor >= 1.3, the new interval is >= 1. |
| `Sm2.ScaledIntervalBound` | server/routes.ts:82 | Rounding a non-negative interval times a factor >= 1 never gives less than the interval. |
| `Sm2.SuccessNeverShortens` | server/routes.ts:81-82 | From the third success on, a success never shortens a non-negative interval. |
| `Sm2.ReviewKeepsConsistent` | server/routes.ts:76-91 | One review keeps the invariant: ease >= 1.3, repetitions >= 0, interval >= 0, and interval >= 1 once repetitions >= 1. Afterwards the interval is >= 1. |
| `Sm2.Replay` | server/routes.ts:72-96 | Reviews applied in order: no reviews keep the state, and otherwise the next review date is the last review's day plus the final interval. |
| `Sm2.SuccessStreak` | server/routes.ts:84-86 | The trailing run of successful reviews is never longer than the review sequence. |
| `Sm2.ReplayKeepsConsistent` | server/routes.ts:72-94 | Every sequence of reviews keeps that invariant. After a non-empty sequence the interval is >= 1. |
| `Sm2.ReplayRepetitions` | server/routes.ts:76-88 | After any sequence of reviews, repetitions equal the successes since the last lapse, or the starting count plus all successes when there was no lapse. |
| `Sm2.ReplayEaseFloor` | server/routes.ts:90-91 | After any non-empty sequence of reviews the ease factor is at least 1.3. |
| `Sm2.ExampleSecondSuccess` | server/routes.ts:76-94 | (interval 1, ease 2.5, repetitions 1) with quality 4 gives interval 6, ease 2.5, repetitions 2. |
| `Sm2.ExamplePerfectThirdReview` | server/routes.ts:76-94 | (6, 2.5, 2) with quality 5 gives interval 15, ease 2.6, repetitions 3. |
| `Sm2.ExampleBlackoutAtFloor` | server/routes.ts:76-94 | (15, 1.3, 3) with quality 0 gives interval 1, repetitions 0, and the ease factor stays clamped at 1.3. |
| `ServerRoutes.ReviewQuestion` | server/routes.ts:62-104 | 400 exactly when the quality is outside [0, 5]. 404 exactly when it is valid and no row has the id. Neither changes the table. Otherwise the row's scheduling columns become `NextState` of its old ones, the other rows and columns stay the same, and the updated row is returned. |
| `ServerRoutes.ReviewedNotDueToday` | server/routes.ts:76-96 | A question with a consistent schedule is not due again on the day it was reviewed. |
| `ServerRoutes.ToInsert` | server/routes.ts:32-36 | One insert item per generated question, in the same order, each carrying the new note's id and that question's texts. |
| `ServerRoutes.StoreGeneratedQuestions` | server/routes.ts:31-38 | Without a `questions` array nothing is inserted and the serial stays. Otherwise the table gains exactly the mapped rows and the serial advances by their number. |
| `ServerRoutes.GeneratedRowsFollowReply` | server/routes.ts:31-37 | New row k comes from generated question k. It has the next serial id, the note's id, that question's texts and the initial schedule. |
| `ServerRoutes.EmptyReplyAddsNothing` | server/routes.ts:31-38 | A reply with no questions adds no row. There is no fallback question. |
| `Storage.FindById` | server/storage.ts:36-39 | The lookup finds a row of the table with that id, and finds nothing exactly when no row has it. |
| `Storage.DatabaseStorage.GetQuestion` | server/storage.ts:36-39 | The same, over the storage's table. |
| `Storage.EarliestDue` | server/storage.ts:27-35 | The result is a due row of the table, with a date no later than any due row's. Nothing is returned exactly when no row is due. |
| `Storage.DatabaseStorage.GetDailyQuestion` | server/storage.ts:27-35 | It never returns a question dated after `now`. It returns the minimum date among due questions, and nothing exactly when none is due. |
| `Storage.EarliestDueLowestId` | server/storage.ts:31-33 | Among due questions tied at the earliest date, the returned one has the lowest id. |
| `Storage.CountDue` | server/storage.ts:53-55 | The unstable count never exceeds the table size. |
| `Storage.DatabaseStorage.GetMemoryStatus` | server/storage.ts:47-57 | unstable is the number of due rows, and safe + unstable is the number of rows. It changes nothing. |
| `Storage.CountDueZero` | server/storage.ts:52-55 | The unstable count is 0 exactly when no row is due. |
| `Storage.UnstableIffDailyQuestion` | server/storage.ts:27-57 | unstable > 0 exactly when the daily-question query returns a question. |
| `Storage.DueTodayIsUnstable` | server/storage.ts:53 | A question dated exactly `now` counts as unstable. |
| `Storage.CountDueAppend` | server/storage.ts:49-56 | Counting distributes over splitting the table in two. |
| `Storage.Rescheduled` | server/storage.ts:40-46 | An update keeps the table's length. |
| `Storage.RescheduledFrame` | server/storage.ts:41-44 | Only rows with that id change, and only in interval, ease factor, repetitions and next review date. |
| `Storage.DatabaseStorage.UpdateQuestionReview` | server/storage.ts:40-46 | The table becomes `Rescheduled` of the old one, and the serial is unchanged. The updated row is returned, or nothing exactly when no row had the id. |
| `Storage.FindUniqueId` | server/storage.ts:36-39 | With growing ids, the row a lookup finds is the only row with that id. |
| `Storage.NewRows` | server/storage.ts:23-26 | An insert adds exactly one row per item. |
| `Storage.NewRowsFresh` | server/storage.ts:25 | Appending rows numbered from the serial keeps ids growing and below the advanced serial. |
| `Storage.DatabaseStorage.CreateQuestions` | server/storage.ts:23-26 | The table becomes the old table followed by one row per item, in order, and the serial advances by the number of items. An empty list changes neither the table nor the serial. |
| `Storage.CountDueSameDate` | server/storage.ts:52-55 | Rows that share one date are all unstable when it is reached and all safe otherwise. |
| `Storage.CreatedQuestionsStatus` | server/storage.ts:23-26 | An insert raises the unstable count by the number of new rows when their initial date is reached, and leaves it unchanged otherwise. |
| `Schema.Question.IsDue` | server/storage.ts:31 | A row is due exactly when its date is at or before `now`. The same inclusive test is used at server/storage.ts:53. |
| `Schema.Question.WithState` | server/storage.ts:42 | Setting the scheduling columns leaves the id, user, note and both texts unchanged. |
| `SharedRoutes.ParseReviewInput` | shared/routes.ts:40 | A review body is accepted exactly when 0 <= quality <= 5, and then its value is kept. |
| `SharedRoutes.IndexFrom` | shared/routes.ts:64-65 | The search finds the first occurrence at or after the start, or reports that there is none. |
| `SharedRoutes.IndexOf` | shared/routes.ts:64 | `indexOf` finds an index exactly when the pattern occurs. Through `IndexFrom`, that index is the first occurrence. |
| `SharedRoutes.Includes` | shared/routes.ts:64 | `url.includes(pat)` holds exactly when the pattern occurs at some index. |
| `SharedRoutes.Expand` | shared/routes.ts:65 | The replacement text is built only from characters of the replacement, the match and the text before and after it. |
| `SharedRoutes.Replace` | shared/routes.ts:65 | Without an occurrence the string is unchanged. Otherwise the text before the first occurrence and the text after it are kept at the two ends. |
| `SharedRoutes.IndexOfFirst` | shared/routes.ts:64-65 | An occurrence with none before it is the one the search finds. |
| `SharedRoutes.ExpandWithoutDollar` | shared/routes.ts:65 | A replacement string containing no `$` is inserted exactly as written. |
| `SharedRoutes.ReplaceFirstOccurrence` | shared/routes.ts:65 | `replace` without `$` patterns splices the replacement over the first occurrence and keeps everything else. |
| `SharedRoutes.NatToDecimal` | shared/routes.ts:65 | The numeral is non-empty and made of digits, with no leading zero (0 is "0"). |
| `SharedRoutes.DecimalRoundTrip` | shared/routes.ts:65 | Reading the numeral of n back gives n. |
| `SharedRoutes.JsString` | shared/routes.ts:65 | The string form of a number never contains `$`. |
| `SharedRoutes.NumberStringRoundTrip` | shared/routes.ts:65 | A number's string form reads back as the number, with a '-' in front exactly for negatives. |
| `SharedRoutes.Placeholder` | shared/routes.ts:64-65 | The template literal `:${key}` is a colon followed by the key. |
| `SharedRoutes.ApplyParam` | shared/routes.ts:64-66 | One step of the loop: a key whose placeholder is absent leaves the url unchanged. Otherwise the text before and after the first placeholder is kept. |
| `SharedRoutes.BuildUrl` | shared/routes.ts:60-70 | The url is the path after substituting the entries one after another, in entry order. With no params, or an empty record, it is the path unchanged. |
| `SharedRoutes.AbsentKeyUnchanged` | shared/routes.ts:64 | An entry whose `:key` does not occur leaves the url unchanged. |
| `SharedRoutes.NumberReplacesFirstPlaceholder` | shared/routes.ts:64-65 | A number entry whose `:key` occurs replaces the FIRST occurrence with the number's string form. Nothing else changes. |
| `SharedRoutes.SubstitutedAppend` | shared/routes.ts:63-67 | Substituting a list of entries equals substituting its first part, then its second part applied to that result. |
| `SharedRoutes.ExampleReviewUrl` | shared/routes.ts:60-70 | `buildUrl("/api/questions/:id/review", {id: 7})` is `"/api/questions/7/review"`. |
| `SharedRoutes.DollarAmpersandKeepsUrl` | shared/routes.ts:65 | Because `replace` expands `$&`, a string value `"$&"` puts the placeholder back, so the url is unchanged. |

## Left out

- ParseReviewInput: accepts integer qualities only. The code accepts any number in [0, 5], for example 2.5.
- ReviewQuestion: takes the quality as an integer, so a fractional quality is not modelled.
- NextState: uses exact reals. IEEE-754 doubles, and the single-precision `real` column that stores the ease factor, are not modelled. So the rounding errors of, for example, 2.5 + 0.1 are absent.
- JsRound: is exact, so a product whose double lands just below a half is not modelled.
- Dates are whole day numbers. The time of day that `new Date()` keeps, `setDate` calendar arithmetic and daylight-saving shifts are not modelled.
- The OpenAI call, its prompt and `JSON.parse` are network and library calls. Their outcome is the `reply` parameter of `StoreGeneratedQuestions`: a sequence of text pairs, or `None`. A reply element whose fields are missing or not strings is not modelled.
- `createNote` and `getNotes` handle the notes table, which is not part of this model. The note id is a parameter.
- The insert items omit the user id and the four scheduling columns. In shared/schema.ts these columns are not-null, and no `questions` column other than the serial `id` has a default, so an insert against that schema would be rejected. `notes.userId` on `createNote` is in the same position. The model assumes a database that fills these columns, and takes their values as the `RowDefaults` parameter.
- `Number(req.params.id)` on a non-numeric id (NaN) is not modelled. The id is an integer.
- `interval` and `repetitions` are 32-bit integer columns, and a JavaScript date cannot pass about 10^8 days. The handler never checks that a question is due, so repeated quality-5 reviews multiply the interval by an ease factor that itself grows by 0.1 per call. An interval above 2^31 - 1, or a next review date past the date range, makes the write fail with a server error. The model's unbounded integers do not capture that failure.
- Express request and response plumbing, zod's error messages, the 500 path for other exceptions, and concurrent requests (no lost-update reasoning) are not modelled.
- The seed run by the `setTimeout` in server/routes.ts is not modelled. After a delay, when `getNotes` finds no notes, it calls `createNote` and then one `CreateQuestions` call.
- JWT signing and verification and the auth middleware (server/auth.ts, server/middleware.ts) are thin wrappers over a library.
- UI, client hooks and the percentage display are presentation.
- BuildUrl: a parameter value is a string or an integer. Fractional numbers and the exponent notation of very large numbers in `String(value)` are not modelled.
- BuildUrl: the order of the entries is taken as given. JavaScript's `Object.entries` puts integer-like keys first, in ascending order, then the others in insertion order.
