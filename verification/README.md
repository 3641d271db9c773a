# whatdidido handlers in Dafny

A model of the three request handlers at the heart of whatdidido, a small
Express/Mongoose service that records what a user did as a run of events:

- **Events** (`app/api/events.js`, `submit`). A submission of a category is
  folded into the caller's most recently updated event when that event has
  the same category: its count goes up by one. Otherwise a new event of
  count 1 is stored. The caller's events are therefore a run-length count of
  their successful submissions. A failed submission stores nothing, and a
  category the caller does not own still stores an unconsolidated event (see
  "## Findings").
- **Categories** (`app/api/categories.js`). `add`, `remove`, `modify` and
  `list` manage a registry of categories, each scoped to the calling user.
- **Authentication** (`app/api/authentication.js`).
  - `register` checks four required fields in a fixed order, refuses an
    email that is already in use, and creates an unverified user.
  - `login` answers with a token and the user's public view
    (`setUserInfo`).

Files:

- `requests.dfy` defines what the three handlers share:
  - request fields as `Option` values, with `None` standing for any falsy
    JavaScript value;
  - `Truthy`;
  - the first HTTP response as `Response`: `Ok(status, body)`,
    `Err(status, error)` or `Forward(err)`. `Forward` is an error passed to
    `next`.
- `models.dfy` defines the stored records.
- `events.dfy`, `categories.dfy` and `authentication.dfy` model one handler
  file each.

How the database is modelled:

- Each store is a class holding a sequence of records and the next fresh
  id. The handlers' effects are methods on those classes.
- Every method is proved equal to a specification function, or states its
  new state case by case. The store invariants (distinct ids, counts of at
  least one, unique emails) are kept as `Valid()`.
- A database failure is a parameter of each call. It names the step that
  fails if the handler gets that far.
- The event store is kept in ascending `updatedAt` order. "The latest event"
  is therefore the last event the caller owns. Saving a record upserts it by
  id and moves it to the end.

## Model

| member | source | states |
|---|---|---|
| Events.OwnedMember | app/api/events.js:39 | an event is among the caller's events if and only if it is stored and owned by the caller |
| Events.LatestEvent | app/api/events.js:39 | the latest event is absent exactly when the caller owns no event; when present it is stored and owned by the caller |
| Events.LatestIsLastOwned | app/api/events.js:39 | the latest event is the last of the caller's events in update order |
| Events.Save | app/api/events.js:54 | the saved record ends the store, which grows by at most one record |
| Events.WithoutMember | app/api/events.js:54 | the upsert removes exactly the record with the saved id and keeps every other record |
| Events.NextRecord | app/api/events.js:43-53 | same category as the latest event: the record is that event with its count raised by one. Otherwise: a fresh id, the caller as owner, count 1. The category is always the submitted one |
| Events.Consolidate | app/api/events.js:42-55 | the store is never empty afterwards, and its last record belongs to the caller, has the submitted category and a count of at least one |
| Events.SubmitEffect | app/api/events.js:17-65 | 200 'Event recorded' if and only if a category was given, no step fails and the caller owns that category, and then the store holds exactly the consolidated events. No category: 422 'You must include an event category.', no write. A failed category lookup: 422 'Event creation error', no write. A category the caller does not own: 422 'Invalid category.'. A valid category whose event lookup or save fails: 422 'Event creation error', no write. The only error that writes is 'Invalid category.' |
| Events.IntendedSubmitEffect | app/api/events.js:34-40 | corrected handler: an error response leaves the store unchanged, and a success is exactly the written handler's success |
| Events.SaveKeepsWellformed | app/models/event.js:6-9 | saving a fresh record of count 1, or an existing record with count at least 1, keeps ids distinct and every count at least 1 |
| Events.SaveStep | app/api/events.js:43-54 | saving the record built from no event or from the caller's latest event keeps the store well formed under the advanced counter, and adds a record exactly when one is created |
| Events.EventStore.Submit | app/api/events.js:17-65 | the response and the new store are those of the handler as written, including the failure steps; the store stays well formed; the id counter advances only when a record is added |
| Events.ConsolidateAppendsNew | app/api/events.js:43-49 | with no latest event, or one of another category, the caller's events gain exactly one new event of count 1 at the end |
| Events.ConsolidateRaisesLatest | app/api/events.js:50-54 | when the latest event has the submitted category, it is the only thing that changes for the caller: count plus one, same id and category |
| Events.ConsolidateOwned | app/api/events.js:42-55 | both cases of the decision, as the caller sees them |
| Events.ConsolidateCreates | app/api/events.js:43-49 | a creation appends one record and leaves every existing record unchanged and in place |
| Events.ConsolidateIncrementsInPlace | app/api/events.js:50-54 | a consolidation adds no record |
| Events.ConsolidateKeepsWellformed | app/api/events.js:42-55 | a successful submission keeps ids distinct and below the advanced counter, and every count at least one |
| Events.SubmitLeavesOthersAlone | app/api/events.js:34-54 | whatever the outcome, another user's events are neither changed nor reordered |
| Events.SubmitReadsOnlyCallersEvents | app/api/events.js:34-39 | two stores that agree on the caller's events give the same response and leave the caller with the same events |
| Events.LatestReadsOnlyCallersEvents | app/api/events.js:39 | stores that agree on the caller's events agree on the caller's latest event |
| Events.ConsolidateReadsOnlyCallersEvents | app/api/events.js:42-55 | consolidating into stores that agree on the caller's events leaves them agreeing |
| Events.FreshSaveReadsOnlyCallersEvents | app/api/events.js:43-54 | saving the new event of count 1 into stores that agree on the caller's events leaves them agreeing |
| Events.SubmitRecordsOneOccurrence | app/api/events.js:42-58 | after a successful submission of c, the latest event has category c and the caller's counts add up to one more |
| Events.SubmitKeepsWellformed | app/api/events.js:43-54 | every submission, whatever its outcome, keeps every stored count at least one and ids distinct |
| Events.TallyAppend | app/api/events.js:43-49 | a new event of count 1 after events whose last is of another category starts a new run |
| Events.TallyRaise | app/api/events.js:50-53 | raising the count of the last event extends its run by one |
| Events.ConsolidateTallies | app/api/events.js:42-55 | one submission counts one more occurrence of its category in the caller's (category, count) runs |
| Events.NextFreshIdCountsCreations | app/api/events.js:43-54 | the fresh id a submission leaves for the next one advances by the number of events the submission added |
| Events.ReplayKeepsWellformed | app/api/events.js:42-55 | any sequence of successful submissions, the fresh id advancing only on a creation as the store's counter does, keeps the store well formed |
| Events.ReplayTallies | app/api/events.js:42-55 | after any sequence of successful submissions, the caller's events are the run-length count of the submitted categories |
| Events.TallyExample | app/api/events.js:42-55 | the (category, count) runs of c1, c1, c2, c1 are (c1, 2), (c2, 1), (c1, 1) |
| Events.ReplayExample | app/api/events.js:42-55 | submitting c1, c1, c2, c1 from no events gives three events, with counts 2, 1, 1 |
| Events.InvalidCategoryStillWrites | app/api/events.js:34-54 | as written, an unknown category is answered 'Invalid category.' and a new event is still stored |
| Events.InvalidCategoryAppendsFresh | app/api/events.js:34-54 | as written, a category the caller does not own, with the category lookup and the save succeeding, is answered 'Invalid category.' and the store gains a fresh event of count 1 at the end, never consolidated into the latest event |
| Events.IntendedErrorsWriteNothing | app/api/events.js:34-40 | corrected handler: every error response leaves the store unchanged, and it agrees with the written handler whenever the category is missing or valid |
| Events.IntendedKeepsGuarantees | app/api/events.js:17-65 | the corrected handler keeps the store well formed and leaves other users' events alone |
| Categories.FindCategory | app/api/categories.js:102 | finds the first record with that id owned by the caller; `None` exactly when there is none |
| Categories.OwnedCategories | app/api/categories.js:143 | the caller's categories: no more than are stored, and each one owned by the caller |
| Categories.OwnedCategoriesMember | app/api/categories.js:143 | a category is among the caller's categories if and only if it is stored and owned by the caller |
| Categories.RemoveMatching | app/api/categories.js:72 | no surviving record has both the removed id and the caller as owner, and the store does not grow |
| Categories.RemoveMatchingMember | app/api/categories.js:72 | a record survives a removal if and only if it does not both have that id and belong to the caller |
| Categories.Page | app/api/categories.js:143 | skip then limit: entry k is entry skip+k of the input; at most `limit` entries, where a limit of 0 means no limit; the page is short only when the input runs out |
| Categories.List | app/api/categories.js:139-152 | a failure and only a failure gives 422 'Error quering for categories.'. Otherwise 200, and entry k is the caller's (start+k)-th category, with start defaulting to 0. There are at most `pageSize` entries (the default when absent), and fewer only when the caller's categories run out |
| Categories.ListReturnsOwnCategories | app/api/categories.js:143-145 | every category `list` returns is stored and belongs to the caller |
| Categories.BuildCategory | app/api/categories.js:27-49 | the new record has the name and the caller as owner. `start` is true only when supplied as true. `code` and `context` are set exactly when they were supplied truthy |
| Categories.Merge | app/api/categories.js:104-120 | the merged record keeps its id and owner, and equals the stored record when no field is truthy |
| Categories.ApplyFields | app/api/categories.js:104-120 | the field-by-field update yields the merged record, and `modified` is set if and only if the record changed |
| Categories.CategoryStore.Add | app/api/categories.js:26-59 | a falsy name gives 422 and writes nothing. A failed save gives 422 'Category creation error' and writes nothing. Otherwise 200 with the built record appended and everything else unchanged. The id counter advances exactly when the name is truthy, since the record is built before it is saved |
| Categories.CategoryStore.Remove | app/api/categories.js:64-80 | a missing id gives 422 'No category specified.'. A failure gives 422 'Category removal error'. Otherwise 200, with the caller's record of that id removed |
| Categories.CategoryStore.Modify | app/api/categories.js:85-134 | the four 422 cases, in order: no id, no fields, lookup failure or no record, no change. A failed save gives 422 'Category modification error'. Otherwise 200, with only that record replaced by the merged one |
| Categories.RemoveKeepsDistinct | app/api/categories.js:72 | removal keeps ids distinct and below the store's next id |
| Categories.RemoveLeavesOthersAlone | app/api/categories.js:72 | a removal never changes another user's categories |
| Categories.RemoveUnmatchedIsNoOp | app/api/categories.js:72-75 | an id the caller does not own removes nothing, yet success is reported |
| Categories.MergeWritesTruthyFields | app/api/categories.js:104-120 | each truthy field among name, `start`, code and context is written, every other field kept, and id and owner never change |
| Categories.MergeNeverClears | app/api/categories.js:104-120 | `modify` can never turn `start` off, clear `code` or `context`, or empty a name |
| Categories.MergeIdempotent | app/api/categories.js:104-122 | repeating a modification changes nothing, so the repeat is answered 'No modified parameters specified.' |
| Categories.PagesJoin | app/api/categories.js:140-143 | the page of n after skip followed by the page of m after skip+n is the page of n+m after skip |
| Categories.AddThenList | app/api/categories.js:139-145 | a category just stored for the caller is the single entry of the page of size 1 that starts at the caller's previous number of categories |
| Authentication.SetUserInfo | app/api/authentication.js:13-19 | the public view carries the user's id, display name and email |
| Authentication.Login | app/api/authentication.js:32-39 | 200 with the user's id, display name and email, and a token that verifies to exactly that view |
| Authentication.ValidateRegistration | app/api/authentication.js:52-69 | no message if and only if all four required fields are truthy; otherwise one of the four field messages |
| Authentication.ValidateReportsFirstMissing | app/api/authentication.js:52-69 | the first missing field in the order email, display name, password, time zone decides the message |
| Authentication.MessagesNameTheirFields | app/api/authentication.js:52-69 | in each of the four messages, the first occurrence of its field's name ('email', 'display name', 'password', 'time zone') comes after the first character |
| Authentication.FindByEmail | app/api/authentication.js:71 | finds a stored user with that email; `None` exactly when no user has it |
| Authentication.NewUser | app/api/authentication.js:80-89 | the created user has the requested email, display name, password and time zone, the fresh id, and is not verified |
| Authentication.RegisterEffect | app/api/authentication.js:44-103 | a creation if and only if the fields are valid, nothing fails and the email is free; a creation appends exactly the new user; any other answer writes nothing. A missing field is answered 422 with that field's message. With valid fields, a failed lookup, or a failed save of a free email, is passed on as `Forward` of its error, and the only 422 answer is 'That email address is already in use.' |
| Authentication.UserStore.Register | app/api/authentication.js:44-103 | the response and the users afterwards are those of the handler; the store keeps unique emails and ids; the id counter advances only on a creation |
| Authentication.RegisterWritesOnlyOnSuccess | app/api/authentication.js:52-101 | a missing field, a failure or a taken email writes nothing; a creation appends exactly one user |
| Authentication.RegisterCreates | app/api/authentication.js:80-101 | success implies valid fields and no failure; the requested user is appended unverified; the answer is 201 with its id, display name and email and a token carrying them |
| Authentication.RegisterRejectsTakenEmail | app/api/authentication.js:71-77 | an email a stored user already has gives 422 'That email address is already in use.' and writes nothing, unless the lookup fails |
| Authentication.RegisterKeepsWellformed | app/api/authentication.js:71-91 | registration keeps ids distinct and below the counter and emails unique |
| Authentication.RegisterTwiceRejected | app/api/authentication.js:71-101 | after a successful registration, a second one with the same email is refused and writes nothing |
| Authentication.SessionHidesSecrets | app/api/authentication.js:13-19 | the body sent never depends on the password, time zone or verified flag |
| Authentication.SetUserInfoExact | app/api/authentication.js:13-19 | two users get the same public view if and only if their ids, display names and emails agree |

## Left out

- Token signing and verification (`jsonwebtoken`) are not modelled: a token is the payload it carries. The `expiresIn` of 10080 seconds is left out.
- Password hashing and comparison (bcrypt, in the save hook and `comparePassword` of `app/models/user.js`) are not modelled: the stored password is the one supplied.
- `generateCode` is not modelled. It builds a verification code from `Math.random()` floating-point arithmetic, and the code is not part of any response.
- `insert`, `remove` and `query` of `app/api/events.js` are not modelled because their bodies are empty.
- Mongoose's `lowercase` and `unique` options on the user email are not modelled: emails are compared exactly as sent. A duplicate-key error on save is covered by the save fault.
- The schema-only category fields `concurrent` and `timeout` are not modelled: no handler reads or writes them.
- The category schema declares no `start` field, so Mongoose would drop it. The model keeps `start` as the handlers write it.
- `start` in an `add` or `modify` body is modelled as a boolean (`None` for absent or falsy). A non-boolean truthy value, such as the string from a form body, is not representable.
- `parseInt` of non-numeric `start` or `pageSize` (NaN) in `list` is not modelled. Both are taken as naturals. A `pageSize` of 0 follows MongoDB, where a limit of 0 means no limit.
- `config/main` is not part of this model. `defaultPageSize` is a parameter of `List`.
- Only the first response of a handler is modelled. Some of the source's promise chains send a second response after an early error (`app/api/events.js:36-62`, `app/api/categories.js:121-131`). Logging with `console.error` is left out too.
- A malformed id that Mongoose cannot cast rejects the query. The lookup fault parameter covers this.
- Concurrency is not modelled: calls are sequential, so the read-then-write race in `submit` cannot occur.
- Ids are naturals taken from a counter in each store. The event and user counters advance only when a record is added. The category counter advances when `add` builds its record.
- Timestamps are not stored: the order of the event sequence stands for `updatedAt`. The sort at `app/api/events.js:39` has no second key, so MongoDB may return any of several events with equal `updatedAt`. The model breaks such ties by position: the event saved last is the latest.

## Findings

| source | as written | input that shows it | evidently intended | confidence | as-written member | corrected member |
|---|---|---|---|---|---|---|
| app/api/events.js:34-54 | When the category lookup finds nothing, the handler answers 'Invalid category.', but the promise chain goes on with an undefined event. It then builds a new event of count 1 for that category and saves it. | caller 1, category 7, no categories, no events: the answer is 422 'Invalid category.' and the store becomes one event (id 0, user 1, category 7, count 1) | an unknown category is rejected and nothing is written | high, not executed | Events.InvalidCategoryStillWrites | Events.IntendedErrorsWriteNothing |

`Events.EventStore.Submit` and the lemmas about `Events.SubmitEffect` follow the code as written. `Events.InvalidCategoryAppendsFresh` states the as-written fall-through for every store, and `Events.InvalidCategoryStillWrites` is the concrete input of the table. `Events.IntendedSubmitEffect` is the corrected handler. `Events.IntendedErrorsWriteNothing` and `Events.IntendedKeepsGuarantees` are proved about it.
