# Charging-spot store: a verified model

This project models the shared store behind a small charging-spot
scheduler. The store holds:
- the registered users;
- four fixed charging spots, each optionally assigned to a user;
- a waiting queue of users by position;
- a version counter, handed to clients as the `ETag`, and the time of the last daily reset;
- the configured daily reset time.

Four HTTP handlers change the store:
- **state** (`api/state.js`):
  - GET returns a consistent snapshot and its version.
  - PUT is a compare-and-replace guarded by `If-Match`. It rewrites the queue and the spot assignments statement by statement inside one transaction and bumps the version.
- **reset timer** (`api/reset-timer.js`): it computes today's UTC reset instant from the `HH:MM` setting. Once that instant has passed, and no reset has been recorded since, it empties the queue, unassigns every spot, records the reset and bumps the version.
- **settings** (`api/settings.js`): it reads the reset time, or stores a trimmed `HH:MM` value after checking its shape.
- **users** (`api/users.js`):
  - create normalises the name, checks the preference and refuses a taken name;
  - delete parses the id, removes the user from the queue and the spots, then deletes the row. It does not bump the version. As written it answers 204 even when no user had that id (see Findings).

The store is one sequential class, `Store.ChargingStore`, with one method per handler call. The state PUT and the reset each run in one transaction that locks the `state_meta` row, and each is one atomic method. The users and settings handlers run their statements outside any transaction (`api/users.js:57`, `:75-78`, `api/settings.js:34`). The model still treats each such call as one step, so it does not capture another call running between two of those statements. Each method's `modifies` clause names the fields it may change, so every field it leaves out is unchanged by it. For example, PUT of the state can touch only the queue, the spots and the version.

The PUT is modelled the way the handler runs it:
- it clears the queue, inserts the items in a loop, clears the assignments and updates them in a loop;
- each statement carries the constraint checks PostgreSQL applies (`integer` range, primary key, foreign key);
- the first failing statement rolls both tables back.

The loops are proved against value-level specifications in `StateReplace`, and the properties are proved about those specifications. The pure decisions each live in their own module:
- `ResetRule`: when a reset is due;
- `ResetTimeSetting`: which times are accepted;
- `UserInput`: which names, preferences and ids are accepted.

The JavaScript semantics they rest on are modelled explicitly in `Json`, `JsText` and `Numerals`: truthiness, `String()`, `trim` and `\s`, and `parseInt`.

Time is whole seconds since the epoch, passed in as `now`. The UTC day containing `now` starts at `now - now % 86400`. Dafny's `%` never returns a negative number, so this is correct before 1970 too. `Date.UTC` reads a year from 0 to 99 as 1900 to 1999, so the model agrees with the handler only from the year 100 on, which a real clock never falls below.

Four behaviours of the code that the model keeps:
- deleting a user changes the queue and the spots without bumping the version;
- the reset handler stores the database's `NOW()` rather than the instant it decided on. `ResetRule.LastResetAsWritten` models that stamp and shows its effect (see Findings). The class records the decision instant `now` (see Left out);
- the delete's clean-up statements run one by one, with their errors ignored, not in one transaction. In the sequential model the outcome is the same;
- the delete answers 204 for an id no user has, because it reads a `count` property the query result does not carry. `Store.ChargingStore.DeleteUserAsWritten` models that answer; `Store.ChargingStore.DeleteUser`, which the rest of the model uses, answers 404 (see Findings).

A reset time whose hour and minute reach past midnight (`24:00`, `23:60`, `99:99`) passes the settings check. Its target then always lies on a later UTC day, so such a setting never resets (`ResetRule.NoResetWhenTimeOutsideDay`). The model keeps this behaviour without a corrected variant: nothing in the code says which reading of such a time was intended.

## Model

| member | source | states |
|---|---|---|
| Json.Truthy | api/state.js:41 | a JSON value is truthy exactly when it is not `null`, `false`, `0` or `""` |
| Json.TextOrEmpty | api/users.js:49 | `String(v \|\| '')`: a missing or falsy value gives the empty text, and a non-empty string gives itself |
| Json.Stringify | api/users.js:49 | `String()` (also used by `api/settings.js:31`) of a string is the string; of an empty array, or of an array holding only `null`, the empty text; of an array holding one string, that string |
| Json.StringifySingleton | api/users.js:49 | a one-element array other than `[null]` converts as its element does |
| JsText.TrimPadding | api/settings.js:31 | trimming a text that starts and ends with a non-space, padded on either side by white space, gives that text back |
| JsText.Trim | api/settings.js:31 | `trim()` leaves no white space at either end and keeps every non-space character, in order |
| JsText.CollapseSpaces | api/users.js:49 | replacing white-space runs by one space gives an empty text exactly for empty input, and starts with one space exactly where the input starts with white space |
| JsText.CollapseKeepsContent | api/users.js:49 | replacing white-space runs keeps every non-space character, in order |
| JsText.CollapseRun | api/users.js:49 | a white-space run between two texts, the first ending in a non-space, becomes exactly one space, with each side collapsed on its own |
| JsText.NormalizeName | api/users.js:49 | a normalised name has no white space at its ends, every white-space character in it is a single plain space, and it keeps the input's non-space characters in order |
| JsText.NormalizeNameIdempotent | api/users.js:49 | normalising a name twice gives the same result as normalising it once |
| JsText.NormalizedNameFixed | api/users.js:49 | a name already in normal form is left unchanged |
| JsText.NormalizeNameEmpty | api/users.js:49-50 | the normalised name is empty exactly when the input is all white space |
| Numerals.Decimal | api/state.js:20 | `String(n)` of a natural number is a non-empty digit string, one digit long exactly when n < 10 |
| Numerals.DigitsValueOfDecimal | api/state.js:20 | reading back the decimal text of n gives n |
| Numerals.DecimalInjective | api/state.js:33 | two versions have the same text only if they are equal |
| Numerals.DigitPrefix | api/users.js:71 | the digits `parseInt` reads are the longest run of digits at the start of the text |
| Numerals.JsParseIntOfDigitText | api/users.js:71 | `parseInt` of a non-empty text made only of digits is their value, leading zeros included |
| Numerals.JsParseInt | api/users.js:71 | `parseInt` of empty or all-white-space text is NaN |
| Numerals.JsParseIntOfDecimal | api/users.js:71 | `parseInt` of a number's decimal text gives that number |
| Numerals.JsParseIntReadsLeadingNumber | api/users.js:71 | `parseInt` skips leading white space and stops at the first non-digit: a number's text followed by anything but a digit reads as that number |
| Schema.InsertOrIgnore | api/state.js:101-109 | `ON CONFLICT DO NOTHING` adds exactly the absent keys and keeps every existing row |
| Schema.InsertOrIgnoreIdempotent | api/state.js:99-115 | running the seeding again changes nothing |
| Schema.SeedingCreatesFourSpots | api/state.js:101-109 | seeding an empty spot table creates exactly the four spots, all unassigned |
| Schema.SeedOrderCoversSeeds | api/state.js:104-107 | the listing order names every seeded spot once |
| Schema.SeedOrderAscending | api/state.js:21 | the listing order ascends by id, which is `ORDER BY id` |
| Schema.CodePointLessIrreflexive | api/state.js:21 | no id sorts before itself |
| Schema.SeedOrderDistinct | api/state.js:83 | the four spot ids are pairwise different, as the primary key requires |
| StateReplace.Etag | api/state.js:20 | the `ETag`, here and after a PUT (`api/state.js:57`), is a non-empty digit string whose value is the version |
| StateReplace.IfMatchPasses | api/state.js:33 | a non-empty `If-Match` passes only when it is a digit string naming the current version |
| StateReplace.StaleTagRefused | api/state.js:31-36 | a tag read at another version fails the check, and the current version's tag passes |
| StateReplace.QuotedOrWildcardRefused | api/state.js:33 | a quoted tag or `*` never passes, because the comparison is on raw text |
| StateReplace.Int4Param | api/state.js:42 | a value bound to an `integer` column, when accepted, is in the 32-bit range; an in-range number is read as itself |
| StateReplace.Int4ParamOfText | api/state.js:42 | a number and its decimal text bind to the same integer |
| StateReplace.ClearAssignments | api/state.js:48 | clearing the assignments keeps every spot's id, type and label, and unassigns every spot |
| StateReplace.IsQueueItem | api/state.js:41 | an item is inserted exactly when its `position` property is a number and its `user_id` property is present and not `null`, `false`, `0` or `""` |
| StateReplace.SkipsMalformedQueueItem | api/state.js:40-44 | an item that fails that test is passed over: the replacement with it appended is the replacement without it |
| StateReplace.InsertQueueRow | api/state.js:41-42 | one insert succeeds exactly when the item is accepted and its position is free, and then adds exactly that row; a taken position fails as a duplicate key |
| StateReplace.ReplaceQueue | api/state.js:38-45 | every queue row a successful replacement writes fits `integer` and names an existing user |
| StateReplace.ReplaceQueueContents | api/state.js:38-45 | a successful replacement's queue is exactly the well-formed items: their positions are the keys, and each position maps to its item's user |
| StateReplace.ReplaceQueueSucceeds | api/state.js:38-45 | the replacement succeeds exactly when every well-formed item fits `integer` and names an existing user, and no two of them share a position |
| StateReplace.ReplaceQueueAborts | api/state.js:67-69 | once an insert fails, the whole replacement fails with that fault |
| StateReplace.IsSpotItem | api/state.js:50 | an item is applied exactly when its `id` property is present and not `null`, `false`, `0` or `""`, and its `user_id` property is `null` or a number |
| StateReplace.SpotKey | api/state.js:51 | the text bound to `$1` is the id's `String()` text and is never empty; it is absent, so no spot matches, exactly for an array or object id |
| StateReplace.SkipsMalformedSpotItem | api/state.js:48-53 | an item that fails that test is passed over: the updates with it appended are the updates without it |
| StateReplace.AssignSpot | api/state.js:50-51 | one update succeeds exactly when the item is accepted; it keeps every spot, gives the named spot the item's user, and leaves every other spot unchanged |
| StateReplace.ApplySpots | api/state.js:47-54 | successful updates keep exactly the existing spots: `UPDATE` never adds a row |
| StateReplace.ApplySpotsSpec | api/state.js:47-54 | the updates succeed exactly when each well-formed item is accepted; they keep every spot and its type and label, and give each spot the user of the last item naming it |
| StateReplace.LastAssignmentWins | api/state.js:49-52 | the last item naming a spot decides its assignment |
| StateReplace.LastAssignmentUntouched | api/state.js:47-54 | a spot that no item names keeps its assignment, which is none after the clearing |
| StateReplace.ApplySpotsAborts | api/state.js:67-69 | once a spot update fails, the whole update fails with that fault |
| StateReplace.ApplySpotsReferences | api/state.js:82-87 | successful updates assign only existing users |
| StateReplace.ReplaceTables | api/state.js:37-54 | a successful PUT keeps exactly the existing spots, and a replaced queue names only existing users at `integer` positions |
| StateReplace.KeepsTablesWithoutArrays | api/state.js:37-55 | a body with neither a `queue` array nor a `spots` array leaves both tables unchanged |
| StateReplace.ReplaceTablesConsistent | api/state.js:37-54 | a successful PUT keeps every foreign key valid and every spot's id, type and label |
| StateReplace.RoundTrip | api/state.js:18-63 | writing back the body a GET returned succeeds and leaves both tables unchanged |
| ResetTimeSetting.IsHHMM | api/settings.js:32 | a text matching `^\d{2}:\d{2}$` has no white space at either end, so the trimmed value is what is stored |
| ResetTimeSetting.ValidateResetTime | api/settings.js:31-32 | an accepted value matches `^\d{2}:\d{2}$` and has no white space at its ends |
| ResetTimeSetting.AcceptsPaddedTime | api/settings.js:31-32 | a well-formed time surrounded by white space is accepted as the bare time |
| ResetTimeSetting.AcceptsOutOfRangeTime | api/settings.js:32 | `99:99` is accepted: the check is only on the shape |
| ResetTimeSetting.RejectsMissingTime | api/settings.js:31-32 | a missing value or the empty string is refused |
| ResetTimeSetting.OnlyTextOrArrayAccepted | api/settings.js:31-32 | numbers, booleans, `null` and objects are never accepted |
| ResetRule.HourMinuteRead | api/reset-timer.js:14 | a stored `HH:MM` splits at its colon into two two-digit parts, which `parseInt` reads as `Hour(t)` and `Minute(t)` |
| ResetRule.HourRead | api/reset-timer.js:14 | `parseInt` of the part before the colon is `Hour(t)` |
| ResetRule.MinuteRead | api/reset-timer.js:14 | `parseInt` of the part after the colon is `Minute(t)` |
| ResetRule.DayStart | api/reset-timer.js:17 | the start of `now`'s UTC day is a multiple of 86400, at most `now` and less than a day before it |
| ResetRule.ResetTarget | api/reset-timer.js:14-17 | the target falls on `now`'s UTC day at the configured time when hour < 24 and minute < 60; otherwise it rolls forward, never past 99:99 after midnight |
| ResetRule.ResetDue | api/reset-timer.js:18-21 | a due reset has a time of day before midnight, `now` at or past it, and no earlier stamp at or after `now`. For an in-range time, `now` at or past it with no stamp since midnight is due |
| ResetRule.NoResetWhenTimeOutsideDay | api/reset-timer.js:17-21 | a setting at or past 24 hours after midnight never resets |
| ResetRule.TargetRollsOver | api/reset-timer.js:17 | `25:00` is 01:00 on the next UTC day |
| ResetRule.DefaultTarget | api/reset-timer.js:13 | the default `06:00` targets 06:00 UTC |
| ResetRule.SameDaySameTarget | api/reset-timer.js:17 | calls on the same UTC day share one target |
| ResetRule.ResetIdempotent | api/reset-timer.js:18-24 | after a reset, no later call on the same UTC day resets |
| ResetRule.NoResetBeforeTarget | api/reset-timer.js:18-29 | any number of calls before their day's target perform no reset and leave `last_reset` unchanged |
| ResetRule.SameDayResetsOnce | api/reset-timer.js:18-29 | calls within one UTC day reset at most once, and exactly once if one of them was due; with no reset, `last_reset` is unchanged |
| ResetRule.LastResetAsWritten | api/reset-timer.js:21-24 | a due reset stamps the transaction start, otherwise the stamp is kept; it differs from the decision instant only on a reset whose transaction did not start at `now` |
| ResetRule.LastResetAfter | api/reset-timer.js:21-24 | the corrected stamp: a due reset records `now`, after which `now` is no longer due; a call that does not reset keeps the stamp |
| ResetRule.StampBeforeTargetResetsTwice | api/reset-timer.js:24 | with the `NOW()` stamp taken just before the 06:00 target, a second call the same day resets again |
| UserInput.ParsePref | api/users.js:48-53 | an absent preference means `both`; a present one is accepted only as one of the three exact texts |
| UserInput.ParsePrefOfText | api/users.js:51 | each preference's own text is accepted as that preference |
| UserInput.ValidateNewUser | api/users.js:48-53 | an accepted user has a non-empty normalised name and the preference `ParsePref` gives |
| UserInput.ValidateNewUserOutcome | api/users.js:49-53 | "name required" exactly when the name text is all white space; "invalid pref" exactly when the name is fine and the preference is not |
| UserInput.AcceptsNormalizedName | api/users.js:48-53 | a normalised, non-empty name with a valid preference is accepted unchanged |
| UserInput.CheckUserId | api/users.js:70-72 | 400 exactly when `parseInt` gives NaN or 0; an accepted id is non-zero, fits `integer` and is what `parseInt` read |
| UserInput.CheckUserIdOfDecimal | api/users.js:71-72 | the decimal text of any user id is accepted as that id |
| UserInput.CheckUserIdReadsLeadingNumber | api/users.js:70-72 | an id text with leading white space and a trailing non-digit tail, as in `12?x`, is read as the id |
| Store.RemoveUserFromQueue | api/users.js:75 | exactly the queue rows of other users remain, unchanged |
| Store.UnassignUser | api/users.js:76 | only the spots held by the user are unassigned; every other spot is unchanged |
| Store.CleanupOfUnreferencedUser | api/users.js:75-79 | removing a user no row references changes neither the queue nor the spots |
| Store.ChargingStore.constructor | api/state.js:75-115 | the fresh database: no users, an empty queue, the four seeded spots, version 1, no reset, reset time `06:00` |
| Store.ChargingStore.ListQueue | api/state.js:22 | the queue rows, strictly ascending by position, exactly the table |
| Store.ChargingStore.ListSpots | api/state.js:21 | the spot rows, each spot once, ascending by id |
| Store.ChargingStore.GetState | api/state.js:18-26 | the `ETag` is the version's text; the rows list both tables in order; `lastReset` is the stored one |
| Store.ChargingStore.PutState | api/state.js:28-63 | 412 with nothing changed when `If-Match` is present, non-empty and not exactly the current `ETag` text (`01` for version 1 is refused too). Otherwise either the tables become `ReplaceTables` of the body and the version rises by exactly 1, answering the new tag and the listed tables; or the fault is answered with nothing changed |
| Store.ChargingStore.ReplaceAll | api/state.js:37-54 | the in-place writes produce exactly `ReplaceTables` of the body, or roll both tables back and report its fault |
| Store.ChargingStore.WriteTables | api/state.js:37-54 | the statements of a PUT produce exactly `ReplaceTables` of the body, or stop at its fault |
| Store.ChargingStore.WriteQueue | api/state.js:38-45 | the delete-and-insert loop yields `ReplaceQueue` of the items, or the fault it stops at |
| Store.ChargingStore.WriteSpots | api/state.js:47-54 | the clear-and-update loop yields `ApplySpots` of the items on the cleared table, or the fault it stops at |
| Store.ChargingStore.RunResetTimer | api/reset-timer.js:12-29 | a reset is performed exactly when due. It empties the queue, unassigns every spot, records `now` and bumps the version by 1; otherwise nothing changes. Users and settings are never touched |
| Store.ChargingStore.GetSettings | api/settings.js:20-23 | the stored reset time, always of the `HH:MM` shape |
| Store.ChargingStore.PutSettings | api/settings.js:25-36 | the answer is the validated value; an accepted value is stored as trimmed, and a refused one changes nothing |
| Store.ChargingStore.StoreResetTime | api/settings.js:34 | the `UPDATE` of the settings row stores the validated time and keeps the store's invariant |
| Store.ChargingStore.CreateUser | api/users.js:40-66 | a 400 changes nothing. A full sequence gives 500. A taken name gives 409 and leaves the users unchanged, though the id is still used up. Otherwise the new user gets the next id |
| Store.ChargingStore.InsertUser | api/users.js:55-65 | the id comes from the sequence before the unique check; 409 exactly when the name is in use |
| Store.ChargingStore.DeleteUser | api/users.js:68-82 | the corrected delete: 400 for NaN or 0 and 500 for an id `integer` cannot hold, both with nothing changed. Otherwise the user's queue rows and spot assignments go and the version is not bumped; 204 exactly when the user row existed and is deleted, 404 exactly when it was missing, with nothing changed. The 404 is the evidently intended answer that the code as written never gives (see Findings) |
| Store.ChargingStore.DeleteUserAsWritten | api/users.js:68-80 | the delete as written: 400 and 500 as above; every other id is answered 204 after the same removals, including an id no user has, which changes nothing |
| Store.AbsentUserDeleteDiffers | api/users.js:78-79 | on a fresh store, deleting the absent user 7 is answered 204 as written and 404 once the deleted-row count is read |
| Store.ChargingStore.RemoveUser | api/users.js:75-81 | the three statements remove exactly the user's rows and references, and report whether the user existed |

## Left out

- CORS headers, OPTIONS and 405 routing, the `DATABASE_URL` checks, connection pools, logging and `api/health.js`: these are HTTP and process plumbing.
- Body parsing (`req.body`, `rawBody`) and reading the id from the query or the URL: the model takes the parsed JSON values and the id text as parameters.
- Concurrency and `FOR UPDATE`: the model is sequential, and each handler call is one atomic method. That includes the users and settings calls, whose statements each commit on their own.
- The clocks: `new Date()` becomes the `now` parameter in whole seconds, so sub-second precision is not modelled.
- The refreshed read after a PUT runs outside the transaction. The model lists the tables at commit, which is the same in a sequential world.
- JSON numbers are integers in the model. Fractional numbers and numbers above 2^53 are not modelled; PostgreSQL would refuse a fractional position.
- StateReplace.Int4Param: does not accept the leading or trailing white space PostgreSQL tolerates in a textual integer, nor the forms PostgreSQL 16 and later also read (`1_000`, `0x1F`, `0o17`, `0b101`), because only numbers and digit strings are modelled as inputs.
- Store.ChargingStore.RunResetTimer: records `now`, the instant the decision used, while `api/reset-timer.js:24` stores `NOW()`, the start of the transaction on the database's clock. The stamp as written is `ResetRule.LastResetAsWritten`; the row under Findings shows the second reset it allows.
- Text parameters containing U+0000, which PostgreSQL refuses, are not modelled. JavaScript strings are modelled as sequences of code points, not UTF-16 units.
- The order of the spot listing is code-point order. A locale collation orders the four seeded ids the same way.
- The `version` column is a `bigint`. Its overflow after 2^63 - 1 updates is not modelled.
- The fallbacks `meta.rows[0]?.version || 1`, `reset_time || '06:00'` and `s.rows[0]?.reset_time || '06:00'` are not modelled as separate paths; the settings read returns the stored time. Seeding always creates both singleton rows with these values, and no handler deletes them or stores an empty time.
- The users GET listing (`api/users.js:34-38`) is outside the modelled core.
- Detecting a duplicate name by inspecting the error text is modelled as the unique constraint itself.
- The DDL statements are modelled only through the constraints and seeding they establish: the constructor and the class invariant.

## Findings

| source | as written | input that shows it | evidently intended | confidence | as-written member | corrected member |
|---|---|---|---|---|---|---|
| api/reset-timer.js:15-24 | the decision compares the host clock `now` with the target, but the stamp stored is the database's `NOW()`, the start of the transaction, which is earlier than `now` | reset time `06:00`; the transaction starts at 05:59:59 and `now` is 06:00:00, so the reset is performed with `last_reset` = 05:59:59. A call at 06:05:00 finds `last_reset` < target and resets again the same day | record the instant the decision used, so that later calls that day skip | medium, not executed | ResetRule.StampBeforeTargetResetsTwice | ResetRule.ResetIdempotent |
| api/users.js:78-79 | the tagged-template query function resolves to the array of rows, which has no `count` property, so `del.count === 0` is never true and the 404 branch is dead | DELETE with id `7` on a store that has no user 7: the three statements change nothing and the answer is 204 | answer 404 when the `DELETE FROM users` removed no row, for instance by testing the returned rows or the statement's row count | high, not executed | Store.AbsentUserDeleteDiffers | Store.ChargingStore.DeleteUser |
