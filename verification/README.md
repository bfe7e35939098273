# Mergington High School activity and student registry, in Dafny

This project models the in-memory registry behind the school's activity API.
The registry holds two stores:

- the **activity catalogue**, keyed by activity name, where each activity has a participant list of student emails;
- the **student store**, keyed by email, where each student has a name, email and grade record.

Each HTTP handler is modelled as a pure transition. It takes a `State` holding both stores. A mutating handler returns a `Step`: its response (`Ok` or an `Err` of `NotFound`/`Conflict`, the 404/400 `HTTPException`s) and the state afterwards. Read-only handlers return only the response.

Both stores are Python dicts, and Python dicts keep insertion order. So both are modelled as insertion-ordered dictionaries (module `Dict`): an association list with distinct keys. Assigning to an existing key keeps its position, assigning to a new key appends, and `pop` closes the gap. This keeps three things faithful:

- catalogue order in the per-student activity listing;
- store order in the export;
- the move of a renamed student to the end of the store: the record is popped and re-inserted under the new key.

Participant lists are sequences. Python's `list.remove` is `Participants.RemoveFirst`: it drops the first occurrence only.

Modules:

- `Options`: optional values, for lookups and omitted request fields.
- `Dict`: the ordered dictionary.
- `Participants`: list removal and the no-duplicates predicate.
- `Text`: ASCII lower-casing and substring search.
- `School`: the entities, outcome types and the delete/rename cascades over the catalogue.
- `ActivityApi`: signup and unregister.
- `StudentApi`: the student handlers.
- `StudentLaws`: the cascade and round-trip lemmas.
- `Reports`: the per-student listing and the export rows.
- `Examples`: concrete runs on a fragment of the seeded data.

Behaviours the model captures as the code has them:

- **A rejected rename still writes.** `update_student` overwrites name and grade before it checks whether the new email is taken. An update that fails with Conflict has therefore already changed them (`StudentApi.UpdateInPlace`, `Examples.RejectedRenameStillWritesName`). So `update_student` is not atomic: a Conflict on the new email comes after name and grade were written.
- **No-duplicates is not an invariant.** Signup never checks that the email belongs to a student. A rename appends the new email to every list that held the old one, so a list that already held both ends with two copies of the new email. Unregister and delete then remove only the first copy (`Examples.RenameOntoListedEmailDuplicates`, `Examples.UnregisterLeavesSecondCopy`). Signup, unregister and delete preserve no-duplicates. A rename preserves it exactly when no list held both the old and the new email (`StudentLaws.RenameDuplicatesIffCoListed`).
- **A rename reorders.** Each participant list that held the old email loses its first copy of it (so all of it, when the list was duplicate-free) and gets the new email appended at the end. The student record likewise moves to the end of the student store.

## Model

| member | source | states |
|---|---|---|
| `Dict.Get` | src/app.py:207-211 | lookup is defined exactly for the stored keys, and what it returns is stored under the key |
| `Dict.GetEntry` | src/app.py:207-211 | with distinct keys, lookup returns `Some(v)` exactly when `(k, v)` is an entry |
| `Dict.IndexOfFirst` | src/app.py:207-211 | a key's position is the first place it occurs as a key |
| `Dict.Put` | src/app.py:280-284 | dict assignment: the key then maps to the value and every other key's lookup is unchanged; an existing key's entry is replaced at its position, a new key is appended at the end |
| `Dict.PutInPlace` | src/app.py:306-309 | overwriting an existing key keeps its position and every entry before and after it |
| `Dict.Pop` | src/app.py:346-347 | popping a key removes exactly its entry: the key is gone, the size drops by one if it was present, and the remaining entries keep their order with the gap closed at the key's position; every other lookup is kept |
| `Dict.Filter` | src/app.py:257-260 | a dict comprehension with a condition keeps exactly the entries whose value satisfies it, and keeps the whole dict when all do |
| `Dict.FilterCommutes` | src/app.py:254-267 | applying two value filters in either order yields the same dict |
| `Dict.FilterCongruent` | src/app.py:257-267 | two conditions that agree on every stored value select the same dict |
| `Dict.FilterEntriesValid` | src/app.py:257-267 | a filtered dict still has pairwise distinct keys |
| `Dict.PrependValid` | src/app.py:257-260 | putting an entry with an unused key in front keeps the keys distinct |
| `Participants.RemoveFirst` | src/app.py:243 | `list.remove` deletes exactly the element at the first occurrence's position and keeps the rest in order |
| `Participants.RemoveFirstMultiset` | src/app.py:243 | removal takes exactly one copy out of the list's contents |
| `Participants.RemoveFirstMembers` | src/app.py:243 | removal shortens the list by one and leaves every other email's membership unchanged |
| `Participants.RemoveFirstNoDup` | src/app.py:343-344 | on a duplicate-free list, removal leaves no copy behind and the list stays duplicate-free |
| `Participants.AppendNoDup` | src/app.py:214-221 | appending an email that was checked absent keeps the list duplicate-free |
| `Participants.AppendThenRemove` | src/app.py:221 | append followed by `remove` of an absent email restores the original list |
| `Participants.RemoveFirstKeepsDuplicate` | src/app.py:344 | with two copies present, removal leaves one behind |
| `Text.LowerChar` | src/app.py:256 | lower-casing sends each capital `A`-`Z` to the letter 32 code points above it (its lower-case letter) and keeps every other character |
| `Text.Lower` | src/app.py:256 | lower-casing a string keeps its length and lower-cases each character in place |
| `Text.Contains` | src/app.py:259 | the scan for `q in s` holds exactly when `q` occurs at some position of `s` |
| `School.Error.Status` | src/app.py:208-216 | the status is 404 exactly for NotFound and 400 exactly for Conflict, the two codes every `HTTPException` of the handlers uses |
| `School.CascadeAll` | src/app.py:324-327 | the cascade keeps the catalogue's names and order and applies the list edit to every activity |
| `School.ApplyCascade` | src/app.py:325-327 | one list edit (the rename loop body here; the delete loop body at lines 343-344 has the same shape): the delete edit takes one copy of the email out of the list's contents (none if absent); the rename edit swaps one copy of the old email for the new one and leaves a list without the old email untouched |
| `School.DropEffect` | src/app.py:342-344 | the delete edit shortens a list by one exactly when it held the email, keeps every other email, and on a duplicate-free list removes the email entirely |
| `School.RenameEffect` | src/app.py:325-327 | the rename edit keeps a list without the old email as it was; otherwise it keeps the length, ends with the new email and keeps every email other than the old and new ones; a duplicate-free list stays duplicate-free if it lacked the new email, and a list holding both emails always ends with a duplicate |
| `School.RenameAll` | src/app.py:324-327 | over the whole catalogue, the rename edit keeps lists without the old email, ends every list that had it with the new email at the same length, and keeps all third emails |
| `ActivityApi.Signup` | src/app.py:203-222 | NotFound iff the activity is unknown; Conflict iff the email is already listed; success iff the activity exists and the email is not listed; errors leave the state unchanged; success appends the email, keeps every other activity, the catalogue order and the student store |
| `ActivityApi.Unregister` | src/app.py:225-244 | NotFound iff the activity is unknown; Conflict iff the email is not listed; success iff the activity exists and lists the email; errors leave the state unchanged; success removes the first occurrence, the list shrinks by exactly one, nothing else changes |
| `ActivityApi.SignupPreservesNoDuplicates` | src/app.py:213-221 | signup never creates a duplicate participant |
| `ActivityApi.UnregisterPreservesNoDuplicates` | src/app.py:236-243 | unregister keeps every participant list duplicate-free |
| `ActivityApi.SignupThenUnregister` | src/app.py:220-243 | a successful signup followed by unregistering the same email succeeds and restores the state exactly |
| `ActivityApi.SignupTwiceConflicts` | src/app.py:213-218 | signing the same email up twice: the second call is a Conflict and changes nothing |
| `StudentApi.GetStudents` | src/app.py:249-269 | an entry is returned iff it is in the store and passes every given filter (case-insensitive substring of name or email; exact grade); lookups agree with the store; with no filter the store comes back whole |
| `StudentApi.Given` | src/app.py:255 | a query parameter filters only when it is present and non-empty (Python truthiness; the grade test at line 263 is the same) |
| `StudentApi.MatchesSearch` | src/app.py:256-259 | a student matches when the lower-cased query occurs at some position of the lower-cased name or the lower-cased email |
| `StudentApi.SearchIgnoresCase` | src/app.py:255-260 | queries that lower-case alike select the same students |
| `StudentApi.FilterOrderIrrelevant` | src/app.py:254-267 | filtering by grade first and by search second gives the same result |
| `StudentApi.CreateStudent` | src/app.py:272-286 | Conflict iff the email is already a key, with the state unchanged; success iff it is not, and then the record is appended under its email and the catalogue is untouched; records keep matching their keys |
| `StudentApi.GetStudent` | src/app.py:289-295 | NotFound iff the email is not a key; success iff it is, returning the record stored under it |
| `StudentApi.Patch` | src/app.py:305-309 | name and grade are overwritten exactly when provided; the email field is kept |
| `StudentApi.Renames` | src/app.py:312 | an update renames only when it carries an email that differs from the key it is sent to |
| `StudentApi.UpdateStudent` | src/app.py:298-331 | NotFound iff unknown, with the state unchanged; Conflict iff a different new email is already a key; success in every other case; without a rename the result is the patched record; a successful rename returns it with the new email; records keep matching their keys |
| `StudentApi.UpdateInPlace` | src/app.py:305-315 | when the key is kept (no rename, or a rejected one) the stored record is patched in place, every other record and the catalogue are untouched; so a rejected rename has already written name and grade |
| `StudentApi.UpdateMoves` | src/app.py:317-329 | renaming a stored student to an email no student has succeeds; it removes the old key, closes its gap and appends the patched record under the new key, so the other records keep their order and the store its size; it applies the rename edit to the catalogue |
| `StudentApi.UpdateRenamesCatalogue` | src/app.py:323-327 | renaming a stored student to a free email applies the rename edit to every activity's list |
| `StudentApi.PutThenRekey` | src/app.py:309-321 | writing the patched record and then moving it to a fresh key equals the store with the old entry cut out and the record appended under the new key |
| `StudentApi.PutKeepsRecordsMatch` | src/app.py:306-309 | overwriting name and grade in place keeps every record's email equal to its key |
| `StudentApi.Rekey` | src/app.py:321 | moving a record to a fresh key removes the old key, keeps the size, puts the record last under the new key and keeps every entry under a third key |
| `StudentApi.RekeyClosesGap` | src/app.py:321 | the move is exactly the store with the old entry cut out, the gap closed, and the record appended under the new key |
| `StudentApi.RekeyKeepsRecordsMatch` | src/app.py:318-321 | re-keying a record whose email was set to the new key keeps every record matched to its key |
| `StudentApi.DeleteStudent` | src/app.py:334-349 | NotFound iff unknown, with the state unchanged; success iff known, and then the entry is cut out of the store with the other students kept in order, and the delete edit runs over the catalogue |
| `StudentLaws.DeleteCascade` | src/app.py:341-344 | deleting a stored student: every list that held the email is one shorter, other lists keep their length, and no other email's membership changes |
| `StudentLaws.DeleteRemovesEverywhere` | src/app.py:338-349 | without duplicates, deleting a stored student leaves its email listed nowhere, no duplicates appear, and reading the student gives NotFound |
| `StudentLaws.DeletePreservesNoDuplicates` | src/app.py:341-344 | delete keeps every participant list duplicate-free |
| `StudentLaws.RenameCascade` | src/app.py:323-327 | renaming a stored student to a free email: lists without the old email are unchanged; lists with it keep their length, end with the new email, keep all third-party emails and, if duplicate-free, no longer hold the old email |
| `StudentLaws.RenamePreservesNoDuplicates` | src/app.py:323-327 | a rename keeps the catalogue duplicate-free when the new email is listed nowhere |
| `StudentLaws.RenameDuplicatesIffCoListed` | src/app.py:317-327 | on a duplicate-free catalogue, the catalogue after an update is duplicate-free exactly when the update was rejected or no list held both the old and the new email |
| `StudentLaws.RenameThenGet` | src/app.py:312-329 | after renaming a stored student to a free email the old key reads NotFound and the new key reads the record with the new email and the updated name and grade |
| `StudentLaws.CreateThenGet` | src/app.py:280-295 | a student created under a fresh email reads back as the record sent |
| `StudentLaws.CreateThenDelete` | src/app.py:334-349 | creating a student under a fresh email that is listed nowhere and then deleting it restores the state exactly |
| `Reports.EnrolledMembers` | src/app.py:361-367 | the listing holds exactly the name/description/schedule projections of the activities whose lists hold the email |
| `Reports.EnrolledLength` | src/app.py:383-386 | the listing's length equals the export's activity count |
| `Reports.CountZeroIffListedNowhere` | src/app.py:385 | the count is zero exactly when no list holds the email |
| `Reports.GetStudentActivities` | src/app.py:352-369 | NotFound iff the student is unknown; success iff known, and then the loop returns the catalogue-ordered listing, whose length is the export's count |
| `Reports.CountActivities` | src/app.py:385 | the counting loop returns the number of activities listing the email, zero exactly when none does |
| `Reports.ExportStudentsCsv` | src/app.py:372-386 | the export has the fixed header and one row per student in store order: name, email and grade from the record, count taken under the key |
| `Examples.Seed` | src/app.py:28-95 | the seed fragment has consistent records and no duplicate participants |
| `Examples.SignupNewStudent` | src/app.py:207-222 | signing a new email up for Chess Club returns the confirmation and grows its list to three |
| `Examples.SignupAlreadyListed` | src/app.py:213-218 | signing Michael up again is a Conflict and leaves the state as it was |
| `Examples.MichaelsActivities` | src/app.py:359-369 | Michael's listing is exactly Chess Club's summary |
| `Examples.DeleteMichael` | src/app.py:341-347 | deleting Michael leaves Chess Club with Daniel only |
| `Examples.RejectedRenameStillWritesName` | src/app.py:305-315 | a rename onto Daniel's email is a Conflict, but Michael's name has already changed |
| `Examples.GuestListed` | src/app.py:204-244 | a catalogue listing an email with no student record is duplicate-free |
| `Examples.GuestListedReachable` | src/app.py:203-244 | that catalogue is reached from the seed by signing the guest up for Chess Club and unregistering Daniel |
| `Examples.GuestCascade` | src/app.py:324-327 | renaming Michael onto the listed guest email leaves Chess Club listing the guest twice |
| `Examples.RenameOntoListedEmailDuplicates` | src/app.py:323-327 | renaming onto an already-listed email succeeds and leaves two copies |
| `Examples.UnregisterLeavesSecondCopy` | src/app.py:242-243 | unregistering an email listed twice removes only the first copy |

## Left out

- FastAPI plumbing is not modelled: routing, Pydantic parsing and validation, the static mount (src/app.py:24) and the root redirect (src/app.py:193-195). Inputs are already-typed values.
- `get_activities` (src/app.py:198-200) returns the catalogue verbatim. It is `State.activities` and has no logic of its own.
- CSV text rendering is not modelled: the quoting of `csv.writer`, the `StreamingResponse` and the timestamped file name (src/app.py:376-393) are library code and wall-clock time. The export is modelled as its header and rows.
- The response wrappers of create and update (`{"message": ..., "student": ...}`) are reduced to the student record. Their message texts are constants.
- `Text.LowerChar`: lower-cases ASCII letters only. Python's `str.lower()` also folds non-ASCII letters, and full Unicode case mapping is not reproducible here.
- `Dict.Filter`: the contract states which entries are kept, not that they keep their relative order. That order follows from the definition and is used by `FilterCommutes`.
- The seed data (src/app.py:28-177) appears only as a two-student, one-activity fragment in `Examples.Seed`.
- `max_participants` is stored in `Activity` but no handler reads it, so there is no capacity behaviour.
- Concurrency: requests are modelled as one at a time, matching the single-writer assumption of the code.
- src/static/students.js is browser UI and `fetch` calls. It is not part of this model.
- `list.remove` raising `ValueError` on an absent element is excluded by `RemoveFirst`'s precondition. Every call site checks membership first.
