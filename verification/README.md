# Mergington High School activities: a Dafny model

This project models the core of a small web service that manages
extracurricular activities at a school. Students see the activities, sign up
for one, or sign off again. Administrators create, update and delete
activities. On start-up an empty store is seeded with nine activities.

The store is the relational database of the service: an Activity table with a
unique name, and a Participant table whose rows point at their activity and are
deleted with it. Here it is one map from activity name to a record of
description, schedule, maximum number of participants and participant emails
(`Database.Registry`). Keying by name is the unique name column. Keeping the
emails inside the record is the "all, delete-orphan" cascade.

- `database.dfy` (module `Database`) models `src/database.py`: the records,
  the two store invariants, the seeding table and the seeding routine. The
  invariants are `Consistent`, meaning no email twice within one activity, and
  `WithinCapacity`, meaning no activity above its maximum. The class
  `Database.Store` is the session's view of the store; its field `activities`
  is changed in place. `Store.Valid()` is `Consistent`. The handlers keep it,
  and it is what makes the source's one-row lookups of a participant well defined.
- `app.dfy` (module `App`) models the handlers of `src/app.py`. The listing
  handler is one method over the store. Each of the five handlers that change
  the store appears twice. One is a pure transition function (`Signup`, `Unregister`,
  `Create`, `Update`, `Delete`) from the store before to a status and the
  store after. The other is a method on the session's store
  (`SignupForActivity`, …) proved to follow that function. The status is `Ok`
  or an error tag: `NotFound` (404), `AlreadySignedUp`, `Full`, `NotSignedUp`,
  `NameExists` (all 400).
- `properties.dfy` (module `Properties`) relates requests to one another:
  round trips, re-use of a deleted name, and the invariants along any run of
  requests.

A failing request changes nothing. The source raises before it writes, and
each successful request commits once. In the model, every error outcome
carries the store unchanged.

The code does not enforce capacity everywhere:

- The code checks neither that a new maximum is positive (src/app.py:186-191)
  nor that an update keeps the current count within the new maximum
  (src/app.py:228-229). A negative maximum is accepted, and an update may set
  the maximum below the current number of participants. `App.Create` and
  `App.Update` state exactly when capacity survives, and
  `Properties.UpdateCanBreakCapacity` shows an update that breaks it.
  `Properties.ServeKeepsCapacity` proves the invariant for runs of requests
  that avoid these two cases.
- Each 400 error carries its own message; the model uses one tag per message.

## Model

| member | source | states |
|---|---|---|
| `Database.Populate` | src/database.py:143-152 | Loading entries on top of a store leaves exactly the old names plus the entries' names. The seeding loop only runs it with distinct names that are new to the store (see `Store.Load`). |
| `Database.PopulateStep` | src/database.py:143-147 | Proof helper for the loop invariant of `Store.Load`: loading one more entry of a table is one map update, by that entry's activity, of what the earlier entries loaded. |
| `Database.PopulateAt` | src/database.py:143-152 | With distinct names, every entry is stored under its name with its own columns and its own participants. A participant therefore belongs to the activity added in the same iteration. |
| `Database.PopulatePreserves` | src/database.py:143-152 | Loading entries whose participant lists have no repeats keeps "no email twice". Loading entries within their maximum keeps "within capacity". Each conclusion needs only its own condition. |
| `Database.PopulateParticipantCount` | src/database.py:150-152 | When every entry lists n participants, every loaded activity has n participants. |
| `Database.PopulateEmpty` | src/database.py:143-152 | Loading a table with distinct names into an empty store yields exactly the table's names, one activity per entry, each as listed. "No email twice" holds when no entry repeats an email. "Within capacity" holds when every entry is within its maximum. |
| `Database.Seed` | src/database.py:64-154 | What the seeding routine does to a store: a store that already holds an activity is returned unchanged (the early return at lines 69-73); an empty store ends up holding exactly the table's names. |
| `Database.SeedTwice` | src/database.py:69-73 | Seeding with a non-empty table leaves a non-empty store, so a second seeding returns early and changes nothing. |
| `Database.SeedIdempotent` | src/database.py:64-73 | Running the seeding routine twice gives the same store as running it once, whatever the store held. |
| `Database.InitialActivitiesCount` | src/database.py:76-140 | The seeding table lists nine activities. |
| `Database.InitialActivitiesDistinct` | src/database.py:76-140 | The nine seeded names are pairwise distinct, as the unique name column requires. |
| `Database.InitialActivitiesTwoEach` | src/database.py:76-140 | Every seeded activity lists exactly two students. |
| `Database.InitialActivitiesNoDuplicates` | src/database.py:76-140 | No seeded activity lists a student twice. |
| `Database.InitialActivitiesRoom` | src/database.py:76-140 | Every seeded maximum is at least two. |
| `Database.InitialActivitiesLoadable` | src/database.py:76-140 | The seeding table has nine entries with distinct names, each within its maximum and without repeated students. |
| `Database.SeedingEmptyStore` | src/database.py:76-154 | Seeding an empty store yields exactly the nine listed names, and each activity holds its listed description, schedule, maximum and students. |
| `Database.SeededStoreInvariants` | src/database.py:76-154 | After seeding an empty store, every activity has exactly two students, none twice, and none is over its maximum. |
| `Database.SeededChessClubEntry` | src/database.py:77-83 | The seeded store holds Chess Club with maximum 12 and the students michael and daniel, in that order. |
| `Database.Store.constructor` | src/database.py:52-55 | Freshly created tables hold no activity. |
| `Database.Store.SeedInitialData` | src/database.py:64-154 | The new store is the seeding function of the old one: unchanged if it held an activity, otherwise the nine listed activities. "No email twice" is kept. |
| `Database.Store.Load` | src/database.py:143-152 | Given distinct names that are new to the store, as the unique name column demands, the loop leaves the store equal to the old store with the table loaded on top. Every entry is stored under its name with its own columns and participants, and "no email twice" is kept when no entry repeats an email. Capacity is not required. |
| `Database.Store.AddParticipants` | src/database.py:150-152 | The inner seeding loop appends the emails, in order, to that one activity and changes nothing else. |
| `App.RemoveFirst` | src/app.py:158-159 | Deleting a participant row removes exactly one copy of that email when it is present (the multiset loses that one email) and changes nothing otherwise. |
| `App.RemoveFirstNoDuplicates` | src/app.py:143-159 | In a list without repeats, deleting a student's row leaves no repeats and no trace of that student. |
| `App.RemoveFirstAppended` | src/app.py:119-121 | Deleting the row just appended for a new student gives back the list as it was before the signup. |
| `App.Choose` | src/app.py:224-229 | An update field left out keeps the current value; a given field replaces it. |
| `App.Signup` | src/app.py:87-124 | The result is NotFound iff the activity is absent. It is AlreadySignedUp iff the activity exists and holds the email, even when the activity is full. It is Full iff the activity exists, lacks the email and its count is at least its maximum. On any error the store is unchanged. On success only that activity's list changes, gaining the email at the end. Both invariants are kept. |
| `App.Unregister` | src/app.py:133-162 | The result is NotFound iff the activity is absent, and NotSignedUp iff it exists without the email. On error the store is unchanged. On success only that activity changes: its list loses exactly one copy of the email (none is left when there were no repeats), and its other fields stay. Both invariants are kept. |
| `App.Create` | src/app.py:172-204 | The result is NameExists iff the name is taken, and then the store is unchanged. Otherwise the store gains exactly that name, with the given fields and no participants, and every other activity stays. "No email twice" is kept. "Within capacity" is kept iff the given maximum is not negative. |
| `App.Update` | src/app.py:213-242 | The result is NotFound iff the activity is absent, and then the store is unchanged. Otherwise each given field is overwritten, each omitted field keeps its value, and the name, the participants and all other activities stay. "Within capacity" survives iff the current count is within the new maximum. |
| `App.Delete` | src/app.py:250-264 | The result is NotFound iff the activity is absent, and then the store is unchanged. Otherwise exactly that name disappears, with its participants, and every other activity stays. Both invariants are kept. |
| `App.GetActivities` | src/app.py:61-77 | The listing has exactly the stored names as keys, each with its description, schedule, maximum and participant emails. |
| `App.SignupForActivity` | src/app.py:80-124 | The handler's status and new store are those of `Signup` on the old store, and "no email twice" holds afterwards. |
| `App.UnregisterFromActivity` | src/app.py:127-162 | The handler's status and new store are those of `Unregister` on the old store, and "no email twice" holds afterwards. |
| `App.CreateActivity` | src/app.py:167-204 | The handler's status and new store are those of `Create` on the old store, and "no email twice" holds afterwards. |
| `App.UpdateActivity` | src/app.py:207-242 | The handler's status and new store are those of `Update` on the old store, and "no email twice" holds afterwards. |
| `App.DeleteActivity` | src/app.py:245-264 | The handler's status and new store are those of `Delete` on the old store, and "no email twice" holds afterwards. |
| `Properties.SignupThenUnregister` | src/app.py:80-162 | A successful signup followed by unregistering the same email succeeds and gives back the original store. |
| `Properties.SignupTakesLastPlace` | src/app.py:96-121 | After a signup takes the last free place, a further new student gets Full, and the student just added gets AlreadySignedUp. |
| `Properties.CreateThenDelete` | src/app.py:167-264 | Creating an activity and then deleting it succeeds and gives back the original store. |
| `Properties.DeleteThenCreate` | src/app.py:245-264 | After a delete, creating the same name succeeds, and the new activity starts with no participants: none of the deleted one's participants survive. |
| `Properties.UpdateThenRestore` | src/app.py:223-229 | Writing back the old description, schedule and maximum after any successful update gives back the original store. |
| `Properties.CreateThenUpdateSchedule` | src/app.py:185-229 | Create, then update only the schedule: the activity shows the new schedule, with the created description, maximum and an empty participant list, and nothing else changes. |
| `Properties.SeededChessClub` | src/database.py:77-83 | On the freshly seeded store, a new student signing up for Chess Club succeeds and makes three, and daniel signing up again gets AlreadySignedUp. |
| `Properties.ServeKeepsConsistent` | src/app.py:96-121 | From a store with no email twice in an activity, any run of signup, unregister, create, update and delete requests keeps that property. |
| `Properties.ServeKeepsCapacity` | src/app.py:111-121 | From a store within capacity, any run of requests keeps it within capacity, provided none creates a negative maximum or changes a maximum. |
| `Properties.UpdateCanBreakCapacity` | src/app.py:228-229 | Updating a maximum to below the current number of participants succeeds and leaves the store over capacity. |

## Left out

- Authentication, password hashing, tokens and role checks: the two modelled files contain none of this code. The admin endpoints in these files carry no role check either.
- HTTP plumbing: routing, the static-file mount, the root redirect and the response message texts (src/app.py:44-58). Errors are modelled as one tag per message.
- The start-up hook (src/app.py:35-41) runs table creation and then seeding. The model splits it into `Store`'s constructor for empty tables and `SeedInitialData`, which may run on any store. That second case stands for a database file that survives a restart.
- The SQLAlchemy engine, session factory, `get_session`, the SQLite URL and echo logging (src/database.py:12-61) are replaced by the `Store` object passed to each handler.
- Auto-increment ids, `flush`, `refresh` and `commit` are left out. A successful handler changes the store in one step. A failing one changes nothing.
- The create and update handlers echo the stored record in their response. The model returns only the status, and that record is the new store's entry under the name.
- Request parsing and validation by the web framework. The model starts from the parsed field values, with `Option` for the omitted update fields.
- Column lengths (`String(100)`, `String(200)`) are not modelled.
- The race between the duplicate and capacity checks and the insert under concurrent requests: the model is sequential.
- The order of the activities in the listing is not modelled: the listing is a map. Within an activity, participants are kept in insertion order. The source's relationship load promises no order.
- Duplicate participant rows would make the source's one-or-none lookups raise an error. `Store.Valid()` excludes them, and every handler keeps it, so that error path is not modelled.
- App.RemoveFirst: its contract states which email goes by multiset, not that the remaining rows keep their order (the body does keep it).
- App.Unregister: like `RemoveFirst`, it states the remaining participants by multiset, not by order. `Properties.SignupThenUnregister` pins the exact list for the signup-then-unregister case.
- Database.Store.Load: requires the table's names to be distinct and new to the store. The source's unique name column makes `flush` raise otherwise, and that error path is not modelled. `Populate` itself would overwrite such a name.
- Database.Store.Load: requires that no entry lists an email twice. The source would insert the repeated rows, which breaks `Store.Valid()`. The seeding table lists no repeats (`Database.InitialActivitiesNoDuplicates`).
- Integer width: `max_participants` is an unbounded `int` in the model. The source stores it in an SQLite `Integer` column (src/database.py:34), and the database driver refuses values outside 64 bits, so such a create or update raises. `App.Create` and `App.Update` return `Ok` for every integer, which assumes the write succeeds.
- Relationship loading: the model assumes that reading an activity's participants (src/app.py:74, src/app.py:112) yields its Participant rows. With the relationship's default lazy loading (src/database.py:37) under an asynchronous session, that read may raise instead. The model does not capture that failure.
