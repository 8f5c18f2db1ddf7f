# Patient Records API — a Dafny model

The Patient Records API is a small FastAPI/SQLAlchemy service. It stores patient
records (name, phone, diagnosis, blood type, optional age, optional email) in one
SQLite table. It offers list, search-by-phone, get-by-id, create, update and delete
endpoints. Every record it returns has its diagnosis masked: the first three
characters stay legible and each later character becomes `*`.

This project models that logic in Dafny:

- `Masking` (masking.dfy) holds the masking expression the endpoints repeat. It
  includes Python's edge cases: `d[:3]` on a short string, `"*" * n` for a
  negative `n`, and the `if diagnosis` guard.
- `Patients` (patients.dfy) holds the `Patient` row and the `Store`, an immutable
  `map<int, Patient>` that stands for the table. It also holds the `PatientView`
  response, the predicates the checks evaluate (ASCII `isdigit`, email
  truthiness, phone/email already taken) and the table invariants (phones
  unique and well-formed, emails unique, ages non-negative).
- `Endpoints` (endpoints.dfy) has one pure function per endpoint. Each maps the
  store and the request parameters to a `Result`. The write endpoints return the
  new store together with their response. Errors form an enum, one case per HTTP
  error detail.
- `EndpointLaws` (endpoint_laws.dfy) holds the cross-call properties. These are
  the order in which errors are reported, the invariants create, update and
  delete keep, and read-after-write round trips. It also has the concrete
  phone, age and masking values.
- `Service` (service.dfy) is the service as a state machine. `Step` runs one
  request and returns the new store and the reply; `Run` runs a sequence of
  requests. Its lemmas cover reads and rejections leaving the store alone,
  frame conditions, and invariants over whole request sequences.
- `IdOrder` (id_order.dfy) lists a finite set of ids in ascending order. The
  list endpoints and the id choice use it.
- `Wrappers` (wrappers.dfy) holds `Option` and `Result`.

In four places the code behaves in ways a reader might not expect; the model
follows the code:

- Create checks for a duplicate phone *before* it checks the phone format
  (main.py:92 then main.py:94). So a malformed phone that is already stored is
  reported as "Phone already registered".
- Update makes no phone check of any kind. It reports only a missing record, a
  changed email that is already taken, or a negative age (main.py:117-126).
  In the model, update can therefore store a malformed or duplicate phone
  (`EndpointLaws.UpdateCanDuplicatePhone`). In the running program the
  table's unique constraint would make the duplicate-phone commit fail.
- The email checks run only for a *truthy* email (main.py:97, 121). Python
  treats both `None` and `""` as false, so an empty email is never checked for
  duplicates. `EmailsUnique` therefore covers only present, non-empty emails.
- An age of zero passes, even though the error text says "Age must be positive"
  (main.py:100-101).

## Model

| member | source | states |
|---|---|---|
| Masking.Take | main.py:64 | `d[:3]` yields the first `min(3, len(d))` characters of `d` and nothing else |
| Masking.Repeat | main.py:64 | `"*" * n` is `n` stars when `n` is positive and the empty string when `n` is zero or negative |
| Masking.Mask | main.py:63-64 | the masked diagnosis is as long as the stored one, keeps its first three characters, has `*` at every later position, and is the stored value itself when that is three characters or shorter (the empty string included) |
| Masking.MaskIsPointwise | main.py:64 | masking equals a position-by-position definition: character `i` is kept for `i < 3` and is `*` otherwise |
| Masking.MaskKeepsPrefix | main.py:64 | the first `min(3, len(d))` characters of the masked value are exactly those of `d` |
| Masking.MaskIdempotent | main.py:63-64 | masking an already masked diagnosis changes nothing |
| Masking.MaskExamples | main.py:64 | "Diabetes" masks to "Dia*****"; "Flu", "Hi" and "" come back unchanged |
| Endpoints.Views | main.py:62-65 | the response list has one masked record per listed id, in the order of the ids |
| Endpoints.WithPhone | main.py:70 | filtering keeps exactly the ids whose record has the queried phone, and keeps ascending order |
| Endpoints.Hits | main.py:70-71 | the search hits are exactly the stored ids with the queried phone, ascending, and they are non-empty exactly when some record has that phone |
| Endpoints.GetAll | main.py:59-65 | the list has one entry per stored record; each entry is the masked copy of the record under its id; every id appears; ids ascend |
| Endpoints.Search | main.py:68-77 | search succeeds exactly when some record has the queried phone, and otherwise fails with the no-patients error; a success is never an empty list |
| Endpoints.SearchSound | main.py:70-77 | every listed record is the masked copy of a stored record with the queried phone |
| Endpoints.SearchComplete | main.py:70-77 | every stored record with the queried phone is listed |
| Endpoints.SearchOrdered | main.py:70 | the search list has strictly ascending ids, so no record is listed twice |
| Endpoints.Get | main.py:80-87 | get succeeds exactly when the id is stored and then returns that record masked; otherwise it fails with not-found |
| Endpoints.NextId | main.py:104-107 | the id given to a new record is larger than every stored id, so it is not in use |
| Endpoints.Insert | main.py:104-106 | adding a row under an unused id yields a table whose ids are the old ones plus the new one, holding the row there and every old record unchanged |
| Endpoints.Create | main.py:90-112 | a successful create puts the submitted body under a fresh id larger than every stored one, adds no other key, leaves every other record unchanged, and returns the new record masked |
| Endpoints.Update | main.py:115-136 | update of a missing id fails with not-found; a successful update keeps the set of ids, replaces every field of that id with the body, leaves the other records unchanged, and returns the new record masked |
| Endpoints.Delete | main.py:139-147 | delete succeeds exactly when the id is stored; it removes exactly that id and leaves every other record unchanged; otherwise it fails with not-found |
| EndpointLaws.PhoneFormatIsTenDigits | main.py:94 | the create phone test (`isdigit` and length 10) accepts exactly the strings of ten ASCII digits |
| EndpointLaws.CreateDuplicatePhoneFirst | main.py:92-93 | a phone held by any stored record makes create fail with "Phone already registered", whatever else the body holds |
| EndpointLaws.CreateRejectsBadPhone | main.py:94-95 | a fresh phone that is not exactly ten digits makes create fail with the format error, before the email and age checks |
| EndpointLaws.CreateRejectsTakenEmail | main.py:97-98 | with a fresh ten-digit phone, a present non-empty email held by any record makes create fail with "Email already registered", before the age check |
| EndpointLaws.CreateRejectsNegativeAge | main.py:100-101 | once the other checks pass, a present negative age makes create fail with the age error |
| EndpointLaws.CreateSucceedsIff | main.py:92-107 | create succeeds exactly when the phone is fresh and ten digits, a present non-empty email is held by no record, and the age is absent or at least zero |
| EndpointLaws.CreateGrowsByOne | main.py:104-106 | a successful create adds exactly one record |
| EndpointLaws.CreatePreservesPhonesUnique | main.py:92-93 | if no two records shared a phone before a create, none do after it |
| EndpointLaws.CreatePreservesPhonesWellFormed | main.py:94-95 | if every stored phone was ten digits before a create, every one is after it |
| EndpointLaws.CreatePreservesEmailsUnique | main.py:97-98 | if no two records shared a present non-empty email before a create, none do after it |
| EndpointLaws.CreatePreservesAgesNonNegative | main.py:100-101 | if no stored age was negative before a create, none is after it |
| EndpointLaws.CreatePreservesConsistent | main.py:92-107 | a successful create keeps all four table invariants |
| EndpointLaws.CreateSamePhoneTwice | main.py:92-93 | after a successful create, a second create with the same phone fails with "Phone already registered" |
| EndpointLaws.CreateSameEmailTwice | main.py:97-98 | after a successful create with a non-empty email, a second create with a fresh valid phone and the same email fails with "Email already registered" |
| EndpointLaws.GetAfterCreate | main.py:80-87 | reading the new id right after a create returns exactly the create's response |
| EndpointLaws.UpdateKeepsOwnEmail | main.py:121-126 | an update that keeps the record's own email, with an absent or non-negative age, succeeds whatever the phone and whatever other records hold |
| EndpointLaws.UpdateRejectsTakenEmail | main.py:121-123 | on a stored id, a changed non-empty email held by some record makes update fail with "Email already registered" |
| EndpointLaws.UpdateRejectsNegativeAge | main.py:125-126 | on a stored id whose email passes the email check, a present negative age makes update fail with "Age must be positive" |
| EndpointLaws.UpdateSucceedsIff | main.py:117-131 | update succeeds exactly when the id is stored, the email is absent, empty, unchanged or held by no record, and the age is absent or at least zero |
| EndpointLaws.UpdateIgnoresPhone | main.py:117-126 | whether an update succeeds does not depend on the phone in the body |
| EndpointLaws.UpdatePreservesUpdateSafe | main.py:121-131 | a successful update keeps non-empty emails unique and ages non-negative |
| EndpointLaws.UpdateCanDuplicatePhone | main.py:117-131 | update can write another record's phone: the result succeeds and the store no longer has unique phones |
| EndpointLaws.GetAfterUpdate | main.py:80-87 | reading the id right after an update returns exactly the update's response |
| EndpointLaws.DeleteShrinksByOne | main.py:145-146 | a successful delete removes exactly one record |
| EndpointLaws.DeleteThenMissing | main.py:141-147 | after a delete, a get of the same id and a second delete of it both fail with not-found |
| EndpointLaws.DeletePreservesConsistent | main.py:145-146 | removing a record keeps all four table invariants |
| EndpointLaws.PhoneFormatExamples | main.py:94-95 | on an empty table "12345" and "123abc7890" are rejected as malformed and "1234567890" is accepted |
| EndpointLaws.AgeExamples | main.py:100-101 | age -1 is rejected; age 0 and no age are accepted |
| EndpointLaws.CreateResponseExamples | main.py:109-112 | the create response shows "Flu" whole and "Diabetes" as "Dia*****" |
| EndpointLaws.CreateDuplicateMalformedPhone | main.py:92-95 | a stored malformed phone submitted again is reported as a duplicate, not as malformed |
| Service.StepListReply | main.py:58-65 | the list request replies with every record masked and keeps the table |
| Service.StepSearchReply | main.py:67-77 | the search request replies with the matching records or the no-patients error and keeps the table |
| Service.StepGetReply | main.py:79-87 | the lookup request replies with the stored record masked, or not-found for a missing id, and keeps the table |
| Service.StepCreateReply | main.py:89-112 | a successful create installs create's new table and replies with the new record; a failed one keeps the table and replies with create's error |
| Service.StepUpdateReply | main.py:114-136 | a successful update installs update's new table and replies with the updated record; a failed one keeps the table and replies with update's error |
| Service.StepDeleteReply | main.py:138-147 | deleting a stored id removes exactly it and replies with the deletion message; a missing id keeps the table and replies not-found |
| Service.RunAppend | main.py:58-147 | running two request sequences one after the other equals running their concatenation |
| Service.ReadLeavesStore | main.py:59-87 | list, search and get leave the table unchanged, so the stored diagnosis stays unmasked |
| Service.RejectedLeavesStore | main.py:90-147 | a request that is rejected leaves the table unchanged |
| Service.RepeatedReadAgrees | main.py:59-87 | repeating a read gives the same reply, masked from the stored value |
| Service.StepFrame | main.py:90-147 | a request changes no record other than the one it updates or deletes (create adds a new one) |
| Service.StepPreservesUpdateSafe | main.py:90-147 | every request keeps non-empty emails unique and ages non-negative |
| Service.StepPreservesConsistent | main.py:90-112 | every request other than an update keeps all four table invariants |
| Service.RunPreservesUpdateSafe | main.py:58-147 | any sequence of requests keeps non-empty emails unique and ages non-negative |
| Service.RunWithoutUpdatesPreservesConsistent | main.py:58-147 | any sequence of requests without an update keeps all four table invariants |
| Service.EmptyConsistent | main.py:23 | the newly created empty table satisfies all four invariants |

## Left out

- HTTP routing and the `/` root message (main.py:52-56) are left out. Errors are an enum; `Endpoints.Status` and `Endpoints.Detail` give the status code and detail text of each, as plain tables without contracts.
- The SQLAlchemy engine, sessions and `get_db` (main.py:8-10, 23, 45-50) are I/O. The table is an explicit `map<int, Patient>` value passed in and returned.
- Id generation belongs to the storage engine. `Endpoints.NextId` uses largest stored id plus one, or 1 for an empty table; that is SQLite's default rowid choice. The laws rely only on the new id being larger than every stored one.
- Row order of `query(...).all()` is not fixed by the code (there is no ORDER BY). The model lists records in ascending id order.
- `EmailStr` syntax validation (main.py:31) belongs to pydantic and is not part of this model. Emails are opaque optional strings.
- `str.isdigit` is modelled for ASCII `'0'..'9'` only. Unicode digits outside ASCII are not modelled.
- The table's `unique=True` constraints (main.py:17, 21) are left out: they are storage-engine behaviour. So is the IntegrityError an update would raise when it writes a duplicate phone. In the model such an update succeeds (`EndpointLaws.UpdateCanDuplicatePhone`), and no lemma claims update keeps phones unique.
- Races between concurrent requests, where two creates both pass the pre-checks, are left out: each request is one atomic `Step`.
- 64-bit limits on SQLite integer ids and ages are not modelled; ids and ages are unbounded integers.
- The masking writes back into the ORM object of the current session. That session is never committed after masking, so the store is unchanged. The model states the visible outcome, that reads return no new table (`Service.ReadLeavesStore`), and does not model session flushing.
