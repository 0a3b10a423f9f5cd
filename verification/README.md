# Patient check-in portal: record reconciliation, modelled in Dafny

This project models the store-changing logic of the check-in portal's Django
views (`drchrono/views.py`). The views show a clinician today's appointments
from the drchrono API and let walk-in patients check themselves in. With the
local database held in memory as two tables (`Clinic.patients`,
`Clinic.doctors`), five rules are left:

- **Patient mirror** (`check_in`): each patient in the remote listing gets a
  local row if no row has its remote id yet. Existing rows are never updated
  or removed.
- **Appointment merge** (`appointments`): each remote appointment is joined to
  the first local Patient whose remote id equals its `"patient"` value. The
  two dicts are merged, and the appointment wins on a shared key. Appointments
  with no match are dropped.
- **Intake find-or-create** (`patient_demographic`): a patient is found by
  first name, last name and birth date, or created with only those three
  fields.
- **Check-in** (`checked_in`): the Patient is fetched by the submitted
  form's own name and birth date. When the form is valid, that row is saved
  with the form data, status `"Arrived"` and the arrival stamp.
- **Token upsert** (`drchrono_login`): the Doctor row is looked up by the
  requesting user. When there is none, one named John Smith and owned by
  user 1, whoever is logging in, is created (see "## Findings"). If the
  user's token is stale, only the three token fields are overwritten.
  Otherwise nothing changes.

Layout:

- `wrappers.dfy`: `Option`, `Result`, and the Django exceptions the views can
  raise.
- `query.dfy`: `filter(...)[0]` / `.exists()` and `get(...)` over a table
  held in primary-key order.
- `models.dfy`: the rows, the dict view of a Patient row, and the dict merge.
- `mirror.dfy`, `merger.dfy`, `intake.dfy`, `tokens.dfy`: one specification
  module per rule, with its lemmas.
- `views.dfy`: class `Clinic`. Its methods are the views' loops and saves.
  Each one is proved equal to the specification function of its rule.

Three behaviours of the code are easy to misread. The model follows the code as written:

- A remote appointment whose `"patient"` is `None` makes Django run an
  `IS NULL` filter. Such an appointment therefore joins to the first intake
  patient, the kind created without a remote id (`AppointmentMerger.KeyMatches`).
- An appointment without a `"patient"` key ends the view with `KeyError`.
  It is not dropped.
- The login view's `get` can also raise `MultipleObjectsReturned`. That is
  modelled as an error outcome that leaves the store unchanged.

Two intake sequences do not end with the patient marked arrived:

- The check-in lookup reads the name and birth date from the submitted
  demographic form (lines 150-152). A form whose name or birth date was
  edited therefore looks up the edited identity, not the row it was shown
  for (`Intake.EditedIdentityMissesShownRow`).
- A walk-in registered by intake has no remote id. If the remote listing
  later carries the same person under a remote id no row holds yet, the
  mirror adds a second row with the same name and birth date, whatever the
  table held before. Find-or-create keeps showing the same row, but the
  check-in `get` raises `MultipleObjectsReturned`
  (`Intake.IntakeThenMirrorBlocksCheckIn`).

## Model

| member | source | states |
|---|---|---|
| `Query.FirstWhere` | drchrono/views.py:202-204 | the index returned is the first row that satisfies the filter, and there is one exactly when some row satisfies it |
| `Query.GetWhere` | drchrono/views.py:56 | `get` returns the one matching row; `DoesNotExist` exactly when no row matches; `MultipleObjectsReturned` exactly when two rows match |
| `Models.RowDict` | drchrono/views.py:204 | `patient.values()[0]`: the row as a dict keyed by column name, holding the primary key as an integer and the remote id as an integer or NULL; the column set is an assumption (see "## Left out"); its use in the join is stated by `AppointmentMerger.Combined` and the join lemmas |
| `Models.Merge` | drchrono/views.py:205 | the merged dict has the union of both key sets; the appointment's value wins on a shared key; the patient's value is kept elsewhere |
| `PatientMirror.HasPatientId` | drchrono/views.py:95 | the existence test holds exactly when some row carries that remote id |
| `PatientMirror.Mirror` | drchrono/views.py:94-108 | the loop over the listing, one insert-if-absent per result in listing order; the table never shrinks and grows by at most one row per listing entry; the rows below state what it inserts |
| `PatientMirror.MirrorAppendsFresh` | drchrono/views.py:94-108 | the mirror only appends: old rows stay as a prefix, unchanged; each new row is a remote result copied verbatim under the next key; no new row repeats a remote id already present or seen earlier in the listing |
| `PatientMirror.MirrorCopiesFirstListed` | drchrono/views.py:94-108 | each appended row is a copy of the FIRST listing entry carrying its remote id; later entries with the same id are skipped |
| `PatientMirror.MirrorAppendsInListingOrder` | drchrono/views.py:94-108 | appended rows come in the order of those first listing entries |
| `PatientMirror.MirrorCovers` | drchrono/views.py:94-108 | after the loop, every id in the listing has a local row |
| `PatientMirror.MirrorNoop` | drchrono/views.py:95-96 | a listing whose ids all exist locally leaves the table unchanged |
| `PatientMirror.MirrorIdempotent` | drchrono/views.py:94-108 | a second run over the same listing inserts nothing |
| `PatientMirror.MirrorKeepsUnique` | drchrono/views.py:94-108 | if remote ids were unique in the table, they still are; with MirrorCovers, exactly one row per listed id |
| `PatientMirror.MirrorKeepsIds` | drchrono/views.py:98-108 | inserted rows take the next primary keys |
| `PatientMirror.MirrorOneKeepsInvariants` | drchrono/views.py:95-108 | one iteration keeps primary keys consecutive and remote ids unique; the check-in loop's invariant step |
| `AppointmentMerger.KeyMatchesColumn` | drchrono/views.py:202 | `KeyMatches`, the row test of `filter(patient_id=...)`, selects exactly the rows whose `patient_id` column equals the appointment's `"patient"` value, NULL included (Django's `IS NULL`); a string value selects nothing (see "## Left out") |
| `AppointmentMerger.Partner` | drchrono/views.py:202-204 | the appointment is joined to the first row whose remote id matches its `"patient"` value |
| `AppointmentMerger.Combined` | drchrono/views.py:202-205 | a merged record exists exactly when a patient matches; it has the union of the row's and the appointment's keys, with the appointment's values winning |
| `AppointmentMerger.Join` | drchrono/views.py:197-206 | the loop fails with `KeyError("patient")` exactly when some appointment lacks that key; otherwise the listing is no longer than the input |
| `AppointmentMerger.JoinedIndicesSorted` | drchrono/views.py:201-203 | the surviving positions increase, and each one has a matching patient |
| `AppointmentMerger.JoinedIndicesComplete` | drchrono/views.py:201-203 | every appointment that matches a patient survives |
| `AppointmentMerger.JoinFollowsIndices` | drchrono/views.py:199-206 | the i-th output is the merged record of the i-th surviving appointment |
| `AppointmentMerger.JoinKeepsOrder` | drchrono/views.py:199-206 | the listing is exactly the merged records of the matched appointments, in remote order; unmatched ones are dropped |
| `Intake.FindOrCreate` | drchrono/views.py:126-135 | a match leaves the table unchanged and yields the first match; otherwise exactly one row is added, with only the three identity fields set and no remote id; either way the shown row is the first row of the new table with that identity |
| `Intake.FindOrCreateIdempotent` | drchrono/views.py:126-135 | submitting the same identity again yields the same row and adds nothing |
| `Intake.Arrive` | drchrono/views.py:155-158 | the saved row keeps its primary key and remote id and takes the submitted form as its profile, status "Arrived" and the arrival stamp; its place in the table is stated by `Intake.MarkArrived` |
| `Intake.MarkArrived` | drchrono/views.py:149-158 | `get` by the submitted form's name and birth date fails with `DoesNotExist` exactly when no row matches and with `MultipleObjectsReturned` exactly when two rows match, and with no other error; otherwise, for a valid form, only that row changes: form data saved, status "Arrived", arrival stamp set |
| `Intake.IntakeRoundTrip` | drchrono/views.py:126-158 | with at most one row per identity and the identity left unedited on the form, find-or-create then a valid submission marks exactly the row the form showed |
| `Intake.EditedIdentityMissesShownRow` | drchrono/views.py:126-152 | a form whose identity was edited to one no row carries raises DoesNotExist on submission, whatever find-or-create showed |
| `Intake.SecondMatchBlocksCheckIn` | drchrono/views.py:126-152 | a second row with the identity appended after the shown one leaves find-or-create showing the same row, and check-in raises MultipleObjectsReturned |
| `Intake.IntakeThenMirrorBlocksCheckIn` | drchrono/views.py:94-158 | from any table, intake then a mirror run listing the same person under a remote id no row holds adds a second row with that identity; find-or-create still shows the same row, and check-in raises MultipleObjectsReturned |
| `TokenStore.Upsert` | drchrono/views.py:55-69 | with no Doctor for the user, exactly one is appended (John Smith, the new tokens); a stale one has only its three token fields replaced; a fresh one changes nothing; two Doctors for the user give `MultipleObjectsReturned` and change nothing; no account's owner or name changes |
| `TokenStore.TokenUpsert` | drchrono/views.py:55-69 | the upsert as written: every Doctor it adds is owned by user 1, and it adds one only when no Doctor belongs to the requesting user; its other outcomes are `TokenStore.Upsert`'s |
| `TokenStore.TokenUpsertFixed` | drchrono/views.py:55-69 | the corrected upsert: every Doctor it adds is owned by the requesting user, and only when that user had none |
| `TokenStore.PlaceholderOwnerDuplicates` | drchrono/views.py:64-69 | as written, two logins by user 2 create two Doctors owned by user 1, and user 1's next login fails |
| `TokenStore.FixedKeepsOneAccountPerUser` | drchrono/views.py:64-69 | with the requesting user as owner, logins keep one Doctor per user and the user's Doctor can always be fetched afterwards |
| `Views.Clinic.DrchronoLogin` | drchrono/views.py:51-69 | the Doctor table after login is the upsert of the old one, with expiry now + expires_in; on error it is unchanged |
| `Views.Clinic.CheckIn` | drchrono/views.py:84-108 | if the session user's Doctor lookup fails, nothing changes; otherwise the patient table becomes the mirror of the old one over the listing; primary keys stay consecutive and remote ids stay unique |
| `Views.Clinic.PatientDemographic` | drchrono/views.py:117-139 | an invalid form changes nothing; a valid one makes the table and the shown row what find-or-create gives |
| `Views.Clinic.CheckedIn` | drchrono/views.py:149-158 | the patient table becomes MarkArrived of the old one, looked up by the form's own identity; on error it is unchanged; remote ids stay unique |
| `Views.Clinic.Appointments` | drchrono/views.py:179-206 | the result is the Doctor lookup's error, or else the join of the patient table with the listing |

## Findings

| source | as written | input that shows it | evidently intended | confidence | as-written member | corrected member |
|---|---|---|---|---|---|---|
| drchrono/views.py:65-66 | a Doctor created at login is always owned by `user=1`, while the lookup at line 56 is by the requesting user | user 2 logs in twice on an empty table: two Doctors owned by user 1 appear, user 2 still has none, and user 1's next login raises `MultipleObjectsReturned` (if `Doctor.user` is an integer column; see "## Left out") | the new Doctor belongs to the requesting user, one account per user | low, not executed; depends on the type of `Doctor.user` | `TokenStore.PlaceholderOwnerDuplicates` | `TokenStore.FixedKeepsOneAccountPerUser` |

Whether this happens depends on the type of `Doctor.user`, which is not
part of this model. If it is a foreign key to the user table, line 65 raises
`ValueError` instead, and no Doctor is ever created.
`Views.Clinic.DrchronoLogin` keeps the view's behaviour as written, with
owner 1. `TokenStore.TokenUpsertFixed` is the corrected upsert. It uses the
same `Upsert` core, with the requesting user as owner.

## Left out

- HTTP and JSON decoding are left out. This covers the token POST,
  `raise_for_status`, the patient and appointment GETs and the response
  decoding (lines 39-48, 92, 195-196). Their results are parameters: the
  exchanged tokens, `results` as a typed list, and appointments as dicts. A
  missing `results`, `id` or profile key, and JSON `null` profile values, are
  not modelled. A dict value is an integer, a string or `None`
  (`Models.Value`). Booleans, floats, lists and nested objects that remote
  appointments carry are not distinguished. They only pass through the merge
  under keys the join does not read.
- The staleness test at line 58 compares a stored field against
  `unicode(date.today())` under Python 2 rules. It is the parameter
  `stale: int -> bool`, applied to the stored expiry.
- `utc_to_pacific` and `strftime` (lines 157, 165-173, 194-195) are not
  modelled. The arrival stamp is an opaque string parameter. The
  appointments' date filter belongs to the HTTP request.
- The clock is not modelled. `now` and `expires_in` are integer parameters
  (seconds).
- Form validation, `messages`, rendering, redirects, `index`, `home`,
  `authorize` and `logout` are left out. Validation is a `formValid` flag.
  The GET branches of `patient_demographic` and `checked_in` change no table.
- The Doctor lookup at line 160 in `checked_in` is left out. It only feeds
  the rendered page, and it runs after the save.
- `models.py` and `forms.py` are not part of this model. Patient column names
  come from the keyword arguments at lines 98-107 and the fields set at
  lines 155 and 157. Unset text columns are taken as blank `""`. The
  demographic form is modelled as a full `Profile` that replaces the row's
  profile.
- `AppointmentMerger.KeyMatches`: a string `"patient"` value is treated as
  matching no row. Django would convert a numeric string to an integer and
  raise on any other string.
- Query order is table (primary-key) order. The Patient model's default
  ordering is not part of this model.
- `Doctor.user` is modelled as a plain integer that accepts both
  `Doctor(user=1)` (line 66) and lookups by the session user (lines 56, 84,
  179). `models.py` is not part of this model. If `user` is a foreign key,
  line 65 raises `ValueError` and no Doctor is created. If it is an integer
  column, `get(user=request.user)` at lines 84 and 179 raises `TypeError`.
  Neither exception is modelled.
- `Intake.MarkArrived` and `Views.Clinic.CheckedIn` take the submitted form
  as a complete `Profile`. At lines 150-151 the view reads `first_name`,
  `last_name` and `date_of_birth` from the raw POST before any validation. A
  POST that lacks one of them raises `MultiValueDictKeyError`, a `KeyError`,
  and nothing is saved. That error path is not modelled.
- The check-in lookup uses the raw POSTed name and birth date. The form saves
  its cleaned values. The model uses the same `Profile` for both and does not
  model any difference that cleaning introduces, such as whitespace or date
  formats.
- Concurrent requests and duplicate-insert races between them are left out.
  The views run one request at a time here.
