# Health professionals and appointments: a Dafny model

This project models the core of a small Django REST API that schedules
appointments with health professionals. The API has two resources.

- A **health professional** has four text columns: `social_name`,
  `profession`, `address` and `contact`. Three of them have a
  `max_length`. No two rows may share the exact pair
  (`social_name`, `profession`). Listings are ordered by `social_name`.
  The model's `clean()` normalises whitespace and title-cases the
  profession. `__str__` renders "name - profession".
- An **appointment** is a date plus a `PROTECT` reference to a
  professional. No two rows may share the pair
  (`date`, `health_professional`). Listings are ordered by date. The
  serializer refuses past dates (`validate_date`) and a missing reference
  (`validate_health_professional`). It also defines a standalone duplicate
  check, `validate_mult_fields`. The model's `clean()` repeats the
  past-date rule.

The endpoints are the framework's generic views. They cover list and create
on a collection, and retrieve, full update, partial update and delete on an
item. The appointment list accepts an optional `health_professional` filter.

Modules, one per concern:

- `Common`: keys, the per-field `Problem`s, and `Result`/`Error`.
- `Text`: Python's `isspace`, `strip()`, `split()`, `' '.join` and
  `title()`.
- `Ordering`: lexicographic order and a key sort.
- `Dates`: proleptic Gregorian dates with Python's tuple order and
  `toordinal`.
- `HealthProfessionals` and `Appointments`: the two models.
- `AppointmentSerializer`: the three hooks.
- `Store`: the two tables, their invariant `Valid`, and insert, update and
  delete that preserve it.
- `AppointmentViews` and `ProfessionalViews`: the endpoints.

The current date is a parameter (`today`) wherever the source reads the
clock.

Facts about the code that shape the model:

- The text columns have no minimum length and no rule about digits; the
  only checks are the ones listed above and the serializer's own.
- The uniqueness constraint compares exact strings, so two names that
  differ only in case are different.
- The serializer's text fields trim surrounding whitespace, refuse a blank
  value, enforce `max_length` and refuse the null character U+0000.
- The serializer never calls the model's `clean()`. A stored professional
  therefore has its fields trimmed, as the serializer's text fields do, but
  is neither collapsed nor title-cased.
- `validate_mult_fields` is not a hook name the serializer framework calls.
  At run time the duplicate appointment is refused by the `unique_together`
  constraint, with the framework's `non_field_errors` message, not by this
  method. The method is modelled as written, and
  `AppointmentSerializer.MultFieldsAgreesWithUniquePairs` proves the two
  rules agree.

## Model

| member | source | states |
|---|---|---|
| AppointmentSerializer.ValidateDate | api-drf/appointments/serializers.py:13-19 | a date earlier than today is refused with the past-date error under `date`; today and every later day are accepted and returned unchanged (stated with day ordinals) |
| AppointmentSerializer.ValidateHealthProfessional | api-drf/appointments/serializers.py:21-27 | an absent reference is refused under `health_professional`; a present one is returned unchanged |
| AppointmentSerializer.ValidateMultFields | api-drf/appointments/serializers.py:29-47 | fails exactly when both fields are present and a stored row other than the edited instance holds the same (date, professional); on success the data comes back unchanged |
| AppointmentSerializer.OwnPairIsNoDuplicate | api-drf/appointments/serializers.py:39-40 | re-submitting an edited record's own pair is not a duplicate when the table is unique |
| AppointmentSerializer.MultFieldsAgreesWithUniquePairs | api-drf/appointments/serializers.py:29-47 | the check accepts a pair exactly when storing it at the edited key (or a fresh key) keeps the `unique_together` invariant |
| AppointmentSerializer.CleanAgreesWithValidateDate | api-drf/appointments/models.py:29-33 | the model's `clean()` and `validate_date` refuse the same dates with the same `date`-keyed error |
| Appointments.Clean | api-drf/appointments/models.py:29-33 | no date raises nothing; a present date is refused, keyed `date`, exactly when it is earlier than today |
| Appointments.AppointmentsOf | api-drf/appointments/models.py:11-15 | the related name `appointments` is exactly the set of rows whose reference is the professional |
| Appointments.StoreKeepsUniquePairs | api-drf/appointments/models.py:24 | writing a pair no other row holds, under a fresh key or over the edited row, keeps the pairs unique |
| Dates.KeyOrder | api-drf/appointments/models.py:21 | the listing key `[y, m, d]` orders dates in lexicographic order exactly as date comparison does, and is injective |
| Dates.BeforeIffOrdinal | api-drf/appointments/serializers.py:15 | `value < today` on dates holds exactly when the day ordinal of `value` is smaller, and dates are equal exactly when their ordinals are |
| Dates.YearsAdvance | api-drf/appointments/serializers.py:15 | a later year starts on a later ordinal than any day of an earlier year |
| HealthProfessionals.Clean | api-drf/health_professionals/models.py:36-47 | empty fields are left as they are; a non-empty `social_name` becomes collapsed (no whitespace at the ends, single plain spaces) with the same words; a non-empty `profession` becomes title-cased and equal up to case to its stripped form; `contact` and `address` become their strip |
| HealthProfessionals.CleanDetermined | api-drf/health_professionals/models.py:36-47 | the contract of `Clean` pins its result down: any record meeting it is the cleaned one |
| HealthProfessionals.CleanIdempotent | api-drf/health_professionals/models.py:36-47 | cleaning twice equals cleaning once |
| HealthProfessionals.TitleOfStrippedStable | api-drf/health_professionals/models.py:40-41 | a stripped, title-cased profession is unchanged by a second strip and title-casing |
| HealthProfessionals.CleanKeepsBounds | api-drf/health_professionals/models.py:6-20 | under the modelled one-to-one casing, cleaning never lengthens a field, so a record within its `max_length` bounds stays within them |
| HealthProfessionals.Display | api-drf/health_professionals/models.py:33-34 | `__str__` is the social name, then " - ", then the profession |
| Text.Strip | api-drf/health_professionals/models.py:43-47 | `strip()` keeps a contiguous middle with no whitespace at either end; everything cut off is whitespace |
| Text.StripIdempotent | api-drf/health_professionals/models.py:43-47 | stripping twice equals stripping once |
| Text.SplitJoin | api-drf/health_professionals/models.py:38 | splitting the space-join of words gives back the same words |
| Text.CollapseFixpoints | api-drf/health_professionals/models.py:38 | `' '.join(s.split())` leaves `s` unchanged exactly when `s` is already collapsed |
| Text.CollapseProperties | api-drf/health_professionals/models.py:38 | collapsing keeps the words, yields a collapsed string and is idempotent |
| Text.CollapsedUnique | api-drf/health_professionals/models.py:38 | two collapsed strings with the same words are equal |
| Text.CollapseShorter | api-drf/health_professionals/models.py:38 | collapsing never lengthens a string |
| Text.TitleCharacterization | api-drf/health_professionals/models.py:41 | `r` is the title-casing of `s` exactly when `r` is titled (upper case starts a cased run, lower case continues it) and equals `s` up to case |
| Text.TitleKeepsSpaces | api-drf/health_professionals/models.py:41 | under the modelled one-to-one casing, title-casing keeps the length and every whitespace position |
| Text.TitleIdempotent | api-drf/health_professionals/models.py:41 | title-casing twice equals title-casing once |
| Ordering.LexTransitive | api-drf/health_professionals/models.py:25 | the lexicographic order used for listing keys is transitive (with `LexIrreflexive` and `LexTotal`, a strict total order) |
| Ordering.Insert | api-drf/health_professionals/models.py:25 | inserting a new row into a strictly sorted listing keeps it sorted and adds exactly that row |
| Ordering.SortByKey | api-drf/appointments/models.py:21 | the listing holds every keyed record once, in ascending key order with ties by primary key |
| Store.TrimmedIffStripFixed | api-drf/health_professionals/models.py:43-47 | a stored text column (non-empty, no whitespace at either end) is exactly a non-empty text that `strip()` leaves alone |
| Store.AddAppointment | api-drf/appointments/models.py:7-24 | an insert takes the next key and adds exactly one row; with a resolving reference and a free pair it preserves `Valid` |
| Store.PutAppointment | api-drf/appointments/models.py:7-24 | an update replaces only the addressed row; with a resolving reference and a pair no other row holds it preserves `Valid` |
| Store.RemoveAppointment | api-drf/appointments/models.py:7-24 | a delete removes exactly one row and preserves `Valid` |
| Store.AddProfessional | api-drf/health_professionals/models.py:26-31 | an insert takes the next key and adds exactly one row; a storable record with a free name pair preserves `Valid` |
| Store.PutProfessional | api-drf/health_professionals/models.py:26-31 | an update replaces only the addressed row; a storable record whose pair no other row holds preserves `Valid` |
| Store.RemoveProfessional | api-drf/appointments/models.py:11-13 | a delete removes exactly one row, and keeps every reference resolving when no appointment points at it |
| Store.AddAppointmentKeepsValid | api-drf/appointments/models.py:7-24 | inserting an appointment whose reference resolves and whose pair is free keeps `Valid` |
| Store.PutAppointmentKeepsValid | api-drf/appointments/models.py:7-24 | overwriting an appointment with a resolving reference and a pair no other row holds keeps `Valid` |
| Store.AddProfessionalKeepsValid | api-drf/health_professionals/models.py:26-31 | inserting a storable professional with a free name pair keeps `Valid` |
| Store.PutProfessionalKeepsValid | api-drf/health_professionals/models.py:26-31 | overwriting a professional with a storable record whose pair no other row holds keeps `Valid` |
| Store.RemoveProfessionalKeepsValid | api-drf/appointments/models.py:11-13 | deleting a professional no appointment refers to keeps every reference resolving and `Valid` |
| Store.AddThenRemoveProfessional | api-drf/appointments/models.py:11-13 | a professional just inserted has no appointments, and deleting it restores the table |
| Store.AddThenRemoveAppointment | api-drf/appointments/models.py:24 | deleting an appointment just inserted restores the table |
| AppointmentViews.CheckDate | api-drf/appointments/serializers.py:13-19 | an absent date is required unless a stored one stands in; a given one is accepted exactly when it is not before today |
| AppointmentViews.CheckProfessional | api-drf/appointments/serializers.py:21-27 | an absent reference is required unless a stored one stands in; a given one is accepted exactly when it names a stored professional |
| AppointmentViews.Deserialize | api-drf/appointments/serializers.py:13-27 | succeeds exactly when each field is given or stored, a given date is not past and a given reference exists; a missing reference in a create and a past date are refused under their keys |
| AppointmentViews.DeserializeErrors | api-drf/appointments/serializers.py:13-27 | a refusal carries `date` exactly when the date is missing with no stored value or past, and `health_professional` exactly when the reference is missing with no stored value or unknown (then as does-not-exist); no other key appears |
| AppointmentViews.Create | djangoapi/appointments/views.py:24-32 | succeeds exactly when both fields are given and valid and the pair is free; then exactly one row with the submitted values is added under a fresh key and `Valid` is kept; a missing reference, a past date and a duplicate pair each give their keyed error |
| AppointmentViews.Retrieve | djangoapi/appointments/views.py:48-50 | returns the stored row, or not-found for an unknown key |
| AppointmentViews.Update | djangoapi/appointments/views.py:52-60 | unknown keys give not-found; a PUT needs both fields and a PATCH keeps the stored value of an absent one; success replaces only that row and keeps `Valid` |
| AppointmentViews.Destroy | djangoapi/appointments/views.py:62-66 | removes exactly the addressed row, or gives not-found |
| AppointmentViews.List | djangoapi/appointments/views.py:14-17 | without a filter every appointment appears once; with one, exactly that professional's appointments; in date order; a filter naming no professional is a validation error |
| AppointmentViews.CreateThenRetrieve | djangoapi/appointments/tests/test_views.py:36-47 | retrieving the new key returns the submitted date and professional |
| AppointmentViews.PutStoredIsNoop | djangoapi/appointments/views.py:52-56 | re-submitting a stored appointment succeeds and changes nothing exactly while its date is not past; otherwise it is refused on `date` |
| AppointmentViews.EmptyPatchIsNoop | djangoapi/appointments/views.py:58-60 | an empty PATCH succeeds and changes nothing, even for a past stored date |
| AppointmentViews.CreateThenDestroy | djangoapi/appointments/tests/test_views.py:194-201 | deleting what was just created restores the appointment table |
| ProfessionalViews.CheckText | api-drf/health_professionals/serializers.py:5-10 | an absent field is required unless a stored value stands in; a given one is trimmed, refused when blank, refused when over its limit, refused when it holds U+0000, and otherwise accepted as a trimmed non-blank value without U+0000 |
| ProfessionalViews.Deserialize | api-drf/health_professionals/serializers.py:5-10 | succeeds exactly when every field passes (given and acceptable, or stored): not blank once trimmed, within its limit, free of U+0000; the result is the trimmed submissions, over the stored record in an update |
| ProfessionalViews.DeserializeErrors | api-drf/health_professionals/tests/test_views.py:82-119 | a refused request names exactly the fields that failed |
| ProfessionalViews.Create | djangoapi/health_professionals/views.py:21-23 | succeeds exactly when all four fields are given and pass (not blank once trimmed, within their limits, free of U+0000) and the trimmed name pair is free; then adds exactly that row under a fresh key and keeps `Valid`; failing fields give the field errors; a taken pair gives `non_field_errors` |
| ProfessionalViews.CreateRefusals | api-drf/health_professionals/tests/test_views.py:82-119 | a create missing a field is refused under that field's key, and a blank social name is refused as blank |
| ProfessionalViews.Retrieve | djangoapi/health_professionals/views.py:37-40 | returns the stored row, or not-found for an unknown key |
| ProfessionalViews.Update | djangoapi/health_professionals/views.py:43-52 | unknown keys give not-found; success, exactly when every field passes (given or, in a PATCH, stored; not blank once trimmed, within its limit, free of U+0000) and the merged name pair is free of other rows, replaces only that row with the merged record and keeps `Valid` |
| ProfessionalViews.UpdateRefusals | api-drf/health_professionals/tests/test_views.py:153-166 | a PUT missing `social_name`, or any update with a blank one, is refused under `social_name` |
| ProfessionalViews.BlankNamed | api-drf/health_professionals/tests/test_views.py:82-99 | a social name that is blank once trimmed is reported as blank under its key |
| ProfessionalViews.Destroy | api-drf/appointments/models.py:11-13 | refused with the referring appointments while any exist; otherwise removes exactly that row and keeps `Valid` |
| ProfessionalViews.List | api-drf/health_professionals/models.py:25 | every professional appears once, ordered by `social_name` |
| ProfessionalViews.CreateThenRetrieve | api-drf/health_professionals/tests/test_views.py:58-65 | retrieving the new key returns the trimmed submitted fields |
| ProfessionalViews.StoredPasses | api-drf/health_professionals/tests/test_views.py:38-49 | a storable record's own columns pass every field and resolve to the record itself |
| ProfessionalViews.PutStoredIsNoop | api-drf/health_professionals/tests/test_views.py:38-49 | re-submitting a stored professional succeeds and changes nothing |
| ProfessionalViews.PutOwnColumns | api-drf/health_professionals/tests/test_views.py:38-49 | the same, needing only that the row is storable and the names unique |
| ProfessionalViews.EmptyPatchIsNoop | api-drf/health_professionals/tests/test_views.py:51-56 | an empty PATCH succeeds and changes nothing |
| ProfessionalViews.CreateThenDestroy | api-drf/appointments/models.py:11-13 | deleting a professional just created succeeds and restores the professional table |
| ProfessionalViews.DestroyThenRetrieve | djangoapi/health_professionals/views.py:55-58 | after a delete, that key is not found and every other key retrieves as before |

## Left out

- Authentication (JWT, the 401 responses), logging, the log-and-re-raise
  wrapper around appointment creation, and the `extend_schema`
  documentation: framework wiring and I/O.
- Settings, URL routing and admin registrations: configuration only.
- The clock: `timezone.now().date()` is replaced by the `today`
  parameter.
- Concurrency: two requests racing between the uniqueness check and the
  insert. The model is sequential, and the table invariants stand for the
  database constraints.
- Parsing and rendering: JSON, date strings, non-string or `null` field
  values, and HTTP status codes. Errors are modelled by kind and field key.
  The framework's own messages are not modelled; the repository's three
  Portuguese messages are in `Common.Message`.
- `Appointments.__str__`: only formats a row for display.
- `Text.Title`: casing covers ASCII and the Latin-1 letters with a
  one-character counterpart. Other characters, such as ß, µ and ÿ, are
  treated as uncased, although Python's `title()` maps them.
- `HealthProfessionals.Clean`: inherits the casing limit of `Text.Title`.
- `Text.TitleKeepsSpaces`: length is kept only under the modelled
  one-to-one casing. Python's `title()` maps some characters to two, for
  instance a word-initial ß to "Ss", so its result can be longer.
- `HealthProfessionals.CleanKeepsBounds`: holds only under the modelled
  casing. With Python's `title()`, a 100-character profession starting
  with ß becomes 101 characters long, past its `max_length` of 100.
- `ProfessionalViews.CheckText`: a value that is both over its limit and
  holds U+0000 is reported with the length problem only. The framework
  lists both messages under the field's key. Surrogate code points, which
  the framework also refuses, cannot occur in a Dafny `string`.
- `ProfessionalViews.Deserialize`: reports field problems through
  `ProfessionalViews.CheckText`, so a too-long value holding U+0000 carries
  only the length problem.
- `ProfessionalViews.Create`: the same single-problem report for a
  too-long value holding U+0000.
- `ProfessionalViews.Update`: the same single-problem report for a
  too-long value holding U+0000.
- `ProfessionalViews.List`: orders by code points. A database collation
  may order differently. Ties in the sort column have no promised order.
  The model breaks them by primary key and promises only the column order.
- `ProfessionalViews.Destroy`: the refusal under `on_delete=PROTECT` is a
  `ProtectedError` raised by the database layer. The view does not catch
  it. The model returns it as an error value and leaves the tables
  unchanged.
- `ProfessionalViews.Create`: the duplicate-name refusal is a
  `non_field_errors` validation error only where the serializer framework
  derives a validator from a `UniqueConstraint`. Elsewhere the database
  rejects the insert.
- `AppointmentViews.List`: a filter value that is not an integer is not
  modelled. Only an unknown professional key is.
