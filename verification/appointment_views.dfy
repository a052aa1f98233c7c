/** The appointment endpoints: list (optionally filtered by professional)
    and create on the collection, retrieve, full or partial update and
    delete on an item. Each is the framework's generic view over the
    appointment serializer: unknown keys give not-found before anything is
    validated; then every field is checked, errors collected per field;
    only if all fields pass is the (date, health_professional) pair checked
    against the other rows. */
module AppointmentViews {
  import opened Common
  import opened Dates
  import opened Ordering
  import opened HealthProfessionals
  import opened Appointments
  import opened AppointmentSerializer
  import opened Store

  /** A request body: either field may be left out. */
  datatype Input = Input(date: Option<Date>, professional: Option<Id>)

  /** The value a field ends up with: the submitted one, or else the one
      already stored. */
  function Pick<T>(submitted: Option<T>, current: T): T
  {
    if submitted.Some? then submitted.value else current
  }

  /** The `date` field: required unless the stored value stands in for it,
      and when given, passed through `validate_date`. */
  function CheckDate(submitted: Option<Date>, current: Option<Date>, today: Date): (c: Checked<Date>)
    ensures submitted.None? ==> c == (if current.Some? then Accepted(current.value) else Rejected(Required))
    ensures submitted.Some? ==>
      c == (if ToOrdinal(today) <= ToOrdinal(submitted.value) then Accepted(submitted.value) else Rejected(PastDate))
  {
    match submitted
    case None => if current.Some? then Accepted(current.value) else Rejected(Required)
    case Some(d) =>
      match ValidateDate(d, today)
      case Ok(v) => Accepted(v)
      case Err(_) => Rejected(PastDate)
  }

  /** The `health_professional` field: required unless the stored value
      stands in for it; a given key must name a stored professional and then
      passes `validate_health_professional`. */
  function CheckProfessional(submitted: Option<Id>, current: Option<Id>, professionals: map<Id, Professional>): (c: Checked<Id>)
    ensures submitted.None? ==> c == (if current.Some? then Accepted(current.value) else Rejected(Required))
    ensures submitted.Some? ==>
      c == (if submitted.value in professionals then Accepted(submitted.value) else Rejected(DoesNotExist))
  {
    match submitted
    case None => if current.Some? then Accepted(current.value) else Rejected(Required)
    case Some(p) =>
      if p !in professionals then Rejected(DoesNotExist)
      else
        match ValidateHealthProfessional(Some(p))
        case Ok(v) => Accepted(v)
        case Err(_) => Rejected(NoProfessional)
  }

  /** Field-level deserialisation of a request, over the stored record in an
      update (`current`) or nothing in a create. */
  function Deserialize(db: Db, today: Date, input: Input, current: Option<Appointment>): (r: Result<Appointment>)
    ensures r.Ok? <==>
      && (input.date.Some? || current.Some?)
      && (input.professional.Some? || current.Some?)
      && (input.date.Some? ==> ToOrdinal(today) <= ToOrdinal(input.date.value))
      && (input.professional.Some? ==> input.professional.value in db.professionals)
    ensures r.Ok? ==>
      && r.value.date == (if input.date.Some? then input.date.value else current.value.date)
      && r.value.professional == (if input.professional.Some? then input.professional.value else current.value.professional)
    ensures r.Err? ==> r.error.Invalid?
    ensures input.professional.None? && current.None? ==> r.Err? && HealthProfessionalKey in r.error.errors
    ensures input.date.Some? && ToOrdinal(input.date.value) < ToOrdinal(today) ==>
      r.Err? && DateKey in r.error.errors && r.error.errors[DateKey] == PastDate
  {
    var date := CheckDate(input.date, if current.Some? then Some(current.value.date) else None, today);
    var professional := CheckProfessional(
      input.professional, if current.Some? then Some(current.value.professional) else None, db.professionals);
    var errors := ErrorsOf(DateKey, date) + ErrorsOf(HealthProfessionalKey, professional);
    if date.Rejected? || professional.Rejected? then Err(Invalid(errors))
    else Ok(Appointment(date.value, professional.value))
  }

  /** A refused request names exactly the fields that failed, and no other
      key: an absent date or reference with no stored value is required,
      a past date is reported under `date`, and an unknown reference under
      `health_professional`. */
  lemma DeserializeErrors(db: Db, today: Date, input: Input, current: Option<Appointment>)
    ensures var r := Deserialize(db, today, input, current);
      r.Err? ==>
        && (DateKey in r.error.errors <==>
              (input.date.None? && current.None?)
              || (input.date.Some? && ToOrdinal(input.date.value) < ToOrdinal(today)))
        && (HealthProfessionalKey in r.error.errors <==>
              (input.professional.None? && current.None?)
              || (input.professional.Some? && input.professional.value !in db.professionals))
        && (input.date.None? && current.None? ==> r.error.errors[DateKey] == Required)
        && (input.professional.None? && current.None? ==> r.error.errors[HealthProfessionalKey] == Required)
        && (input.professional.Some? && input.professional.value !in db.professionals ==>
              r.error.errors[HealthProfessionalKey] == DoesNotExist)
        && (forall k :: k in r.error.errors ==> k == DateKey || k == HealthProfessionalKey)
  {
    KeysDistinct();
  }

  /** POST on the collection. */
  function Create(db: Db, today: Date, input: Input): (r: Result<Created>)
    ensures r.Ok? <==>
      && input.date.Some? && input.professional.Some?
      && ToOrdinal(today) <= ToOrdinal(input.date.value)
      && input.professional.value in db.professionals
      && !PairTaken(db.appointments, input.date.value, input.professional.value, None)
    ensures r.Ok? ==>
      && r.value.id == db.nextAppointment
      && r.value.db == db.(
           appointments := db.appointments[r.value.id := Appointment(input.date.value, input.professional.value)],
           nextAppointment := db.nextAppointment + 1)
    ensures Valid(db) && r.Ok? ==>
      && Valid(r.value.db)
      && r.value.id !in db.appointments
      && |r.value.db.appointments| == |db.appointments| + 1
    ensures input.professional.None? ==>
      r.Err? && r.error.Invalid? && HealthProfessionalKey in r.error.errors
    ensures input.date.Some? && ToOrdinal(input.date.value) < ToOrdinal(today) ==>
      r.Err? && r.error.Invalid? && DateKey in r.error.errors && r.error.errors[DateKey] == PastDate
    ensures
      && input.date.Some? && input.professional.Some?
      && ToOrdinal(today) <= ToOrdinal(input.date.value) && input.professional.value in db.professionals
      && PairTaken(db.appointments, input.date.value, input.professional.value, None)
      ==> r == Err(Invalid(map[NonFieldErrorsKey := NotUnique]))
  {
    match Deserialize(db, today, input, None)
    case Err(e) => Err(e)
    case Ok(a) =>
      if PairTaken(db.appointments, a.date, a.professional, None) then
        Err(Invalid(map[NonFieldErrorsKey := NotUnique]))
      else
        Ok(AddAppointment(db, a))
  }

  /** GET on an item. */
  function Retrieve(db: Db, id: Id): (r: Result<Appointment>)
    ensures r.Ok? <==> id in db.appointments
    ensures r.Ok? ==> r.value == db.appointments[id]
    ensures r.Err? ==> r.error == NotFound
  {
    if id in db.appointments then Ok(db.appointments[id]) else Err(NotFound)
  }

  /** PUT (`partial` false) or PATCH (`partial` true) on an item. A field
      left out of a PATCH keeps its stored value. */
  function Update(db: Db, today: Date, id: Id, input: Input, partial: bool): (r: Result<Db>)
    ensures id !in db.appointments ==> r == Err(NotFound)
    ensures r.Ok? <==>
      && id in db.appointments
      && (partial || (input.date.Some? && input.professional.Some?))
      && (input.date.Some? ==> ToOrdinal(today) <= ToOrdinal(input.date.value))
      && (input.professional.Some? ==> input.professional.value in db.professionals)
      && !PairTaken(db.appointments,
           Pick(input.date, db.appointments[id].date),
           Pick(input.professional, db.appointments[id].professional), Some(id))
    ensures r.Ok? ==>
      r.value == db.(appointments := db.appointments[id := Appointment(
        Pick(input.date, db.appointments[id].date),
        Pick(input.professional, db.appointments[id].professional))])
    ensures Valid(db) && r.Ok? ==> Valid(r.value)
  {
    if id !in db.appointments then Err(NotFound)
    else
      var current := db.appointments[id];
      match Deserialize(db, today, input, if partial then Some(current) else None)
      case Err(e) => Err(e)
      case Ok(a) =>
        if PairTaken(db.appointments, a.date, a.professional, Some(id)) then
          Err(Invalid(map[NonFieldErrorsKey := NotUnique]))
        else
          Ok(PutAppointment(db, id, a))
  }

  /** DELETE on an item: removes that appointment and nothing else. */
  function Destroy(db: Db, id: Id): (r: Result<Db>)
    ensures r.Ok? <==> id in db.appointments
    ensures r.Err? ==> r.error == NotFound
    ensures r.Ok? ==> r.value == db.(appointments := db.appointments - {id})
    ensures r.Ok? ==> |r.value.appointments| == |db.appointments| - 1
    ensures Valid(db) && r.Ok? ==> Valid(r.value)
  {
    if id in db.appointments then Ok(RemoveAppointment(db, id)) else Err(NotFound)
  }

  /** GET on the collection, optionally filtered by `health_professional`:
      the matching rows, each once, by date ascending (ties by key). A
      filter naming no stored professional is itself a validation error. */
  method List(db: Db, filter: Option<Id>) returns (r: Result<seq<Id>>)
    ensures r.Err? <==> filter.Some? && filter.value !in db.professionals
    ensures r.Err? ==> r.error == Invalid(map[HealthProfessionalKey := DoesNotExist])
    ensures r.Ok? ==> forall i :: 0 <= i < |r.value| ==>
      r.value[i] in db.appointments &&
      (filter.Some? ==> db.appointments[r.value[i]].professional == filter.value)
    ensures r.Ok? && filter.None? ==> forall id :: id in db.appointments ==> id in r.value
    ensures r.Ok? && filter.Some? ==> forall id :: id in AppointmentsOf(db.appointments, filter.value) <==> id in r.value
    ensures r.Ok? ==> forall i, j :: 0 <= i < j < |r.value| ==> r.value[i] != r.value[j]
    ensures r.Ok? ==> forall i, j :: 0 <= i < j < |r.value| ==>
      !Before(db.appointments[r.value[j]].date, db.appointments[r.value[i]].date)
  {
    if filter.Some? && filter.value !in db.professionals {
      return Err(Invalid(map[HealthProfessionalKey := DoesNotExist]));
    }
    var t := db.appointments;
    var keys := map id | id in t && (filter.None? || t[id].professional == filter.value) :: Key(t[id].date);
    var ids := SortByKey(keys);
    forall i, j | 0 <= i < j < |ids|
      ensures !Before(t[ids[j]].date, t[ids[i]].date)
    {
      var a, b := t[ids[i]].date, t[ids[j]].date;
      KeyOrder(a, b);
      KeyOrder(b, a);
      if LexLess(Key(a), Key(b)) {
        LexAsymmetric(Key(a), Key(b));
      }
    }
    return Ok(ids);
  }

  // ------------------------------------------------------ round trips

  /** What a create stores is what a retrieve of the new key returns. */
  lemma CreateThenRetrieve(db: Db, today: Date, input: Input)
    requires Create(db, today, input).Ok?
    ensures var c := Create(db, today, input).value;
      Retrieve(c.db, c.id) == Ok(Appointment(input.date.value, input.professional.value))
  {
  }

  /** A full update that submits the stored appointment unchanged succeeds
      and changes nothing exactly while its date is not yet past; once the
      day has gone by, the same request is refused on `date`. */
  lemma PutStoredIsNoop(db: Db, today: Date, id: Id)
    requires Valid(db) && id in db.appointments
    ensures var a := db.appointments[id];
      var r := Update(db, today, id, Input(Some(a.date), Some(a.professional)), false);
      && (r == Ok(db) <==> ToOrdinal(today) <= ToOrdinal(a.date))
      && (r.Err? ==> r.error.Invalid? && DateKey in r.error.errors && r.error.errors[DateKey] == PastDate)
  {
    var a := db.appointments[id];
    assert a.professional in db.professionals;
    assert !PairTaken(db.appointments, a.date, a.professional, Some(id));
    assert db.appointments[id := a] == db.appointments;
  }

  /** A partial update that submits nothing succeeds and changes nothing,
      whatever the stored date: absent fields are not validated again. */
  lemma EmptyPatchIsNoop(db: Db, today: Date, id: Id)
    requires Valid(db) && id in db.appointments
    ensures Update(db, today, id, Input(None, None), true) == Ok(db)
  {
    var a := db.appointments[id];
    assert !PairTaken(db.appointments, a.date, a.professional, Some(id));
    assert db.appointments[id := a] == db.appointments;
  }

  /** Deleting an appointment just created gives back the appointment table
      it was created in; only the key counter has moved on. */
  lemma CreateThenDestroy(db: Db, today: Date, input: Input)
    requires Valid(db) && Create(db, today, input).Ok?
    ensures var c := Create(db, today, input).value;
      Destroy(c.db, c.id) == Ok(db.(nextAppointment := db.nextAppointment + 1))
  {
    var c := Create(db, today, input).value;
    assert c == AddAppointment(db, c.db.appointments[c.id]);
    assert db.nextAppointment !in db.appointments;
    AddThenRemoveAppointment(db, c.db.appointments[c.id]);
  }
}
