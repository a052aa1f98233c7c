/** The field hooks of the appointment serializer and its standalone
    duplicate check. `validate_mult_fields` is not a hook name the serializer
    framework calls, so in the running service duplicates are refused by the
    `unique_together` constraint instead; the lemmas below show that the two
    rules agree. */
module AppointmentSerializer {
  import opened Common
  import opened Dates
  import opened Appointments

  /** The serializer's data: each of the two fields may be absent. */
  datatype Data = Data(date: Option<Date>, professional: Option<Id>)

  /** `validate_date`, with the current date passed in: today and every
      later day are accepted unchanged, every earlier day is refused. */
  function ValidateDate(value: Date, today: Date): (r: Result<Date>)
    ensures r.Ok? <==> ToOrdinal(today) <= ToOrdinal(value)
    ensures r.Ok? ==> r.value == value
    ensures r.Err? ==> r.error == Invalid(map[DateKey := PastDate])
  {
    BeforeIffOrdinal(value, today);
    if Before(value, today) then Err(Invalid(map[DateKey := PastDate])) else Ok(value)
  }

  /** `validate_health_professional`: an absent reference is refused, a
      present one is returned as it is. */
  function ValidateHealthProfessional(value: Option<Id>): (r: Result<Id>)
    ensures r.Ok? <==> value.Some?
    ensures r.Ok? ==> r.value == value.value
    ensures r.Err? ==> r.error == Invalid(map[HealthProfessionalKey := NoProfessional])
  {
    match value
    case None => Err(Invalid(map[HealthProfessionalKey := NoProfessional]))
    case Some(p) => Ok(p)
  }

  /** `validate_mult_fields` against the stored table `t`; `instance` is
      the primary key of the record being edited, if any. Only when both
      fields are present is the table queried; the edited record never
      counts as a duplicate of itself. On success the data comes back
      untouched. The method raises its error without a field key; the
      framework would file such an error under `non_field_errors` only if
      the method were the serializer's `validate` hook, and the model files
      it there. */
  function ValidateMultFields(t: map<Id, Appointment>, instance: Option<Id>, data: Data): (r: Result<Data>)
    ensures r.Ok? ==> r.value == data
    ensures r.Err? <==>
      data.date.Some? && data.professional.Some? &&
      PairTaken(t, data.date.value, data.professional.value, instance)
    ensures r.Err? ==> r.error == Invalid(map[NonFieldErrorsKey := DuplicateAppointment])
  {
    if data.date.Some? && data.professional.Some? then
      var date, professional := data.date.value, data.professional.value;
      var clashes := set id | id in t && t[id].date == date && t[id].professional == professional && instance != Some(id);
      if clashes != {} then
        assert exists id :: id in clashes;
        Err(Invalid(map[NonFieldErrorsKey := DuplicateAppointment]))
      else
        assert forall id :: id in t && t[id].date == date && t[id].professional == professional && instance != Some(id) ==> id in clashes;
        Ok(data)
    else
      Ok(data)
  }

  /** Re-submitting the pair a stored record already holds, while editing
      that record, is not a duplicate. */
  lemma OwnPairIsNoDuplicate(t: map<Id, Appointment>, id: Id)
    requires UniquePairs(t) && id in t
    ensures ValidateMultFields(t, Some(id), Data(Some(t[id].date), Some(t[id].professional))) ==
      Ok(Data(Some(t[id].date), Some(t[id].professional)))
  {
  }

  /** The standalone check agrees with the table's uniqueness invariant:
      storing the pair at `target` (the edited record, or a fresh key when
      creating) keeps the table free of duplicates exactly when
      `validate_mult_fields` accepts it. */
  lemma MultFieldsAgreesWithUniquePairs(
    t: map<Id, Appointment>, instance: Option<Id>, target: Id, date: Date, professional: Id)
    requires UniquePairs(t)
    requires instance == Some(target) || (instance.None? && target !in t)
    ensures ValidateMultFields(t, instance, Data(Some(date), Some(professional))).Ok? <==>
      UniquePairs(t[target := Appointment(date, professional)])
  {
    var t' := t[target := Appointment(date, professional)];
    if PairTaken(t, date, professional, instance) {
      var id :| id in t && t[id].date == date && t[id].professional == professional && instance != Some(id);
      assert id != target;
      assert id in t' && target in t' && t'[id] == t[id];
    }
  }

  /** The model's own `clean()` and the serializer's `validate_date` refuse
      the same dates. */
  lemma CleanAgreesWithValidateDate(d: Date, today: Date)
    ensures Appointments.Clean(Some(d), today).Ok? <==> ValidateDate(d, today).Ok?
    ensures Appointments.Clean(Some(d), today).Err? ==>
      Appointments.Clean(Some(d), today).error == ValidateDate(d, today).error
  {
  }
}
