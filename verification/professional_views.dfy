/** The professional endpoints: list and create on the collection,
    retrieve, full or partial update and delete on an item. Each is the
    framework's generic view over a model serializer with every column
    exposed. Its text fields trim surrounding whitespace, refuse a value
    that is blank once trimmed, enforce the column's `max_length` and
    refuse the null character;
    errors are collected per field, and only when every field passes is
    the (social_name, profession) pair checked against the other rows.
    The model's own `clean()` is not part of this path. */
module ProfessionalViews {
  import opened Common
  import opened Text
  import opened Ordering
  import opened HealthProfessionals
  import opened Appointments
  import opened Store

  /** A request body: any of the four fields may be left out. */
  datatype Input = Input(
    socialName: Option<string>,
    profession: Option<string>,
    address: Option<string>,
    contact: Option<string>)

  /** The `max_length` each field's serializer field enforces; `address`
      has none. */
  const SocialNameLimit: Option<nat> := Some(SocialNameMaxLength)
  const ProfessionLimit: Option<nat> := Some(ProfessionMaxLength)
  const AddressLimit: Option<nat> := None
  const ContactLimit: Option<nat> := Some(ContactMaxLength)

  /** A submitted text passes its field: not blank once trimmed, the
      trimmed text fits the limit, and it holds no null character. */
  predicate Acceptable(x: string, limit: Option<nat>)
  {
    Strip(x) != [] && (limit.None? || |Strip(x)| <= limit.value) && Nul !in Strip(x)
  }

  /** A field passes: it is given and acceptable, or it is left out where a
      stored value stands in for it. */
  predicate FieldPasses(submitted: Option<string>, limit: Option<nat>, hasCurrent: bool)
  {
    if submitted.Some? then Acceptable(submitted.value, limit) else hasCurrent
  }

  /** The value a field ends up with: the trimmed submission, or else the
      one already stored. */
  function Resolve(submitted: Option<string>, current: string): string
  {
    if submitted.Some? then Strip(submitted.value) else current
  }

  /** One text field: required unless the stored value stands in for it;
      when given, trimmed, then refused if blank, then refused if longer
      than its limit, then refused if it holds the null character. */
  function CheckText(submitted: Option<string>, limit: Option<nat>, current: Option<string>): (c: Checked<string>)
    ensures c.Accepted? <==> FieldPasses(submitted, limit, current.Some?)
    ensures submitted.None? ==> c == (if current.Some? then Accepted(current.value) else Rejected(Required))
    ensures submitted.Some? && c.Accepted? ==>
      && Trimmed(c.value)
      && (limit.Some? ==> |c.value| <= limit.value)
      && Nul !in c.value
      && c.value == Strip(submitted.value)
    ensures submitted.Some? && Strip(submitted.value) == [] ==> c == Rejected(Blank)
    ensures submitted.Some? && Strip(submitted.value) != [] && limit.Some? && |Strip(submitted.value)| > limit.value ==>
      c == Rejected(TooLong(limit.value))
    ensures
      && submitted.Some? && Strip(submitted.value) != []
      && (limit.None? || |Strip(submitted.value)| <= limit.value)
      && Nul in Strip(submitted.value)
      ==> c == Rejected(NullCharacter)
  {
    match submitted
    case None => if current.Some? then Accepted(current.value) else Rejected(Required)
    case Some(x) =>
      var v := Strip(x);
      if v == [] then Rejected(Blank)
      else if limit.Some? && |v| > limit.value then Rejected(TooLong(limit.value))
      else if Nul in v then Rejected(NullCharacter)
      else
        TrimmedIffStripFixed(v);
        StripIdempotent(x);
        Accepted(v)
  }

  /** Every field of the request passes. */
  predicate AllPass(input: Input, hasCurrent: bool)
  {
    && FieldPasses(input.socialName, SocialNameLimit, hasCurrent)
    && FieldPasses(input.profession, ProfessionLimit, hasCurrent)
    && FieldPasses(input.address, AddressLimit, hasCurrent)
    && FieldPasses(input.contact, ContactLimit, hasCurrent)
  }

  /** The record a request describes over the stored one. */
  function Merge(input: Input, current: Professional): Professional
  {
    Professional(
      Resolve(input.socialName, current.socialName),
      Resolve(input.profession, current.profession),
      Resolve(input.address, current.address),
      Resolve(input.contact, current.contact))
  }

  /** Field-level deserialisation of a request, over the stored record in an
      update (`current`) or nothing in a create. A success is a storable
      record whenever the stored one is. */
  function Deserialize(input: Input, current: Option<Professional>): (r: Result<Professional>)
    ensures r.Ok? <==> AllPass(input, current.Some?)
    ensures r.Ok? && current.Some? ==> r.value == Merge(input, current.value)
    ensures r.Ok? && current.None? ==>
      r.value == Professional(Strip(input.socialName.value), Strip(input.profession.value),
                              Strip(input.address.value), Strip(input.contact.value))
    ensures r.Err? ==> r.error.Invalid?
  {
    var socialName := CheckText(input.socialName, SocialNameLimit, if current.Some? then Some(current.value.socialName) else None);
    var profession := CheckText(input.profession, ProfessionLimit, if current.Some? then Some(current.value.profession) else None);
    var address := CheckText(input.address, AddressLimit, if current.Some? then Some(current.value.address) else None);
    var contact := CheckText(input.contact, ContactLimit, if current.Some? then Some(current.value.contact) else None);
    if socialName.Rejected? || profession.Rejected? || address.Rejected? || contact.Rejected? then
      Err(Invalid(
        ErrorsOf(SocialNameKey, socialName) + ErrorsOf(ProfessionKey, profession)
        + ErrorsOf(AddressKey, address) + ErrorsOf(ContactKey, contact)))
    else
      Ok(Professional(socialName.value, profession.value, address.value, contact.value))
  }

  /** A request that passes yields a storable record whenever the stored
      one is: every column trimmed, not blank and within its bound. */
  lemma DeserializeStorable(input: Input, current: Option<Professional>)
    ensures (current.None? || Storable(current.value)) && Deserialize(input, current).Ok? ==>
      Storable(Deserialize(input, current).value)
  {
  }

  /** A refused request names exactly the fields that failed. */
  lemma DeserializeErrors(input: Input, current: Option<Professional>)
    ensures var r := Deserialize(input, current);
      r.Err? ==>
        && (SocialNameKey in r.error.errors <==> !FieldPasses(input.socialName, SocialNameLimit, current.Some?))
        && (ProfessionKey in r.error.errors <==> !FieldPasses(input.profession, ProfessionLimit, current.Some?))
        && (AddressKey in r.error.errors <==> !FieldPasses(input.address, AddressLimit, current.Some?))
        && (ContactKey in r.error.errors <==> !FieldPasses(input.contact, ContactLimit, current.Some?))
  {
    var socialName := CheckText(input.socialName, SocialNameLimit, if current.Some? then Some(current.value.socialName) else None);
    var profession := CheckText(input.profession, ProfessionLimit, if current.Some? then Some(current.value.profession) else None);
    var address := CheckText(input.address, AddressLimit, if current.Some? then Some(current.value.address) else None);
    var contact := CheckText(input.contact, ContactLimit, if current.Some? then Some(current.value.contact) else None);
    KeysDistinct();
    ErrorsOfFour(SocialNameKey, socialName, ProfessionKey, profession, AddressKey, address, ContactKey, contact);
  }

  /** POST on the collection. */
  function Create(db: Db, input: Input): (r: Result<Created>)
    ensures r.Ok? <==>
      && input.socialName.Some? && input.profession.Some? && input.address.Some? && input.contact.Some?
      && AllPass(input, false)
      && !NameTaken(db.professionals, Strip(input.socialName.value), Strip(input.profession.value), None)
    ensures r.Ok? ==>
      && r.value.id == db.nextProfessional
      && r.value.db == db.(
           professionals := db.professionals[r.value.id := Professional(
             Strip(input.socialName.value), Strip(input.profession.value),
             Strip(input.address.value), Strip(input.contact.value))],
           nextProfessional := db.nextProfessional + 1)
    ensures Valid(db) && r.Ok? ==>
      && Valid(r.value.db)
      && r.value.id !in db.professionals
      && |r.value.db.professionals| == |db.professionals| + 1
    ensures !AllPass(input, false) ==> r == Err(Deserialize(input, None).error)
    ensures
      && input.socialName.Some? && input.profession.Some? && input.address.Some? && input.contact.Some?
      && AllPass(input, false)
      && NameTaken(db.professionals, Strip(input.socialName.value), Strip(input.profession.value), None)
      ==> r == Err(Invalid(map[NonFieldErrorsKey := NotUnique]))
  {
    DeserializeStorable(input, None);
    match Deserialize(input, None)
    case Err(e) => Err(e)
    case Ok(p) =>
      if NameTaken(db.professionals, p.socialName, p.profession, None) then
        Err(Invalid(map[NonFieldErrorsKey := NotUnique]))
      else
        Ok(AddProfessional(db, p))
  }

  /** A create missing any field is refused with that field's key, and a
      blank social name is refused as blank; the record is never stored. */
  lemma CreateRefusals(db: Db, input: Input)
    ensures var r := Create(db, input);
      && (input.socialName.None? ==> r.Err? && r.error.Invalid? && SocialNameKey in r.error.errors)
      && (input.profession.None? ==> r.Err? && r.error.Invalid? && ProfessionKey in r.error.errors)
      && (input.address.None? ==> r.Err? && r.error.Invalid? && AddressKey in r.error.errors)
      && (input.contact.None? ==> r.Err? && r.error.Invalid? && ContactKey in r.error.errors)
      && (input.socialName.Some? && Strip(input.socialName.value) == [] ==>
            r.Err? && r.error.Invalid? && r.error.errors[SocialNameKey] == Blank)
  {
    DeserializeErrors(input, None);
    if input.socialName.Some? && Strip(input.socialName.value) == [] {
      BlankNamed(input, None);
    }
  }

  /** A submitted social name that is blank once trimmed is reported as
      blank under its key. */
  lemma BlankNamed(input: Input, current: Option<Professional>)
    requires input.socialName.Some? && Strip(input.socialName.value) == []
    ensures var r := Deserialize(input, current);
      r.Err? && SocialNameKey in r.error.errors && r.error.errors[SocialNameKey] == Blank
  {
    var socialName := CheckText(input.socialName, SocialNameLimit, if current.Some? then Some(current.value.socialName) else None);
    var profession := CheckText(input.profession, ProfessionLimit, if current.Some? then Some(current.value.profession) else None);
    var address := CheckText(input.address, AddressLimit, if current.Some? then Some(current.value.address) else None);
    var contact := CheckText(input.contact, ContactLimit, if current.Some? then Some(current.value.contact) else None);
    KeysDistinct();
    ErrorsOfFour(SocialNameKey, socialName, ProfessionKey, profession, AddressKey, address, ContactKey, contact);
  }

  /** GET on an item. */
  function Retrieve(db: Db, id: Id): (r: Result<Professional>)
    ensures r.Ok? <==> id in db.professionals
    ensures r.Ok? ==> r.value == db.professionals[id]
    ensures r.Err? ==> r.error == NotFound
  {
    if id in db.professionals then Ok(db.professionals[id]) else Err(NotFound)
  }

  /** PUT (`partial` false) or PATCH (`partial` true) on an item. A field
      left out of a PATCH keeps its stored value. */
  function Update(db: Db, id: Id, input: Input, partial: bool): (r: Result<Db>)
    ensures id !in db.professionals ==> r == Err(NotFound)
    ensures r.Ok? <==>
      && id in db.professionals
      && AllPass(input, partial)
      && !NameTaken(db.professionals,
           Resolve(input.socialName, db.professionals[id].socialName),
           Resolve(input.profession, db.professionals[id].profession), Some(id))
    ensures r.Ok? ==>
      r.value == db.(professionals := db.professionals[id := Merge(input, db.professionals[id])])
    ensures Valid(db) && r.Ok? ==> Valid(r.value)
    ensures id in db.professionals && !AllPass(input, partial) ==>
      r == Err(Deserialize(input, if partial then Some(db.professionals[id]) else None).error)
  {
    if id !in db.professionals then Err(NotFound)
    else
      var current := db.professionals[id];
      DeserializeStorable(input, if partial then Some(current) else None);
      match Deserialize(input, if partial then Some(current) else None)
      case Err(e) => Err(e)
      case Ok(p) =>
        assert p == Merge(input, current);
        if NameTaken(db.professionals, p.socialName, p.profession, Some(id)) then
          Err(Invalid(map[NonFieldErrorsKey := NotUnique]))
        else
          Ok(PutProfessional(db, id, p))
  }

  /** A PUT missing the social name, or any update submitting a blank one,
      is refused under `social_name`. */
  lemma UpdateRefusals(db: Db, id: Id, input: Input, partial: bool)
    requires id in db.professionals
    ensures var r := Update(db, id, input, partial);
      && (!partial && input.socialName.None? ==> r.Err? && r.error.Invalid? && SocialNameKey in r.error.errors)
      && (input.socialName.Some? && Strip(input.socialName.value) == [] ==>
            r.Err? && r.error.Invalid? && r.error.errors[SocialNameKey] == Blank)
  {
    var current := if partial then Some(db.professionals[id]) else None;
    DeserializeErrors(input, current);
    if input.socialName.Some? && Strip(input.socialName.value) == [] {
      BlankNamed(input, current);
    }
  }

  /** DELETE on an item: refused while any appointment refers to the
      professional, otherwise removes that row and nothing else. */
  function Destroy(db: Db, id: Id): (r: Result<Db>)
    ensures id !in db.professionals ==> r == Err(NotFound)
    ensures id in db.professionals && AppointmentsOf(db.appointments, id) != {} ==>
      r == Err(Protected(AppointmentsOf(db.appointments, id)))
    ensures r.Ok? <==> id in db.professionals && forall a :: a in db.appointments ==> db.appointments[a].professional != id
    ensures r.Ok? ==> r.value == db.(professionals := db.professionals - {id})
    ensures Valid(db) && r.Ok? ==> Valid(r.value)
  {
    if id !in db.professionals then Err(NotFound)
    else
      var refs := AppointmentsOf(db.appointments, id);
      if refs != {} then
        assert exists a :: a in refs;
        Err(Protected(refs))
      else
        Ok(RemoveProfessional(db, id))
  }

  /** GET on the collection: every professional once, by social name in
      code-point order. */
  method List(db: Db) returns (ids: seq<Id>)
    ensures forall i :: 0 <= i < |ids| ==> ids[i] in db.professionals
    ensures forall id :: id in db.professionals ==> id in ids
    ensures forall i, j :: 0 <= i < j < |ids| ==> ids[i] != ids[j]
    ensures forall i, j :: 0 <= i < j < |ids| ==>
      !LexLess(Codes(db.professionals[ids[j]].socialName), Codes(db.professionals[ids[i]].socialName))
  {
    var t := db.professionals;
    var keys := map id | id in t :: Codes(t[id].socialName);
    ids := SortByKey(keys);
    forall i, j | 0 <= i < j < |ids|
      ensures !LexLess(Codes(t[ids[j]].socialName), Codes(t[ids[i]].socialName))
    {
      var a, b := keys[ids[i]], keys[ids[j]];
      if LexLess(a, b) {
        LexAsymmetric(a, b);
      } else {
        LexIrreflexive(a);
      }
    }
  }

  // ------------------------------------------------------ round trips

  /** What a create stores is what a retrieve of the new key returns: the
      submitted fields, trimmed. */
  lemma CreateThenRetrieve(db: Db, input: Input)
    requires Create(db, input).Ok?
    ensures var c := Create(db, input).value;
      Retrieve(c.db, c.id) == Ok(Professional(
        Strip(input.socialName.value), Strip(input.profession.value),
        Strip(input.address.value), Strip(input.contact.value)))
  {
  }

  /** A full update that submits the stored record unchanged succeeds and
      leaves the database as it was. */
  lemma PutStoredIsNoop(db: Db, id: Id)
    requires Valid(db) && id in db.professionals
    ensures var p := db.professionals[id];
      Update(db, id, Input(Some(p.socialName), Some(p.profession), Some(p.address), Some(p.contact)), false) == Ok(db)
  {
    PutOwnColumns(db, id);
  }

  /** The table-level core of `PutStoredIsNoop`: it needs only that the
      row is storable and the names unique. */
  lemma PutOwnColumns(db: Db, id: Id)
    requires id in db.professionals && Storable(db.professionals[id]) && UniqueNames(db.professionals)
    ensures var p := db.professionals[id];
      Update(db, id, Input(Some(p.socialName), Some(p.profession), Some(p.address), Some(p.contact)), false) == Ok(db)
  {
    var p := db.professionals[id];
    StoredPasses(p);
    assert !NameTaken(db.professionals, p.socialName, p.profession, Some(id));
    assert db.professionals[id := p] == db.professionals;
  }

  /** Submitting a storable record's own columns passes every field and
      resolves to the record itself. */
  lemma StoredPasses(p: Professional)
    requires Storable(p)
    ensures var input := Input(Some(p.socialName), Some(p.profession), Some(p.address), Some(p.contact));
      AllPass(input, false) && Merge(input, p) == p
  {
    TrimmedIffStripFixed(p.socialName);
    TrimmedIffStripFixed(p.profession);
    TrimmedIffStripFixed(p.address);
    TrimmedIffStripFixed(p.contact);
  }

  /** A partial update that submits nothing succeeds and changes nothing. */
  lemma EmptyPatchIsNoop(db: Db, id: Id)
    requires Valid(db) && id in db.professionals
    ensures Update(db, id, Input(None, None, None, None), true) == Ok(db)
  {
    var p := db.professionals[id];
    assert Merge(Input(None, None, None, None), p) == p;
    assert !NameTaken(db.professionals, p.socialName, p.profession, Some(id));
    assert db.professionals[id := p] == db.professionals;
  }

  /** Deleting a professional just created gives back the professional
      table it was created in; only the key counter has moved on. */
  lemma CreateThenDestroy(db: Db, input: Input)
    requires Valid(db) && Create(db, input).Ok?
    ensures var c := Create(db, input).value;
      Destroy(c.db, c.id) == Ok(db.(nextProfessional := db.nextProfessional + 1))
  {
    var c := Create(db, input).value;
    var p := c.db.professionals[c.id];
    assert c == AddProfessional(db, p);
    assert db.nextProfessional !in db.professionals;
    AddThenRemoveProfessional(db, p);
  }

  /** After a delete the professional can no longer be retrieved, and
      every other one is retrieved as before. */
  lemma DestroyThenRetrieve(db: Db, id: Id)
    requires Destroy(db, id).Ok?
    ensures Retrieve(Destroy(db, id).value, id) == Err(NotFound)
    ensures forall other :: other != id ==> Retrieve(Destroy(db, id).value, other) == Retrieve(db, other)
  {
  }
}
