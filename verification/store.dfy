/** The database behind the two resources: one table of professionals, one
    of appointments, and the auto-increment counters that hand out primary
    keys. `Valid` gathers what the schema guarantees of every reachable
    state. */
module Store {
  import opened Common
  import opened Text
  import opened HealthProfessionals
  import opened Appointments

  datatype Db = Db(
    professionals: map<Id, Professional>,
    appointments: map<Id, Appointment>,
    nextProfessional: Id,
    nextAppointment: Id)

  /** What a successful create returns: the new state and the new key. */
  datatype Created = Created(db: Db, id: Id)

  /** An empty database; auto-increment keys start at 1. */
  const Empty: Db := Db(map[], map[], 1, 1)

  /** The `unique_professional` constraint: no two rows share the exact
      pair (social_name, profession). */
  predicate UniqueNames(t: map<Id, Professional>)
  {
    forall i, j :: i in t && j in t && i != j ==>
      !(t[i].socialName == t[j].socialName && t[i].profession == t[j].profession)
  }

  /** Some row other than `exclude` already holds (socialName, profession). */
  predicate NameTaken(t: map<Id, Professional>, socialName: string, profession: string, exclude: Option<Id>)
  {
    exists id :: id in t && t[id].socialName == socialName && t[id].profession == profession && exclude != Some(id)
  }

  /** A text column as the serializer stores it: not blank, and neither
      end is whitespace. */
  predicate Trimmed(s: string)
  {
    s != [] && !IsSpace(s[0]) && !IsSpace(s[|s| - 1])
  }

  /** Trimmed text is exactly the non-empty text that stripping leaves
      alone. */
  lemma TrimmedIffStripFixed(s: string)
    ensures Trimmed(s) <==> s != [] && Strip(s) == s
  {
    if Trimmed(s) {
      StripOfUnpadded(s);
    }
  }

  /** The null character, which the serializer's text fields refuse. */
  const Nul: char := '\0'

  /** A professional row as it can be stored: every column trimmed, not
      blank, free of the null character, and within its `max_length`. */
  predicate Storable(p: Professional)
  {
    && Trimmed(p.socialName) && Trimmed(p.profession) && Trimmed(p.address) && Trimmed(p.contact)
    && Nul !in p.socialName && Nul !in p.profession && Nul !in p.address && Nul !in p.contact
    && WithinBounds(p)
  }

  /** The professional table: unique names, well-formed rows, keys below
      the counter. */
  predicate ProfessionalTableValid(t: map<Id, Professional>, next: Id)
  {
    && UniqueNames(t)
    && (forall id :: id in t ==> Storable(t[id]))
    && (forall id :: id in t ==> id < next)
  }

  /** The appointment table: unique pairs, keys below the counter. */
  predicate AppointmentTableValid(t: map<Id, Appointment>, next: Id)
  {
    && UniquePairs(t)
    && (forall id :: id in t ==> id < next)
  }

  /** Every appointment's reference resolves: PROTECT never lets it dangle. */
  predicate ReferencesResolve(appointments: map<Id, Appointment>, professionals: map<Id, Professional>)
  {
    forall id :: id in appointments ==> appointments[id].professional in professionals
  }

  /** The invariant of every reachable state: both tables and the
      references between them. */
  predicate Valid(db: Db)
  {
    && ProfessionalTableValid(db.professionals, db.nextProfessional)
    && AppointmentTableValid(db.appointments, db.nextAppointment)
    && ReferencesResolve(db.appointments, db.professionals)
  }

  lemma EmptyValid()
    ensures Valid(Empty)
  {
  }

  // ------------------------------------------------- appointment table

  /** INSERT of an appointment row under the next key. */
  function AddAppointment(db: Db, a: Appointment): (c: Created)
    ensures c.id == db.nextAppointment
    ensures c.db == db.(appointments := db.appointments[c.id := a], nextAppointment := c.id + 1)
    ensures Valid(db) ==> c.id !in db.appointments && |c.db.appointments| == |db.appointments| + 1
    ensures Valid(db) && a.professional in db.professionals && !PairTaken(db.appointments, a.date, a.professional, None)
      ==> Valid(c.db)
  {
    AddAppointmentKeepsValid(db, a);
    Created(db.(appointments := db.appointments[db.nextAppointment := a], nextAppointment := db.nextAppointment + 1),
            db.nextAppointment)
  }

  /** An insert with a resolving reference and a free pair keeps `Valid`. */
  lemma AddAppointmentKeepsValid(db: Db, a: Appointment)
    ensures Valid(db) && a.professional in db.professionals && !PairTaken(db.appointments, a.date, a.professional, None)
      ==> Valid(db.(appointments := db.appointments[db.nextAppointment := a], nextAppointment := db.nextAppointment + 1))
  {
    if Valid(db) && a.professional in db.professionals && !PairTaken(db.appointments, a.date, a.professional, None) {
      UntakenForAnyKey(db.appointments, a.date, a.professional, db.nextAppointment);
      StoreKeepsUniquePairs(db.appointments, db.nextAppointment, a);
    }
  }

  /** UPDATE of the appointment row under `id`. */
  function PutAppointment(db: Db, id: Id, a: Appointment): (r: Db)
    ensures r == db.(appointments := db.appointments[id := a])
    ensures
      && Valid(db) && id in db.appointments && a.professional in db.professionals
      && !PairTaken(db.appointments, a.date, a.professional, Some(id))
      ==> Valid(r)
  {
    PutAppointmentKeepsValid(db, id, a);
    db.(appointments := db.appointments[id := a])
  }

  /** An update with a resolving reference and a pair no other row holds
      keeps `Valid`. */
  lemma PutAppointmentKeepsValid(db: Db, id: Id, a: Appointment)
    ensures
      && Valid(db) && id in db.appointments && a.professional in db.professionals
      && !PairTaken(db.appointments, a.date, a.professional, Some(id))
      ==> Valid(db.(appointments := db.appointments[id := a]))
  {
    if Valid(db) && id in db.appointments && a.professional in db.professionals
      && !PairTaken(db.appointments, a.date, a.professional, Some(id)) {
      StoreKeepsUniquePairs(db.appointments, id, a);
    }
  }

  /** DELETE of the appointment row under `id`. */
  function RemoveAppointment(db: Db, id: Id): (r: Db)
    requires id in db.appointments
    ensures r == db.(appointments := db.appointments - {id})
    ensures |r.appointments| == |db.appointments| - 1
    ensures Valid(db) ==> Valid(r)
  {
    db.(appointments := db.appointments - {id})
  }

  // ------------------------------------------------ professional table

  /** Storing a name pair that no other row holds keeps the professional
      table free of duplicates, under a fresh key or over the row `k`. */
  lemma StoreKeepsUniqueNames(t: map<Id, Professional>, k: Id, p: Professional)
    requires UniqueNames(t)
    requires !NameTaken(t, p.socialName, p.profession, Some(k))
    ensures UniqueNames(t[k := p])
  {
    var t' := t[k := p];
    forall i, j | i in t' && j in t' && i != j
      ensures !(t'[i].socialName == t'[j].socialName && t'[i].profession == t'[j].profession)
    {
      if i == k {
        assert j in t;
      } else if j == k {
        assert i in t;
      }
    }
  }

  /** INSERT of a professional row under the next key. */
  function AddProfessional(db: Db, p: Professional): (c: Created)
    ensures c.id == db.nextProfessional
    ensures c.db == db.(professionals := db.professionals[c.id := p], nextProfessional := c.id + 1)
    ensures Valid(db) ==> c.id !in db.professionals && |c.db.professionals| == |db.professionals| + 1
    ensures Valid(db) && Storable(p) && !NameTaken(db.professionals, p.socialName, p.profession, None)
      ==> Valid(c.db)
  {
    AddProfessionalKeepsValid(db, p);
    Created(db.(professionals := db.professionals[db.nextProfessional := p], nextProfessional := db.nextProfessional + 1),
            db.nextProfessional)
  }

  /** An insert of a storable record with a free name pair keeps `Valid`. */
  lemma AddProfessionalKeepsValid(db: Db, p: Professional)
    ensures Valid(db) && Storable(p) && !NameTaken(db.professionals, p.socialName, p.profession, None)
      ==> Valid(db.(professionals := db.professionals[db.nextProfessional := p], nextProfessional := db.nextProfessional + 1))
  {
    if Valid(db) && Storable(p) && !NameTaken(db.professionals, p.socialName, p.profession, None) {
      assert !NameTaken(db.professionals, p.socialName, p.profession, Some(db.nextProfessional));
      StoreKeepsUniqueNames(db.professionals, db.nextProfessional, p);
    }
  }

  /** UPDATE of the professional row under `id`. */
  function PutProfessional(db: Db, id: Id, p: Professional): (r: Db)
    ensures r == db.(professionals := db.professionals[id := p])
    ensures
      && Valid(db) && id in db.professionals && Storable(p)
      && !NameTaken(db.professionals, p.socialName, p.profession, Some(id))
      ==> Valid(r)
  {
    PutProfessionalKeepsValid(db, id, p);
    db.(professionals := db.professionals[id := p])
  }

  /** An update with a storable record whose name pair no other row holds
      keeps `Valid`. */
  lemma PutProfessionalKeepsValid(db: Db, id: Id, p: Professional)
    ensures
      && Valid(db) && id in db.professionals && Storable(p)
      && !NameTaken(db.professionals, p.socialName, p.profession, Some(id))
      ==> Valid(db.(professionals := db.professionals[id := p]))
  {
    if Valid(db) && id in db.professionals && Storable(p)
      && !NameTaken(db.professionals, p.socialName, p.profession, Some(id)) {
      StoreKeepsUniqueNames(db.professionals, id, p);
    }
  }

  /** DELETE of the professional row under `id`; with `on_delete=PROTECT`
      the database allows it only while no appointment refers to it. */
  function RemoveProfessional(db: Db, id: Id): (r: Db)
    requires id in db.professionals
    ensures r == db.(professionals := db.professionals - {id})
    ensures |r.professionals| == |db.professionals| - 1
    ensures Valid(db) && AppointmentsOf(db.appointments, id) == {} ==> Valid(r)
  {
    RemoveProfessionalKeepsValid(db, id);
    db.(professionals := db.professionals - {id})
  }

  /** A delete of a professional no appointment refers to keeps every
      reference resolving, and so keeps `Valid`. */
  lemma RemoveProfessionalKeepsValid(db: Db, id: Id)
    ensures Valid(db) && AppointmentsOf(db.appointments, id) == {}
      ==> Valid(db.(professionals := db.professionals - {id}))
  {
    var r := db.(professionals := db.professionals - {id});
    if Valid(db) && AppointmentsOf(db.appointments, id) == {} {
      forall k | k in r.appointments
        ensures r.appointments[k].professional in r.professionals
      {
        assert k !in AppointmentsOf(db.appointments, id);
      }
    }
  }

  /** A professional just inserted has no appointments, and deleting it
      gives back the table it was inserted into. */
  lemma AddThenRemoveProfessional(db: Db, p: Professional)
    requires db.nextProfessional !in db.professionals
    requires ReferencesResolve(db.appointments, db.professionals)
    ensures var c := AddProfessional(db, p);
      && AppointmentsOf(c.db.appointments, c.id) == {}
      && RemoveProfessional(c.db, c.id) == db.(nextProfessional := db.nextProfessional + 1)
  {
    var c := AddProfessional(db, p);
    forall a | a in db.appointments
      ensures db.appointments[a].professional != c.id
    {
      assert db.appointments[a].professional in db.professionals;
    }
    assert c.db.professionals - {c.id} == db.professionals;
  }

  /** Deleting an appointment just inserted gives back the table it was
      inserted into. */
  lemma AddThenRemoveAppointment(db: Db, a: Appointment)
    requires db.nextAppointment !in db.appointments
    ensures var c := AddAppointment(db, a);
      RemoveAppointment(c.db, c.id) == db.(nextAppointment := db.nextAppointment + 1)
  {
    var t := db.appointments;
    var k := db.nextAppointment;
    assert t[k := a] - {k} == t;
  }
}
