/** The `Appointments` model: a date and a protected reference to a health
    professional, unique per (date, professional) pair, listed by date, and
    the past-date rule of its `clean()`. */
module Appointments {
  import opened Common
  import opened Dates

  datatype Appointment = Appointment(date: Date, professional: Id)

  /** The `unique_together` constraint over a table of appointments: no two
      rows share a (date, health_professional) pair. */
  predicate UniquePairs(t: map<Id, Appointment>)
  {
    forall i, j :: i in t && j in t && i != j ==>
      !(t[i].date == t[j].date && t[i].professional == t[j].professional)
  }

  /** Some row other than `exclude` already holds the pair (date, professional). */
  predicate PairTaken(t: map<Id, Appointment>, date: Date, professional: Id, exclude: Option<Id>)
  {
    exists id :: id in t && t[id].date == date && t[id].professional == professional && exclude != Some(id)
  }

  /** Storing a pair that no other row holds keeps the table free of
      duplicates, whether under a fresh key or over the row `k` itself. */
  lemma StoreKeepsUniquePairs(t: map<Id, Appointment>, k: Id, a: Appointment)
    requires UniquePairs(t)
    requires !PairTaken(t, a.date, a.professional, Some(k))
    ensures UniquePairs(t[k := a])
  {
    var t' := t[k := a];
    forall i, j | i in t' && j in t' && i != j
      ensures !(t'[i].date == t'[j].date && t'[i].professional == t'[j].professional)
    {
      if i == k {
        assert j in t;
      } else if j == k {
        assert i in t;
      }
    }
  }

  /** A pair taken by no row at all is, in particular, taken by no row other
      than `k`. */
  lemma UntakenForAnyKey(t: map<Id, Appointment>, date: Date, professional: Id, k: Id)
    requires !PairTaken(t, date, professional, None)
    ensures !PairTaken(t, date, professional, Some(k))
  {
  }

  /** The `appointments` related name: the rows whose reference points at
      the professional `professional`. */
  function AppointmentsOf(t: map<Id, Appointment>, professional: Id): (r: set<Id>)
    ensures r <= t.Keys
    ensures forall id :: id in t && t[id].professional == professional ==> id in r
    ensures forall id :: id in r ==> t[id].professional == professional
  {
    set id | id in t && t[id].professional == professional
  }

  /** `Appointments.clean()` with the current date passed in: a date
      earlier than today is refused with an error keyed `date`, a missing
      date is not checked. */
  function Clean(date: Option<Date>, today: Date): (r: Result<()>)
    ensures date.None? ==> r.Ok?
    ensures r.Err? ==> r.error == Invalid(map[DateKey := PastDate])
    ensures date.Some? ==> (r.Ok? <==> ToOrdinal(today) <= ToOrdinal(date.value))
  {
    if date.None? then Ok(())
    else
      BeforeIffOrdinal(date.value, today);
      if Before(date.value, today) then Err(Invalid(map[DateKey := PastDate])) else Ok(())
  }
}
