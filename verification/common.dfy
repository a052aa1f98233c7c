/** Shared vocabulary of the model: record identifiers, optional values,
    the per-field validation problems a request can be rejected with, and
    the result type every view operation returns. */
module Common {

  /** Primary keys are the database's auto-increment integers. */
  type Id = nat

  datatype Option<+T> = None | Some(value: T)

  /** The keys under which the API reports errors, as they appear in a
      400 response body. */
  const SocialNameKey: string := "social_name"
  const ProfessionKey: string := "profession"
  const AddressKey: string := "address"
  const ContactKey: string := "contact"
  const DateKey: string := "date"
  const HealthProfessionalKey: string := "health_professional"
  const NonFieldErrorsKey: string := "non_field_errors"

  /** The response keys are pairwise different. */
  lemma KeysDistinct()
    ensures SocialNameKey != ProfessionKey && SocialNameKey != AddressKey && SocialNameKey != ContactKey
    ensures ProfessionKey != AddressKey && ProfessionKey != ContactKey && AddressKey != ContactKey
    ensures DateKey != HealthProfessionalKey
  {
    assert SocialNameKey[0] == 's' && ProfessionKey[0] == 'p' && AddressKey[0] == 'a' && ContactKey[0] == 'c';
    assert DateKey[0] == 'd' && HealthProfessionalKey[0] == 'h';
  }

  /** Why a single field (or the record as a whole) was rejected. */
  datatype Problem =
    | Required              // the field is absent from a full request
    | Blank                 // a text field is empty once trimmed
    | TooLong(limit: nat)   // a text field exceeds its column's max_length
    | NullCharacter         // a text field contains U+0000
    | DoesNotExist          // a reference names no stored professional
    | PastDate              // validate_date / Appointments.clean
    | NoProfessional        // validate_health_professional
    | DuplicateAppointment  // validate_mult_fields
    | NotUnique             // a uniqueness constraint of the table

  /** Field-scoped errors: every rejected field with its problem. */
  type FieldErrors = map<string, Problem>

  datatype Error =
    | Invalid(errors: FieldErrors)      // 400, body keyed by field
    | NotFound                          // 404, unknown id
    | Protected(referencedBy: set<Id>)  // delete refused by on_delete=PROTECT

  datatype Result<+T> = Ok(value: T) | Err(error: Error)

  /** The outcome of checking one field: the value to store, or why not. */
  datatype Checked<+T> = Accepted(value: T) | Rejected(problem: Problem)

  /** The error map contribution of one checked field. */
  function ErrorsOf<T>(key: string, c: Checked<T>): (e: FieldErrors)
    ensures key in e <==> c.Rejected?
    ensures forall k :: k in e ==> k == key && e[k] == c.problem
  {
    if c.Rejected? then map[key := c.problem] else map[]
  }

  /** In the errors of four differently keyed fields, a key is present
      exactly when its own field was rejected. */
  lemma ErrorsOfFour<A, B, C, D>(
    k1: string, c1: Checked<A>, k2: string, c2: Checked<B>,
    k3: string, c3: Checked<C>, k4: string, c4: Checked<D>)
    requires k1 != k2 && k1 != k3 && k1 != k4 && k2 != k3 && k2 != k4 && k3 != k4
    ensures var e := ErrorsOf(k1, c1) + ErrorsOf(k2, c2) + ErrorsOf(k3, c3) + ErrorsOf(k4, c4);
      && (k1 in e <==> c1.Rejected?) && (k2 in e <==> c2.Rejected?)
      && (k3 in e <==> c3.Rejected?) && (k4 in e <==> c4.Rejected?)
      && (c1.Rejected? ==> e[k1] == c1.problem)
  {
  }

  /** The messages the repository itself defines; the others come from the
      serializer framework and are not modelled. */
  function Message(p: Problem): Option<string>
  {
    match p
    case PastDate => Some("A data não pode ser anterior à data atual.")
    case NoProfessional => Some("É obrigatório informar um profissional de saúde.")
    case DuplicateAppointment => Some("Este profissional já possui agendamento nesta data.")
    case _ => None
  }
}
