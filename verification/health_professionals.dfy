/** The `HealthProfessional` model: its four text columns, their length
    bounds, the normalisation done by `clean()` and the display string of
    `__str__`. */
module HealthProfessionals {
  import opened Text

  /** `max_length` of the three bounded columns; `address` is a TextField
      and has none. */
  const SocialNameMaxLength: nat := 200
  const ProfessionMaxLength: nat := 100
  const ContactMaxLength: nat := 100

  datatype Professional = Professional(
    socialName: string,
    profession: string,
    address: string,
    contact: string)

  /** Every column fits its declared `max_length`. */
  predicate WithinBounds(p: Professional)
  {
    && |p.socialName| <= SocialNameMaxLength
    && |p.profession| <= ProfessionMaxLength
    && |p.contact| <= ContactMaxLength
  }

  /** `HealthProfessional.clean()`: each non-empty field is normalised, an
      empty one is left as it is. The social name has its whitespace
      collapsed, the profession is trimmed and title-cased, the contact and
      the address are only trimmed. */
  function Clean(p: Professional): (q: Professional)
    ensures p.socialName == [] ==> q.socialName == []
    ensures p.socialName != [] ==> Collapsed(q.socialName) && Split(q.socialName) == Split(p.socialName)
    ensures p.profession == [] ==> q.profession == []
    ensures p.profession != [] ==> IsTitled(q.profession) && SameUpToCase(q.profession, Strip(p.profession))
    ensures q.contact == Strip(p.contact)
    ensures q.address == Strip(p.address)
  {
    var socialName := if p.socialName != [] then Collapse(p.socialName) else p.socialName;
    var profession := if p.profession != [] then Title(Strip(p.profession)) else p.profession;
    var contact := if p.contact != [] then Strip(p.contact) else p.contact;
    var address := if p.address != [] then Strip(p.address) else p.address;
    CollapseProperties(p.socialName);
    TitleCharacterization(Strip(p.profession), profession);
    Professional(socialName, profession, address, contact)
  }

  /** The contract of `Clean` determines its result: any record meeting it
      is the cleaned one. */
  lemma CleanDetermined(p: Professional, q: Professional)
    requires p.socialName == [] ==> q.socialName == []
    requires p.socialName != [] ==> Collapsed(q.socialName) && Split(q.socialName) == Split(p.socialName)
    requires p.profession == [] ==> q.profession == []
    requires p.profession != [] ==> IsTitled(q.profession) && SameUpToCase(q.profession, Strip(p.profession))
    requires q.contact == Strip(p.contact) && q.address == Strip(p.address)
    ensures q == Clean(p)
  {
    var c := Clean(p);
    if p.socialName != [] {
      CollapsedUnique(q.socialName, c.socialName);
    }
    if p.profession != [] {
      TitleCharacterization(Strip(p.profession), q.profession);
      TitleCharacterization(Strip(p.profession), c.profession);
    }
  }

  /** Cleaning a cleaned record changes nothing. */
  lemma CleanIdempotent(p: Professional)
    ensures Clean(Clean(p)) == Clean(p)
  {
    CollapseProperties(p.socialName);
    StripIdempotent(p.contact);
    StripIdempotent(p.address);
    TitleOfStrippedStable(p.profession);
  }

  /** A trimmed, title-cased profession is left alone by a second trim and
      title-casing. */
  lemma TitleOfStrippedStable(x: string)
    ensures Title(Strip(Title(Strip(x)))) == Title(Strip(x))
  {
    var t := Strip(x);
    TitleKeepsSpaces(t);
    StripOfUnpadded(Title(t));
    assert Strip(Title(t)) == Title(t);
    TitleIdempotent(t);
  }

  /** Cleaning never lengthens a field, so it keeps a record within its
      column bounds. */
  lemma CleanKeepsBounds(p: Professional)
    ensures |Clean(p).socialName| <= |p.socialName|
    ensures |Clean(p).profession| <= |p.profession|
    ensures |Clean(p).contact| <= |p.contact|
    ensures |Clean(p).address| <= |p.address|
    ensures WithinBounds(p) ==> WithinBounds(Clean(p))
  {
    CollapseShorter(p.socialName);
    TitleKeepsSpaces(Strip(p.profession));
  }

  /** `__str__`: the social name, a spaced dash, then the profession. */
  function Display(p: Professional): (r: string)
    ensures |r| == |p.socialName| + 3 + |p.profession|
    ensures r[..|p.socialName|] == p.socialName
    ensures r[|p.socialName|..|p.socialName| + 3] == " - "
    ensures r[|p.socialName| + 3..] == p.profession
  {
    p.socialName + " - " + p.profession
  }
}
