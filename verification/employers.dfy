/** `EmployerServiceImpl`: the get-or-create placeholder profile, the
    null-keeps / trim-on-write profile update, and the filtered listing.

    Saving an employer respects the two unique columns of the `employers`
    table: `companyName` and `user_id`.
 */
module Employers {
  import opened Wrappers
  import opened Text
  import opened Seqs
  import Tables
  import opened Entities

  const DEFAULT_COMPANY_NAME: string := "Company Name - Please Update"
  const DEFAULT_EMAIL: string := "Please Update Email"

  /** `createDefaultEmployerProfile`: the placeholder profile for user `userId`. */
  function DefaultEmployer(userId: nat, userEmail: Option<string>): (e: Employer)
    ensures e.userId == userId && e.companyName == DEFAULT_COMPANY_NAME
    ensures userEmail.Some? ==> e.email == userEmail.value
    ensures userEmail.None? ==> e.email == DEFAULT_EMAIL
    ensures e.companyType == Some(PRIVATE) && e.founded == None
  {
    Employer(
      userId, DEFAULT_COMPANY_NAME, userEmail.GetOr(DEFAULT_EMAIL), "Technology",
      Some("Please Update"), Some("Please Update Location"), Some(PRIVATE), None,
      Some("Please Update Specialities"), Some("Please Update Address"), Some("Please Update Phone"))
  }

  /** `employerRepository.save` of a new employer: both unique columns must stay unique. */
  function InsertEmployer(s: Store, e: Employer): (r: Result<(Store, nat)>)
    requires TablesValid(s)
    ensures r.Ok? <==> !CompanyNameTaken(s, e.companyName) && EmployerOfUser(s, e.userId).None?
    ensures r.Err? ==> r.error.Duplicate?
    ensures r.Ok? ==> r.value.0 == s.(employers := r.value.0.employers) && TablesValid(r.value.0)
    ensures r.Ok? ==> r.value.1 !in s.employers.rows
    ensures r.Ok? ==> r.value.0.employers.rows.Keys == s.employers.rows.Keys + {r.value.1}
    ensures r.Ok? ==> r.value.0.employers.rows[r.value.1] == e
    ensures r.Ok? ==> forall k :: k in s.employers.rows ==> r.value.0.employers.rows[k] == s.employers.rows[k]
  {
    if CompanyNameTaken(s, e.companyName) then Err(Duplicate("companyName"))
    else if EmployerOfUser(s, e.userId).Some? then Err(Duplicate("user_id"))
    else
      var (t, k) := Tables.Insert(s.employers, e);
      Ok((s.(employers := t), k))
  }

  /** A new employer table that keeps every row, links every row to a user and keeps both
      unique columns unique leaves a valid store valid. */
  lemma EmployersValid(s: Store, t: Tables.Table<Employer>)
    requires Valid(s) && Tables.Valid(t) && s.employers.rows.Keys <= t.rows.Keys
    requires EmployersLinked(s.(employers := t))
    ensures Valid(s.(employers := t))
  {
  }

  /** Inserting an employer for an existing user keeps the store valid. */
  lemma InsertEmployerKeepsValid(s: Store, e: Employer)
    requires Valid(s) && e.userId in s.users.rows && InsertEmployer(s, e).Ok?
    ensures Valid(InsertEmployer(s, e).value.0)
  {
    var (t, k) := Tables.Insert(s.employers, e);
    assert t.rows == s.employers.rows[k := e];
    assert EmployersLinked(s.(employers := t)) by {
      forall a, b | a in t.rows && b in t.rows && t.rows[a].userId == t.rows[b].userId
        ensures a == b
      {
        if a != k && b != k {
          assert t.rows[a] == s.employers.rows[a] && t.rows[b] == s.employers.rows[b];
        }
      }
      forall a, b | a in t.rows && b in t.rows && t.rows[a].companyName == t.rows[b].companyName
        ensures a == b
      {
        if a != k && b != k {
          assert t.rows[a] == s.employers.rows[a] && t.rows[b] == s.employers.rows[b];
        }
      }
    }
    EmployersValid(s, t);
  }

  /** `getOrCreateEmployerProfile`: the user's profile, or a freshly saved placeholder one.
      The placeholder's company name is a constant, so only one user at a time can hold it. */
  function GetOrCreateEmployerProfile(s: Store, userId: nat): (r: Result<(Store, nat)>)
    requires TablesValid(s) && userId in s.users.rows
    ensures EmployerOfUser(s, userId).Some? ==> r == Ok((s, EmployerOfUser(s, userId).value))
    ensures EmployerOfUser(s, userId).None? ==> (r.Ok? <==> !CompanyNameTaken(s, DEFAULT_COMPANY_NAME))
    ensures r.Err? ==> r.error == Duplicate("companyName")
    ensures r.Ok? ==> r.value.0 == s.(employers := r.value.0.employers) && TablesValid(r.value.0)
    ensures r.Ok? ==>
      r.value.1 in r.value.0.employers.rows && r.value.0.employers.rows[r.value.1].userId == userId
    ensures r.Ok? && EmployerOfUser(s, userId).None? ==>
      && r.value.1 !in s.employers.rows
      && r.value.0.employers.rows.Keys == s.employers.rows.Keys + {r.value.1}
      && r.value.0.employers.rows[r.value.1] == DefaultEmployer(userId, s.users.rows[userId].email)
      && (forall k :: k in s.employers.rows ==> r.value.0.employers.rows[k] == s.employers.rows[k])
    ensures r.Ok? && Valid(s) ==> Valid(r.value.0)
  {
    match EmployerOfUser(s, userId)
    case Some(k) => Ok((s, k))
    case None =>
      var e := DefaultEmployer(userId, s.users.rows[userId].email);
      if Valid(s) && InsertEmployer(s, e).Ok? then InsertEmployerKeepsValid(s, e); InsertEmployer(s, e)
      else InsertEmployer(s, e)
  }

  /** In a valid store the profile a user holds is the one `findByUser_Id` returns. */
  lemma EmployerOfUserUnique(s: Store, userId: nat, k: nat)
    requires Valid(s)
    requires k in s.employers.rows && s.employers.rows[k].userId == userId
    ensures EmployerOfUser(s, userId) == Some(k)
  {
    Tables.FindUnique(s.employers, (e: Employer) => e.userId == userId, k);
  }

  /** Calling get-or-create again returns the same profile and changes nothing. */
  lemma GetOrCreateIdempotent(s: Store, userId: nat)
    requires Valid(s) && userId in s.users.rows
    requires GetOrCreateEmployerProfile(s, userId).Ok?
    ensures var (s', k) := GetOrCreateEmployerProfile(s, userId).value;
      userId in s'.users.rows && GetOrCreateEmployerProfile(s', userId) == Ok((s', k))
  {
    var (s', k) := GetOrCreateEmployerProfile(s, userId).value;
    EmployerOfUserUnique(s', userId, k);
  }

  // ----- Profile update -----

  /** `EmployerDto`: every field may be null, meaning "leave as it is". */
  datatype EmployerDto = EmployerDto(
    companyName: Option<string>,
    email: Option<string>,
    industry: Option<string>,
    companySize: Option<string>,
    headquarters: Option<string>,
    companyType: Option<string>,
    founded: Option<int>,
    specialities: Option<string>,
    companyAddress: Option<string>,
    companyPhone: Option<string>)

  /** A DTO that asks for no change at all. */
  const NO_CHANGES: EmployerDto := EmployerDto(None, None, None, None, None, None, None, None, None, None)

  /** A supplied value that is empty once trimmed. */
  predicate Blank(given: Option<string>) {
    given.Some? && Trim(given.value) == []
  }

  /** The new value of a required (non-null) text column. */
  function MergeText(current: string, given: Option<string>): string {
    if given.Some? then Trim(given.value) else current
  }

  /** The new value of an optional text column. */
  function MergeOptText(current: Option<string>, given: Option<string>): Option<string> {
    if given.Some? then Some(Trim(given.value)) else current
  }

  /** The new company type: a known name (after trimming) is set, an empty one clears it,
      an unknown one keeps the old value without complaint. */
  function CompanyTypeAfter(current: Option<CompanyType>, given: Option<string>): (r: Option<CompanyType>)
    ensures given.None? ==> r == current
    ensures Blank(given) ==> r == None
    ensures given.Some? && (exists t :: CompanyTypeName(t) == Trim(given.value)) ==>
      r.Some? && CompanyTypeName(r.value) == Trim(given.value)
    ensures given.Some? && Trim(given.value) != [] && (forall t :: CompanyTypeName(t) != Trim(given.value)) ==>
      r == current
  {
    match given
    case None => current
    case Some(v) =>
      var name := Trim(v);
      if name == [] then None
      else match ParseCompanyType(name)
        case Some(t) => Some(t)
        case None => current
  }

  /** The field merge of `updateEmployerProfile`: a null field keeps the stored value and
      a supplied string is stored trimmed. */
  function MergeEmployer(e: Employer, d: EmployerDto): (r: Employer)
    ensures r.userId == e.userId
    ensures d.companyName.None? ==> r.companyName == e.companyName
    ensures d.companyName.Some? ==> r.companyName == Trim(d.companyName.value)
    ensures d.email.None? ==> r.email == e.email
    ensures d.email.Some? ==> r.email == Trim(d.email.value)
    ensures d.industry.None? ==> r.industry == e.industry
    ensures d.industry.Some? ==> r.industry == Trim(d.industry.value)
    ensures d.companySize.None? ==> r.companySize == e.companySize
    ensures d.companySize.Some? ==> r.companySize == Some(Trim(d.companySize.value))
    ensures d.headquarters.None? ==> r.headquarters == e.headquarters
    ensures d.headquarters.Some? ==> r.headquarters == Some(Trim(d.headquarters.value))
    ensures r.companyType == CompanyTypeAfter(e.companyType, d.companyType)
    ensures d.founded.None? ==> r.founded == e.founded
    ensures d.founded.Some? ==> r.founded == d.founded
    ensures d.specialities.None? ==> r.specialities == e.specialities
    ensures d.specialities.Some? ==> r.specialities == Some(Trim(d.specialities.value))
    ensures d.companyAddress.None? ==> r.companyAddress == e.companyAddress
    ensures d.companyAddress.Some? ==> r.companyAddress == Some(Trim(d.companyAddress.value))
    ensures d.companyPhone.None? ==> r.companyPhone == e.companyPhone
    ensures d.companyPhone.Some? ==> r.companyPhone == Some(Trim(d.companyPhone.value))
  {
    e.(
      companyName := MergeText(e.companyName, d.companyName),
      email := MergeText(e.email, d.email),
      industry := MergeText(e.industry, d.industry),
      companySize := MergeOptText(e.companySize, d.companySize),
      headquarters := MergeOptText(e.headquarters, d.headquarters),
      companyType := CompanyTypeAfter(e.companyType, d.companyType),
      founded := if d.founded.Some? then d.founded else e.founded,
      specialities := MergeOptText(e.specialities, d.specialities),
      companyAddress := MergeOptText(e.companyAddress, d.companyAddress),
      companyPhone := MergeOptText(e.companyPhone, d.companyPhone))
  }

  /** An all-null DTO leaves the profile exactly as it was. */
  lemma MergeNoChanges(e: Employer)
    ensures MergeEmployer(e, NO_CHANGES) == e
  {
  }

  /** Sending the same DTO twice has the effect of sending it once. */
  lemma MergeIdempotent(e: Employer, d: EmployerDto)
    ensures MergeEmployer(MergeEmployer(e, d), d) == MergeEmployer(e, d)
  {
    if d.companyType.Some? {
      TrimIdempotent(d.companyType.value);
    }
  }

  /** `employerRepository.save` of an existing employer: the new company name must not be
      another employer's. */
  function SaveEmployer(s: Store, k: nat, e: Employer): (r: Result<(Store, nat)>)
    requires k in s.employers.rows
    ensures r.Ok? <==>
      forall j :: j in s.employers.rows && j != k ==> s.employers.rows[j].companyName != e.companyName
    ensures r.Err? ==> r.error == Duplicate("companyName")
    ensures r.Ok? ==> r.value == (s.(employers := Tables.Put(s.employers, k, e)), k)
  {
    if exists j :: j in s.employers.rows && j != k && s.employers.rows[j].companyName == e.companyName then
      Err(Duplicate("companyName"))
    else
      Ok((s.(employers := Tables.Put(s.employers, k, e)), k))
  }

  /** `updateEmployerProfile` for user `userId`: the profile must exist and no supplied
      required field may be blank; the checks run in order and before any write. */
  function UpdateEmployerProfile(s: Store, userId: nat, d: EmployerDto): (r: Result<(Store, nat)>)
    requires TablesValid(s) && userId in s.users.rows
    ensures EmployerOfUser(s, userId).None? ==>
      r == Err(Failed("Employer profile not found for user: " + s.users.rows[userId].username))
    ensures EmployerOfUser(s, userId).Some? && Blank(d.companyName) ==>
      r == Err(Failed("Company name cannot be empty"))
    ensures EmployerOfUser(s, userId).Some? && !Blank(d.companyName) && Blank(d.email) ==>
      r == Err(Failed("Email cannot be empty"))
    ensures EmployerOfUser(s, userId).Some? && !Blank(d.companyName) && !Blank(d.email) && Blank(d.industry) ==>
      r == Err(Failed("Industry cannot be empty"))
    ensures r.Ok? ==>
      && EmployerOfUser(s, userId) == Some(r.value.1)
      && r.value.0 == s.(employers := r.value.0.employers)
      && r.value.0.employers.rows.Keys == s.employers.rows.Keys
      && r.value.0.employers.rows[r.value.1] == MergeEmployer(s.employers.rows[r.value.1], d)
      && (forall j :: j in s.employers.rows && j != r.value.1 ==>
            r.value.0.employers.rows[j] == s.employers.rows[j])
    ensures r.Ok? <==>
      && EmployerOfUser(s, userId).Some?
      && !Blank(d.companyName) && !Blank(d.email) && !Blank(d.industry)
      && var k := EmployerOfUser(s, userId).value;
         forall j :: j in s.employers.rows && j != k ==>
           s.employers.rows[j].companyName != MergeEmployer(s.employers.rows[k], d).companyName
    ensures r.Ok? && Valid(s) ==> Valid(r.value.0)
  {
    match EmployerOfUser(s, userId)
    case None => Err(Failed("Employer profile not found for user: " + s.users.rows[userId].username))
    case Some(k) =>
      if Blank(d.companyName) then Err(Failed("Company name cannot be empty"))
      else if Blank(d.email) then Err(Failed("Email cannot be empty"))
      else if Blank(d.industry) then Err(Failed("Industry cannot be empty"))
      else
        var e := MergeEmployer(s.employers.rows[k], d);
        if Valid(s) && SaveEmployer(s, k, e).Ok? then SaveKeepsValid(s, k, e); SaveEmployer(s, k, e)
        else SaveEmployer(s, k, e)
  }

  /** Rewriting a profile under its own user with a name no other profile has keeps the store valid. */
  lemma SaveKeepsValid(s: Store, k: nat, e: Employer)
    requires Valid(s) && k in s.employers.rows && e.userId == s.employers.rows[k].userId
    requires forall j :: j in s.employers.rows && j != k ==> s.employers.rows[j].companyName != e.companyName
    ensures Valid(s.(employers := Tables.Put(s.employers, k, e)))
  {
    var t := Tables.Put(s.employers, k, e);
    assert t.rows == s.employers.rows[k := e];
    forall j | j in t.rows
      ensures t.rows[j].userId == s.employers.rows[j].userId
    {
    }
    forall a, b | a in t.rows && b in t.rows && t.rows[a].companyName == t.rows[b].companyName
      ensures a == b
    {
      if a != k && b != k {
        assert t.rows[a] == s.employers.rows[a] && t.rows[b] == s.employers.rows[b];
      }
    }
    SameUsersLinked(s, t);
    EmployersValid(s, t);
  }

  /** A new employer table with the same keys and the same owners, whose company names are
      unique, keeps the employers linked. */
  lemma SameUsersLinked(s: Store, t: Tables.Table<Employer>)
    requires EmployersLinked(s) && t.rows.Keys == s.employers.rows.Keys
    requires forall j :: j in t.rows ==> t.rows[j].userId == s.employers.rows[j].userId
    requires forall a, b :: a in t.rows && b in t.rows && t.rows[a].companyName == t.rows[b].companyName ==> a == b
    ensures EmployersLinked(s.(employers := t))
  {
    forall a, b | a in t.rows && b in t.rows && t.rows[a].userId == t.rows[b].userId
      ensures a == b
    {
      assert s.employers.rows[a].userId == s.employers.rows[b].userId;
    }
  }

  // ----- Listing -----

  /** A text filter that is present and not blank. */
  predicate Given(filter: Option<string>) {
    filter.Some? && Trim(filter.value) != []
  }

  /** The company-name filter: a case-insensitive substring. */
  predicate NameMatches(e: Employer, companyName: string) {
    Contains(Lower(e.companyName), Lower(companyName))
  }

  /** The industry filter: a case-insensitive substring. */
  predicate IndustryMatches(e: Employer, industry: string) {
    Contains(Lower(e.industry), Lower(industry))
  }

  /** The founding-year filter; an employer with no year never passes it. */
  predicate FoundedMatches(e: Employer, foundedAfter: int) {
    e.founded.Some? && e.founded.value >= foundedAfter
  }

  /** The three `getAllEmployers` filters as one conjunction; an absent or blank filter
      imposes nothing, a present one excludes rows whose field is null. */
  predicate EmployerMatches(e: Employer, companyName: Option<string>, industry: Option<string>, foundedAfter: Option<int>) {
    && (Given(companyName) ==> NameMatches(e, companyName.value))
    && (Given(industry) ==> IndustryMatches(e, industry.value))
    && (foundedAfter.Some? ==> FoundedMatches(e, foundedAfter.value))
  }

  /** `getAllEmployers`: `findAll`, then one stream filter per supplied criterion. */
  function GetAllEmployers(s: Store, companyName: Option<string>, industry: Option<string>, foundedAfter: Option<int>)
    : (r: seq<nat>)
    requires TablesValid(s)
    ensures forall i :: 0 <= i < |r| ==>
      r[i] in s.employers.rows && EmployerMatches(s.employers.rows[r[i]], companyName, industry, foundedAfter)
    ensures forall k ::
      (k in s.employers.rows && EmployerMatches(s.employers.rows[k], companyName, industry, foundedAfter)) ==> k in r
    ensures IsSubsequence(r, Tables.Keys(s.employers))
  {
    var rows := s.employers.rows;
    var all := Tables.Keys(s.employers);
    var byName := (k: nat) => k in rows && NameMatches(rows[k], companyName.GetOr([]));
    var byIndustry := (k: nat) => k in rows && IndustryMatches(rows[k], industry.GetOr([]));
    var byFounded := (k: nat) => k in rows && FoundedMatches(rows[k], foundedAfter.GetOr(0));
    var r := FilterIf(FilterIf(FilterIf(all, Given(companyName), byName), Given(industry), byIndustry),
      foundedAfter.Some?, byFounded);
    FilterIfThrice(all, Given(companyName), byName, Given(industry), byIndustry, foundedAfter.Some?, byFounded,
      k => k in rows && EmployerMatches(rows[k], companyName, industry, foundedAfter));
    r
  }

  /** With no text filter given and no founding year, every employer is listed, in key order. */
  lemma NoFiltersListsAll(s: Store, companyName: Option<string>, industry: Option<string>)
    requires TablesValid(s) && !Given(companyName) && !Given(industry)
    ensures GetAllEmployers(s, companyName, industry, None) == Tables.Keys(s.employers)
  {
  }
}
