/** The persistent entities of the career portal and the store that holds them.

    Each JPA entity becomes an immutable record; its `@Id` becomes the key of
    a `Table`, and each `@ManyToOne`/`@OneToOne` association becomes the key
    of the row it points to. Nullable columns are `Option`s.
 */
module Entities {
  import opened Wrappers
  import opened Tables
  import opened Text

  newtype byte = x: int | 0 <= x < 256

  /** A `LocalDate`. */
  datatype Date = Date(year: int, month: int, day: int)

  /** A `LocalDateTime` read from the clock; only its identity matters here. */
  type Instant = nat

  // ----- Users and roles -----

  datatype Role = Role(name: string)

  const ROLE_JOB_SEEKER: string := "ROLE_JOB_SEEKER"
  const ROLE_EMPLOYER: string := "ROLE_EMPLOYER"

  /** A user account; `roles` holds keys of the role table, `password` the encoder's output. */
  datatype User = User(username: string, email: Option<string>, password: string, roles: set<nat>)

  // ----- Employer -----

  /** `Employer.CompanyType`. */
  datatype CompanyType =
    | PUBLIC | PRIVATE | STARTUP | NON_PROFIT | GOVERNMENT | PARTNERSHIP | LLC | CORPORATION

  function CompanyTypeName(t: CompanyType): (name: string)
    ensures name != []
  {
    match t
    case PUBLIC => "PUBLIC"
    case PRIVATE => "PRIVATE"
    case STARTUP => "STARTUP"
    case NON_PROFIT => "NON_PROFIT"
    case GOVERNMENT => "GOVERNMENT"
    case PARTNERSHIP => "PARTNERSHIP"
    case LLC => "LLC"
    case CORPORATION => "CORPORATION"
  }

  /** `CompanyType.valueOf`: exact, case-sensitive constant names; `None` where Java throws. */
  function ParseCompanyType(s: string): (r: Option<CompanyType>)
    ensures r.Some? ==> CompanyTypeName(r.value) == s
    ensures r.None? ==> forall t: CompanyType :: CompanyTypeName(t) != s
  {
    if s == "PUBLIC" then Some(PUBLIC)
    else if s == "PRIVATE" then Some(PRIVATE)
    else if s == "STARTUP" then Some(STARTUP)
    else if s == "NON_PROFIT" then Some(NON_PROFIT)
    else if s == "GOVERNMENT" then Some(GOVERNMENT)
    else if s == "PARTNERSHIP" then Some(PARTNERSHIP)
    else if s == "LLC" then Some(LLC)
    else if s == "CORPORATION" then Some(CORPORATION)
    else None
  }

  /** An employer profile, one per user; `companyName` is a unique column. */
  datatype Employer = Employer(
    userId: nat,
    companyName: string,
    email: string,
    industry: string,
    companySize: Option<string>,
    headquarters: Option<string>,
    companyType: Option<CompanyType>,
    founded: Option<int>,
    specialities: Option<string>,
    companyAddress: Option<string>,
    companyPhone: Option<string>)

  // ----- Job seeker -----

  /** `JobSeekerProfile.ExperienceStatus`. */
  datatype ExperienceStatus = FRESHER | EXPERIENCED

  /** `JobSeekerProfile.Gender`. */
  datatype Gender = MALE | FEMALE | OTHER

  /** `ExperienceStatus.valueOf`. */
  function ParseExperienceStatus(s: string): (r: Option<ExperienceStatus>)
    ensures r == Some(FRESHER) <==> s == "FRESHER"
    ensures r == Some(EXPERIENCED) <==> s == "EXPERIENCED"
  {
    if s == "FRESHER" then Some(FRESHER)
    else if s == "EXPERIENCED" then Some(EXPERIENCED)
    else None
  }

  /** `Gender.valueOf`. */
  function ParseGender(s: string): (r: Option<Gender>)
    ensures r == Some(MALE) <==> s == "MALE"
    ensures r == Some(FEMALE) <==> s == "FEMALE"
    ensures r == Some(OTHER) <==> s == "OTHER"
  {
    if s == "MALE" then Some(MALE)
    else if s == "FEMALE" then Some(FEMALE)
    else if s == "OTHER" then Some(OTHER)
    else None
  }

  /** One row of a profile's education history. */
  datatype EducationDetail = EducationDetail(
    qualification: Option<string>,
    specialization: Option<string>,
    yearOfPassing: Option<int>)

  /** A job seeker profile, one per user; the education list is owned by the profile. */
  datatype JobSeekerProfile = JobSeekerProfile(
    userId: nat,
    name: Option<string>,
    email: Option<string>,
    mobile: Option<string>,
    status: Option<ExperienceStatus>,
    gender: Option<Gender>,
    dob: Option<Date>,
    education: Option<string>,
    workExperience: Option<string>,
    skills: Option<string>,
    resumeFilePath: Option<string>,
    photoFilePath: Option<string>,
    educationDetails: seq<EducationDetail>)

  /** The profile fills every column declared `nullable = false`. */
  predicate Complete(p: JobSeekerProfile) {
    && p.name.Some? && p.email.Some? && p.mobile.Some? && p.status.Some? && p.gender.Some?
    && p.dob.Some? && p.education.Some? && p.skills.Some?
  }

  /** The first `nullable = false` column, in declaration order, that the profile leaves null:
      the property the persistence layer reports when it refuses the row. */
  function MissingColumn(p: JobSeekerProfile): (c: Option<string>)
    ensures c.None? <==> Complete(p)
    ensures p.name.None? ==> c == Some("name")
    ensures c.Some? ==> c.value in {"name", "email", "mobile", "status", "gender", "dob", "education", "skills"}
  {
    if p.name.None? then Some("name")
    else if p.email.None? then Some("email")
    else if p.mobile.None? then Some("mobile")
    else if p.status.None? then Some("status")
    else if p.gender.None? then Some("gender")
    else if p.dob.None? then Some("dob")
    else if p.education.None? then Some("education")
    else if p.skills.None? then Some("skills")
    else None
  }

  const NOT_NULL_FAILURE: string :=
    "not-null property references a null or transient value : com.careerportal.career_portal_backend.entity.JobSeekerProfile."

  /** The refusal to save a profile that leaves a `nullable = false` column null. */
  function NotNullFailure(p: JobSeekerProfile): (e: Error)
    requires !Complete(p)
  {
    Failed(NOT_NULL_FAILURE + MissingColumn(p).value)
  }

  // ----- Postings and applications -----

  /** A job posting, owned by the employer row `employerId`. */
  datatype JobPosting = JobPosting(
    employerId: nat,
    jobTitle: Option<string>,
    jobPosition: Option<string>,
    description: Option<string>,
    requiredSkills: Option<string>,
    location: Option<string>,
    experienceLevel: Option<string>,
    functionalArea: Option<string>,
    industry: Option<string>,
    salaryDetails: Option<string>,
    datePosted: Date,
    isActive: Option<bool>)

  /** An application of the profile `seekerId` to the posting `postingId`; `status` is free text. */
  datatype Application = Application(
    seekerId: nat,
    postingId: nat,
    applicationDate: Instant,
    status: string,
    recruiterNotes: Option<string>,
    resumeFileName: Option<string>,
    resumeFilePath: Option<string>,
    resumeContentType: Option<string>,
    resumeFileSize: Option<nat>)

  /** A stored file (`DBFile`). */
  datatype Blob = Blob(fileName: string, contentType: Option<string>, data: seq<byte>)

  // ----- The store -----

  /** All repositories of the application; blobs are keyed by generated string ids. */
  datatype Store = Store(
    users: Table<User>,
    roles: Table<Role>,
    employers: Table<Employer>,
    seekers: Table<JobSeekerProfile>,
    postings: Table<JobPosting>,
    applications: Table<Application>,
    blobs: map<string, Blob>)

  function EmptyStore(): Store {
    Store(Empty(), Empty(), Empty(), Empty(), Empty(), Empty(), map[])
  }

  predicate TablesValid(s: Store) {
    Tables.Valid(s.users) && Tables.Valid(s.roles) && Tables.Valid(s.employers)
    && Tables.Valid(s.seekers) && Tables.Valid(s.postings) && Tables.Valid(s.applications)
  }

  /** No two users share a username. */
  predicate UniqueUsernames(s: Store) {
    forall a, b ::
      (a in s.users.rows && b in s.users.rows
       && s.users.rows[a].username == s.users.rows[b].username) ==> a == b
  }

  /** No two users share a (non-null) email. */
  predicate UniqueEmails(s: Store) {
    forall a, b ::
      (a in s.users.rows && b in s.users.rows && s.users.rows[a].email.Some?
       && s.users.rows[a].email == s.users.rows[b].email) ==> a == b
  }

  /** At most one role row per role name. */
  predicate UniqueRoleNames(s: Store) {
    forall a, b ::
      (a in s.roles.rows && b in s.roles.rows
       && s.roles.rows[a].name == s.roles.rows[b].name) ==> a == b
  }

  /** Every user holds exactly one role, and it exists. */
  predicate OneRoleEach(s: Store) {
    forall u :: u in s.users.rows ==>
      |s.users.rows[u].roles| == 1 && s.users.rows[u].roles <= s.roles.rows.Keys
  }

  /** Employers belong to existing users, one per user, with unique company names. */
  predicate EmployersLinked(s: Store) {
    && (forall e :: e in s.employers.rows ==> s.employers.rows[e].userId in s.users.rows)
    && (forall a, b ::
          (a in s.employers.rows && b in s.employers.rows
           && s.employers.rows[a].userId == s.employers.rows[b].userId) ==> a == b)
    && (forall a, b ::
          (a in s.employers.rows && b in s.employers.rows
           && s.employers.rows[a].companyName == s.employers.rows[b].companyName) ==> a == b)
  }

  /** Job seeker profiles belong to existing users, one per user. */
  predicate SeekersLinked(s: Store) {
    && (forall p :: p in s.seekers.rows ==> s.seekers.rows[p].userId in s.users.rows)
    && (forall a, b ::
          (a in s.seekers.rows && b in s.seekers.rows
           && s.seekers.rows[a].userId == s.seekers.rows[b].userId) ==> a == b)
  }

  /** Every posting's employer exists. */
  predicate PostingsLinked(s: Store) {
    forall p :: p in s.postings.rows ==> s.postings.rows[p].employerId in s.employers.rows
  }

  /** Every application's posting and profile exist. */
  predicate ApplicationsLinked(s: Store) {
    forall a :: a in s.applications.rows ==>
      s.applications.rows[a].postingId in s.postings.rows
      && s.applications.rows[a].seekerId in s.seekers.rows
  }

  /** The constraints the database schema and the services keep. */
  predicate Valid(s: Store) {
    && TablesValid(s)
    && UniqueUsernames(s) && UniqueEmails(s) && UniqueRoleNames(s) && OneRoleEach(s)
    && EmployersLinked(s) && SeekersLinked(s) && PostingsLinked(s) && ApplicationsLinked(s)
  }

  lemma EmptyStoreValid()
    ensures Valid(EmptyStore())
  {
  }

  // ----- Lookups (derived repository queries) -----

  /** `userRepository.findByUsername`. */
  function UserByName(s: Store, username: string): (r: Option<nat>)
    requires TablesValid(s)
    ensures r.Some? ==> r.value in s.users.rows && s.users.rows[r.value].username == username
    ensures r.None? <==> forall k :: k in s.users.rows ==> s.users.rows[k].username != username
  {
    Find(s.users, (u: User) => u.username == username)
  }

  /** `userRepository.findByEmail`. */
  function UserByEmail(s: Store, email: string): (r: Option<nat>)
    requires TablesValid(s)
    ensures r.Some? ==> r.value in s.users.rows && s.users.rows[r.value].email == Some(email)
    ensures r.None? <==> forall k :: k in s.users.rows ==> s.users.rows[k].email != Some(email)
  {
    Find(s.users, (u: User) => u.email == Some(email))
  }

  /** `employerRepository.findByUser_Id`. */
  function EmployerOfUser(s: Store, userId: nat): (r: Option<nat>)
    requires TablesValid(s)
    ensures r.Some? ==> r.value in s.employers.rows && s.employers.rows[r.value].userId == userId
    ensures r.None? <==> forall k :: k in s.employers.rows ==> s.employers.rows[k].userId != userId
  {
    Find(s.employers, (e: Employer) => e.userId == userId)
  }

  /** `employerRepository.existsByCompanyName`. */
  predicate CompanyNameTaken(s: Store, name: string) {
    exists k :: k in s.employers.rows && s.employers.rows[k].companyName == name
  }

  /** `jobSeekerProfileRepository.findByUser_Id`. */
  function SeekerOfUser(s: Store, userId: nat): (r: Option<nat>)
    requires TablesValid(s)
    ensures r.Some? ==> r.value in s.seekers.rows && s.seekers.rows[r.value].userId == userId
    ensures r.None? <==> forall k :: k in s.seekers.rows ==> s.seekers.rows[k].userId != userId
  {
    Find(s.seekers, (p: JobSeekerProfile) => p.userId == userId)
  }

  /** The username of the user who owns the employer that owns posting `p`. */
  function PostingOwnerName(s: Store, p: nat): (r: string)
    requires p in s.postings.rows && PostingsLinked(s) && EmployersLinked(s)
  {
    s.users.rows[s.employers.rows[s.postings.rows[p].employerId].userId].username
  }
}
