/** `AuthController`'s three registration endpoints as a registry over users, roles and
    profiles.

    Each endpoint checks uniqueness in a fixed order, gets or creates the one role the new
    user holds, saves the user with the encoder's output as password, and then creates the
    matching profile. The controller is not transactional: once the user is saved, a failure
    in the profile step leaves the user in place. The password encoder is an argument.
 */
module Registration {
  import opened Wrappers
  import opened Text
  import Tables
  import opened Entities
  import opened Employers
  import opened JobSeekers

  /** An HTTP reply: status code and body text. */
  datatype Reply = Reply(status: int, body: string)

  /** The store after a registration, and the reply; `Err` is an exception that escapes
      the endpoint. */
  datatype Outcome = Outcome(store: Store, reply: Result<Reply>)

  const USERNAME_TAKEN: string := "Username is already taken!"
  const EMAIL_TAKEN: string := "Email is already registered!"
  const COMPANY_TAKEN: string := "Company name is already registered!"
  const INVALID_ROLE: string := "Invalid role specified!"
  const USER_REGISTERED: string := "User registered successfully!"
  const SEEKER_REGISTERED: string := "Job seeker registered successfully!"
  const EMPLOYER_REGISTERED: string := "Employer registered successfully!"
  const FAILED_PREFIX: string := "Registration failed: "

  /** `Enum.valueOf` on a null name throws a `NullPointerException` with this message. */
  const NULL_NAME: string := "Name is null"

  // ----- Roles -----

  /** `roleRepository.findByName`. */
  function RoleByName(s: Store, name: string): (r: Option<nat>)
    requires TablesValid(s)
    ensures r.Some? ==> r.value in s.roles.rows && s.roles.rows[r.value].name == name
    ensures r.None? <==> forall k :: k in s.roles.rows ==> s.roles.rows[k].name != name
  {
    Tables.Find(s.roles, (ro: Role) => ro.name == name)
  }

  /** `findByName(name).orElseGet(() -> save(new Role(name)))`: a role row named `name`,
      added only when none exists. */
  function GetOrCreateRole(s: Store, name: string): (r: (Store, nat))
    requires TablesValid(s)
    ensures TablesValid(r.0) && r.0 == s.(roles := r.0.roles)
    ensures r.1 in r.0.roles.rows && r.0.roles.rows[r.1].name == name
    ensures RoleByName(s, name).Some? ==> r == (s, RoleByName(s, name).value)
    ensures RoleByName(s, name).None? ==>
      r.1 !in s.roles.rows && r.0.roles.rows == s.roles.rows[r.1 := Role(name)]
  {
    match RoleByName(s, name)
    case Some(k) => (s, k)
    case None =>
      var (t, k) := Tables.Insert(s.roles, Role(name));
      (s.(roles := t), k)
  }

  /** The second lookup finds the row the first one created: roles are never duplicated. */
  lemma GetOrCreateRoleIdempotent(s: Store, name: string)
    requires Valid(s)
    ensures var (s1, k) := GetOrCreateRole(s, name);
      Valid(s1) && GetOrCreateRole(s1, name) == (s1, k)
  {
    var (s1, k) := GetOrCreateRole(s, name);
    assert UniqueRoleNames(s1) by {
      if RoleByName(s, name).None? {
        forall a, b | a in s1.roles.rows && b in s1.roles.rows && s1.roles.rows[a].name == s1.roles.rows[b].name
          ensures a == b
        {
          if a != k && b != k {
            assert s1.roles.rows[a] == s.roles.rows[a] && s1.roles.rows[b] == s.roles.rows[b];
          }
        }
      }
    }
    Tables.FindUnique(s1.roles, (ro: Role) => ro.name == name, k);
  }

  /** `registerUser`'s role mapping: "jobseeker" and "employer", ignoring case; anything
      else has no role. */
  function RoleFor(role: string): (r: Option<string>)
    ensures r == Some(ROLE_JOB_SEEKER) <==> EqualsIgnoreCase(role, "jobseeker")
    ensures r == Some(ROLE_EMPLOYER) <==> EqualsIgnoreCase(role, "employer")
    ensures r.None? <==> !EqualsIgnoreCase(role, "jobseeker") && !EqualsIgnoreCase(role, "employer")
  {
    if EqualsIgnoreCase(role, "jobseeker") then Some(ROLE_JOB_SEEKER)
    else if EqualsIgnoreCase(role, "employer") then Some(ROLE_EMPLOYER)
    else None
  }

  /** A string without capitals is its own lower-case form. */
  lemma LowerOfLowercase(w: string)
    requires forall i :: 0 <= i < |w| ==> !('A' <= w[i] <= 'Z')
    ensures Lower(w) == w
  {
  }

  /** Lower-casing "JobSeeker", character by character. */
  lemma LowerOfJobSeeker()
    ensures Lower("JobSeeker") == "jobseeker"
  {
    var j := Lower("JobSeeker");
    assert j[0] == 'j' && j[1] == 'o' && j[2] == 'b' && j[3] == 's' && j[4] == 'e';
    assert j[5] == 'e' && j[6] == 'k' && j[7] == 'e' && j[8] == 'r';
  }

  /** Lower-casing "EMPLOYER", character by character. */
  lemma LowerOfEmployer()
    ensures Lower("EMPLOYER") == "employer"
  {
    var e := Lower("EMPLOYER");
    assert e[0] == 'e' && e[1] == 'm' && e[2] == 'p' && e[3] == 'l';
    assert e[4] == 'o' && e[5] == 'y' && e[6] == 'e' && e[7] == 'r';
  }

  /** "JobSeeker" maps to the job seeker role. */
  lemma JobSeekerRoleIgnoresCase()
    ensures RoleFor("JobSeeker") == Some(ROLE_JOB_SEEKER)
  {
    LowerOfLowercase("jobseeker");
    LowerOfJobSeeker();
    assert EqualsIgnoreCase("JobSeeker", "jobseeker");
  }

  /** "EMPLOYER" maps to the employer role. */
  lemma EmployerRoleIgnoresCase()
    ensures RoleFor("EMPLOYER") == Some(ROLE_EMPLOYER)
  {
    LowerOfLowercase("employer");
    LowerOfEmployer();
    assert EqualsIgnoreCase("EMPLOYER", "employer");
    assert !EqualsIgnoreCase("EMPLOYER", "jobseeker");
  }

  /** A spaced or unknown name has no role. */
  lemma RoleForRejects()
    ensures RoleFor("job seeker").None?
    ensures RoleFor("admin").None?
  {
    assert |Lower("jobseeker")| == 9 && |Lower("employer")| == 8;
    assert |Lower("job seeker")| == 10 && |Lower("admin")| == 5;
  }

  // ----- Users -----

  /** Steps 2 to 4 of every endpoint: get or create the role, then save a user holding
      exactly that role. */
  function SaveUser(s: Store, username: string, email: Option<string>, hash: string, roleName: string)
    : (r: (Store, nat))
    requires TablesValid(s)
    ensures TablesValid(r.0) && r.0 == s.(users := r.0.users, roles := r.0.roles)
    ensures r.1 !in s.users.rows && r.0.users.rows.Keys == s.users.rows.Keys + {r.1}
    ensures forall k :: k in s.users.rows ==> r.0.users.rows[k] == s.users.rows[k]
    ensures var u := r.0.users.rows[r.1];
      && u.username == username && u.email == email && u.password == hash
      && |u.roles| == 1
      && (forall k :: k in u.roles ==> k in r.0.roles.rows && r.0.roles.rows[k].name == roleName)
    ensures RoleByName(s, roleName).Some? ==> r.0.roles == s.roles
  {
    var (s1, rid) := GetOrCreateRole(s, roleName);
    var (t, uid) := Tables.Insert(s1.users, User(username, email, hash, {rid}));
    (s1.(users := t), uid)
  }

  /** Saving a user whose username and email are free keeps the store valid. */
  lemma SaveUserKeepsValid(s: Store, username: string, email: Option<string>, hash: string, roleName: string)
    requires Valid(s)
    requires UserByName(s, username).None?
    requires email.Some? ==> UserByEmail(s, email.value).None?
    ensures Valid(SaveUser(s, username, email, hash, roleName).0)
  {
    var (s1, rid) := GetOrCreateRole(s, roleName);
    GetOrCreateRoleIdempotent(s, roleName);
    var (s2, uid) := SaveUser(s, username, email, hash, roleName);
    assert s2.users.rows == s1.users.rows[uid := User(username, email, hash, {rid})];
    assert UniqueUsernames(s2) by {
      forall a, b | a in s2.users.rows && b in s2.users.rows && s2.users.rows[a].username == s2.users.rows[b].username
        ensures a == b
      {
        if a != uid && b != uid {
          assert s2.users.rows[a] == s.users.rows[a] && s2.users.rows[b] == s.users.rows[b];
        }
      }
    }
    assert UniqueEmails(s2) by {
      forall a, b | a in s2.users.rows && b in s2.users.rows && s2.users.rows[a].email.Some?
          && s2.users.rows[a].email == s2.users.rows[b].email
        ensures a == b
      {
        if a != uid && b != uid {
          assert s2.users.rows[a] == s.users.rows[a] && s2.users.rows[b] == s.users.rows[b];
        }
      }
    }
    assert OneRoleEach(s2) by {
      forall u | u in s2.users.rows
        ensures |s2.users.rows[u].roles| == 1 && s2.users.rows[u].roles <= s2.roles.rows.Keys
      {
        if u != uid {
          assert s2.users.rows[u] == s.users.rows[u];
        }
      }
    }
  }

  /** A user saved into a valid store has no profile of either kind yet. */
  lemma NewUserHasNoProfile(s: Store, username: string, email: Option<string>, hash: string, roleName: string)
    requires Valid(s)
    ensures var (s1, uid) := SaveUser(s, username, email, hash, roleName);
      EmployerOfUser(s1, uid).None? && SeekerOfUser(s1, uid).None?
  {
    var (s1, uid) := SaveUser(s, username, email, hash, roleName);
    assert forall k :: k in s1.employers.rows ==> s1.employers.rows[k].userId in s.users.rows;
    assert forall k :: k in s1.seekers.rows ==> s1.seekers.rows[k].userId in s.users.rows;
  }

  // ----- POST /register -----

  /** `registerUser`: username check, role mapping, role and user, and for an employer a
      default profile, whose failure escapes after the user is saved. */
  function RegisterUser(s: Store, username: string, password: string, role: string, encode: string -> string)
    : (o: Outcome)
    requires TablesValid(s)
    ensures TablesValid(o.store)
    ensures UserByName(s, username).Some? ==> o == Outcome(s, Ok(Reply(400, USERNAME_TAKEN)))
    ensures UserByName(s, username).None? && RoleFor(role).None? ==> o == Outcome(s, Ok(Reply(400, INVALID_ROLE)))
    ensures UserByName(s, username).None? && RoleFor(role).Some? ==>
      var s1 := SaveUser(s, username, None, encode(password), RoleFor(role).value).0;
      && o.store == s1.(employers := o.store.employers)
      && (RoleFor(role) == Some(ROLE_JOB_SEEKER) ==> o == Outcome(s1, Ok(Reply(200, USER_REGISTERED))))
      && (o.reply == Ok(Reply(200, USER_REGISTERED)) || (o.store == s1 && o.reply.Err? && o.reply.error.Duplicate?))
  {
    if UserByName(s, username).Some? then Outcome(s, Ok(Reply(400, USERNAME_TAKEN)))
    else
      match RoleFor(role)
      case None => Outcome(s, Ok(Reply(400, INVALID_ROLE)))
      case Some(name) =>
        var (s1, uid) := SaveUser(s, username, None, encode(password), name);
        if name == ROLE_EMPLOYER then
          match InsertEmployer(s1, DefaultEmployer(uid, None))
          case Err(e) => Outcome(s1, Err(e))
          case Ok((s2, _)) => Outcome(s2, Ok(Reply(200, USER_REGISTERED)))
        else
          Outcome(s1, Ok(Reply(200, USER_REGISTERED)))
  }

  /** A generic "employer" registration adds the default profile for the new user, and fails
      after saving the user exactly when another profile already holds the placeholder name. */
  lemma RegisterUserEmployerProfile(s: Store, username: string, password: string, role: string, encode: string -> string)
    requires Valid(s) && UserByName(s, username).None? && RoleFor(role) == Some(ROLE_EMPLOYER)
    ensures var (s1, uid) := SaveUser(s, username, None, encode(password), ROLE_EMPLOYER);
      var o := RegisterUser(s, username, password, role, encode);
      && (o.reply.Ok? <==> !CompanyNameTaken(s, DEFAULT_COMPANY_NAME))
      && (o.reply.Err? ==> o.store == s1 && EmployerOfUser(o.store, uid).None?)
      && (o.reply.Ok? ==>
            && EmployerOfUser(o.store, uid).Some?
            && o.store.employers.rows[EmployerOfUser(o.store, uid).value] == DefaultEmployer(uid, None))
  {
    var (s1, uid) := SaveUser(s, username, None, encode(password), ROLE_EMPLOYER);
    NewUserHasNoProfile(s, username, None, encode(password), ROLE_EMPLOYER);
    SaveUserKeepsValid(s, username, None, encode(password), ROLE_EMPLOYER);
    assert s1.employers == s.employers;
    var e := DefaultEmployer(uid, None);
    var r := InsertEmployer(s1, e);
    assert CompanyNameTaken(s1, e.companyName) == CompanyNameTaken(s, DEFAULT_COMPANY_NAME);
    if r.Ok? {
      var (s2, k) := r.value;
      assert RegisterUser(s, username, password, role, encode) == Outcome(s2, Ok(Reply(200, USER_REGISTERED)));
      InsertEmployerKeepsValid(s1, e);
      EmployerOfUserUnique(s2, uid, k);
    } else {
      assert RegisterUser(s, username, password, role, encode) == Outcome(s1, Err(r.error));
    }
  }

  /** A generic registration keeps the store valid, whatever its reply. */
  lemma RegisterUserKeepsValid(s: Store, username: string, password: string, role: string, encode: string -> string)
    requires Valid(s)
    ensures Valid(RegisterUser(s, username, password, role, encode).store)
  {
    if UserByName(s, username).None? && RoleFor(role).Some? {
      var name := RoleFor(role).value;
      var (s1, uid) := SaveUser(s, username, None, encode(password), name);
      SaveUserKeepsValid(s, username, None, encode(password), name);
      var o := RegisterUser(s, username, password, role, encode);
      if name == ROLE_EMPLOYER && InsertEmployer(s1, DefaultEmployer(uid, None)).Ok? {
        InsertEmployerKeepsValid(s1, DefaultEmployer(uid, None));
        assert o.store == InsertEmployer(s1, DefaultEmployer(uid, None)).value.0;
      } else {
        assert o.store == s1;
      }
    }
  }

  /** The store a "jobseeker" registration leaves: unchanged for a taken username, else the
      store with the user saved. */
  lemma JobSeekerRegistrationStore(s: Store, username: string, password: string, encode: string -> string)
    requires TablesValid(s)
    ensures UserByName(s, username).Some? ==> RegisterUser(s, username, password, "jobseeker", encode).store == s
    ensures UserByName(s, username).None? ==>
      RegisterUser(s, username, password, "jobseeker", encode).store
        == SaveUser(s, username, None, encode(password), ROLE_JOB_SEEKER).0
  {
    LowerOfLowercase("jobseeker");
    assert RoleFor("jobseeker") == Some(ROLE_JOB_SEEKER);
  }

  /** A second "jobseeker" registration reuses the role row the first one left. */
  lemma SecondRegistrationReusesRole(s: Store, user1: string, user2: string, password: string, encode: string -> string)
    requires Valid(s)
    requires UserByName(s, user1).None?
    ensures var s1 := RegisterUser(s, user1, password, "jobseeker", encode).store;
      Valid(s1) && RegisterUser(s1, user2, password, "jobseeker", encode).store.roles == s1.roles
  {
    JobSeekerRegistrationStore(s, user1, password, encode);
    var s1 := SaveUser(s, user1, None, encode(password), ROLE_JOB_SEEKER).0;
    SaveUserKeepsValid(s, user1, None, encode(password), ROLE_JOB_SEEKER);
    assert RoleByName(s1, ROLE_JOB_SEEKER).Some?;
    JobSeekerRegistrationStore(s1, user2, password, encode);
  }

  // ----- POST /register/jobseeker -----

  /** `JobSeekerRegisterDto`, as far as the endpoint reads it. */
  datatype JobSeekerRegistration = JobSeekerRegistration(
    username: string,
    email: string,
    password: string,
    name: Option<string>,
    mobile: Option<string>,
    status: Option<string>,
    gender: Option<string>,
    dob: Option<Date>,
    education: Option<string>,
    workExperience: Option<string>,
    skills: Option<string>,
    resumeFilePath: Option<string>,
    photoFilePath: Option<string>)

  /** `ExperienceStatus.valueOf` where the name is required. */
  function RequiredStatus(given: Option<string>): (r: Result<ExperienceStatus>)
    ensures r.Ok? <==> given.Some? && ParseExperienceStatus(given.value).Some?
    ensures r.Ok? ==> Some(r.value) == ParseExperienceStatus(given.value)
    ensures given.None? ==> r == Err(Failed(NULL_NAME))
  {
    match given
    case None => Err(Failed(NULL_NAME))
    case Some(name) =>
      match ParseExperienceStatus(name)
      case Some(st) => Ok(st)
      case None => Err(Failed(ENUM_FAILURE + "ExperienceStatus." + name))
  }

  /** `Gender.valueOf` where the name is required. */
  function RequiredGender(given: Option<string>): (r: Result<Gender>)
    ensures r.Ok? <==> given.Some? && ParseGender(given.value).Some?
    ensures r.Ok? ==> Some(r.value) == ParseGender(given.value)
    ensures given.None? ==> r == Err(Failed(NULL_NAME))
  {
    match given
    case None => Err(Failed(NULL_NAME))
    case Some(name) =>
      match ParseGender(name)
      case Some(g) => Ok(g)
      case None => Err(Failed(ENUM_FAILURE + "Gender." + name))
  }

  /** `createJobSeekerProfile`: the profile built from the registration, or the failure of
      one of its two `valueOf` calls (status first), or the refusal to save a profile that
      leaves a `nullable = false` column null. */
  function SeekerProfileOf(d: JobSeekerRegistration, userId: nat): (r: Result<JobSeekerProfile>)
    ensures r.Ok? <==>
      && d.status.Some? && ParseExperienceStatus(d.status.value).Some?
      && d.gender.Some? && ParseGender(d.gender.value).Some?
      && d.name.Some? && d.mobile.Some? && d.dob.Some? && d.education.Some? && d.skills.Some?
    ensures RequiredStatus(d.status).Err? ==> r == Err(RequiredStatus(d.status).error)
    ensures (RequiredStatus(d.status).Ok? && RequiredGender(d.gender).Ok? && d.name.None?) ==>
      r == Err(Failed(NOT_NULL_FAILURE + "name"))
    ensures r.Ok? ==> Complete(r.value)
    ensures r.Ok? ==>
      && r.value.userId == userId && r.value.email == Some(d.email)
      && r.value.name == d.name && r.value.mobile == d.mobile && r.value.dob == d.dob
      && r.value.status == ParseExperienceStatus(d.status.value)
      && r.value.gender == ParseGender(d.gender.value)
      && r.value.education == d.education && r.value.workExperience == d.workExperience
      && r.value.skills == d.skills
      && r.value.resumeFilePath == d.resumeFilePath && r.value.photoFilePath == d.photoFilePath
      && r.value.educationDetails == []
  {
    var status :- RequiredStatus(d.status);
    var gender :- RequiredGender(d.gender);
    var p := JobSeekerProfile(userId, d.name, Some(d.email), d.mobile, Some(status), Some(gender), d.dob,
      d.education, d.workExperience, d.skills, d.resumeFilePath, d.photoFilePath, []);
    if Complete(p) then Ok(p) else Err(NotNullFailure(p))
  }

  /** `registerJobSeeker`: username, then email; then user and profile. Any exception becomes
      a 500 reply, with the user already saved. */
  function RegisterJobSeeker(s: Store, d: JobSeekerRegistration, encode: string -> string): (o: Outcome)
    requires TablesValid(s)
    ensures o.reply.Ok? && TablesValid(o.store)
    ensures UserByName(s, d.username).Some? ==> o == Outcome(s, Ok(Reply(400, USERNAME_TAKEN)))
    ensures UserByName(s, d.username).None? && UserByEmail(s, d.email).Some? ==>
      o == Outcome(s, Ok(Reply(400, EMAIL_TAKEN)))
    ensures UserByName(s, d.username).None? && UserByEmail(s, d.email).None? ==>
      var (s1, uid) := SaveUser(s, d.username, Some(d.email), encode(d.password), ROLE_JOB_SEEKER);
      && o.store == s1.(seekers := o.store.seekers)
      && (SeekerProfileOf(d, uid).Err? ==>
            o == Outcome(s1, Ok(Reply(500, FAILED_PREFIX + SeekerProfileOf(d, uid).error.Message()))))
      && (SeekerProfileOf(d, uid).Ok? ==> o.reply == Ok(Reply(200, SEEKER_REGISTERED)))
  {
    if UserByName(s, d.username).Some? then Outcome(s, Ok(Reply(400, USERNAME_TAKEN)))
    else if UserByEmail(s, d.email).Some? then Outcome(s, Ok(Reply(400, EMAIL_TAKEN)))
    else
      var (s1, uid) := SaveUser(s, d.username, Some(d.email), encode(d.password), ROLE_JOB_SEEKER);
      match SeekerProfileOf(d, uid)
      case Err(e) => Outcome(s1, Ok(Reply(500, FAILED_PREFIX + e.Message())))
      case Ok(p) =>
        var (t, _) := Tables.Insert(s1.seekers, p);
        Outcome(s1.(seekers := t), Ok(Reply(200, SEEKER_REGISTERED)))
  }

  /** A successful job seeker registration gives the new user exactly the profile built from
      the request. */
  lemma RegisterJobSeekerProfile(s: Store, d: JobSeekerRegistration, encode: string -> string)
    requires Valid(s) && UserByName(s, d.username).None? && UserByEmail(s, d.email).None?
    ensures var (s1, uid) := SaveUser(s, d.username, Some(d.email), encode(d.password), ROLE_JOB_SEEKER);
      var o := RegisterJobSeeker(s, d, encode);
      && (o.reply.value.status == 200 <==> SeekerProfileOf(d, uid).Ok?)
      && (SeekerProfileOf(d, uid).Ok? ==>
            && SeekerOfUser(o.store, uid).Some?
            && o.store.seekers.rows[SeekerOfUser(o.store, uid).value] == SeekerProfileOf(d, uid).value)
      && (SeekerProfileOf(d, uid).Err? ==> SeekerOfUser(o.store, uid).None?)
  {
    var (s1, uid) := SaveUser(s, d.username, Some(d.email), encode(d.password), ROLE_JOB_SEEKER);
    NewUserHasNoProfile(s, d.username, Some(d.email), encode(d.password), ROLE_JOB_SEEKER);
    SaveUserKeepsValid(s, d.username, Some(d.email), encode(d.password), ROLE_JOB_SEEKER);
    if SeekerProfileOf(d, uid).Ok? {
      var (t, k) := Tables.Insert(s1.seekers, SeekerProfileOf(d, uid).value);
      SeekerAddedValid(s1, t, k);
      SeekerOfUserUnique(s1.(seekers := t), uid, k);
    }
  }

  /** A registration that names no person, with valid status and gender, answers 500 with the
      persistence layer's refusal: the user account stays saved, without a profile. */
  lemma NullNameKeepsUser(s: Store, d: JobSeekerRegistration, encode: string -> string)
    requires Valid(s) && UserByName(s, d.username).None? && UserByEmail(s, d.email).None?
    requires RequiredStatus(d.status).Ok? && RequiredGender(d.gender).Ok? && d.name.None?
    ensures var o := RegisterJobSeeker(s, d, encode);
      && o.reply == Ok(Reply(500, FAILED_PREFIX + NOT_NULL_FAILURE + "name"))
      && UserByName(o.store, d.username).Some?
      && SeekerOfUser(o.store, UserByName(o.store, d.username).value).None?
  {
    var (s1, uid) := SaveUser(s, d.username, Some(d.email), encode(d.password), ROLE_JOB_SEEKER);
    var e := Failed(NOT_NULL_FAILURE + "name");
    assert SeekerProfileOf(d, uid) == Err(e);
    var o := RegisterJobSeeker(s, d, encode);
    assert o == Outcome(s1, Ok(Reply(500, FAILED_PREFIX + e.Message())));
    assert FAILED_PREFIX + e.Message() == FAILED_PREFIX + NOT_NULL_FAILURE + "name";
    NewUserHasNoProfile(s, d.username, Some(d.email), encode(d.password), ROLE_JOB_SEEKER);
    SaveUserKeepsValid(s, d.username, Some(d.email), encode(d.password), ROLE_JOB_SEEKER);
    Tables.FindUnique(s1.users, (u: User) => u.username == d.username, uid);
  }

  /** Job seeker registration keeps the store valid, whatever its reply. */
  lemma RegisterJobSeekerKeepsValid(s: Store, d: JobSeekerRegistration, encode: string -> string)
    requires Valid(s)
    ensures Valid(RegisterJobSeeker(s, d, encode).store)
  {
    if UserByName(s, d.username).None? && UserByEmail(s, d.email).None? {
      SaveUserKeepsValid(s, d.username, Some(d.email), encode(d.password), ROLE_JOB_SEEKER);
      NewUserHasNoProfile(s, d.username, Some(d.email), encode(d.password), ROLE_JOB_SEEKER);
      var (s1, uid) := SaveUser(s, d.username, Some(d.email), encode(d.password), ROLE_JOB_SEEKER);
      if SeekerProfileOf(d, uid).Ok? {
        var (t, k) := Tables.Insert(s1.seekers, SeekerProfileOf(d, uid).value);
        SeekerAddedValid(s1, t, k);
      }
    }
  }

  /** Adding one profile for a user that has none keeps the store valid. */
  lemma SeekerAddedValid(s: Store, t: Tables.Table<JobSeekerProfile>, k: nat)
    requires Valid(s) && Tables.Valid(t)
    requires k !in s.seekers.rows && k in t.rows && t.rows == s.seekers.rows[k := t.rows[k]]
    requires t.rows[k].userId in s.users.rows
    requires SeekerOfUser(s, t.rows[k].userId).None?
    ensures Valid(s.(seekers := t))
  {
    var s' := s.(seekers := t);
    assert SeekersLinked(s') by {
      forall a, b | a in t.rows && b in t.rows && t.rows[a].userId == t.rows[b].userId
        ensures a == b
      {
      }
    }
  }

  // ----- POST /register/employer -----

  /** `EmployerRegisterDto`. */
  datatype EmployerRegistration = EmployerRegistration(
    username: string,
    email: string,
    password: string,
    companyName: string,
    industry: string,
    companySize: Option<string>,
    headquarters: Option<string>,
    companyType: Option<string>,
    founded: Option<int>,
    specialities: Option<string>,
    companyAddress: Option<string>,
    companyPhone: Option<string>)

  /** The bean validation the request passes before the endpoint runs: required fields have
      text, the company type is a constant name and the founding year is in range. */
  predicate Admissible(d: EmployerRegistration) {
    && HasText(Some(d.username)) && HasText(Some(d.email)) && HasText(Some(d.password))
    && HasText(Some(d.companyName)) && HasText(Some(d.industry))
    && (d.companyType.Some? ==> ParseCompanyType(d.companyType.value).Some?)
    && (d.founded.Some? ==> 1800 <= d.founded.value <= 2030)
  }

  /** `createEmployerProfile`: the fields are copied as given, without trimming. */
  function EmployerOf(d: EmployerRegistration, userId: nat): (e: Employer)
    requires Admissible(d)
    ensures e.userId == userId && e.companyName == d.companyName && e.email == d.email
    ensures e.industry == d.industry && e.founded == d.founded
    ensures e.companyType.Some? <==> d.companyType.Some?
    ensures e.companyType.Some? ==> CompanyTypeName(e.companyType.value) == d.companyType.value
  {
    Employer(userId, d.companyName, d.email, d.industry, d.companySize, d.headquarters,
      if d.companyType.Some? then ParseCompanyType(d.companyType.value) else None,
      d.founded, d.specialities, d.companyAddress, d.companyPhone)
  }

  /** `registerEmployer`: username, then email, then company name; the first clash decides the
      reply and nothing is written. Otherwise the user is saved and then the profile. */
  function RegisterEmployer(s: Store, d: EmployerRegistration, encode: string -> string): (o: Outcome)
    requires TablesValid(s) && Admissible(d)
    ensures o.reply.Ok? && TablesValid(o.store)
    ensures UserByName(s, d.username).Some? ==> o == Outcome(s, Ok(Reply(400, USERNAME_TAKEN)))
    ensures UserByName(s, d.username).None? && UserByEmail(s, d.email).Some? ==>
      o == Outcome(s, Ok(Reply(400, EMAIL_TAKEN)))
    ensures (UserByName(s, d.username).None? && UserByEmail(s, d.email).None?
      && CompanyNameTaken(s, d.companyName)) ==> o == Outcome(s, Ok(Reply(400, COMPANY_TAKEN)))
    ensures (UserByName(s, d.username).None? && UserByEmail(s, d.email).None?
      && !CompanyNameTaken(s, d.companyName)) ==>
      var s1 := SaveUser(s, d.username, Some(d.email), encode(d.password), ROLE_EMPLOYER).0;
      o.store == s1.(employers := o.store.employers)
  {
    if UserByName(s, d.username).Some? then Outcome(s, Ok(Reply(400, USERNAME_TAKEN)))
    else if UserByEmail(s, d.email).Some? then Outcome(s, Ok(Reply(400, EMAIL_TAKEN)))
    else if CompanyNameTaken(s, d.companyName) then Outcome(s, Ok(Reply(400, COMPANY_TAKEN)))
    else
      var (s1, uid) := SaveUser(s, d.username, Some(d.email), encode(d.password), ROLE_EMPLOYER);
      match InsertEmployer(s1, EmployerOf(d, uid))
      case Err(e) => Outcome(s1, Ok(Reply(500, FAILED_PREFIX + e.Message())))
      case Ok((s2, _)) => Outcome(s2, Ok(Reply(200, EMPLOYER_REGISTERED)))
  }

  /** When all three checks pass on a valid store, the user and its profile are both saved. */
  lemma RegisterEmployerProfile(s: Store, d: EmployerRegistration, encode: string -> string)
    requires Valid(s) && Admissible(d)
    requires UserByName(s, d.username).None? && UserByEmail(s, d.email).None? && !CompanyNameTaken(s, d.companyName)
    ensures var (s1, uid) := SaveUser(s, d.username, Some(d.email), encode(d.password), ROLE_EMPLOYER);
      var o := RegisterEmployer(s, d, encode);
      && o.reply == Ok(Reply(200, EMPLOYER_REGISTERED))
      && EmployerOfUser(o.store, uid).Some?
      && o.store.employers.rows[EmployerOfUser(o.store, uid).value] == EmployerOf(d, uid)
  {
    var (s1, uid) := SaveUser(s, d.username, Some(d.email), encode(d.password), ROLE_EMPLOYER);
    NewUserHasNoProfile(s, d.username, Some(d.email), encode(d.password), ROLE_EMPLOYER);
    SaveUserKeepsValid(s, d.username, Some(d.email), encode(d.password), ROLE_EMPLOYER);
    assert s1.employers == s.employers;
    var e := EmployerOf(d, uid);
    assert InsertEmployer(s1, e).Ok?;
    var (s2, k) := InsertEmployer(s1, e).value;
    assert RegisterEmployer(s, d, encode) == Outcome(s2, Ok(Reply(200, EMPLOYER_REGISTERED)));
    InsertEmployerKeepsValid(s1, e);
    EmployerOfUserUnique(s2, uid, k);
  }

  /** Employer registration keeps the store valid. */
  lemma RegisterEmployerKeepsValid(s: Store, d: EmployerRegistration, encode: string -> string)
    requires Valid(s) && Admissible(d)
    ensures Valid(RegisterEmployer(s, d, encode).store)
  {
    if UserByName(s, d.username).None? && UserByEmail(s, d.email).None? && !CompanyNameTaken(s, d.companyName) {
      var (s1, uid) := SaveUser(s, d.username, Some(d.email), encode(d.password), ROLE_EMPLOYER);
      SaveUserKeepsValid(s, d.username, Some(d.email), encode(d.password), ROLE_EMPLOYER);
      var o := RegisterEmployer(s, d, encode);
      if InsertEmployer(s1, EmployerOf(d, uid)).Ok? {
        InsertEmployerKeepsValid(s1, EmployerOf(d, uid));
        assert o.store == InsertEmployer(s1, EmployerOf(d, uid)).value.0;
      } else {
        assert o.store == s1;
      }
    }
  }
}
