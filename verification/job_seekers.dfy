/** `JobSeekerProfileServiceImpl`: the get-or-create placeholder profile and
    the create-or-update of a profile from a DTO.

    The update overwrites the plain fields unconditionally, changes the two
    enum fields only when they are supplied, replaces a stored file path only
    when a different one is supplied (deleting the prior blob), and replaces the
    education history wholesale. As written, it swaps a stored profile's managed
    history list for a new one, which the flush refuses; `UpdateProfile` models
    that, `UpdateProfileInPlace` the refill in place that is evidently intended.
 */
module JobSeekers {
  import opened Wrappers
  import Tables
  import opened Entities
  import opened FileStorage

  const DEFAULT_DOB: Date := Date(1990, 1, 1)

  /** `createDefaultJobSeekerProfile`: the placeholder profile for user `userId`. */
  function DefaultJobSeekerProfile(userId: nat, userEmail: Option<string>): (p: JobSeekerProfile)
    ensures p.userId == userId
    ensures p.status == Some(FRESHER) && p.gender == Some(OTHER) && p.dob == Some(DEFAULT_DOB)
    ensures userEmail.Some? ==> p.email == userEmail
    ensures userEmail.None? ==> p.email == Some("Please Update Email")
    ensures p.resumeFilePath.None? && p.photoFilePath.None? && p.educationDetails == []
  {
    JobSeekerProfile(
      userId, Some("Please Update Name"), Some(userEmail.GetOr("Please Update Email")), Some("Please Update Mobile"),
      Some(FRESHER), Some(OTHER), Some(DEFAULT_DOB), Some("Please Update Education"),
      Some("Please Update Work Experience"), Some("Please Update Skills"), None, None, [])
  }

  /** `getOrCreateJobSeekerProfile`: the user's profile, or a freshly saved placeholder one. */
  function GetOrCreateJobSeekerProfile(s: Store, userId: nat): (r: (Store, nat))
    requires TablesValid(s) && userId in s.users.rows
    ensures SeekerOfUser(s, userId).Some? ==> r == (s, SeekerOfUser(s, userId).value)
    ensures SeekerOfUser(s, userId).None? ==>
      && r.0 == s.(seekers := r.0.seekers)
      && r.1 !in s.seekers.rows
      && r.0.seekers.rows.Keys == s.seekers.rows.Keys + {r.1}
      && r.0.seekers.rows[r.1] == DefaultJobSeekerProfile(userId, s.users.rows[userId].email)
      && (forall k :: k in s.seekers.rows ==> r.0.seekers.rows[k] == s.seekers.rows[k])
    ensures TablesValid(r.0) && r.1 in r.0.seekers.rows && r.0.seekers.rows[r.1].userId == userId
  {
    match SeekerOfUser(s, userId)
    case Some(k) => (s, k)
    case None =>
      var (t, k) := Tables.Insert(s.seekers, DefaultJobSeekerProfile(userId, s.users.rows[userId].email));
      (s.(seekers := t), k)
  }

  /** In a valid store the profile a user holds is the one `findByUser_Id` returns. */
  lemma SeekerOfUserUnique(s: Store, userId: nat, k: nat)
    requires Valid(s)
    requires k in s.seekers.rows && s.seekers.rows[k].userId == userId
    ensures SeekerOfUser(s, userId) == Some(k)
  {
    Tables.FindUnique(s.seekers, (p: JobSeekerProfile) => p.userId == userId, k);
  }

  /** A new profile table that keeps every row and holds at most one profile per existing
      user leaves a valid store valid, whatever the blobs. */
  lemma SeekersValid(s: Store, t: Tables.Table<JobSeekerProfile>, blobs: map<string, Blob>)
    requires Valid(s) && Tables.Valid(t) && s.seekers.rows.Keys <= t.rows.Keys
    requires SeekersLinked(s.(seekers := t))
    ensures Valid(s.(seekers := t, blobs := blobs))
  {
  }

  /** Giving profile `k` to user `userId`, who holds no other profile, keeps the store valid. */
  lemma SeekerRowValid(s: Store, t: Tables.Table<JobSeekerProfile>, k: nat, userId: nat, blobs: map<string, Blob>)
    requires Valid(s) && Tables.Valid(t) && userId in s.users.rows
    requires t.rows.Keys == s.seekers.rows.Keys + {k}
    requires t.rows[k].userId == userId
    requires forall j :: j in s.seekers.rows && j != k ==> t.rows[j] == s.seekers.rows[j]
    requires forall j :: j in s.seekers.rows && j != k ==> s.seekers.rows[j].userId != userId
    ensures Valid(s.(seekers := t, blobs := blobs))
  {
    assert SeekersLinked(s.(seekers := t)) by {
      forall a, b | a in t.rows && b in t.rows && t.rows[a].userId == t.rows[b].userId
        ensures a == b
      {
        if a != k && b != k {
          assert t.rows[a] == s.seekers.rows[a] && t.rows[b] == s.seekers.rows[b];
        }
      }
    }
    SeekersValid(s, t, blobs);
  }

  /** Get-or-create keeps the store valid, and calling it again changes nothing. */
  lemma GetOrCreateSeekerIdempotent(s: Store, userId: nat)
    requires Valid(s) && userId in s.users.rows
    ensures var (s', k) := GetOrCreateJobSeekerProfile(s, userId);
      && Valid(s') && userId in s'.users.rows
      && GetOrCreateJobSeekerProfile(s', userId) == (s', k)
  {
    var (s', k) := GetOrCreateJobSeekerProfile(s, userId);
    if SeekerOfUser(s, userId).None? {
      SeekerRowValid(s, s'.seekers, k, userId, s.blobs);
      assert s' == s.(seekers := s'.seekers, blobs := s.blobs);
    }
    SeekerOfUserUnique(s', userId, k);
  }

  // ----- Profile update -----

  /** `JobSeekerProfileDto`, as the update reads it; the enum fields arrive as names. */
  datatype JobSeekerProfileDto = JobSeekerProfileDto(
    name: Option<string>,
    email: Option<string>,
    mobile: Option<string>,
    status: Option<string>,
    gender: Option<string>,
    dob: Option<Date>,
    education: Option<string>,
    workExperience: Option<string>,
    skills: Option<string>,
    resumeFilePath: Option<string>,
    photoFilePath: Option<string>,
    educationDetails: Option<seq<EducationDetail>>)

  const ENUM_FAILURE: string := "No enum constant com.careerportal.career_portal_backend.entity.JobSeekerProfile."

  /** The experience status after an update: a null name keeps it, `valueOf` sets or throws. */
  function StatusAfter(current: Option<ExperienceStatus>, given: Option<string>): (r: Result<Option<ExperienceStatus>>)
    ensures given.None? ==> r == Ok(current)
    ensures given == Some("FRESHER") ==> r == Ok(Some(FRESHER))
    ensures given == Some("EXPERIENCED") ==> r == Ok(Some(EXPERIENCED))
    ensures r.Err? <==> given.Some? && given.value != "FRESHER" && given.value != "EXPERIENCED"
  {
    match given
    case None => Ok(current)
    case Some(name) =>
      match ParseExperienceStatus(name)
      case Some(v) => Ok(Some(v))
      case None => Err(Failed(ENUM_FAILURE + "ExperienceStatus." + name))
  }

  /** The gender after an update: a null name keeps it, `valueOf` sets or throws. */
  function GenderAfter(current: Option<Gender>, given: Option<string>): (r: Result<Option<Gender>>)
    ensures given.None? ==> r == Ok(current)
    ensures given == Some("MALE") ==> r == Ok(Some(MALE))
    ensures given == Some("FEMALE") ==> r == Ok(Some(FEMALE))
    ensures given == Some("OTHER") ==> r == Ok(Some(OTHER))
    ensures r.Err? <==> given.Some? && given.value != "MALE" && given.value != "FEMALE" && given.value != "OTHER"
  {
    match given
    case None => Ok(current)
    case Some(name) =>
      match ParseGender(name)
      case Some(v) => Ok(Some(v))
      case None => Err(Failed(ENUM_FAILURE + "Gender." + name))
  }

  /** A supplied path that differs from the stored one replaces it. */
  predicate Replaces(current: Option<string>, given: Option<string>) {
    given.Some? && given != current
  }

  /** The blob id a replacement discards: the prior path's last segment, when the prior path
      is present and not empty. */
  function Discarded(current: Option<string>, given: Option<string>): (ids: set<string>)
    ensures |ids| <= 1
    ensures ids != {} <==> Replaces(current, given) && current.Some? && current.value != []
  {
    if Replaces(current, given) && current.Some? && current.value != [] then {PathId(current.value)} else {}
  }

  /** The replace-and-delete rule for one stored file path: returns the store with the prior
      blob deleted, and the path to keep. */
  function ReplacePath(s: Store, current: Option<string>, given: Option<string>): (r: (Store, Option<string>))
    ensures Replaces(current, given) ==> r.1 == given
    ensures !Replaces(current, given) ==> r == (s, current)
    ensures r.0 == s.(blobs := r.0.blobs)
    ensures r.0.blobs.Keys == s.blobs.Keys - Discarded(current, given)
    ensures forall k :: k in r.0.blobs ==> r.0.blobs[k] == s.blobs[k]
  {
    if Replaces(current, given) then
      var s' := if current.Some? && current.value != [] then DeleteFile(s, Some(PathId(current.value))) else s;
      (s', given)
    else
      (s, current)
  }

  /** The profile `updateProfile` starts from: the stored one, or a new one with nothing set. */
  function Before(s: Store, userId: nat): (p: JobSeekerProfile)
    requires TablesValid(s)
    ensures SeekerOfUser(s, userId).Some? ==> p == s.seekers.rows[SeekerOfUser(s, userId).value]
    ensures SeekerOfUser(s, userId).None? ==>
      p.userId == userId && p.resumeFilePath.None? && p.photoFilePath.None? && p.status.None? && p.gender.None?
  {
    match SeekerOfUser(s, userId)
    case Some(k) => s.seekers.rows[k]
    case None => JobSeekerProfile(userId, None, None, None, None, None, None, None, None, None, None, None, [])
  }

  /** `updateProfile` as evidently intended: creates the caller's profile if needed, then merges
      the DTO into it, refilling a stored education history in place. */
  function UpdateProfileInPlace(s: Store, username: string, d: JobSeekerProfileDto): (r: Result<(Store, nat)>)
    requires TablesValid(s)
    ensures UserByName(s, username).None? ==> r == Err(Missing("User"))
    ensures r.Ok? <==>
      && UserByName(s, username).Some?
      && StatusAfter(None, d.status).Ok? && GenderAfter(None, d.gender).Ok?
      && d.name.Some? && d.email.Some? && d.mobile.Some? && d.dob.Some? && d.education.Some? && d.skills.Some?
      && (d.status.Some? || Before(s, UserByName(s, username).value).status.Some?)
      && (d.gender.Some? || Before(s, UserByName(s, username).value).gender.Some?)
    ensures (UserByName(s, username).Some? && StatusAfter(None, d.status).Ok? && GenderAfter(None, d.gender).Ok?
             && d.name.None?) ==> r == Err(Failed(NOT_NULL_FAILURE + "name"))
    ensures r.Ok? ==>
      var (s', k) := r.value;
      var uid := UserByName(s, username).value;
      var prior := Before(s, uid);
      && k in s'.seekers.rows
      && s' == s.(seekers := s'.seekers, blobs := s'.blobs)
      && (SeekerOfUser(s, uid).Some? ==> k == SeekerOfUser(s, uid).value && s'.seekers.rows.Keys == s.seekers.rows.Keys)
      && (SeekerOfUser(s, uid).None? ==> k !in s.seekers.rows && s'.seekers.rows.Keys == s.seekers.rows.Keys + {k})
      && (forall j :: j in s.seekers.rows && j != k ==> s'.seekers.rows[j] == s.seekers.rows[j])
      && var p := s'.seekers.rows[k];
      && p.userId == uid
      && Complete(p)
      && p.name == d.name && p.email == d.email && p.mobile == d.mobile && p.dob == d.dob
      && p.education == d.education && p.workExperience == d.workExperience && p.skills == d.skills
      && (d.status.None? ==> p.status == prior.status)
      && (d.gender.None? ==> p.gender == prior.gender)
      && p.resumeFilePath == (if Replaces(prior.resumeFilePath, d.resumeFilePath) then d.resumeFilePath else prior.resumeFilePath)
      && p.photoFilePath == (if Replaces(prior.photoFilePath, d.photoFilePath) then d.photoFilePath else prior.photoFilePath)
      && p.educationDetails == (if d.educationDetails.Some? then d.educationDetails.value else [])
      && s'.blobs.Keys
         == s.blobs.Keys - Discarded(prior.resumeFilePath, d.resumeFilePath) - Discarded(prior.photoFilePath, d.photoFilePath)
      && (forall b :: b in s'.blobs ==> s'.blobs[b] == s.blobs[b])
  {
    match UserByName(s, username)
    case None => Err(Missing("User"))
    case Some(uid) =>
      var prior := Before(s, uid);
      assert StatusAfter(prior.status, d.status).Ok? == StatusAfter(None, d.status).Ok?;
      assert GenderAfter(prior.gender, d.gender).Ok? == GenderAfter(None, d.gender).Ok?;
      var status :- StatusAfter(prior.status, d.status);
      var gender :- GenderAfter(prior.gender, d.gender);
      var (s1, resume) := ReplacePath(s, prior.resumeFilePath, d.resumeFilePath);
      var (s2, photo) := ReplacePath(s1, prior.photoFilePath, d.photoFilePath);
      var p := JobSeekerProfile(
        uid, d.name, d.email, d.mobile, status, gender, d.dob, d.education, d.workExperience, d.skills,
        resume, photo, d.educationDetails.GetOr([]));
      if !Complete(p) then Err(NotNullFailure(p))
      else
        match SeekerOfUser(s, uid)
        case Some(k) => Ok((s2.(seekers := Tables.Put(s2.seekers, k, p)), k))
        case None =>
          var (t, k) := Tables.Insert(s2.seekers, p);
          Ok((s2.(seekers := t), k))
  }

  /** A supplied status or gender ends up stored under exactly that name. */
  lemma UpdateSetsSuppliedEnums(s: Store, username: string, d: JobSeekerProfileDto)
    requires TablesValid(s) && UpdateProfileInPlace(s, username, d).Ok?
    ensures var (s', k) := UpdateProfileInPlace(s, username, d).value;
      && (d.status.Some? ==> s'.seekers.rows[k].status == ParseExperienceStatus(d.status.value))
      && (d.gender.Some? ==> s'.seekers.rows[k].gender == ParseGender(d.gender.value))
  {
  }

  /** Resubmitting the stored resume and photo paths, or leaving them null, deletes no blob. */
  lemma ResubmitDeletesNothing(s: Store, username: string, d: JobSeekerProfileDto)
    requires TablesValid(s) && UpdateProfileInPlace(s, username, d).Ok?
    requires var prior := Before(s, UserByName(s, username).value);
      && (d.resumeFilePath.None? || d.resumeFilePath == prior.resumeFilePath)
      && (d.photoFilePath.None? || d.photoFilePath == prior.photoFilePath)
    ensures UpdateProfileInPlace(s, username, d).value.0.blobs == s.blobs
  {
    var s' := UpdateProfileInPlace(s, username, d).value.0;
    assert s'.blobs.Keys == s.blobs.Keys;
  }

  /** Updating a profile keeps the store valid. */
  lemma InPlaceKeepsValid(s: Store, username: string, d: JobSeekerProfileDto)
    requires Valid(s) && UpdateProfileInPlace(s, username, d).Ok?
    ensures Valid(UpdateProfileInPlace(s, username, d).value.0)
  {
    var (s', k) := UpdateProfileInPlace(s, username, d).value;
    var uid := UserByName(s, username).value;
    forall j | j in s.seekers.rows && j != k
      ensures s.seekers.rows[j].userId != uid
    {
      if s.seekers.rows[j].userId == uid {
        SeekerOfUserUnique(s, uid, j);
      }
    }
    SeekerRowValid(s, s'.seekers, k, uid, s'.blobs);
  }

  const ORPHAN_FAILURE: string :=
    "A collection with cascade=\"all-delete-orphan\" was no longer referenced by the owning entity instance: "
    + "com.careerportal.career_portal_backend.entity.JobSeekerProfile.educationDetails"

  /** The update would hand a stored profile a new education list object in place of the
      managed one: the caller has a profile and the DTO carries a list, even an empty one. */
  predicate SwapsHistory(s: Store, username: string, d: JobSeekerProfileDto)
    requires TablesValid(s)
  {
    && UserByName(s, username).Some?
    && SeekerOfUser(s, UserByName(s, username).value).Some?
    && d.educationDetails.Some?
  }

  /** `updateProfile` as written: a stored profile's managed, orphan-removing education list is
      replaced by a new list object, which the flush refuses; the transaction then rolls back
      every write of the call, the blob deletions included. A new profile, or a null list,
      takes the in-place path. */
  function UpdateProfile(s: Store, username: string, d: JobSeekerProfileDto): (r: Result<(Store, nat)>)
    requires TablesValid(s)
    ensures UserByName(s, username).None? ==> r == Err(Missing("User"))
    ensures (SwapsHistory(s, username, d) && StatusAfter(None, d.status).Ok? && GenderAfter(None, d.gender).Ok?)
            ==> r == Err(Failed(ORPHAN_FAILURE))
    ensures r.Ok? <==> UpdateProfileInPlace(s, username, d).Ok? && !SwapsHistory(s, username, d)
    ensures r.Ok? ==>
      var uid := UserByName(s, username).value;
      && r.value.1 in r.value.0.seekers.rows
      && (SeekerOfUser(s, uid).Some? ==> r.value.0.seekers.rows[r.value.1].educationDetails == [])
      && (SeekerOfUser(s, uid).None? ==>
            r.value.0.seekers.rows[r.value.1].educationDetails == d.educationDetails.GetOr([]))
  {
    if SwapsHistory(s, username, d) && StatusAfter(None, d.status).Ok? && GenderAfter(None, d.gender).Ok? then
      Err(Failed(ORPHAN_FAILURE))
    else
      UpdateProfileInPlace(s, username, d)
  }

  /** Wherever the code as written succeeds, it does what the in-place update does. */
  lemma UpdateProfileAgrees(s: Store, username: string, d: JobSeekerProfileDto)
    requires TablesValid(s) && !SwapsHistory(s, username, d)
    ensures UpdateProfile(s, username, d) == UpdateProfileInPlace(s, username, d)
  {
  }

  /** The discrepancy: for a caller with a stored profile, any non-null list, however short,
      makes the code as written fail where the in-place update stores exactly that list. */
  lemma SwappedHistoryFails(s: Store, username: string, d: JobSeekerProfileDto)
    requires TablesValid(s) && UpdateProfileInPlace(s, username, d).Ok?
    requires SeekerOfUser(s, UserByName(s, username).value).Some? && d.educationDetails.Some?
    ensures UpdateProfile(s, username, d) == Err(Failed(ORPHAN_FAILURE))
    ensures var (s', k) := UpdateProfileInPlace(s, username, d).value;
      s'.seekers.rows[k].educationDetails == d.educationDetails.value
  {
  }

  /** The code as written keeps the store valid whenever it succeeds. */
  lemma UpdateProfileKeepsValid(s: Store, username: string, d: JobSeekerProfileDto)
    requires Valid(s) && UpdateProfile(s, username, d).Ok?
    ensures Valid(UpdateProfile(s, username, d).value.0)
  {
    UpdateProfileAgrees(s, username, d);
    InPlaceKeepsValid(s, username, d);
  }
}
