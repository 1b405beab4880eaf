/** `ApplicationServiceImpl`: applying for a job, listing applications, and
    the employer-side status update and resume download.

    The employer-side operations are guarded by an ownership check: the
    username of the user behind the posting's employer must be the caller's.
    They rely on the store's foreign keys, so they ask for a valid store.
 */
module Applications {
  import opened Wrappers
  import opened Seqs
  import Tables
  import opened Entities
  import opened FileStorage

  const PENDING: string := "PENDING"
  const RESUME_DIR: string := "resumes"
  const DEFAULT_RESUME_NAME: string := "resume.pdf"

  /** `ApplicationResponseDto`, without the joined display fields (job title, company and
      candidate details). */
  datatype ApplicationDto = ApplicationDto(
    id: nat,
    status: string,
    jobPostingId: nat,
    jobSeekerProfileId: nat,
    recruiterNotes: Option<string>,
    resumeFileName: Option<string>,
    hasResume: bool)

  /** `mapToDTO`: a resume is reported when its original file name is present and not empty. */
  function MapToDto(id: nat, a: Application): (d: ApplicationDto)
    ensures d.id == id && d.status == a.status && d.jobPostingId == a.postingId
    ensures d.jobSeekerProfileId == a.seekerId && d.recruiterNotes == a.recruiterNotes
    ensures d.hasResume <==> a.resumeFileName.Some? && a.resumeFileName.value != []
  {
    ApplicationDto(id, a.status, a.postingId, a.seekerId, a.recruiterNotes, a.resumeFileName,
      a.resumeFileName.Some? && a.resumeFileName.value != [])
  }

  /** A resume part that `applyForJob` stores: present and not empty. */
  predicate Attached(resume: Option<Upload>) {
    resume.Some? && !IsEmpty(resume.value)
  }

  /** `applyForJob`: always a new PENDING application of the caller's profile to the posting,
      with no check for an earlier one; an attached resume is stored first under "resumes/". */
  function ApplyForJob(s: Store, username: string, jobId: nat, resume: Option<Upload>, now: Instant, freshId: string)
    : (r: Result<(Store, nat)>)
    requires TablesValid(s) && FreshBlobId(s, freshId)
    ensures UserByName(s, username).None? ==> r == Err(Missing("User"))
    ensures UserByName(s, username).Some? && SeekerOfUser(s, UserByName(s, username).value).None? ==>
      r == Err(Missing("Job Seeker Profile"))
    ensures r.Ok? <==>
      && UserByName(s, username).Some?
      && SeekerOfUser(s, UserByName(s, username).value).Some?
      && jobId in s.postings.rows
      && (Attached(resume) ==>
            resume.value.originalFilename.Some? && !Text.Contains(resume.value.originalFilename.value, ".."))
    ensures r.Ok? ==>
      var (s', k) := r.value;
      && s' == s.(applications := s'.applications, blobs := s'.blobs) && TablesValid(s')
      && k !in s.applications.rows
      && s'.applications.rows.Keys == s.applications.rows.Keys + {k}
      && (forall j :: j in s.applications.rows ==> s'.applications.rows[j] == s.applications.rows[j])
      && var a := s'.applications.rows[k];
         && a.status == PENDING && a.recruiterNotes.None? && a.applicationDate == now
         && a.seekerId == SeekerOfUser(s, UserByName(s, username).value).value
         && a.postingId == jobId
         && (!Attached(resume) ==>
               && s'.blobs == s.blobs
               && a.resumeFileName.None? && a.resumeFilePath.None?
               && a.resumeContentType.None? && a.resumeFileSize.None?
               && !MapToDto(k, a).hasResume)
         && (Attached(resume) ==>
               && a.resumeFilePath == Some(BlobPath(RESUME_DIR, freshId))
               && s'.blobs == s.blobs[freshId := Blob(resume.value.originalFilename.value, resume.value.contentType, resume.value.bytes)]
               && a.resumeFileName == resume.value.originalFilename
               && a.resumeContentType == resume.value.contentType
               && a.resumeFileSize == Some(|resume.value.bytes|))
  {
    match UserByName(s, username)
    case None => Err(Missing("User"))
    case Some(uid) =>
      match SeekerOfUser(s, uid)
      case None => Err(Missing("Job Seeker Profile"))
      case Some(seeker) =>
        if jobId !in s.postings.rows then Err(Missing("Job Posting"))
        else
          var stored: Result<(Store, Application)> :=
            if Attached(resume) then
              var file := resume.value;
              match StoreFile(s, file, freshId)
              case Err(e) => Err(Failed("Failed to store resume file: " + e.Message()))
              case Ok((s1, id)) =>
                Ok((s1, Application(seeker, jobId, now, PENDING, None, file.originalFilename,
                  Some(BlobPath(RESUME_DIR, id)), file.contentType, Some(|file.bytes|))))
            else
              Ok((s, Application(seeker, jobId, now, PENDING, None, None, None, None, None)));
          var (s1, a) :- stored;
          var (t, k) := Tables.Insert(s1.applications, a);
          Ok((s1.(applications := t), k))
  }

  /** Applying twice to the same job gives two distinct applications. */
  lemma ApplyTwiceGivesTwo(s: Store, username: string, jobId: nat, now1: Instant, now2: Instant, id1: string, id2: string)
    requires TablesValid(s) && FreshBlobId(s, id1)
    requires ApplyForJob(s, username, jobId, None, now1, id1).Ok?
    ensures var (s1, k1) := ApplyForJob(s, username, jobId, None, now1, id1).value;
      && TablesValid(s1) && FreshBlobId(s1, id1)
      && ApplyForJob(s1, username, jobId, None, now2, id1).Ok?
      && var (s2, k2) := ApplyForJob(s1, username, jobId, None, now2, id1).value;
         && k1 != k2 && k1 in s2.applications.rows && k2 in s2.applications.rows
         && s2.applications.rows[k1].postingId == s2.applications.rows[k2].postingId == jobId
         && s2.applications.rows[k1].seekerId == s2.applications.rows[k2].seekerId
  {
    var (s1, k1) := ApplyForJob(s, username, jobId, None, now1, id1).value;
    var uid := UserByName(s, username).value;
    assert s1.users == s.users && s1.seekers == s.seekers && s1.postings == s.postings;
  }

  /** An uploaded resume with an empty file name is stored and linked, yet reported as absent. */
  lemma EmptyNameResumeUnreported(s: Store, username: string, jobId: nat, file: Upload, now: Instant, freshId: string)
    requires TablesValid(s) && FreshBlobId(s, freshId)
    requires file.originalFilename == Some("") && !IsEmpty(file)
    requires ApplyForJob(s, username, jobId, Some(file), now, freshId).Ok?
    ensures var (s', k) := ApplyForJob(s, username, jobId, Some(file), now, freshId).value;
      && freshId in s'.blobs
      && s'.applications.rows[k].resumeFilePath.Some?
      && !MapToDto(k, s'.applications.rows[k]).hasResume
  {
  }

  /** Any application table whose rows refer to existing postings and profiles, with any
      blobs, leaves a valid store valid. */
  lemma ApplicationsLinkedValid(s: Store, t: Tables.Table<Application>, blobs: map<string, Blob>)
    requires Valid(s) && Tables.Valid(t)
    requires forall k :: k in t.rows ==> t.rows[k].postingId in s.postings.rows && t.rows[k].seekerId in s.seekers.rows
    ensures Valid(s.(applications := t, blobs := blobs))
  {
  }

  /** Overwriting an application with one that refers to the same posting and profile keeps
      the store valid. */
  lemma RelinkKeepsValid(s: Store, k: nat, a: Application)
    requires Valid(s) && k in s.applications.rows
    requires a.postingId == s.applications.rows[k].postingId && a.seekerId == s.applications.rows[k].seekerId
    ensures Valid(s.(applications := Tables.Put(s.applications, k, a)))
  {
    var t := Tables.Put(s.applications, k, a);
    forall j | j in t.rows
      ensures t.rows[j].postingId in s.postings.rows && t.rows[j].seekerId in s.seekers.rows
    {
      if j != k {
        assert t.rows[j] == s.applications.rows[j];
      }
    }
    ApplicationsLinkedValid(s, t, s.blobs);
  }

  /** Applying keeps the store valid. */
  lemma ApplyKeepsValid(s: Store, username: string, jobId: nat, resume: Option<Upload>, now: Instant, freshId: string)
    requires Valid(s) && FreshBlobId(s, freshId)
    requires ApplyForJob(s, username, jobId, resume, now, freshId).Ok?
    ensures Valid(ApplyForJob(s, username, jobId, resume, now, freshId).value.0)
  {
    var (s', k) := ApplyForJob(s, username, jobId, resume, now, freshId).value;
    AppendedValid(s, s', k);
  }

  /** Adding one application that refers to an existing posting and profile, with any
      blobs, keeps a valid store valid. */
  lemma AppendedValid(s: Store, s': Store, k: nat)
    requires Valid(s) && TablesValid(s')
    requires s' == s.(applications := s'.applications, blobs := s'.blobs)
    requires s'.applications.rows.Keys == s.applications.rows.Keys + {k}
    requires forall j :: j in s.applications.rows ==> s'.applications.rows[j] == s.applications.rows[j]
    requires s'.applications.rows[k].postingId in s.postings.rows
    requires s'.applications.rows[k].seekerId in s.seekers.rows
    ensures Valid(s')
  {
    forall j | j in s'.applications.rows
      ensures s'.applications.rows[j].postingId in s.postings.rows
      ensures s'.applications.rows[j].seekerId in s.seekers.rows
    {
      if j != k {
        assert s'.applications.rows[j] == s.applications.rows[j];
      }
    }
    ApplicationsLinkedValid(s, s'.applications, s'.blobs);
  }

  // ----- Listing -----

  /** The applications whose row satisfies `p`, in key order. */
  function ApplicationsWhere(s: Store, p: Application -> bool): (r: seq<nat>)
    requires TablesValid(s)
    ensures forall i :: 0 <= i < |r| ==> r[i] in s.applications.rows && p(s.applications.rows[r[i]])
    ensures forall k :: (k in s.applications.rows && p(s.applications.rows[k])) ==> k in r
    ensures IsSubsequence(r, Tables.Keys(s.applications))
  {
    Filter(Tables.Keys(s.applications), k => k in s.applications.rows && p(s.applications.rows[k]))
  }

  /** `getMyApplications`: the applications of the caller's profile. */
  function GetMyApplications(s: Store, username: string): (r: Result<seq<nat>>)
    requires TablesValid(s)
    ensures r.Ok? <==> UserByName(s, username).Some? && SeekerOfUser(s, UserByName(s, username).value).Some?
    ensures r.Ok? ==>
      var seeker := SeekerOfUser(s, UserByName(s, username).value).value;
      && (forall i :: 0 <= i < |r.value| ==>
            r.value[i] in s.applications.rows && s.applications.rows[r.value[i]].seekerId == seeker)
      && (forall k :: (k in s.applications.rows && s.applications.rows[k].seekerId == seeker) ==> k in r.value)
  {
    match UserByName(s, username)
    case None => Err(Missing("User"))
    case Some(uid) =>
      match SeekerOfUser(s, uid)
      case None => Err(Missing("Job Seeker Profile"))
      case Some(seeker) => Ok(ApplicationsWhere(s, (a: Application) => a.seekerId == seeker))
  }

  const VIEW_REFUSAL: string := "You are not authorized to view applications for this job."

  /** `getApplicationsForJob`: the applications to one posting, for the posting's employer only. */
  function GetApplicationsForJob(s: Store, jobId: nat, username: string): (r: Result<seq<nat>>)
    requires TablesValid(s)
    ensures r.Ok? <==>
      && UserByName(s, username).Some?
      && EmployerOfUser(s, UserByName(s, username).value).Some?
      && jobId in s.postings.rows
      && s.postings.rows[jobId].employerId == EmployerOfUser(s, UserByName(s, username).value).value
    ensures
      && UserByName(s, username).Some?
      && EmployerOfUser(s, UserByName(s, username).value).Some?
      && jobId in s.postings.rows
      && s.postings.rows[jobId].employerId != EmployerOfUser(s, UserByName(s, username).value).value
      ==> r == Err(AccessDenied(VIEW_REFUSAL))
    ensures r.Ok? ==>
      && (forall i :: 0 <= i < |r.value| ==>
            r.value[i] in s.applications.rows && s.applications.rows[r.value[i]].postingId == jobId)
      && (forall k :: (k in s.applications.rows && s.applications.rows[k].postingId == jobId) ==> k in r.value)
  {
    match UserByName(s, username)
    case None => Err(Missing("User"))
    case Some(uid) =>
      match EmployerOfUser(s, uid)
      case None => Err(Missing("Employer Profile"))
      case Some(emp) =>
        if jobId !in s.postings.rows then Err(Missing("Job Posting"))
        else if s.postings.rows[jobId].employerId != emp then Err(AccessDenied(VIEW_REFUSAL))
        else Ok(ApplicationsWhere(s, (a: Application) => a.postingId == jobId))
  }

  // ----- Employer-side operations on one application -----

  /** The username of the employer user behind application `k`'s posting. */
  function OwnerOf(s: Store, k: nat): string
    requires Valid(s) && k in s.applications.rows
  {
    PostingOwnerName(s, s.applications.rows[k].postingId)
  }

  /** The guard of the employer-side operations: the application exists and the caller
      owns its posting. */
  function Authorized(s: Store, k: nat, username: string, refusal: string): (r: Result<Application>)
    requires Valid(s)
    ensures r.Ok? <==> k in s.applications.rows && OwnerOf(s, k) == username
    ensures r.Ok? ==> r.value == s.applications.rows[k]
    ensures k !in s.applications.rows ==> r == Err(Missing("Application"))
    ensures k in s.applications.rows && OwnerOf(s, k) != username ==> r == Err(AccessDenied(refusal))
  {
    if k !in s.applications.rows then Err(Missing("Application"))
    else if OwnerOf(s, k) != username then Err(AccessDenied(refusal))
    else Ok(s.applications.rows[k])
  }

  const MODIFY_REFUSAL: string := "You are not authorized to modify this application."

  /** `updateApplicationStatus`: the posting's owner sets status and notes to any values;
      nothing else changes. */
  function UpdateApplicationStatus(s: Store, k: nat, newStatus: string, notes: Option<string>, username: string)
    : (r: Result<(Store, ApplicationDto)>)
    requires Valid(s)
    ensures r.Ok? <==> k in s.applications.rows && OwnerOf(s, k) == username
    ensures r.Err? ==> r.error == Authorized(s, k, username, MODIFY_REFUSAL).error
    ensures r.Ok? ==>
      var (s', dto) := r.value;
      && s' == s.(applications := s'.applications)
      && s'.applications.rows.Keys == s.applications.rows.Keys
      && (forall j :: j in s.applications.rows && j != k ==> s'.applications.rows[j] == s.applications.rows[j])
      && s'.applications.rows[k] == s.applications.rows[k].(status := newStatus, recruiterNotes := notes)
      && dto.status == newStatus && dto.recruiterNotes == notes
  {
    var a :- Authorized(s, k, username, MODIFY_REFUSAL);
    var a' := a.(status := newStatus, recruiterNotes := notes);
    Ok((s.(applications := Tables.Put(s.applications, k, a')), MapToDto(k, a')))
  }

  /** A status update keeps the store valid. */
  lemma UpdateStatusKeepsValid(s: Store, k: nat, newStatus: string, notes: Option<string>, username: string)
    requires Valid(s) && UpdateApplicationStatus(s, k, newStatus, notes, username).Ok?
    ensures Valid(UpdateApplicationStatus(s, k, newStatus, notes, username).value.0)
  {
    var a' := s.applications.rows[k].(status := newStatus, recruiterNotes := notes);
    RelinkKeepsValid(s, k, a');
  }

  const DOWNLOAD_REFUSAL: string := "You are not authorized to download this resume."
  const NO_RESUME: string := "No resume file found for this application"

  /** `getApplicationResume`: the bytes of the blob named by the last segment of the
      application's resume path. */
  function GetApplicationResume(s: Store, k: nat, username: string): (r: Result<seq<byte>>)
    requires Valid(s)
    ensures r.Ok? ==> k in s.applications.rows && OwnerOf(s, k) == username
    ensures k in s.applications.rows && OwnerOf(s, k) != username ==> r == Err(AccessDenied(DOWNLOAD_REFUSAL))
    ensures k in s.applications.rows && OwnerOf(s, k) == username && s.applications.rows[k].resumeFilePath.None? ==>
      r == Err(Failed(NO_RESUME))
    ensures r.Ok? <==>
      && k in s.applications.rows && OwnerOf(s, k) == username
      && s.applications.rows[k].resumeFilePath.Some?
      && PathId(s.applications.rows[k].resumeFilePath.value) in s.blobs
    ensures r.Ok? ==> r.value == s.blobs[PathId(s.applications.rows[k].resumeFilePath.value)].data
  {
    var a :- Authorized(s, k, username, DOWNLOAD_REFUSAL);
    if a.resumeFilePath.None? then Err(Failed(NO_RESUME))
    else
      var blob :- GetFile(s, PathId(a.resumeFilePath.value));
      Ok(blob.data)
  }

  const ACCESS_REFUSAL: string := "You are not authorized to access this resume."

  /** `getApplicationResumeFileName`: the stored original name, or "resume.pdf". */
  function GetApplicationResumeFileName(s: Store, k: nat, username: string): (r: Result<string>)
    requires Valid(s)
    ensures r.Ok? <==> k in s.applications.rows && OwnerOf(s, k) == username
    ensures r.Ok? && s.applications.rows[k].resumeFileName.None? ==> r.value == DEFAULT_RESUME_NAME
    ensures r.Ok? && s.applications.rows[k].resumeFileName.Some? ==>
      r.value == s.applications.rows[k].resumeFileName.value
  {
    var a :- Authorized(s, k, username, ACCESS_REFUSAL);
    Ok(a.resumeFileName.GetOr(DEFAULT_RESUME_NAME))
  }

  /** The posting's owner downloads exactly the bytes that were uploaded with the application. */
  lemma ApplyThenDownload(s: Store, username: string, jobId: nat, file: Upload, now: Instant, freshId: string)
    requires Valid(s) && FreshBlobId(s, freshId) && !IsEmpty(file)
    requires ApplyForJob(s, username, jobId, Some(file), now, freshId).Ok?
    ensures var (s', k) := ApplyForJob(s, username, jobId, Some(file), now, freshId).value;
      && Valid(s')
      && GetApplicationResume(s', k, PostingOwnerName(s', jobId)) == Ok(file.bytes)
  {
    var (s', k) := ApplyForJob(s, username, jobId, Some(file), now, freshId).value;
    ApplyKeepsValid(s, username, jobId, Some(file), now, freshId);
    var a := s'.applications.rows[k];
    assert a.postingId == jobId && a.resumeFilePath == Some(BlobPath(RESUME_DIR, freshId));
    assert OwnerOf(s', k) == PostingOwnerName(s', jobId);
    PathIdOfBlobPath(RESUME_DIR, freshId);
    assert s'.blobs[freshId].data == file.bytes;
  }

  /** The posting's owner gets back the name the resume was uploaded under, or the default
      name when the application came without one. */
  lemma ApplyThenFileName(s: Store, username: string, jobId: nat, resume: Option<Upload>, now: Instant, freshId: string)
    requires Valid(s) && FreshBlobId(s, freshId)
    requires ApplyForJob(s, username, jobId, resume, now, freshId).Ok?
    ensures var (s', k) := ApplyForJob(s, username, jobId, resume, now, freshId).value;
      && Valid(s')
      && (Attached(resume) ==>
            GetApplicationResumeFileName(s', k, PostingOwnerName(s', jobId)) == Ok(resume.value.originalFilename.value))
      && (!Attached(resume) ==>
            GetApplicationResumeFileName(s', k, PostingOwnerName(s', jobId)) == Ok(DEFAULT_RESUME_NAME))
  {
    var (s', k) := ApplyForJob(s, username, jobId, resume, now, freshId).value;
    ApplyKeepsValid(s, username, jobId, resume, now, freshId);
    assert s'.applications.rows[k].postingId == jobId;
    assert OwnerOf(s', k) == PostingOwnerName(s', jobId);
  }
}
