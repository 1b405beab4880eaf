/** `JobPostingServiceImpl`: posting, listing, updating and deleting jobs.

    Only the employer that owns a posting may change or delete it; deleting a
    posting also deletes its applications (the cascade on
    `JobPosting.applications`).
 */
module JobPostings {
  import opened Wrappers
  import opened Seqs
  import opened Text
  import Tables
  import opened Entities
  import opened JobSearch
  import opened Employers

  /** `JobPostingDto`. */
  datatype JobPostingDto = JobPostingDto(
    id: Option<nat>,
    jobTitle: Option<string>,
    jobPosition: Option<string>,
    description: Option<string>,
    requiredSkills: Option<string>,
    location: Option<string>,
    experienceLevel: Option<string>,
    functionalArea: Option<string>,
    industry: Option<string>,
    salaryDetails: Option<string>,
    datePosted: Option<Date>,
    isActive: Option<bool>,
    applicationCount: Option<int>)

  /** The bean validation a request body passes before the create and update endpoints run:
      title, description and location have text. */
  predicate Admissible(d: JobPostingDto) {
    HasText(d.jobTitle) && HasText(d.description) && HasText(d.location)
  }

  /** The nine descriptive columns a posting and its DTO have in common agree. */
  predicate SameDescription(p: JobPosting, d: JobPostingDto) {
    && p.jobTitle == d.jobTitle && p.jobPosition == d.jobPosition && p.description == d.description
    && p.requiredSkills == d.requiredSkills && p.location == d.location
    && p.experienceLevel == d.experienceLevel && p.functionalArea == d.functionalArea
    && p.industry == d.industry && p.salaryDetails == d.salaryDetails
  }

  /** `mapToEntity`: a new, active posting of `employerId`, dated `today`. */
  function MapToEntity(d: JobPostingDto, employerId: nat, today: Date): (p: JobPosting)
    ensures SameDescription(p, d)
    ensures p.employerId == employerId && p.datePosted == today && p.isActive == Some(true)
  {
    JobPosting(employerId, d.jobTitle, d.jobPosition, d.description, d.requiredSkills, d.location,
      d.experienceLevel, d.functionalArea, d.industry, d.salaryDetails, today, Some(true))
  }

  /** `mapToDTO`: the application count is always reported as 0. */
  function MapToDto(id: nat, p: JobPosting): (d: JobPostingDto)
    ensures SameDescription(p, d)
    ensures d.id == Some(id) && d.datePosted == Some(p.datePosted) && d.isActive == p.isActive
    ensures d.applicationCount == Some(0)
  {
    JobPostingDto(Some(id), p.jobTitle, p.jobPosition, p.description, p.requiredSkills, p.location,
      p.experienceLevel, p.functionalArea, p.industry, p.salaryDetails, Some(p.datePosted), p.isActive, Some(0))
  }

  /** A DTO sent in comes back with its description intact, plus the server-side fields. */
  lemma DtoRoundTrip(d: JobPostingDto, employerId: nat, today: Date, id: nat)
    ensures MapToDto(id, MapToEntity(d, employerId, today))
         == d.(id := Some(id), datePosted := Some(today), isActive := Some(true), applicationCount := Some(0))
  {
  }

  /** The DTOs of the postings `ids`, in order. */
  function ToDtos(s: Store, ids: seq<nat>): (r: seq<JobPostingDto>)
    requires forall i :: 0 <= i < |ids| ==> ids[i] in s.postings.rows
    ensures |r| == |ids|
    ensures forall i :: 0 <= i < |ids| ==> r[i] == MapToDto(ids[i], s.postings.rows[ids[i]])
    ensures forall i :: 0 <= i < |ids| ==> r[i].id == Some(ids[i])
  {
    seq(|ids|, i requires 0 <= i < |ids| => MapToDto(ids[i], s.postings.rows[ids[i]]))
  }

  /** `createJobPosting`: the posting belongs to the caller's employer profile, which is
      created first when the caller has none. */
  function CreateJobPosting(s: Store, username: string, d: JobPostingDto, today: Date)
    : (r: Result<(Store, JobPostingDto)>)
    requires TablesValid(s) && Admissible(d)
    ensures UserByName(s, username).None? ==> r == Err(Missing("User"))
    ensures r.Ok? <==>
      UserByName(s, username).Some?
      && (EmployerOfUser(s, UserByName(s, username).value).Some? || !CompanyNameTaken(s, DEFAULT_COMPANY_NAME))
    ensures r.Ok? ==>
      var (s', dto) := r.value;
      var uid := UserByName(s, username).value;
      && s' == s.(employers := s'.employers, postings := s'.postings)
      && s'.employers == GetOrCreateEmployerProfile(s, uid).value.0.employers
      && (EmployerOfUser(s, uid).Some? ==> s'.employers == s.employers)
      && dto.id.Some? && dto.id.value !in s.postings.rows
      && s'.postings.rows.Keys == s.postings.rows.Keys + {dto.id.value}
      && (forall k :: k in s.postings.rows ==> s'.postings.rows[k] == s.postings.rows[k])
      && var p := s'.postings.rows[dto.id.value];
         && p.isActive == Some(true) && p.datePosted == today && SameDescription(p, d)
         && p.employerId in s'.employers.rows && s'.employers.rows[p.employerId].userId == uid
         && p.employerId == GetOrCreateEmployerProfile(s, uid).value.1
         && (EmployerOfUser(s, uid).Some? ==> p.employerId == EmployerOfUser(s, uid).value)
         && p.jobTitle.Some?
         && dto == MapToDto(dto.id.value, p)
  {
    match UserByName(s, username)
    case None => Err(Missing("User"))
    case Some(uid) =>
      var (s1, employerId) :- GetOrCreateEmployerProfile(s, uid);
      var (t, id) := Tables.Insert(s1.postings, MapToEntity(d, employerId, today));
      Ok((s1.(postings := t), MapToDto(id, t.rows[id])))
  }

  /** `findByEmployer_Id`: the postings of `employerId`, in key order. */
  function PostingsOf(s: Store, employerId: nat): (r: seq<nat>)
    requires TablesValid(s)
    ensures forall i :: 0 <= i < |r| ==> r[i] in s.postings.rows && s.postings.rows[r[i]].employerId == employerId
    ensures forall k :: (k in s.postings.rows && s.postings.rows[k].employerId == employerId) ==> k in r
    ensures IsSubsequence(r, Tables.Keys(s.postings))
  {
    Filter(Tables.Keys(s.postings), k => k in s.postings.rows && s.postings.rows[k].employerId == employerId)
  }

  /** `getJobPostingsByEmployer`: the projections of the caller's employer's postings. */
  function GetJobPostingsByEmployer(s: Store, username: string): (r: Result<seq<JobPostingDto>>)
    requires TablesValid(s)
    ensures UserByName(s, username).None? ==> r == Err(Missing("User"))
    ensures r.Ok? <==> UserByName(s, username).Some? && EmployerOfUser(s, UserByName(s, username).value).Some?
    ensures r.Ok? ==>
      var emp := EmployerOfUser(s, UserByName(s, username).value).value;
      && r.value == ToDtos(s, PostingsOf(s, emp))
      && (forall i :: 0 <= i < |r.value| ==>
            && r.value[i].id.Some? && r.value[i].id.value in s.postings.rows
            && s.postings.rows[r.value[i].id.value].employerId == emp)
  {
    match UserByName(s, username)
    case None => Err(Missing("User"))
    case Some(uid) =>
      match EmployerOfUser(s, uid)
      case None => Err(Missing("Employer"))
      case Some(emp) => Ok(ToDtos(s, PostingsOf(s, emp)))
  }

  /** The employer listing holds every posting of the caller's employer, each projected. */
  lemma EmployerListingComplete(s: Store, username: string, k: nat)
    requires TablesValid(s) && GetJobPostingsByEmployer(s, username).Ok?
    requires k in s.postings.rows
    requires s.postings.rows[k].employerId == EmployerOfUser(s, UserByName(s, username).value).value
    ensures var dtos := GetJobPostingsByEmployer(s, username).value;
      exists i :: 0 <= i < |dtos| && dtos[i] == MapToDto(k, s.postings.rows[k])
  {
    var emp := EmployerOfUser(s, UserByName(s, username).value).value;
    var ids := PostingsOf(s, emp);
    var i :| 0 <= i < |ids| && ids[i] == k;
    assert ToDtos(s, ids)[i] == MapToDto(k, s.postings.rows[k]);
  }

  /** `getJobById`. */
  function GetJobById(s: Store, jobId: nat): (r: Result<JobPostingDto>)
    ensures r.Ok? <==> jobId in s.postings.rows
    ensures r.Ok? ==> r.value == MapToDto(jobId, s.postings.rows[jobId])
    ensures r.Err? ==> r.error == Missing("Job posting")
  {
    if jobId in s.postings.rows then Ok(MapToDto(jobId, s.postings.rows[jobId]))
    else Err(Missing("Job posting"))
  }

  /** `searchJobPostings`: the postings `filterJobs` accepts, in key order. */
  function SearchJobPostings(s: Store, keyword: Option<string>, location: Option<string>, experienceLevel: Option<string>)
    : (r: seq<nat>)
    requires TablesValid(s)
    ensures forall i :: 0 <= i < |r| ==>
      r[i] in s.postings.rows && FilterJobs(s.postings.rows[r[i]], keyword, location, experienceLevel)
    ensures forall i :: 0 <= i < |r| ==> s.postings.rows[r[i]].isActive == Some(true)
    ensures forall k ::
      (k in s.postings.rows && FilterJobs(s.postings.rows[k], keyword, location, experienceLevel)) ==> k in r
    ensures IsSubsequence(r, Tables.Keys(s.postings))
  {
    Filter(Tables.Keys(s.postings),
      k => k in s.postings.rows && FilterJobs(s.postings.rows[k], keyword, location, experienceLevel))
  }

  /** Supplying an additional criterion never enlarges the result set. */
  lemma SearchNarrows(s: Store, keyword: Option<string>, location: Option<string>, experienceLevel: Option<string>)
    requires TablesValid(s)
    ensures forall k :: k in SearchJobPostings(s, keyword, location, experienceLevel) ==>
      && k in SearchJobPostings(s, None, location, experienceLevel)
      && k in SearchJobPostings(s, keyword, None, experienceLevel)
      && k in SearchJobPostings(s, keyword, location, None)
  {
    forall k | k in SearchJobPostings(s, keyword, location, experienceLevel)
      ensures k in SearchJobPostings(s, None, location, experienceLevel)
      ensures k in SearchJobPostings(s, keyword, None, experienceLevel)
      ensures k in SearchJobPostings(s, keyword, location, None)
    {
      DroppingCriterionKeeps(s.postings.rows[k], keyword, location, experienceLevel);
    }
  }

  /** The owner check shared by update and delete: the user, their employer profile and the
      posting must exist, and the posting must be that employer's. */
  function OwnedPosting(s: Store, jobId: nat, username: string, refusal: string): (r: Result<nat>)
    requires TablesValid(s)
    ensures UserByName(s, username).None? ==> r == Err(Missing("User"))
    ensures UserByName(s, username).Some? && EmployerOfUser(s, UserByName(s, username).value).None? ==>
      r == Err(Missing("Employer"))
    ensures r.Ok? <==>
      && UserByName(s, username).Some?
      && EmployerOfUser(s, UserByName(s, username).value).Some?
      && jobId in s.postings.rows
      && s.postings.rows[jobId].employerId == EmployerOfUser(s, UserByName(s, username).value).value
    ensures r.Ok? ==> r.value == s.postings.rows[jobId].employerId
    ensures
      && UserByName(s, username).Some?
      && EmployerOfUser(s, UserByName(s, username).value).Some?
      && jobId in s.postings.rows
      && s.postings.rows[jobId].employerId != EmployerOfUser(s, UserByName(s, username).value).value
      ==> r == Err(Failed(refusal))
  {
    match UserByName(s, username)
    case None => Err(Missing("User"))
    case Some(uid) =>
      match EmployerOfUser(s, uid)
      case None => Err(Missing("Employer"))
      case Some(emp) =>
        if jobId !in s.postings.rows then Err(Missing("Job posting"))
        else if s.postings.rows[jobId].employerId != emp then Err(Failed(refusal))
        else Ok(emp)
  }

  /** The ten editable columns of `p`, overwritten from `d` as given, nulls included. */
  function Overwrite(p: JobPosting, d: JobPostingDto): (q: JobPosting)
    ensures SameDescription(q, d) && q.isActive == d.isActive
    ensures q.employerId == p.employerId && q.datePosted == p.datePosted
  {
    p.(jobTitle := d.jobTitle, jobPosition := d.jobPosition, description := d.description,
      requiredSkills := d.requiredSkills, location := d.location, experienceLevel := d.experienceLevel,
      functionalArea := d.functionalArea, industry := d.industry, salaryDetails := d.salaryDetails,
      isActive := d.isActive)
  }

  const UPDATE_REFUSAL: string := "You can only update your own job postings"
  const DELETE_REFUSAL: string := "You can only delete your own job postings"

  /** `updateJobPosting`: the owner overwrites the ten editable columns; nothing else changes. */
  function UpdateJobPosting(s: Store, jobId: nat, username: string, d: JobPostingDto)
    : (r: Result<(Store, JobPostingDto)>)
    requires TablesValid(s) && Admissible(d)
    ensures r.Ok? <==> OwnedPosting(s, jobId, username, UPDATE_REFUSAL).Ok?
    ensures r.Err? ==> r.error == OwnedPosting(s, jobId, username, UPDATE_REFUSAL).error
    ensures r.Ok? ==>
      var (s', dto) := r.value;
      && s' == s.(postings := s'.postings)
      && s'.postings.rows.Keys == s.postings.rows.Keys
      && (forall k :: k in s.postings.rows && k != jobId ==> s'.postings.rows[k] == s.postings.rows[k])
      && SameDescription(s'.postings.rows[jobId], d) && s'.postings.rows[jobId].isActive == d.isActive
      && s'.postings.rows[jobId].employerId == s.postings.rows[jobId].employerId
      && s'.postings.rows[jobId].datePosted == s.postings.rows[jobId].datePosted
      && s'.postings.rows[jobId].jobTitle.Some?
      && dto == MapToDto(jobId, s'.postings.rows[jobId])
  {
    var _ :- OwnedPosting(s, jobId, username, UPDATE_REFUSAL);
    var p := Overwrite(s.postings.rows[jobId], d);
    Ok((s.(postings := Tables.Put(s.postings, jobId, p)), MapToDto(jobId, p)))
  }

  /** The applications that reference posting `jobId`. */
  function ApplicationsOf(s: Store, jobId: nat): set<nat> {
    set a | a in s.applications.rows && s.applications.rows[a].postingId == jobId
  }

  /** `deleteJobPosting`: the owner removes the posting and, by cascade, its applications. */
  function DeleteJobPosting(s: Store, jobId: nat, username: string): (r: Result<Store>)
    requires TablesValid(s)
    ensures r.Ok? <==> OwnedPosting(s, jobId, username, DELETE_REFUSAL).Ok?
    ensures r.Err? ==> r.error == OwnedPosting(s, jobId, username, DELETE_REFUSAL).error
    ensures r.Ok? ==>
      var s' := r.value;
      && s' == s.(postings := s'.postings, applications := s'.applications) && TablesValid(s')
      && s'.postings.rows.Keys == s.postings.rows.Keys - {jobId}
      && (forall k :: k in s'.postings.rows ==> s'.postings.rows[k] == s.postings.rows[k])
      && (forall a :: a in s'.applications.rows <==>
            a in s.applications.rows && s.applications.rows[a].postingId != jobId)
      && (forall a :: a in s'.applications.rows ==> s'.applications.rows[a] == s.applications.rows[a])
  {
    var _ :- OwnedPosting(s, jobId, username, DELETE_REFUSAL);
    Ok(s.(postings := Tables.Remove(s.postings, {jobId}),
          applications := Tables.Remove(s.applications, ApplicationsOf(s, jobId))))
  }

  // ----- The store invariant -----

  /** Replacing the postings table by one that keeps every key and points only at
      existing employers keeps the store valid. */
  lemma PostingsGrowValid(s: Store, t: Tables.Table<JobPosting>)
    requires Valid(s) && Tables.Valid(t)
    requires s.postings.rows.Keys <= t.rows.Keys
    requires forall k :: k in t.rows ==> t.rows[k].employerId in s.employers.rows
    ensures Valid(s.(postings := t))
  {
  }

  /** Creating a posting keeps the store valid. */
  lemma CreateKeepsValid(s: Store, username: string, d: JobPostingDto, today: Date)
    requires Valid(s) && Admissible(d) && CreateJobPosting(s, username, d, today).Ok?
    ensures Valid(CreateJobPosting(s, username, d, today).value.0)
  {
    var uid := UserByName(s, username).value;
    var (s1, employerId) := GetOrCreateEmployerProfile(s, uid).value;
    var (t, id) := Tables.Insert(s1.postings, MapToEntity(d, employerId, today));
    PostingsGrowValid(s1, t);
  }

  /** Updating a posting keeps the store valid. */
  lemma UpdateKeepsValid(s: Store, jobId: nat, username: string, d: JobPostingDto)
    requires Valid(s) && Admissible(d) && UpdateJobPosting(s, jobId, username, d).Ok?
    ensures Valid(UpdateJobPosting(s, jobId, username, d).value.0)
  {
    var t := UpdateJobPosting(s, jobId, username, d).value.0.postings;
    PostingsGrowValid(s, t);
  }

  /** Deleting a posting together with its applications keeps the store valid. */
  lemma DeleteKeepsValid(s: Store, jobId: nat, username: string)
    requires Valid(s) && DeleteJobPosting(s, jobId, username).Ok?
    ensures Valid(DeleteJobPosting(s, jobId, username).value)
  {
    CascadeValid(s, DeleteJobPosting(s, jobId, username).value, jobId);
  }

  /** Removing a posting and every application to it, and nothing else, keeps a valid
      store valid. */
  lemma CascadeValid(s: Store, s': Store, jobId: nat)
    requires Valid(s) && TablesValid(s')
    requires s' == s.(postings := s'.postings, applications := s'.applications)
    requires s'.postings.rows.Keys == s.postings.rows.Keys - {jobId}
    requires forall k :: k in s'.postings.rows ==> s'.postings.rows[k] == s.postings.rows[k]
    requires forall a :: a in s'.applications.rows <==>
      a in s.applications.rows && s.applications.rows[a].postingId != jobId
    requires forall a :: a in s'.applications.rows ==> s'.applications.rows[a] == s.applications.rows[a]
    ensures Valid(s')
  {
    assert PostingsLinked(s') by {
      forall k | k in s'.postings.rows
        ensures s'.postings.rows[k].employerId in s.employers.rows
      {
        assert s'.postings.rows[k] == s.postings.rows[k];
      }
    }
    assert ApplicationsLinked(s') by {
      forall k | k in s'.applications.rows
        ensures s'.applications.rows[k].postingId in s'.postings.rows
          && s'.applications.rows[k].seekerId in s.seekers.rows
      {
        assert s'.applications.rows[k] == s.applications.rows[k];
      }
    }
  }
}
