# Career portal backend — a Dafny model of its domain core

This project models the domain core of a Spring/JPA career-portal backend. In that system:

- job seekers and employers register and log in with a bearer token;
- employers publish and manage job postings;
- job seekers search postings, keep a profile and apply with an optional resume;
- uploaded files are kept in a database-backed blob store.

The persistence layer becomes an immutable `Store`: one table per entity, each a map from
generated ids to records, plus a map of blobs keyed by string id. Every service operation
is a pure function from a store and its inputs to a `Result` holding the new store and
the operation's output. The store invariant `Entities.Valid` is proved to be kept by every
mutating operation. It says:

- usernames, e-mails, role names and company names are unique;
- each user has exactly one role;
- profiles are linked one-to-one to users;
- postings belong to an existing employer;
- applications reference an existing posting and an existing job-seeker profile.

Modules, in dependency order:

| file | module | models |
|---|---|---|
| wrappers.dfy | `Wrappers` | `Option`, `Result`, and the error kinds the services raise |
| tables.dfy | `Tables` | a repository table: identity-generated ids, `save`, `findBy…` as first match in id order |
| seqs.dfy | `Seqs` | order-preserving stream filters |
| text.dfy | `Text` | `String.trim`, `StringUtils.hasText`, ASCII `toLowerCase`, `contains`, `lastIndexOf` |
| entities.dfy | `Entities` | the entity records, enums, the store and its invariants, repository look-ups |
| file_storage.dfy | `FileStorage` | `FileStorageServiceImpl` |
| file_upload.dfy | `FileUpload` | `FileUploadController` |
| gateway.dfy | `Gateway` | `JwtAuthenticationFilter` and the login endpoint's reply |
| job_search.dfy | `JobSearch` | `JobSpecification.filterJobs` |
| employers.dfy | `Employers` | `EmployerServiceImpl` |
| job_postings.dfy | `JobPostings` | `JobPostingServiceImpl` |
| job_seekers.dfy | `JobSeekers` | `JobSeekerProfileServiceImpl` |
| applications.dfy | `Applications` | `ApplicationServiceImpl` |
| registration.dfy | `Registration` | `AuthController`'s three registration endpoints |

Several inputs are parameters of the model rather than computed inside it:

- the id generator for blobs (`freshId`, required to be unused and free of `/`);
- the clock (`today`, `now`);
- the password encoder (`encode`);
- the token generator and validator, and the token's subject;
- the authentication manager's verdict at login.

Where the code and the design description of the system disagree, the model follows the code:

- A posting update or delete by a non-owner raises a plain runtime failure carrying the
  refusal text (`Failed`), not an access-denied error.
- The three registration endpoints are not atomic. The user (and a new role) is saved
  before the profile, and a failing profile step leaves that user behind without a profile.
- The generic registration endpoint lets the duplicate-company-name failure of the default
  employer profile escape as an exception. It does not answer with a client error.

All source paths below are relative to `src/main/java/com/careerportal/career_portal_backend/`
and are written out in full in the table.

## Model

| member | source | states |
|---|---|---|
| Text.Trim | src/main/java/com/careerportal/career_portal_backend/security/JwtAuthenticationFilter.java:68 | the result has no blank character (code point at most U+0020) at either end, and it is the input with only blank characters removed before and after it |
| Text.TrimOfTrimmed | src/main/java/com/careerportal/career_portal_backend/security/JwtAuthenticationFilter.java:68 | a string with no blank at either end is its own trim |
| Text.TrimIdempotent | src/main/java/com/careerportal/career_portal_backend/security/JwtAuthenticationFilter.java:68 | trimming twice is trimming once |
| Text.HasTextIffTrimNonEmpty | src/main/java/com/careerportal/career_portal_backend/security/JwtAuthenticationFilter.java:37 | `hasText` holds exactly when trimming leaves a non-empty string |
| Text.SurroundedEmpty | src/main/java/com/careerportal/career_portal_backend/service/impl/EmployerServiceImpl.java:97-105 | the trimmed middle of a string is empty exactly when the whole string is blank, which is the "cannot be empty" test |
| Text.Lower | src/main/java/com/careerportal/career_portal_backend/service/impl/EmployerServiceImpl.java:168 | lower-casing keeps the length, maps `A`–`Z` to `a`–`z` and leaves every other character alone |
| Text.Contains | src/main/java/com/careerportal/career_portal_backend/service/impl/EmployerServiceImpl.java:168 | `contains` is true exactly when the needle occurs at some position |
| Text.LastIndexOf | src/main/java/com/careerportal/career_portal_backend/service/impl/ApplicationServiceImpl.java:218 | the result is -1 or an index holding the character, with no occurrence after it |
| Text.AfterLast | src/main/java/com/careerportal/career_portal_backend/service/impl/ApplicationServiceImpl.java:218 | the result is the suffix after the last occurrence of the character, or the whole string when there is none; it never contains the character |
| Text.AfterLastOfJoin | src/main/java/com/careerportal/career_portal_backend/service/impl/ApplicationServiceImpl.java:218 | the text after the last separator of `prefix + c + id` is `id` whenever `id` has no `c` |
| Entities.ParseCompanyType | src/main/java/com/careerportal/career_portal_backend/entity/Employer.java:186-188 | `CompanyType.valueOf` succeeds exactly on the eight constant names, case-sensitively, and returns the constant with that name |
| Entities.ParseExperienceStatus | src/main/java/com/careerportal/career_portal_backend/entity/JobSeekerProfile.java:202-204 | `valueOf` yields FRESHER or EXPERIENCED exactly for those names |
| Entities.ParseGender | src/main/java/com/careerportal/career_portal_backend/entity/JobSeekerProfile.java:206-208 | `valueOf` yields MALE, FEMALE or OTHER exactly for those names |
| Entities.UserByName | src/main/java/com/careerportal/career_portal_backend/repository/UserRepository.java:11 | a found user has that username; nothing is found exactly when no user has it |
| Entities.UserByEmail | src/main/java/com/careerportal/career_portal_backend/repository/UserRepository.java:14 | a found user has that e-mail; nothing is found exactly when no user has it |
| Entities.EmployerOfUser | src/main/java/com/careerportal/career_portal_backend/repository/EmployerRepository.java:11 | a found employer belongs to the user; nothing is found exactly when no employer does |
| Entities.SeekerOfUser | src/main/java/com/careerportal/career_portal_backend/repository/JobSeekerProfileRepository.java:10 | a found profile belongs to the user; nothing is found exactly when no profile does |
| Entities.EmptyStoreValid | src/main/java/com/careerportal/career_portal_backend/entity/Employer.java:24 | the empty store meets every uniqueness and linkage invariant |
| FileStorage.PathId | src/main/java/com/careerportal/career_portal_backend/service/impl/ApplicationServiceImpl.java:218 | the id taken from a path is its last `/` segment and contains no `/` |
| FileStorage.PathIdOfBlobPath | src/main/java/com/careerportal/career_portal_backend/controller/FileUploadController.java:74 | extracting the id from `subDir + "/" + id` gives back `id` for every id without `/` |
| FileStorage.StoreFile | src/main/java/com/careerportal/career_portal_backend/service/impl/FileStorageServiceImpl.java:26-46 | storing succeeds exactly when the name is present and contains no `..`; it adds exactly one blob under the fresh id and changes nothing else |
| FileStorage.GetFile | src/main/java/com/careerportal/career_portal_backend/service/impl/FileStorageServiceImpl.java:49-52 | fetching succeeds exactly when the id is present, and then yields that blob |
| FileStorage.DeleteFile | src/main/java/com/careerportal/career_portal_backend/service/impl/FileStorageServiceImpl.java:55-66 | a null or absent id changes nothing; a present id loses exactly its own entry |
| FileStorage.StoreThenGet | src/main/java/com/careerportal/career_portal_backend/service/impl/FileStorageServiceImpl.java:36-41 | after a successful store, fetching the returned id yields the same name, content type and bytes |
| FileStorage.DeleteThenGet | src/main/java/com/careerportal/career_portal_backend/service/impl/FileStorageServiceImpl.java:57-58 | after a delete, fetching that id fails |
| FileUpload.Extension | src/main/java/com/careerportal/career_portal_backend/controller/FileUploadController.java:55 | the extension holds no `.` and a name without `.` is its own (lower-cased) extension |
| FileUpload.ExtensionOfJoin | src/main/java/com/careerportal/career_portal_backend/controller/FileUploadController.java:55 | the extension of `base + "." + ext` is `ext` lower-cased |
| FileUpload.UploadFile | src/main/java/com/careerportal/career_portal_backend/controller/FileUploadController.java:39-88 | an empty file, then a missing name, are rejected with their messages. Success happens exactly for an allowed extension and a storable name. The returned path is `subDir + "/" + id` and its last segment is the stored id. A rejected upload changes no blob |
| FileUpload.UploadResume | src/main/java/com/careerportal/career_portal_backend/controller/FileUploadController.java:27-31 | a resume upload succeeds exactly when the file is non-empty and named, its extension is pdf, doc or docx, and the name has no `..`; an empty file is refused with its message. The returned path lies under `resumes/`, and fetching its last segment gives back the uploaded name, content type and bytes |
| FileUpload.UploadPhoto | src/main/java/com/careerportal/career_portal_backend/controller/FileUploadController.java:33-37 | a photo upload succeeds exactly when the file is non-empty and named, its extension is jpg, jpeg, png or gif, and the name has no `..`; an empty file is refused with its message. The returned path lies under `photos/`, and fetching its last segment gives back the uploaded name, content type and bytes |
| FileUpload.ResumeExtensionExamples | src/main/java/com/careerportal/career_portal_backend/controller/FileUploadController.java:55-62 | "CV.PDF" and "pdf" pass as resumes; "cv.pdf.exe" and "resume.exe" do not |
| Gateway.TokenFromHeader | src/main/java/com/careerportal/career_portal_backend/security/JwtAuthenticationFilter.java:63-71 | a token is extracted exactly when the header is present and starts with `Bearer ` (case-sensitive); the token is trimmed and is the trimmed middle of the rest of the header |
| Gateway.BearerRoundTrip | src/main/java/com/careerportal/career_portal_backend/security/JwtAuthenticationFilter.java:66-68 | for a token with no surrounding blanks, extracting from `"Bearer " + token` gives the token back |
| Gateway.ExtractedTokenIsTrimmed | src/main/java/com/careerportal/career_portal_backend/security/JwtAuthenticationFilter.java:68 | trimming an extracted token again changes nothing |
| Gateway.NoTokenExamples | src/main/java/com/careerportal/career_portal_backend/security/JwtAuthenticationFilter.java:66-70 | "bearer x", "Bearer" and a missing header yield no token |
| Gateway.DoFilter | src/main/java/com/careerportal/career_portal_backend/security/JwtAuthenticationFilter.java:29-60 | a principal is set exactly when the extracted token has text, the validator accepts it and the user lookup finds its subject, and it is the looked-up user. A failed lookup ends the request unauthenticated without running the chain; in every other case the request continues |
| Gateway.UnauthenticatedPassesOn | src/main/java/com/careerportal/career_portal_backend/security/JwtAuthenticationFilter.java:37-59 | without a token, or with one the validator refuses, the request continues unauthenticated whatever the lookup would say |
| Gateway.Login | src/main/java/com/careerportal/career_portal_backend/controller/AuthController.java:63-86 | status 200 exactly when authentication succeeds, with a `Bearer ` body; every failure gives 401 and the same fixed message |
| Gateway.LoginThenFilter | src/main/java/com/careerportal/career_portal_backend/controller/AuthController.java:81 | the filter extracts from a successful login body exactly the generated token |
| Gateway.LoginAuthenticates | src/main/java/com/careerportal/career_portal_backend/controller/AuthController.java:81 | a successful login body, sent back as the header, authenticates the same principal when the validator accepts the issued token and the lookup finds its subject |
| Gateway.FailedLoginCarriesNoToken | src/main/java/com/careerportal/career_portal_backend/controller/AuthController.java:84 | the failure body yields no token |
| JobSearch.AcceptedIsActive | src/main/java/com/careerportal/career_portal_backend/specifications/JobSpecification.java:45 | every accepted posting is active, whatever the other criteria |
| JobSearch.NoCriteriaKeepsActive | src/main/java/com/careerportal/career_portal_backend/specifications/JobSpecification.java:16-45 | with all criteria null or blank, the filter accepts exactly the active postings |
| JobSearch.KeywordIff | src/main/java/com/careerportal/career_portal_backend/specifications/JobSpecification.java:19-27 | a keyword with text matches exactly when its lower-case form occurs in the lower-cased title, description or required skills; a null column never matches |
| JobSearch.LocationIff | src/main/java/com/careerportal/career_portal_backend/specifications/JobSpecification.java:30-35 | a location with text matches exactly when its lower-case form occurs in the lower-cased location |
| JobSearch.ExperienceIsExact | src/main/java/com/careerportal/career_portal_backend/specifications/JobSpecification.java:38-42 | any stored level other than a criterion with text, however close (a prefix, another case), is rejected; so such a criterion accepts exactly the postings whose level equals it, and a null or blank one accepts every posting |
| JobSearch.ExperienceExamples | src/main/java/com/careerportal/career_portal_backend/specifications/JobSpecification.java:38-42 | for the level "Senior Engineer", neither "Senior" nor "senior engineer" matches, while the level itself does |
| JobSearch.DroppingCriterionKeeps | src/main/java/com/careerportal/career_portal_backend/specifications/JobSpecification.java:16-45 | removing any one criterion never rejects an accepted posting, so adding one never enlarges the result |
| Employers.DefaultEmployer | src/main/java/com/careerportal/career_portal_backend/service/impl/EmployerServiceImpl.java:56-75 | the default profile belongs to the user, has the placeholder company name, type PRIVATE and no founding year, and takes the user's e-mail or "Please Update Email" |
| Employers.InsertEmployer | src/main/java/com/careerportal/career_portal_backend/entity/Employer.java:20-24 | saving a new employer succeeds exactly when neither its company name nor its user is taken; it adds one row and changes nothing else |
| Employers.InsertEmployerKeepsValid | src/main/java/com/careerportal/career_portal_backend/service/impl/EmployerServiceImpl.java:71 | inserting an employer for an existing user keeps the store invariant |
| Employers.GetOrCreateEmployerProfile | src/main/java/com/careerportal/career_portal_backend/service/impl/EmployerServiceImpl.java:81-84 | an existing profile is returned with the store untouched. Otherwise exactly one default profile is added, which fails only on a company-name clash |
| Employers.EmployerOfUserUnique | src/main/java/com/careerportal/career_portal_backend/entity/Employer.java:20 | in a valid store, the look-up by user finds the one profile of that user |
| Employers.GetOrCreateIdempotent | src/main/java/com/careerportal/career_portal_backend/service/impl/EmployerServiceImpl.java:81-84 | calling get-or-create again returns the same profile and the same store |
| Employers.CompanyTypeAfter | src/main/java/com/careerportal/career_portal_backend/service/impl/EmployerServiceImpl.java:123-135 | null keeps the type; a blank value clears it; a known name (after trimming) sets that constant; an unknown name keeps the old value without error |
| Employers.MergeEmployer | src/main/java/com/careerportal/career_portal_backend/service/impl/EmployerServiceImpl.java:108-147 | every null field keeps the stored value; every given text field is stored trimmed; `founded` is stored as given; the owner never changes |
| Employers.MergeNoChanges | src/main/java/com/careerportal/career_portal_backend/service/impl/EmployerServiceImpl.java:108-147 | a request with every field null leaves the profile as it was |
| Employers.MergeIdempotent | src/main/java/com/careerportal/career_portal_backend/service/impl/EmployerServiceImpl.java:108-147 | applying the same request twice gives the same profile as applying it once |
| Employers.SaveEmployer | src/main/java/com/careerportal/career_portal_backend/service/impl/EmployerServiceImpl.java:149 | saving the updated row succeeds exactly when no other employer has its company name |
| Employers.UpdateEmployerProfile | src/main/java/com/careerportal/career_portal_backend/service/impl/EmployerServiceImpl.java:90-153 | a missing profile, then a blank company name, e-mail or industry, fail in that order with their messages. Success replaces only the caller's row by the merge, and it happens exactly when those checks pass and the new company name is free |
| Employers.SaveKeepsValid | src/main/java/com/careerportal/career_portal_backend/service/impl/EmployerServiceImpl.java:149 | rewriting an employer row for the same user with a free company name keeps the store invariant |
| Employers.GetAllEmployers | src/main/java/com/careerportal/career_portal_backend/service/impl/EmployerServiceImpl.java:159-187 | the result is an order-preserving subsequence of all employers, holding exactly those that pass the given filters. A blank filter imposes nothing. A given one excludes rows whose field is null |
| Employers.NoFiltersListsAll | src/main/java/com/careerportal/career_portal_backend/service/impl/EmployerServiceImpl.java:165-183 | with no filter given, every employer is listed in id order |
| JobPostings.MapToEntity | src/main/java/com/careerportal/career_portal_backend/service/impl/JobPostingServiceImpl.java:45-60 | the nine descriptive fields are copied; the posting belongs to the given employer, is dated today and is active |
| JobPostings.MapToDto | src/main/java/com/careerportal/career_portal_backend/service/impl/JobPostingServiceImpl.java:62-78 | the DTO copies id, description, date and active flag, and always reports an application count of 0 |
| JobPostings.DtoRoundTrip | src/main/java/com/careerportal/career_portal_backend/service/impl/JobPostingServiceImpl.java:45-78 | mapping a DTO to a posting and back returns the DTO with only id, date, active flag and count replaced |
| JobPostings.CreateJobPosting | src/main/java/com/careerportal/career_portal_backend/service/impl/JobPostingServiceImpl.java:85-122 | for a request that passes validation, a missing user fails. Otherwise creation succeeds even without an employer profile (one is created), unless the default profile's name clashes. The employer table is the caller's existing one unchanged, or that table plus the new default profile. It adds one fresh active posting dated today, with a title, owned by the caller's existing or new employer profile |
| JobPostings.GetJobPostingsByEmployer | src/main/java/com/careerportal/career_portal_backend/service/impl/JobPostingServiceImpl.java:155-184 | it fails on a missing user or employer profile; otherwise every returned DTO is a posting of the caller's employer |
| JobPostings.EmployerListingComplete | src/main/java/com/careerportal/career_portal_backend/service/impl/JobPostingServiceImpl.java:169-179 | every posting of the caller's employer appears in the listing |
| JobPostings.GetJobById | src/main/java/com/careerportal/career_portal_backend/service/impl/JobPostingServiceImpl.java:188-202 | found exactly when the id exists, and then its DTO |
| JobPostings.SearchJobPostings | src/main/java/com/careerportal/career_portal_backend/service/impl/JobPostingServiceImpl.java:142-151 | the result is an order-preserving subsequence of all postings, holding exactly those the filter accepts, all of them active |
| JobPostings.SearchNarrows | src/main/java/com/careerportal/career_portal_backend/specifications/JobSpecification.java:16-45 | every search result is still found when any one criterion is dropped |
| JobPostings.OwnedPosting | src/main/java/com/careerportal/career_portal_backend/service/impl/JobPostingServiceImpl.java:211-227 | the ownership gate: missing user, then missing employer profile, then missing posting fail; a posting of another employer is refused with the given message |
| JobPostings.Overwrite | src/main/java/com/careerportal/career_portal_backend/service/impl/JobPostingServiceImpl.java:230-239 | the ten editable fields take the DTO's values, null included; employer and date are kept |
| JobPostings.UpdateJobPosting | src/main/java/com/careerportal/career_portal_backend/service/impl/JobPostingServiceImpl.java:207-251 | for a request that passes validation, it succeeds exactly for the owner and fails with the gate's error otherwise. On success only that posting changes, by the overwrite, and it keeps a title |
| JobPostings.DeleteJobPosting | src/main/java/com/careerportal/career_portal_backend/service/impl/JobPostingServiceImpl.java:256-286 | it succeeds exactly for the owner. It removes the posting and exactly the applications for it, and changes nothing else |
| JobPostings.CreateKeepsValid | src/main/java/com/careerportal/career_portal_backend/service/impl/JobPostingServiceImpl.java:96-103 | creating a posting keeps the store invariant |
| JobPostings.UpdateKeepsValid | src/main/java/com/careerportal/career_portal_backend/service/impl/JobPostingServiceImpl.java:242 | updating a posting keeps the store invariant |
| JobPostings.DeleteKeepsValid | src/main/java/com/careerportal/career_portal_backend/entity/JobPosting.java:37 | deleting a posting with its applications (the cascade) leaves no dangling application and keeps the invariant |
| JobPostings.CascadeValid | src/main/java/com/careerportal/career_portal_backend/entity/JobPosting.java:37 | removing one posting together with all of its applications keeps the store invariant |
| JobSeekers.DefaultJobSeekerProfile | src/main/java/com/careerportal/career_portal_backend/service/impl/JobSeekerProfileServiceImpl.java:82-98 | the default profile is FRESHER, OTHER, born 1990-01-01, with no files and no education details, and takes the user's e-mail or the placeholder |
| JobSeekers.GetOrCreateJobSeekerProfile | src/main/java/com/careerportal/career_portal_backend/service/impl/JobSeekerProfileServiceImpl.java:74-77 | an existing profile is returned with the store untouched; otherwise exactly one default profile is added |
| JobSeekers.GetOrCreateSeekerIdempotent | src/main/java/com/careerportal/career_portal_backend/service/impl/JobSeekerProfileServiceImpl.java:74-77 | get-or-create keeps the store valid, and a second call returns the same profile and store |
| JobSeekers.SeekerOfUserUnique | src/main/java/com/careerportal/career_portal_backend/service/impl/JobSeekerProfileServiceImpl.java:75 | in a valid store, the look-up by user finds that user's one profile |
| JobSeekers.StatusAfter | src/main/java/com/careerportal/career_portal_backend/service/impl/JobSeekerProfileServiceImpl.java:169-171 | a null status keeps the current one; a constant name sets it; any other value fails |
| JobSeekers.GenderAfter | src/main/java/com/careerportal/career_portal_backend/service/impl/JobSeekerProfileServiceImpl.java:172-174 | a null gender keeps the current one; a constant name sets it; any other value fails |
| JobSeekers.Discarded | src/main/java/com/careerportal/career_portal_backend/service/impl/JobSeekerProfileServiceImpl.java:181-187 | at most one blob is discarded, and one is exactly when the path is replaced and the old path is non-null and non-empty |
| JobSeekers.ReplacePath | src/main/java/com/careerportal/career_portal_backend/service/impl/JobSeekerProfileServiceImpl.java:181-189 | a new, different path replaces the old one and deletes the old blob; otherwise path and store stay as they were |
| JobSeekers.UpdateProfileInPlace | src/main/java/com/careerportal/career_portal_backend/service/impl/JobSeekerProfileServiceImpl.java:153-224 | the update as evidently intended, with a stored history refilled in place. It fails on a missing user, a bad enum name, or a merged profile that leaves a NOT NULL column (name, e-mail, mobile, status, gender, birth date, education, skills) null; a null name is reported as such. Otherwise it upserts the caller's profile, which then fills every NOT NULL column. Seven fields are overwritten unconditionally and status/gender change only when given. Resume and photo follow the replace-and-delete rule independently. Education details become the given list, or empty. Only the discarded blobs disappear |
| JobSeekers.UpdateProfile | src/main/java/com/careerportal/career_portal_backend/service/impl/JobSeekerProfileServiceImpl.java:203-217 | the code as written: for a caller with a stored profile, a non-null education list (with valid enum names) fails with the orphan-collection refusal and writes nothing. It succeeds exactly where the in-place update succeeds without such a swap; a stored profile then ends with an empty history, a new one with the given list or empty |
| JobSeekers.UpdateProfileAgrees | src/main/java/com/careerportal/career_portal_backend/service/impl/JobSeekerProfileServiceImpl.java:153-224 | without the list swap, the code as written and the in-place update give the same result |
| JobSeekers.SwappedHistoryFails | src/main/java/com/careerportal/career_portal_backend/service/impl/JobSeekerProfileServiceImpl.java:203-217 | for a stored profile and any non-null list, the code as written fails where the in-place update stores exactly that list |
| JobSeekers.UpdateSetsSuppliedEnums | src/main/java/com/careerportal/career_portal_backend/service/impl/JobSeekerProfileServiceImpl.java:169-174 | a supplied status or gender is stored as the constant of that name |
| JobSeekers.ResubmitDeletesNothing | src/main/java/com/careerportal/career_portal_backend/service/impl/JobSeekerProfileServiceImpl.java:181 | resubmitting the current paths, or null, deletes no blob |
| JobSeekers.InPlaceKeepsValid | src/main/java/com/careerportal/career_portal_backend/service/impl/JobSeekerProfileServiceImpl.java:158-163 | the in-place upsert keeps the one-profile-per-user invariant |
| JobSeekers.UpdateProfileKeepsValid | src/main/java/com/careerportal/career_portal_backend/service/impl/JobSeekerProfileServiceImpl.java:158-163 | a successful update as written keeps the store invariant |
| Applications.MapToDto | src/main/java/com/careerportal/career_portal_backend/service/impl/ApplicationServiceImpl.java:45-67 | `hasResume` holds exactly when a non-empty resume file name is stored |
| Applications.ApplyForJob | src/main/java/com/careerportal/career_portal_backend/service/impl/ApplicationServiceImpl.java:73-121 | a missing user or profile fails, as does a missing posting or an unstorable resume. Success adds exactly one PENDING application by the caller's profile for the posting. Without a resume, the four resume fields are null and no blob is stored. With one, the path is `resumes/` plus the new blob id |
| Applications.ApplyTwiceGivesTwo | src/main/java/com/careerportal/career_portal_backend/service/impl/ApplicationServiceImpl.java:85-119 | applying twice to the same job creates two distinct applications |
| Applications.EmptyNameResumeUnreported | src/main/java/com/careerportal/career_portal_backend/service/impl/ApplicationServiceImpl.java:64 | a resume with an empty file name is stored, yet the DTO reports no resume |
| Applications.ApplyKeepsValid | src/main/java/com/careerportal/career_portal_backend/service/impl/ApplicationServiceImpl.java:119 | applying keeps the store invariant |
| Applications.RelinkKeepsValid | src/main/java/com/careerportal/career_portal_backend/service/impl/ApplicationServiceImpl.java:182 | rewriting an application that keeps its posting and profile keeps the invariant |
| Applications.GetMyApplications | src/main/java/com/careerportal/career_portal_backend/service/impl/ApplicationServiceImpl.java:131-141 | it fails on a missing user or profile; otherwise it returns exactly the caller's applications |
| Applications.GetApplicationsForJob | src/main/java/com/careerportal/career_portal_backend/service/impl/ApplicationServiceImpl.java:144-165 | a non-owner is denied; the owner gets exactly the applications for that posting |
| Applications.Authorized | src/main/java/com/careerportal/career_portal_backend/service/impl/ApplicationServiceImpl.java:170-176 | a missing application fails with not-found. Anyone but the posting's employer user is denied. The owner gets the row |
| Applications.UpdateApplicationStatus | src/main/java/com/careerportal/career_portal_backend/service/impl/ApplicationServiceImpl.java:169-184 | it succeeds exactly for the owner. It then sets status and notes to the given values (any string) and changes nothing else |
| Applications.UpdateStatusKeepsValid | src/main/java/com/careerportal/career_portal_backend/service/impl/ApplicationServiceImpl.java:179-182 | a status update keeps the store invariant |
| Applications.GetApplicationResume | src/main/java/com/careerportal/career_portal_backend/service/impl/ApplicationServiceImpl.java:203-222 | a non-owner is denied; a null resume path fails. Otherwise it yields the bytes of the blob named by the path's last segment |
| Applications.GetApplicationResumeFileName | src/main/java/com/careerportal/career_portal_backend/service/impl/ApplicationServiceImpl.java:226-236 | the owner gets the stored file name, or "resume.pdf" when none is stored |
| Applications.ApplyThenDownload | src/main/java/com/careerportal/career_portal_backend/service/impl/ApplicationServiceImpl.java:96-97 | after applying with a resume, the posting's owner downloads exactly the uploaded bytes |
| Applications.ApplyThenFileName | src/main/java/com/careerportal/career_portal_backend/service/impl/ApplicationServiceImpl.java:226-236 | after applying, the posting's owner gets the name the resume was uploaded under, or "resume.pdf" when no resume came with the application |
| Registration.RoleByName | src/main/java/com/careerportal/career_portal_backend/controller/AuthController.java:106 | a found role has that name; nothing is found exactly when no role does |
| Registration.GetOrCreateRole | src/main/java/com/careerportal/career_portal_backend/controller/AuthController.java:106-119 | an existing role is reused with the store unchanged; otherwise exactly one role row with that name is added |
| Registration.GetOrCreateRoleIdempotent | src/main/java/com/careerportal/career_portal_backend/controller/AuthController.java:116-119 | a second get-or-create returns the same role and store, so at most one row per name exists |
| Registration.RoleFor | src/main/java/com/careerportal/career_portal_backend/controller/AuthController.java:104-114 | the job-seeker role is chosen exactly for "jobseeker" in any case and the employer role exactly for "employer" in any case; nothing else is accepted |
| Registration.JobSeekerRoleIgnoresCase | src/main/java/com/careerportal/career_portal_backend/controller/AuthController.java:104 | "JobSeeker" maps to the job-seeker role |
| Registration.EmployerRoleIgnoresCase | src/main/java/com/careerportal/career_portal_backend/controller/AuthController.java:108 | "EMPLOYER" maps to the employer role |
| Registration.RoleForRejects | src/main/java/com/careerportal/career_portal_backend/controller/AuthController.java:112-113 | "job seeker" and "admin" are rejected |
| Registration.SaveUser | src/main/java/com/careerportal/career_portal_backend/controller/AuthController.java:97-124 | one new user is added, holding the encoder's output as password and exactly one role with the requested name |
| Registration.SaveUserKeepsValid | src/main/java/com/careerportal/career_portal_backend/controller/AuthController.java:121-124 | saving a user with a free username and e-mail keeps the invariant, including one role per user |
| Registration.NewUserHasNoProfile | src/main/java/com/careerportal/career_portal_backend/controller/AuthController.java:124 | a freshly saved user has neither an employer nor a job-seeker profile |
| Registration.RegisterUser | src/main/java/com/careerportal/career_portal_backend/controller/AuthController.java:90-135 | a taken username, then an unknown role, are rejected with the store unchanged. Otherwise the user is saved; a job seeker is answered at once |
| Registration.RegisterUserEmployerProfile | src/main/java/com/careerportal/career_portal_backend/controller/AuthController.java:128-131 | generic "employer" registration also creates the default employer profile, and fails (keeping the user) exactly when the placeholder company name is taken |
| Registration.JobSeekerRegistrationStore | src/main/java/com/careerportal/career_portal_backend/controller/AuthController.java:93-134 | generic "jobseeker" registration saves only the user and creates no profile |
| Registration.RegisterUserKeepsValid | src/main/java/com/careerportal/career_portal_backend/controller/AuthController.java:90-135 | generic registration keeps the store invariant |
| Registration.SecondRegistrationReusesRole | src/main/java/com/careerportal/career_portal_backend/controller/AuthController.java:106-107 | a later job-seeker registration reuses the role row the first one created |
| Registration.RequiredStatus | src/main/java/com/careerportal/career_portal_backend/service/impl/JobSeekerProfileServiceImpl.java:55 | `valueOf` on the registration status succeeds exactly on a constant name; a null name fails |
| Registration.RequiredGender | src/main/java/com/careerportal/career_portal_backend/service/impl/JobSeekerProfileServiceImpl.java:56 | `valueOf` on the registration gender succeeds exactly on a constant name; a null name fails |
| Registration.SeekerProfileOf | src/main/java/com/careerportal/career_portal_backend/service/impl/JobSeekerProfileServiceImpl.java:47-68 | the profile copies the registration's fields. It succeeds exactly when status and gender name constants and name, mobile, birth date, education and skills are given; a null name is reported as the NOT NULL refusal |
| Registration.RegisterJobSeeker | src/main/java/com/careerportal/career_portal_backend/controller/AuthController.java:139-178 | a taken username, then a taken e-mail, answer 400 with the store unchanged. Otherwise the user is saved. A bad status or gender, or a null NOT NULL column, answers 500 with "Registration failed: " and the message, keeping the user. Success answers 200 |
| Registration.RegisterJobSeekerProfile | src/main/java/com/careerportal/career_portal_backend/controller/AuthController.java:166-173 | when the checks pass, the reply is 200 exactly when the profile was created, and the new user then has that profile |
| Registration.NullNameKeepsUser | src/main/java/com/careerportal/career_portal_backend/controller/AuthController.java:165-176 | a registration without a name, with valid status and gender, answers 500 with the NOT NULL refusal, and the saved user stays behind without a profile |
| Registration.RegisterJobSeekerKeepsValid | src/main/java/com/careerportal/career_portal_backend/controller/AuthController.java:139-178 | job-seeker registration keeps the store invariant |
| Registration.EmployerOf | src/main/java/com/careerportal/career_portal_backend/service/impl/EmployerServiceImpl.java:26-50 | the profile copies the registration's fields untrimmed; a given company type is the constant of that name |
| Registration.RegisterEmployer | src/main/java/com/careerportal/career_portal_backend/controller/AuthController.java:182-226 | username, then e-mail, then company name are checked; the first clash decides the message and nothing is written. Otherwise the user is saved before the profile |
| Registration.RegisterEmployerProfile | src/main/java/com/careerportal/career_portal_backend/controller/AuthController.java:214-221 | when all three checks pass, the reply is 200 and the new user has exactly the requested profile |
| Registration.RegisterEmployerKeepsValid | src/main/java/com/careerportal/career_portal_backend/controller/AuthController.java:182-226 | employer registration keeps the store invariant |

## Left out

- Token signing, parsing and expiry, password hashing and the authentication manager are library cryptography. They are parameters of the model: a validator, a subject function, an encoder, a token generator and the manager's verdict.
- `StringUtils.cleanPath` is taken as the identity before the `..` check.
- The store has no transactions or rollback. A failing operation returns no new store, which is what the rollback of the transactional profile update gives. Writes the source makes before a later failure (the registration endpoints) are kept, as the source keeps them.
- Ids come from each table's counter. Blob ids, the clock and the current date are parameters.
- Repositories without a defined order (`findAll`, `findBy…` lists) are read in ascending id order.
- Case-insensitive comparison lower-cases ASCII letters only. `trim` and `hasText` treat every character up to U+0020 as blank.
- SQL `LIKE` is plain substring matching. A `%` or `_` inside a keyword is not a wildcard in the model.
- HTTP status codes for exceptions, response bodies other than the registration and login replies, and the JSON shape of upload replies are not modelled. Service failures are `Result` errors.
- The one-argument `ResourceNotFoundException` constructor formats its message with missing arguments and throws a formatting exception instead. The model reports every such look-up failure as the same `Missing` error as the three-argument form.
- The login endpoint's look-up by username or e-mail happens inside the authentication manager and is not modelled.
- Generic registration with a null role, which throws a null-pointer exception in the source, is not modelled: the role is a string.
- Bean Validation on the registration requests is assumed as the precondition `Registration.Admissible`: required fields have text, the company type is a constant name, and the founding year is in range. The e-mail and phone patterns are not checked. JobSeekerRegisterDto is not part of this model, so job-seeker registration assumes nothing beyond the field types.
- Bean Validation on the job-posting request body is assumed as the precondition `JobPostings.Admissible` of create and update: title, description and location have text, as the DTO's `@NotBlank` fields under `@Valid` demand.
- The application-count injection in the posting controller, `getApplicationCountForJob` and `getApplicationCountsForJobs` are not modelled. The DTO's count is always 0, as the service sets it.
- `getAllJobPostings` and `getProfileByUsername` are read-only passthroughs and are not modelled.
- Blob writes and row writes are sequential in the model, so the orphaned-blob cases of a crash between them do not arise.
- Concurrency (last writer wins) and logging are not modelled.
- Employers.InsertEmployer: only the unique company name and the one-profile-per-user constraints of the employer table are enforced. The other NOT NULL column constraints are not, so a null placeholder cannot fail a save.
- Applications.UpdateApplicationStatus: the NOT NULL constraint on status is not enforced, because the status is a string in the model.
- Gateway.DoFilter: reading the subject of an accepted token is assumed not to throw; only the user lookup may fail.
- JobSeekers.UpdateProfileInPlace: the refusal of a null NOT NULL column carries the persistence provider's not-null message with the column's name; the provider's exact wording depends on its configuration.
- JobSeekers.UpdateProfile: the orphan-collection refusal is reported with the persistence provider's message, and it is taken to come before a NOT NULL refusal of the same call; which of the two the provider raises first depends on its configuration.
- Registration.SeekerProfileOf: the same not-null message stands for the provider's refusal to save the profile.
- Registration.RegisterUser: the user saved by the generic endpoint has no e-mail, as in the source, so its e-mail uniqueness is never at stake.

## Findings

| source | as written | input that shows it | evidently intended | confidence | as-written member | corrected member |
|---|---|---|---|---|---|---|
| src/main/java/com/careerportal/career_portal_backend/service/impl/JobSeekerProfileServiceImpl.java:203-217 | the loaded profile's managed education list, mapped with `cascade = ALL, orphanRemoval = true` (entity/JobSeekerProfile.java:59-60), is cleared and then replaced by a new list object; the flush refuses the swap and the transaction rolls back | a caller who already has a profile sends an otherwise valid update whose `educationDetails` is `[]` or any other non-null list | the cleared managed list is refilled in place (`clear()` then `addAll`), so the history becomes the given list | not executed; medium: the refusal comes from the persistence provider, not from this code | JobSeekers.UpdateProfile, JobSeekers.SwappedHistoryFails | JobSeekers.UpdateProfileInPlace, JobSeekers.InPlaceKeepsValid |
