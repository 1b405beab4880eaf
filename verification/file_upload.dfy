/** The upload endpoints of `FileUploadController`: extension check, then
    storage, then the `"<subDir>/<id>"` path handed back to the client.
 */
module FileUpload {
  import opened Wrappers
  import opened Text
  import opened Entities
  import opened FileStorage

  const RESUME_EXTENSIONS: seq<string> := ["pdf", "doc", "docx"]
  const PHOTO_EXTENSIONS: seq<string> := ["jpg", "jpeg", "png", "gif"]

  /** The body of a successful upload response. */
  datatype UploadResponse = UploadResponse(filePath: string, originalName: string, message: string)

  /** The lower-cased text after the last '.', or the whole lower-cased name. */
  function Extension(name: string): (e: string)
    ensures |e| <= |name| && '.' !in e
    ensures '.' !in name ==> e == Lower(name)
  {
    var after := AfterLast(name, '.');
    assert forall i :: 0 <= i < |after| ==> after[i] != '.' && LowerChar(after[i]) != '.';
    Lower(after)
  }

  /** A name ending in ".ext" has extension `ext`, lower-cased, whatever comes before. */
  lemma ExtensionOfJoin(base: string, ext: string)
    requires '.' !in ext
    ensures Extension(base + "." + ext) == Lower(ext)
  {
    AfterLastOfJoin(base, '.', ext);
    assert base + "." + ext == base + ['.'] + ext;
  }

  /** `uploadFile`: every rejection leaves the store as it was. */
  function UploadFile(s: Store, file: Upload, subDir: string, allowed: seq<string>, freshId: string)
    : (r: Result<(Store, UploadResponse)>)
    requires FreshBlobId(s, freshId)
    ensures IsEmpty(file) ==> r == Err(Failed("Please select a file to upload"))
    ensures !IsEmpty(file) && file.originalFilename.None? ==> r == Err(Failed("Invalid file name"))
    ensures r.Ok? <==>
      && !IsEmpty(file)
      && file.originalFilename.Some?
      && Extension(file.originalFilename.value) in allowed
      && !Contains(file.originalFilename.value, "..")
    ensures r.Ok? ==> r.value.0 == StoreFile(s, file, freshId).value.0
    ensures r.Ok? ==> r.value.1.filePath == BlobPath(subDir, freshId)
    ensures r.Ok? ==> PathId(r.value.1.filePath) == freshId
    ensures r.Ok? ==> r.value.1.originalName == file.originalFilename.value
  {
    if IsEmpty(file) then Err(Failed("Please select a file to upload"))
    else if file.originalFilename.None? then Err(Failed("Invalid file name"))
    else
      var name := file.originalFilename.value;
      if Extension(name) !in allowed then
        Err(Failed("Invalid file type. Allowed types: " + JoinWith(allowed, ", ")))
      else
        match StoreFile(s, file, freshId)
        case Err(e) => Err(Failed("Failed to upload file: " + e.Message()))
        case Ok((s', id)) =>
          PathIdOfBlobPath(subDir, id);
          Ok((s', UploadResponse(BlobPath(subDir, id), name, "File uploaded successfully")))
  }

  /** `uploadResume`: pdf, doc and docx into "resumes". */
  function UploadResume(s: Store, file: Upload, freshId: string): (r: Result<(Store, UploadResponse)>)
    requires FreshBlobId(s, freshId)
    ensures IsEmpty(file) ==> r == Err(Failed("Please select a file to upload"))
    ensures r.Ok? <==>
      && !IsEmpty(file)
      && file.originalFilename.Some?
      && Extension(file.originalFilename.value) in {"pdf", "doc", "docx"}
      && !Contains(file.originalFilename.value, "..")
    ensures r.Ok? ==> StartsWith(r.value.1.filePath, "resumes/")
    ensures r.Ok? ==>
      GetFile(r.value.0, PathId(r.value.1.filePath)) == Ok(Blob(file.originalFilename.value, file.contentType, file.bytes))
  {
    var r := UploadFile(s, file, "resumes", RESUME_EXTENSIONS, freshId);
    assert r.Ok? ==> r.value.1.filePath[..8] == "resumes/";
    r
  }

  /** `uploadPhoto`: jpg, jpeg, png and gif into "photos". */
  function UploadPhoto(s: Store, file: Upload, freshId: string): (r: Result<(Store, UploadResponse)>)
    requires FreshBlobId(s, freshId)
    ensures IsEmpty(file) ==> r == Err(Failed("Please select a file to upload"))
    ensures r.Ok? <==>
      && !IsEmpty(file)
      && file.originalFilename.Some?
      && Extension(file.originalFilename.value) in {"jpg", "jpeg", "png", "gif"}
      && !Contains(file.originalFilename.value, "..")
    ensures r.Ok? ==> StartsWith(r.value.1.filePath, "photos/")
    ensures r.Ok? ==>
      GetFile(r.value.0, PathId(r.value.1.filePath)) == Ok(Blob(file.originalFilename.value, file.contentType, file.bytes))
  {
    var r := UploadFile(s, file, "photos", PHOTO_EXTENSIONS, freshId);
    assert r.Ok? ==> r.value.1.filePath[..7] == "photos/";
    r
  }

  /** Case is ignored, a bare extension passes, and only the last suffix counts. */
  lemma ResumeExtensionExamples()
    ensures Extension("CV.PDF") in RESUME_EXTENSIONS
    ensures Extension("pdf") in RESUME_EXTENSIONS
    ensures Extension("cv.pdf.exe") !in RESUME_EXTENSIONS
    ensures Extension("resume.exe") !in RESUME_EXTENSIONS
  {
    ExtensionOfJoin("CV", "PDF");
    assert "CV.PDF" == "CV" + "." + "PDF";
    assert Lower("PDF") == "pdf";
    ExtensionOfJoin("cv.pdf", "exe");
    assert "cv.pdf.exe" == "cv.pdf" + "." + "exe";
    ExtensionOfJoin("resume", "exe");
    assert "resume.exe" == "resume" + "." + "exe";
  }
}
