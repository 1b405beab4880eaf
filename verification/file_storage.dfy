/** The database-backed blob store (`FileStorageServiceImpl`) and the
    path convention `"<subDir>/<id>"` under which callers record a blob.

    `StringUtils.cleanPath` is taken to be the identity; the id generator is
    an oracle argument `freshId` that never repeats a stored id and, like a
    UUID, holds no '/'.
 */
module FileStorage {
  import opened Wrappers
  import opened Text
  import opened Entities

  /** A multipart upload: the client's file name, its content type and bytes. */
  datatype Upload = Upload(originalFilename: Option<string>, contentType: Option<string>, bytes: seq<byte>)

  /** `MultipartFile.isEmpty`. */
  predicate IsEmpty(f: Upload) {
    |f.bytes| == 0
  }

  /** What the id generator promises: an id no blob holds, with no path separator. */
  predicate FreshBlobId(s: Store, id: string) {
    id !in s.blobs && '/' !in id
  }

  /** The blob id a stored path refers to: the text after its last '/', or the whole path. */
  function PathId(path: string): (id: string)
    ensures '/' !in id
    ensures id == AfterLast(path, '/')
  {
    if '/' in path then path[LastIndexOf(path, '/') + 1..] else path
  }

  /** The path a caller records for blob `id` in directory `subDir`. */
  function BlobPath(subDir: string, id: string): string {
    subDir + "/" + id
  }

  /** The id is recovered from the path built for it. */
  lemma PathIdOfBlobPath(subDir: string, id: string)
    requires '/' !in id
    ensures PathId(BlobPath(subDir, id)) == id
  {
    AfterLastOfJoin(subDir, '/', id);
    assert BlobPath(subDir, id) == subDir + ['/'] + id;
  }

  /** The failure of `storeFile` on a null name: `contains` throws a `NullPointerException`,
      whose JVM-generated message is not modelled. */
  const NULL_FILE_NAME: string := "NullPointerException"

  /** `storeFile`: rejects a missing name or one containing "..", else stores under `freshId`. */
  function StoreFile(s: Store, file: Upload, freshId: string): (r: Result<(Store, string)>)
    requires FreshBlobId(s, freshId)
    ensures r.Ok? <==> file.originalFilename.Some? && !Contains(file.originalFilename.value, "..")
    ensures r.Ok? ==> r.value.1 == freshId && r.value.1 !in s.blobs
    ensures r.Ok? ==> r.value.0 == s.(blobs := r.value.0.blobs)
    ensures r.Ok? ==> r.value.0.blobs.Keys == s.blobs.Keys + {r.value.1}
    ensures r.Ok? ==> forall k :: k in s.blobs ==> r.value.0.blobs[k] == s.blobs[k]
  {
    match file.originalFilename
    case None => Err(Failed(NULL_FILE_NAME))
    case Some(fileName) =>
      if Contains(fileName, "..") then
        Err(Failed("Sorry! Filename contains invalid path sequence " + fileName))
      else
        Ok((s.(blobs := s.blobs[freshId := Blob(fileName, file.contentType, file.bytes)]), freshId))
  }

  /** `getFile`: the blob stored under `id`, or a failure. */
  function GetFile(s: Store, id: string): (r: Result<Blob>)
    ensures r.Ok? <==> id in s.blobs
    ensures r.Ok? ==> r.value == s.blobs[id]
  {
    if id in s.blobs then Ok(s.blobs[id]) else Err(Failed("File not found with id " + id))
  }

  /** `deleteFile`: best effort; a null or unknown id changes nothing and never fails. */
  function DeleteFile(s: Store, id: Option<string>): (s': Store)
    ensures s' == s.(blobs := s'.blobs)
    ensures id.None? || id.value !in s.blobs ==> s' == s
    ensures id.Some? ==> s'.blobs.Keys == s.blobs.Keys - {id.value}
    ensures forall k :: k in s'.blobs ==> s'.blobs[k] == s.blobs[k]
  {
    if id.Some? && id.value in s.blobs then s.(blobs := s.blobs - {id.value}) else s
  }

  /** What `storeFile` stored is what `getFile` returns. */
  lemma StoreThenGet(s: Store, file: Upload, freshId: string)
    requires FreshBlobId(s, freshId)
    requires StoreFile(s, file, freshId).Ok?
    ensures var (s', id) := StoreFile(s, file, freshId).value;
      GetFile(s', id) == Ok(Blob(file.originalFilename.value, file.contentType, file.bytes))
  {
  }

  /** After `deleteFile(id)`, `getFile(id)` fails. */
  lemma DeleteThenGet(s: Store, id: string)
    ensures GetFile(DeleteFile(s, Some(id)), id).Err?
  {
  }
}
