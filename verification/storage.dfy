/** The upload file-name rules (storage.py `_safe_filename` and its caller
    `upload_patient_document`): every character outside [A-Za-z0-9._-] becomes
    an underscore, and a missing or empty name is replaced by "upload" first. */
module Storage {
  import opened Base

  const Placeholder: string := "upload"
  const Replacement: char := '_'
  const Container: string := "patient-docs"

  /** The characters a stored file name may keep. */
  predicate Allowed(c: char) {
    ('A' <= c <= 'Z') || ('a' <= c <= 'z') || ('0' <= c <= '9') || c == '.' || c == '_' || c == '-'
  }

  /** The character-by-character replacement of `re.sub`. */
  function SafeFilename(name: string): (r: string)
    ensures |r| == |name|
    ensures forall i :: 0 <= i < |r| ==> Allowed(r[i])
    ensures forall i :: 0 <= i < |name| ==> (Allowed(name[i]) ==> r[i] == name[i])
    ensures forall i :: 0 <= i < |name| ==> (!Allowed(name[i]) ==> r[i] == Replacement)
  {
    if name == [] then []
    else [if Allowed(name[0]) then name[0] else Replacement] + SafeFilename(name[1..])
  }

  /** A name made only of allowed characters is left as it is. */
  lemma SafeFilenameKeepsSafeNames(name: string)
    requires forall i :: 0 <= i < |name| ==> Allowed(name[i])
    ensures SafeFilename(name) == name
  {
    assert forall i :: 0 <= i < |name| ==> SafeFilename(name)[i] == name[i];
  }

  /** Sanitising twice is sanitising once. */
  lemma SafeFilenameIdempotent(name: string)
    ensures SafeFilename(SafeFilename(name)) == SafeFilename(name)
  {
    SafeFilenameKeepsSafeNames(SafeFilename(name));
  }

  /** The name the document is stored under: `_safe_filename(filename or "upload")`. */
  function StoredFilename(filename: Option<string>): (r: string)
    ensures filename.None? || filename.value == [] ==> r == Placeholder
    ensures filename.Some? && filename.value != [] ==> |r| == |filename.value|
    ensures filename.Some? && filename.value != [] ==>
      forall i :: 0 <= i < |r| ==> (r[i] == filename.value[i] <==> Allowed(filename.value[i]))
    ensures r != [] && forall i :: 0 <= i < |r| ==> Allowed(r[i])
  {
    var name := if filename.Some? && filename.value != [] then filename.value else Placeholder;
    SafeFilenameKeepsSafeNames(Placeholder);
    SafeFilename(name)
  }

  /** A path of three parts starts with the first and ends with the last. */
  lemma PathParts(folder: string, middle: string, leaf: string)
    ensures folder <= folder + middle + leaf
    ensures |leaf| <= |folder + middle + leaf|
    ensures (folder + middle + leaf)[|folder + middle + leaf| - |leaf|..] == leaf
  {
    assert (folder + middle + leaf)[..|folder|] == folder;
  }

  /** An allowed name holds no path separator. */
  lemma AllowedHasNoSlash(f: string)
    requires forall i :: 0 <= i < |f| ==> Allowed(f[i])
    ensures '/' !in f
  {
  }

  /** The folder of a patient's documents. */
  function Folder(patientId: string): string {
    Container + "/" + patientId + "/"
  }

  /** The blob path of an upload for `patientId`; `token` stands for the fresh uuid. */
  function BlobName(patientId: string, token: string, filename: Option<string>): (b: string)
    ensures Folder(patientId) <= b
    ensures var f := StoredFilename(filename); |f| <= |b| && b[|b| - |f|..] == f && '/' !in f
  {
    var f := StoredFilename(filename);
    AllowedHasNoSlash(f);
    PathParts(Folder(patientId), token + "_", f);
    Folder(patientId) + (token + "_") + f
  }
}
