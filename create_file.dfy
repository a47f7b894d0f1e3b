/**
 * MirrorCreateFile: the decision the mirror takes on a create/open request,
 * given the attributes the target already has on disk, the requested flags,
 * the creation disposition and the create options. The native calls it makes
 * on the way (CreateDirectory, CreateFile, GetLastError) are inputs.
 */
module CreateFile {
  import opened Types

  /** The user-mode creation disposition DokanMapKernelToUserCreateFileFlags yields. */
  datatype Disposition = CreateNew | CreateAlways | OpenExisting | OpenAlways | TruncateExisting | Unknown

  /** The request, after DokanMapKernelToUserCreateFileFlags. */
  datatype Request = Request(
    existing: Option<Mask>,  // GetFileAttributes of the mirror path; None is INVALID_FILE_ATTRIBUTES
    isDirectory: bool,       // DokanFileInfo->IsDirectory on entry
    createOptions: Mask,
    shareAccess: Mask,
    desiredAccess: Mask,     // genericDesiredAccess
    flags: Mask,             // fileAttributesAndFlags
    disposition: Disposition)

  /** What the native calls report, if they are made. */
  datatype Native = Native(
    createDirectory: NativeResult,  // CreateDirectory(filePath)
    createFile: NativeResult,       // CreateFile: Ok is a valid handle
    lastError: nat)                 // GetLastError right after a successful CreateFile

  /** The arguments of the native CreateFile call. */
  datatype OpenCall = OpenCall(access: Mask, share: Mask, disposition: Disposition, flags: Mask)

  datatype Outcome = Outcome(
    status: Status,
    isDirectory: bool,                // DokanFileInfo->IsDirectory on return
    shareAccess: Mask,                // ShareAccess after the directory adjustment
    madeDirectory: bool,              // CreateDirectory was called
    openCall: Option<OpenCall>,         // the native CreateFile call, if any
    handleSaved: bool,                // a valid handle was stored in DokanFileInfo->Context
    restoredAttributes: Option<Mask>) // SetFileAttributes after TRUNCATE_EXISTING

  predicate ExistsAsDirectory(r: Request) {
    r.existing.Some? && Has(r.existing.value, FILE_ATTRIBUTE_DIRECTORY)
  }

  predicate ExistsAsFile(r: Request) {
    r.existing.Some? && !Has(r.existing.value, FILE_ATTRIBUTE_DIRECTORY)
  }

  /** An existing directory opened with FILE_NON_DIRECTORY_FILE. */
  predicate OpensDirectoryAsFile(r: Request) {
    ExistsAsDirectory(r) && Has(r.createOptions, FILE_NON_DIRECTORY_FILE)
  }

  /** The request is handled as a directory request. */
  predicate DirectoryRequest(r: Request) {
    !OpensDirectoryAsFile(r) && (r.isDirectory || ExistsAsDirectory(r))
  }

  /** The request is handled as a file request. */
  predicate FileRequest(r: Request) {
    !OpensDirectoryAsFile(r) && !DirectoryRequest(r)
  }

  /** Overwriting an existing hidden (system) file without FILE_ATTRIBUTE_HIDDEN (SYSTEM) in the request. */
  predicate OverwritesProtected(r: Request) {
    && r.existing.Some?
    && ((!Has(r.flags, FILE_ATTRIBUTE_HIDDEN) && Has(r.existing.value, FILE_ATTRIBUTE_HIDDEN))
        || (!Has(r.flags, FILE_ATTRIBUTE_SYSTEM) && Has(r.existing.value, FILE_ATTRIBUTE_SYSTEM)))
    && (r.disposition == TruncateExisting || r.disposition == CreateAlways)
  }

  /** A read-only target, existing or requested, together with FILE_FLAG_DELETE_ON_CLOSE. */
  predicate DeletesReadOnly(r: Request) {
    && ((r.existing.Some? && Has(r.existing.value, FILE_ATTRIBUTE_READONLY)) || Has(r.flags, FILE_ATTRIBUTE_READONLY))
    && Has(r.flags, FILE_FLAG_DELETE_ON_CLOSE)
  }

  /** CreateDirectory is attempted for CREATE_NEW and OPEN_ALWAYS directory requests. */
  predicate MakesDirectory(r: Request) {
    r.disposition == CreateNew || r.disposition == OpenAlways
  }

  /** The CreateDirectory failure counts: any failure for CREATE_NEW, all but ERROR_ALREADY_EXISTS for OPEN_ALWAYS. */
  predicate MakeDirectoryFails(r: Request, n: Native) {
    MakesDirectory(r) && n.createDirectory.Failed? &&
    (n.createDirectory.error != ERROR_ALREADY_EXISTS || r.disposition == CreateNew)
  }

  /** SHARE_READ is added for a directory that exists (FindFirstFile needs it). */
  function ShareFor(r: Request): (m: Mask)
    ensures r.shareAccess <= m
    ensures ExistsAsDirectory(r) ==> Has(m, FILE_SHARE_READ)
    ensures !ExistsAsDirectory(r) ==> m == r.shareAccess
  {
    AddIf(r.shareAccess, FILE_SHARE_READ, ExistsAsDirectory(r))
  }

  /** The directory branch (source lines 498-593). */
  function OpenDirectory(r: Request, n: Native): (o: Outcome)
    requires DirectoryRequest(r)
    ensures o.isDirectory && o.shareAccess == ShareFor(r)
    ensures o.status == NotADirectory <==>
              !MakeDirectoryFails(r, n) && ExistsAsFile(r) && Has(r.createOptions, FILE_DIRECTORY_FILE)
    ensures o.openCall.Some? ==>
              o.openCall.value.disposition == OpenExisting && Has(o.openCall.value.flags, FILE_FLAG_BACKUP_SEMANTICS)
    ensures o.handleSaved <==> o.openCall.Some? && n.createFile.Ok?
    // native failures are passed through
    ensures MakeDirectoryFails(r, n) ==> o.status == Win32Error(n.createDirectory.error) && o.openCall.None?
    ensures o.openCall.Some? && n.createFile.Failed? ==> o.status == Win32Error(n.createFile.error)
    ensures o.restoredAttributes.None?
  {
    var share := ShareFor(r);
    var base := Outcome(Success, true, share, MakesDirectory(r), None, false, None);
    if MakeDirectoryFails(r, n) then
      base.(status := Win32Error(n.createDirectory.error))
    else if ExistsAsFile(r) && Has(r.createOptions, FILE_DIRECTORY_FILE) then
      base.(status := NotADirectory)
    else
      var flags := AddIf(r.flags, FILE_FLAG_BACKUP_SEMANTICS, true);
      var call := OpenCall(r.desiredAccess, share, OpenExisting, flags);
      match n.createFile
      case Failed(e) => base.(status := Win32Error(e), openCall := Some(call))
      case Ok =>
        var st := if r.disposition == OpenAlways && r.existing.Some? then ObjectNameCollision else Success;
        base.(status := st, openCall := Some(call), handleSaved := true)
  }

  /** The file branch (source lines 594-713). */
  function OpenFile(r: Request, n: Native): (o: Outcome)
    requires FileRequest(r)
    ensures !o.isDirectory && !o.madeDirectory && o.shareAccess == r.shareAccess
    ensures o.status == AccessDenied <==> OverwritesProtected(r)
    ensures o.status == CannotDelete <==> !OverwritesProtected(r) && DeletesReadOnly(r)
    ensures o.openCall.None? <==> OverwritesProtected(r) || DeletesReadOnly(r)
    ensures o.openCall.Some? ==>
              && o.openCall.value.disposition == r.disposition
              && o.openCall.value.flags == r.flags
              && r.desiredAccess <= o.openCall.value.access
              && (r.disposition == TruncateExisting ==> Has(o.openCall.value.access, GENERIC_WRITE))
              && (r.disposition != TruncateExisting ==> o.openCall.value.access == r.desiredAccess)
    ensures o.handleSaved <==> o.openCall.Some? && n.createFile.Ok?
    ensures o.openCall.Some? && n.createFile.Failed? ==> o.status == Win32Error(n.createFile.error)
    // overwriting an existing file keeps its previous attributes alongside the requested ones
    ensures o.restoredAttributes.Some? <==> o.handleSaved && r.existing.Some? && r.disposition == TruncateExisting
    ensures o.restoredAttributes.Some? ==>
              r.existing.value <= o.restoredAttributes.value && r.flags <= o.restoredAttributes.value &&
              o.restoredAttributes.value <= r.existing.value + r.flags
  {
    var base := Outcome(Success, false, r.shareAccess, false, None, false, None);
    if OverwritesProtected(r) then
      base.(status := AccessDenied)
    else if DeletesReadOnly(r) then
      base.(status := CannotDelete)
    else
      var access := AddIf(r.desiredAccess, GENERIC_WRITE, r.disposition == TruncateExisting);
      var call := OpenCall(access, r.shareAccess, r.disposition, r.flags);
      match n.createFile
      case Failed(e) => base.(status := Win32Error(e), openCall := Some(call))
      case Ok =>
        var restored := if r.existing.Some? && r.disposition == TruncateExisting
                        then Some(r.flags + r.existing.value) else None;
        var st := if (r.disposition == OpenAlways || r.disposition == CreateAlways) && n.lastError == ERROR_ALREADY_EXISTS
                  then ObjectNameCollision else Success;
        base.(status := st, openCall := Some(call), handleSaved := true, restoredAttributes := restored)
  }

  /**
   * MirrorCreateFile: the status returned to Dokan and the native calls made.
   * An existing directory opened as a non-directory is refused before
   * anything else; otherwise the request goes the directory or the file way.
   */
  function MirrorCreateFile(r: Request, n: Native): (o: Outcome)
    ensures o.status == FileIsADirectory <==> OpensDirectoryAsFile(r)
    ensures OpensDirectoryAsFile(r) ==> o.openCall.None? && !o.madeDirectory && o.isDirectory == r.isDirectory
    ensures ExistsAsDirectory(r) && !OpensDirectoryAsFile(r) ==> o.isDirectory && Has(o.shareAccess, FILE_SHARE_READ)
    ensures r.shareAccess <= o.shareAccess
    // hidden/system overwrite and read-only delete-on-close denials
    ensures FileRequest(r) ==> (o.status == AccessDenied <==> OverwritesProtected(r))
    ensures FileRequest(r) ==> (o.status == CannotDelete <==> !OverwritesProtected(r) && DeletesReadOnly(r))
    ensures o.status == AccessDenied || o.status == CannotDelete ==> o.openCall.None?
    // TRUNCATE_EXISTING always opens with GENERIC_WRITE
    ensures FileRequest(r) && r.disposition == TruncateExisting && o.openCall.Some? ==> Has(o.openCall.value.access, GENERIC_WRITE)
    // directory versus file conflicts
    ensures o.status == NotADirectory <==>
              DirectoryRequest(r) && !MakeDirectoryFails(r, n) && ExistsAsFile(r) && Has(r.createOptions, FILE_DIRECTORY_FILE)
    ensures (DirectoryRequest(r) && ExistsAsDirectory(r) && r.disposition == OpenAlways &&
             !MakeDirectoryFails(r, n) && n.createFile.Ok?) ==> o.status == ObjectNameCollision
    // name collision on files: the open succeeded on an existing file
    ensures FileRequest(r) ==>
              (o.status == ObjectNameCollision <==>
                 o.handleSaved && (r.disposition == OpenAlways || r.disposition == CreateAlways) &&
                 n.lastError == ERROR_ALREADY_EXISTS)
    // success means a handle was stored
    ensures o.status == Success || o.status == ObjectNameCollision ==> o.handleSaved
    // native failures are passed through
    ensures DirectoryRequest(r) && MakeDirectoryFails(r, n) ==>
              o.status == Win32Error(n.createDirectory.error) && o.openCall.None?
    ensures o.openCall.Some? && n.createFile.Failed? ==> o.status == Win32Error(n.createFile.error) && !o.handleSaved
    // TRUNCATE_EXISTING of an existing file restores its previous attributes merged with the requested ones
    ensures o.restoredAttributes.Some? <==>
              FileRequest(r) && o.handleSaved && r.existing.Some? && r.disposition == TruncateExisting
    ensures o.restoredAttributes.Some? ==>
              r.existing.value <= o.restoredAttributes.value && r.flags <= o.restoredAttributes.value &&
              o.restoredAttributes.value <= r.existing.value + r.flags
  {
    if OpensDirectoryAsFile(r) then
      Outcome(FileIsADirectory, r.isDirectory, r.shareAccess, false, None, false, None)
    else if DirectoryRequest(r) then
      OpenDirectory(r, n)
    else
      OpenFile(r, n)
  }
}
