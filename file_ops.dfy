/**
 * The smaller callbacks with a rule of their own: the directory listing
 * handed back to Dokan (MirrorFindFiles), MirrorSetAllocationSize,
 * MirrorSetFileAttributes, the request adjustment of MirrorGetFileSecurity
 * and the console control handler.
 */
module FileOps {
  import opened Types
  import opened Deletion

  /** The listed names a directory listing passes to FillFindData: the root hides "." and "..". */
  function Visible(root: bool, names: seq<string>): (r: seq<string>)
    ensures |r| <= |names|
    ensures !root ==> r == names
    ensures root ==> forall i :: 0 <= i < |r| ==> !IsDot(r[i])
    ensures forall i :: 0 <= i < |r| ==> r[i] in names
  {
    if names == [] then []
    else
      var rest := Visible(root, names[1..]);
      if root && IsDot(names[0]) then rest else [names[0]] + rest
  }

  /** Nothing but "." and ".." is ever hidden, even from the root listing. */
  lemma {:induction false} VisibleKeepsOthers(root: bool, names: seq<string>, name: string)
    requires name in names && !IsDot(name)
    ensures name in Visible(root, names)
  {
    if names[0] != name {
      VisibleKeepsOthers(root, names[1..], name);
    }
  }

  datatype FindFilesOutcome = FindFilesOutcome(status: Status, filled: seq<string>, count: nat)

  /**
   * The do-while of MirrorFindFiles over FindFirstFile/FindNextFile: every
   * entry is counted, every entry but "." and ".." of the root (a Dokan
   * file name of "\") is passed to FillFindData, and the scan must end with
   * ERROR_NO_MORE_FILES.
   */
  method MirrorFindFiles(fileName: string, find: FindResult) returns (o: FindFilesOutcome)
    ensures find.FindFailed? ==> o == FindFilesOutcome(Win32Error(find.error), [], 0)
    ensures find.Found? ==> o.filled == Visible(fileName == "\\", Names(find)) && o.count == |Names(find)|
    ensures find.Found? ==>
              o.status == (if find.endError == ERROR_NO_MORE_FILES then Success else Win32Error(find.endError))
  {
    if find.FindFailed? {
      return FindFilesOutcome(Win32Error(find.error), [], 0);
    }
    var names := Names(find);
    var rootFolder := fileName == "\\";
    var filled: seq<string> := [];
    var count := 0;
    var i := |names|;
    // the callback's do-while visits the entries front to back; this loop
    // visits them back to front, so that each step extends a suffix of the
    // listing (the filled sequence and the count are the same either way)
    while i > 0
      invariant 0 <= i <= |names|
      invariant filled == Visible(rootFolder, names[i..])
      invariant count == |names| - i
    {
      i := i - 1;
      assert names[i..][1..] == names[i + 1..];
      if !rootFolder || !IsDot(names[i]) {
        filled := [names[i]] + filled;
      }
      count := count + 1;
    }
    assert names[0..] == names;
    var status := if find.endError == ERROR_NO_MORE_FILES then Success else Win32Error(find.endError);
    return FindFilesOutcome(status, filled, count);
  }

  /** What MirrorSetAllocationSize returns and the file size it leaves. */
  datatype AllocationOutcome = AllocationOutcome(status: Status, size: nat)

  /**
   * MirrorSetAllocationSize on a file of `size` bytes: an allocation below
   * the size truncates the file there (SetFilePointerEx, then SetEndOfFile);
   * an allocation at or above it changes nothing. SetFilePointerEx refuses a
   * negative position with ERROR_NEGATIVE_SEEK; otherwise `seek` is its
   * native result.
   */
  function MirrorSetAllocationSize(handleValid: bool, allocSize: int, size: nat,
                                   query: NativeResult, seek: NativeResult, setEnd: NativeResult): (o: AllocationOutcome)
    // the file never grows
    ensures o.size <= size
    ensures o.size != size ==> o.status == Success && o.size == allocSize
    ensures !handleValid ==> o == AllocationOutcome(InvalidHandle, size)
    ensures handleValid && query.Failed? ==> o == AllocationOutcome(Win32Error(query.error), size)
    ensures handleValid && query.Ok? && allocSize >= size ==> o == AllocationOutcome(Success, size)
    ensures handleValid && query.Ok? && allocSize < 0 ==> o == AllocationOutcome(Win32Error(ERROR_NEGATIVE_SEEK), size)
    ensures handleValid && query.Ok? && 0 <= allocSize < size ==>
              (o.size == allocSize <==> seek.Ok? && setEnd.Ok?) &&
              (o.status == Success <==> seek.Ok? && setEnd.Ok?)
  {
    if !handleValid then AllocationOutcome(InvalidHandle, size)
    else if query.Failed? then AllocationOutcome(Win32Error(query.error), size)
    else if allocSize < size then
      var seekResult := if allocSize < 0 then Failed(ERROR_NEGATIVE_SEEK) else seek;
      if seekResult.Failed? then AllocationOutcome(Win32Error(seekResult.error), size)
      else if setEnd.Failed? then AllocationOutcome(Win32Error(setEnd.error), size)
      else AllocationOutcome(Success, allocSize)
    else
      AllocationOutcome(Success, size)
  }

  /** Repeating a successful allocation request changes nothing more. */
  lemma AllocationIdempotent(allocSize: int, size: nat)
    ensures var once := MirrorSetAllocationSize(true, allocSize, size, Ok, Ok, Ok);
            MirrorSetAllocationSize(true, allocSize, once.size, Ok, Ok, Ok) == once
  {
  }

  /** What MirrorSetFileAttributes returns and the attributes it leaves. */
  datatype AttributesOutcome = AttributesOutcome(status: Status, attributes: Mask, called: bool)

  /**
   * MirrorSetFileAttributes: a value of 0 means "do not change" (section 2.6
   * of MS-FSCC), so SetFileAttributes is not called; otherwise the new value
   * replaces the old one if SetFileAttributes succeeds.
   */
  function MirrorSetFileAttributes(current: Mask, requested: Mask, native: NativeResult): (o: AttributesOutcome)
    ensures requested == {} ==> o == AttributesOutcome(Success, current, false)
    ensures requested != {} ==> o.called
    ensures o.status == Success <==> requested == {} || native.Ok?
    ensures o.attributes == (if requested != {} && native.Ok? then requested else current)
    ensures o.status != Success ==> o.status == Win32Error(native.error)
  {
    if requested == {} then AttributesOutcome(Success, current, false)
    else match native
      case Ok => AttributesOutcome(Success, requested, true)
      case Failed(e) => AttributesOutcome(Win32Error(e), current, true)
  }

  /** Setting the same attributes twice leaves what setting them once leaves. */
  lemma AttributesIdempotent(current: Mask, requested: Mask)
    ensures var once := MirrorSetFileAttributes(current, requested, Ok);
            MirrorSetFileAttributes(once.attributes, requested, Ok).attributes == once.attributes
  {
  }

  /** The SECURITY_INFORMATION request asks for the SACL, directly or through BACKUP_SECURITY_INFORMATION. */
  predicate RequestsSacl(info: Mask) {
    Has(info, SACL_SECURITY_INFORMATION) || Has(info, BACKUP_SECURITY_INFORMATION)
  }

  /**
   * The SECURITY_INFORMATION MirrorGetFileSecurity passes on: without
   * SeSecurityPrivilege the SACL and BACKUP bits are cleared, every other
   * bit is kept.
   */
  function SecurityInformation(info: Mask, privilege: bool): (r: Mask)
    ensures privilege ==> r == info
    ensures !privilege ==> !Has(r, SACL_SECURITY_INFORMATION) && !Has(r, BACKUP_SECURITY_INFORMATION)
    ensures !privilege ==> !RequestsSacl(r)
    ensures r + (SACL_SECURITY_INFORMATION + BACKUP_SECURITY_INFORMATION) == info + (SACL_SECURITY_INFORMATION + BACKUP_SECURITY_INFORMATION)
  {
    if privilege then info else info - SACL_SECURITY_INFORMATION - BACKUP_SECURITY_INFORMATION
  }

  /** The access of the handle MirrorGetFileSecurity opens: READ_CONTROL, and ACCESS_SYSTEM_SECURITY only for a SACL request with the privilege. */
  function SecurityAccess(info: Mask, privilege: bool): (r: Mask)
    ensures Has(r, READ_CONTROL)
    ensures Has(r, ACCESS_SYSTEM_SECURITY) <==> privilege && RequestsSacl(info)
    ensures r <= READ_CONTROL + ACCESS_SYSTEM_SECURITY
  {
    READ_CONTROL + (if RequestsSacl(info) && privilege then ACCESS_SYSTEM_SECURITY else {})
  }

  const ERROR_INSUFFICIENT_BUFFER: nat := 122

  datatype SecurityOutcome = SecurityOutcome(status: Status, request: Mask, access: Mask)

  /**
   * MirrorGetFileSecurity: the adjusted request, a CreateFile with the
   * computed access, then GetUserObjectSecurity; a too small buffer is
   * reported as STATUS_BUFFER_OVERFLOW.
   */
  function MirrorGetFileSecurity(info: Mask, privilege: bool, open: NativeResult, query: NativeResult): (o: SecurityOutcome)
    ensures o.request == SecurityInformation(info, privilege) && o.access == SecurityAccess(info, privilege)
    ensures open.Failed? ==> o.status == Win32Error(open.error)
    ensures open.Ok? && query.Failed? ==>
              o.status == (if query.error == ERROR_INSUFFICIENT_BUFFER then BufferOverflow else Win32Error(query.error))
    ensures o.status == Success <==> open.Ok? && query.Ok?
  {
    var status :=
      if open.Failed? then Win32Error(open.error)
      else if query.Failed? then (if query.error == ERROR_INSUFFICIENT_BUFFER then BufferOverflow else Win32Error(query.error))
      else Success;
    SecurityOutcome(status, SecurityInformation(info, privilege), SecurityAccess(info, privilege))
  }

  /** What CtrlHandler does with a console control event. */
  datatype CtrlOutcome = CtrlOutcome(handled: bool, removedMountPoint: Option<string>)

  const CTRL_C_EVENT: nat := 0
  const CTRL_BREAK_EVENT: nat := 1
  const CTRL_CLOSE_EVENT: nat := 2
  const CTRL_LOGOFF_EVENT: nat := 5
  const CTRL_SHUTDOWN_EVENT: nat := 6

  /** CTRL_C, CTRL_BREAK, CTRL_CLOSE, CTRL_LOGOFF and CTRL_SHUTDOWN unmount; any other event is passed on. */
  function CtrlHandler(ctrlType: nat, mountPoint: string): (o: CtrlOutcome)
    ensures o.handled <==> ctrlType in {CTRL_C_EVENT, CTRL_BREAK_EVENT, CTRL_CLOSE_EVENT, CTRL_LOGOFF_EVENT, CTRL_SHUTDOWN_EVENT}
    ensures o.handled ==> o.removedMountPoint == Some(mountPoint)
    ensures !o.handled ==> o.removedMountPoint.None?
    ensures ctrlType == 3 || ctrlType == 4 || ctrlType > 6 ==> !o.handled
  {
    match ctrlType
    case 0 | 1 | 2 | 5 | 6 => CtrlOutcome(true, Some(mountPoint))
    case _ => CtrlOutcome(false, None)
  }
}
