/**
 * The deletion callbacks: MirrorDeleteFile (files only, by setting the
 * delete disposition on the open handle), MirrorDeleteDirectory (only an
 * empty directory) and the two-phase start/end toggle that reports a
 * directory deletion to the sync engine.
 */
module Deletion {
  import opened Types
  import opened Paths

  /** What MirrorDeleteFile returns and whether it set the delete disposition (and to what). */
  datatype DeleteFileOutcome = DeleteFileOutcome(status: Status, disposition: Option<bool>)

  /**
   * MirrorDeleteFile. `attributes` is GetFileAttributes of the mirror path
   * (None for INVALID_FILE_ATTRIBUTES), `setInformation` the result of
   * SetFileInformationByHandle(FileDispositionInfo).
   */
  function MirrorDeleteFile(attributes: Option<Mask>, handleValid: bool, deleteOnClose: bool,
                            setInformation: NativeResult): (o: DeleteFileOutcome)
    // a directory is never deleted through DeleteFile, and nothing is touched
    ensures attributes.Some? && Has(attributes.value, FILE_ATTRIBUTE_DIRECTORY) ==>
              o.status == AccessDenied && o.disposition.None?
    ensures o.status == AccessDenied ==> attributes.Some? && Has(attributes.value, FILE_ATTRIBUTE_DIRECTORY)
    // the disposition is set exactly when a non-directory has an open handle, to DeleteOnClose
    ensures o.disposition.Some? <==>
              !(attributes.Some? && Has(attributes.value, FILE_ATTRIBUTE_DIRECTORY)) && handleValid
    ensures o.disposition.Some? ==> o.disposition.value == deleteOnClose
    ensures o.status == Success <==>
              !(attributes.Some? && Has(attributes.value, FILE_ATTRIBUTE_DIRECTORY)) &&
              (!handleValid || setInformation.Ok?)
    ensures o.status != Success && o.status != AccessDenied ==> o.status == Win32Error(setInformation.error)
  {
    if attributes.Some? && Has(attributes.value, FILE_ATTRIBUTE_DIRECTORY) then
      DeleteFileOutcome(AccessDenied, None)
    else if handleValid then
      match setInformation
      case Ok => DeleteFileOutcome(Success, Some(deleteOnClose))
      case Failed(e) => DeleteFileOutcome(Win32Error(e), Some(deleteOnClose))
    else
      DeleteFileOutcome(Success, None)
  }

  /**
   * The directory scan of MirrorDeleteDirectory: FindFirstFile fails, or it
   * yields `first`, FindNextFile yields `rest`, and GetLastError after the
   * last FindNextFile is `endError`.
   */
  datatype FindResult = FindFailed(error: nat) | Found(first: string, rest: seq<string>, endError: nat)

  predicate IsDot(name: string) {
    name == "." || name == ".."
  }

  /** The names the scan visits, in order. */
  function Names(find: FindResult): (r: seq<string>)
    requires find.Found?
    ensures |r| > 0 && r[0] == find.first && r[1..] == find.rest
  {
    [find.first] + find.rest
  }

  /** Every entry of the search is "." or "..". */
  predicate OnlyDots(names: seq<string>) {
    forall i :: 0 <= i < |names| ==> IsDot(names[i])
  }

  /**
   * MirrorDeleteDirectory after the toggle: success without a scan when
   * DeleteOnClose is not set; otherwise any entry besides "." and ".." makes
   * the directory not empty, and a scan that ends with anything but
   * ERROR_NO_MORE_FILES is an error.
   */
  method DeleteDirectoryScan(deleteOnClose: bool, find: FindResult) returns (status: Status)
    ensures !deleteOnClose ==> status == Success
    ensures deleteOnClose && find.FindFailed? ==> status == Win32Error(find.error)
    ensures deleteOnClose && find.Found? ==>
              (status == DirectoryNotEmpty <==> !OnlyDots(Names(find)))
    ensures deleteOnClose && find.Found? && OnlyDots(Names(find)) ==>
              status == (if find.endError == ERROR_NO_MORE_FILES then Success else Win32Error(find.endError))
  {
    if !deleteOnClose {
      return Success;
    }
    match find
    case FindFailed(e) =>
      return Win32Error(e);
    case Found(first, rest, endError) =>
      var names := Names(find);
      var i := 0;
      while i < |names|
        invariant 0 <= i <= |names|
        invariant OnlyDots(names[..i])
      {
        if !IsDot(names[i]) {
          return DirectoryNotEmpty;
        }
        i := i + 1;
      }
      assert names[..i] == names;
      if endError != ERROR_NO_MORE_FILES {
        return Win32Error(endError);
      }
      return Success;
  }

  /**
   * One call of TypeOfOperation_DeleteDirectory on the counter `deleted`:
   * a start call (counter 0) sets it to 1 and emits nothing; an end call
   * resets it to 0 and reports the deletion of the path, with its "\"
   * turned into "/".
   */
  function ToggleStep(deleted: int, fileName: string): (r: (int, Option<Event>))
    ensures r.0 == 0 || r.0 == 1
    ensures r.1.Some? <==> deleted != 0
    ensures r.1.Some? ==> r.1.value == DeleteItem(ToSlash(fileName)) && r.0 == 0
  {
    if deleted == 0 then (1, None) else (0, Some(DeleteItem(ToSlash(fileName))))
  }

  /** A sequence of calls from a given counter: the final counter and the events emitted. */
  function ToggleRun(deleted: int, names: seq<string>): (int, seq<Event>)
    decreases |names|
  {
    if names == [] then (deleted, [])
    else
      var step := ToggleStep(deleted, names[0]);
      var rest := ToggleRun(step.0, names[1..]);
      (rest.0, (if step.1.Some? then [step.1.value] else []) + rest.1)
  }

  /** The deletions reported for the calls 2, 4, 6, ...: the path of each even-numbered call. */
  function EndCalls(names: seq<string>): (r: seq<Event>)
    ensures |r| == |names| / 2
    ensures forall k :: 0 <= k < |r| ==> r[k] == DeleteItem(ToSlash(names[2 * k + 1]))
  {
    if |names| < 2 then [] else [DeleteItem(ToSlash(names[1]))] + EndCalls(names[2..])
  }

  /**
   * From a fresh counter, calls alternate start/end: after n calls the
   * counter is n mod 2, and exactly the second call of each pair is
   * reported, with that call's path; the path of the start call is dropped.
   */
  lemma {:induction false} ToggleAlternates(names: seq<string>)
    ensures ToggleRun(0, names) == (|names| % 2, EndCalls(names))
  {
    if names == [] {
    } else if |names| == 1 {
      assert names[1..] == [];
      assert ToggleRun(0, names).1 == [];
    } else {
      ToggleAlternates(names[2..]);
      var tail := names[1..];
      assert tail[0] == names[1] && tail[1..] == names[2..];
      var second := [DeleteItem(ToSlash(names[1]))];
      assert ToggleRun(1, tail) == (|names[2..]| % 2, second + EndCalls(names[2..]));
      assert ToggleRun(0, names).1 == [] + (second + EndCalls(names[2..]));
      assert EndCalls(names) == second + EndCalls(names[2..]);
      assert |names[2..]| % 2 == |names| % 2;
      assert ToggleRun(0, names).0 == |names| % 2;
      assert ToggleRun(0, names).1 == EndCalls(names);
    }
  }

  /**
   * A counter left at 1 (a start call whose end never came) makes the next
   * call an end call: it reports that call's path, whatever path the
   * start call had.
   */
  lemma {:induction false} ToggleFromPending(names: seq<string>)
    requires |names| > 0
    ensures ToggleRun(1, names) == ((|names| + 1) % 2, [DeleteItem(ToSlash(names[0]))] + EndCalls(names[1..]))
  {
    ToggleAlternates(names[1..]);
  }
}
