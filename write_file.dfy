/**
 * MirrorWriteFile: reopening a cleaned-up handle, the paging-IO clamp to
 * the current file size, the seek, the native write and the "file changed"
 * signal towards the sync engine. The native calls (CreateFile,
 * GetFileSize, SetFilePointerEx, WriteFile, GetLastError) are inputs.
 */
module FileWrite {
  import opened Types
  import opened Paths

  const TWO_32: int := 0x1_0000_0000
  const TWO_64: int := 0x1_0000_0000_0000_0000

  /** DWORD. */
  type U32 = x: int | 0 <= x < 0x1_0000_0000
  /** UINT64. */
  type U64 = x: int | 0 <= x < 0x1_0000_0000_0000_0000
  /** LONGLONG. */
  type I64 = x: int | -0x8000_0000_0000_0000 <= x < 0x8000_0000_0000_0000

  /** GetFileSize's INVALID_FILE_SIZE. */
  const INVALID_FILE_SIZE: U32 := 0xFFFF_FFFF

  /** The C conversion to UINT64: reduction modulo 2^64. */
  function ToU64(x: int): (r: U64)
    ensures 0 <= x < TWO_64 ==> r == x
    ensures -TWO_64 <= x < 0 ==> r == x + TWO_64
  {
    x % TWO_64
  }

  /** The C conversion of a DWORD to int: values from 2^31 on turn negative. */
  function ToI32(n: U32): (r: int)
    ensures -0x8000_0000 <= r < 0x8000_0000
    ensures ToU64(r) % TWO_32 == n
  {
    if n >= 0x8000_0000 then n - TWO_32 else n
  }

  function Min(a: int, b: int): int {
    if a <= b then a else b
  }

  /** QString::contains: `t` occurs somewhere in `s`. */
  predicate Contains(s: string, t: string) {
    t <= s || (|s| > 0 && Contains(s[1..], t))
  }

  /** The request Dokan passes in. */
  datatype Request = Request(
    fileName: string,
    length: U32,             // NumberOfBytesToWrite
    offset: I64,
    handleValid: bool,       // DokanFileInfo->Context holds an open handle
    writeToEndOfFile: bool,
    pagingIo: bool)

  /** What the native calls report, if they are made. */
  datatype Native = Native(
    reopen: NativeResult,     // CreateFile(OPEN_EXISTING) when the handle was cleaned up
    sizeLow: U32,             // GetFileSize
    sizeHigh: U32,            // its high DWORD
    sizeError: nat,           // GetLastError after GetFileSize returned INVALID_FILE_SIZE
    seek: NativeResult,       // SetFilePointerEx (FILE_END or FILE_BEGIN)
    write: NativeResult,      // WriteFile
    writtenCount: U32)        // *NumberOfBytesWritten after a successful WriteFile

  datatype Outcome = Outcome(
    status: Status,
    requested: Option<U32>,   // the length handed to the native WriteFile, if it was called
    written: U32,             // *NumberOfBytesWritten as the caller sees it on success
    reopened: bool,           // a handle was opened for this call
    closed: bool,             // that handle was closed before returning
    signal: Option<Event>)    // writeFileAtPath towards the sync engine

  /** ((UINT64)fileSizeHigh << 32) | fileSizeLow. */
  function FileSize(n: Native): (r: U64)
    ensures r % TWO_32 == n.sizeLow && r / TWO_32 == n.sizeHigh
  {
    n.sizeHigh * TWO_32 + n.sizeLow
  }

  /** The call gets past the reopen and the size query. */
  predicate HasSize(q: Request, n: Native) {
    (q.handleValid || n.reopen.Ok?) && n.sizeLow != INVALID_FILE_SIZE
  }

  /** A paging write that starts at or after the end of the file. */
  predicate PastEnd(q: Request, n: Native) {
    !q.writeToEndOfFile && q.pagingIo && ToU64(q.offset) >= FileSize(n)
  }

  /** The native WriteFile is reached. */
  predicate ReachesWrite(q: Request, n: Native) {
    HasSize(q, n) && !PastEnd(q, n) && n.seek.Ok?
  }

  /**
   * The paging-IO length: when offset plus length (as UINT64) passes the end
   * of the file, only the bytes up to the end are written. Since the offset
   * lies before the end, the remainder always fits a DWORD; the source's
   * branch for a remainder of 2^32 or more is dead (see the method's proof).
   */
  function PagingLength(offset: I64, length: U32, size: U64): (r: U32)
    requires ToU64(offset) < size
    ensures r <= length
    ensures ToU64(offset) + length < TWO_64 ==> r == Min(length, size - ToU64(offset))
  {
    var start := ToU64(offset);
    if (start + length) % TWO_64 > size then
      WrapFreeSum(start, length, size);
      size - start
    else
      length
  }

  /** The clamp's test never wraps past 2^64 when it succeeds. */
  lemma WrapFreeSum(start: U64, length: U32, size: U64)
    requires start < size && (start + length) % TWO_64 > size
    ensures start + length < TWO_64 && size - start < length
  {
  }

  /** The length WriteFile is called with. */
  function WriteLength(q: Request, n: Native): (r: U32)
    requires ReachesWrite(q, n)
  {
    if !q.writeToEndOfFile && q.pagingIo then PagingLength(q.offset, q.length, FileSize(n)) else q.length
  }

  /**
   * The condition of the "file changed" signal: not the root, not an
   * alternate data stream named Zone.Identifier, and (int)length + offset,
   * as UINT64, equal to the file size read BEFORE the write.
   */
  predicate Notifies(fileName: string, length: U32, offset: I64, size: U64) {
    && fileName != "\\"
    && ToU64(ToI32(length) + offset) == size
    && !Contains(fileName, "Zone.Identifier")
  }

  /** MirrorWriteFile, step by step as the callback does it. */
  method MirrorWriteFile(appData: string, q: Request, n: Native) returns (o: Outcome)
    ensures o.reopened <==> !q.handleValid && n.reopen.Ok?
    ensures o.closed == o.reopened
    ensures !q.handleValid && n.reopen.Failed? ==> o.status == Win32Error(n.reopen.error)
    ensures (q.handleValid || n.reopen.Ok?) && n.sizeLow == INVALID_FILE_SIZE ==> o.status == Win32Error(n.sizeError)
    // a paging write at or past the end writes nothing and succeeds
    ensures HasSize(q, n) && PastEnd(q, n) ==> o.status == Success && o.written == 0 && o.signal.None?
    ensures HasSize(q, n) && !PastEnd(q, n) && n.seek.Failed? ==> o.status == Win32Error(n.seek.error)
    ensures o.requested.Some? <==> ReachesWrite(q, n)
    ensures o.requested.Some? ==> o.requested.value == WriteLength(q, n)
    ensures ReachesWrite(q, n) && n.write.Failed? ==> o.status == Win32Error(n.write.error)
    ensures o.status == Success <==> HasSize(q, n) && (PastEnd(q, n) || (n.seek.Ok? && n.write.Ok?))
    ensures o.status == Success && o.requested.Some? ==> o.written == n.writtenCount
    ensures o.signal.Some? <==>
              (ReachesWrite(q, n) && n.write.Ok? && Notifies(q.fileName, WriteLength(q, n), q.offset, FileSize(n)))
    ensures o.signal.Some? ==> o.signal.value == WriteFileSignal(TransformPath(appData, q.fileName))
  {
    var reopened := false;
    if !q.handleValid {
      if n.reopen.Failed? {
        return Outcome(Win32Error(n.reopen.error), None, 0, false, false, None);
      }
      reopened := true;
    }
    if n.sizeLow == INVALID_FILE_SIZE {
      return Outcome(Win32Error(n.sizeError), None, 0, reopened, reopened, None);
    }
    var fileSize := FileSize(n);
    var length := q.length;
    if q.writeToEndOfFile {
      if n.seek.Failed? {
        return Outcome(Win32Error(n.seek.error), None, 0, reopened, reopened, None);
      }
    } else {
      if q.pagingIo {
        var start := ToU64(q.offset);
        if start >= fileSize {
          return Outcome(Success, None, 0, reopened, reopened, None);
        }
        if (start + length) % TWO_64 > fileSize {
          WrapFreeSum(start, length, fileSize);
          var bytes: U64 := fileSize - start;
          if bytes / TWO_32 != 0 {
            // (DWORD)(bytes & 0xFFFFFFFF): never taken, bytes < length here
            assert false;
          } else {
            length := bytes;
          }
        }
        assert length == PagingLength(q.offset, q.length, fileSize);
      }
      if n.seek.Failed? {
        return Outcome(Win32Error(n.seek.error), None, 0, reopened, reopened, None);
      }
    }
    if n.write.Failed? {
      return Outcome(Win32Error(n.write.error), Some(length), 0, reopened, reopened, None);
    }
    var signal := None;
    if q.fileName != "\\" {
      var notw := ToI32(length);
      if ToU64(notw + q.offset) == fileSize && !Contains(q.fileName, "Zone.Identifier") {
        signal := Some(WriteFileSignal(TransformPath(appData, q.fileName)));
      }
    }
    return Outcome(Success, Some(length), n.writtenCount, reopened, reopened, signal);
  }

  /**
   * The paging clamp: a paging write that reaches WriteFile stays inside
   * the file and writes as much of the request as fits, for every file
   * size that leaves room for a DWORD below 2^64.
   */
  lemma PagingWriteWithinFile(q: Request, n: Native)
    requires ReachesWrite(q, n) && !q.writeToEndOfFile && q.pagingIo
    requires FileSize(n) <= TWO_64 - TWO_32
    ensures ToU64(q.offset) + WriteLength(q, n) <= FileSize(n)
    ensures WriteLength(q, n) == Min(q.length, FileSize(n) - ToU64(q.offset))
  {
    assert ToU64(q.offset) + q.length < TWO_64;
  }

  /** A paging write the clamp shortens lands exactly on the end, so it is signalled (for a remainder below 2^31). */
  lemma ClampedWriteNotifies(q: Request, n: Native)
    requires ReachesWrite(q, n) && !q.writeToEndOfFile && q.pagingIo
    requires 0 <= q.offset && q.offset + q.length > FileSize(n)
    requires FileSize(n) - q.offset < 0x8000_0000
    requires q.fileName != "\\" && !Contains(q.fileName, "Zone.Identifier")
    ensures WriteLength(q, n) == FileSize(n) - q.offset
    ensures Notifies(q.fileName, WriteLength(q, n), q.offset, FileSize(n))
  {
    assert ToU64(q.offset) == q.offset;
    assert (q.offset + q.length) % TWO_64 == q.offset + q.length;
  }

  /**
   * The signal compares with the size read before the write: a write that
   * appends at the end of the file (offset == size, a non-empty length
   * below 2^31) is never signalled.
   */
  lemma AppendDoesNotNotify(fileName: string, length: U32, offset: I64, size: U64)
    requires 0 < length < 0x8000_0000 && offset == size
    ensures !Notifies(fileName, length, offset, size)
  {
    assert ToI32(length) + offset < TWO_64;
  }

  /** A write that ends exactly where the file ends (offset + length == size) is signalled. */
  lemma OverwriteToEndNotifies(fileName: string, length: U32, offset: I64, size: U64)
    requires 0 <= offset && length < 0x8000_0000 && offset + length == size
    requires fileName != "\\" && !Contains(fileName, "Zone.Identifier")
    ensures Notifies(fileName, length, offset, size)
  {
  }

  /** Any name mentioning the Zone.Identifier stream is never signalled, whatever the sizes. */
  lemma {:induction false} ZoneIdentifierNeverNotifies(prefix: string, suffix: string, length: U32, offset: I64, size: U64)
    ensures !Notifies(prefix + "Zone.Identifier" + suffix, length, offset, size)
  {
    ContainsInfix(prefix, "Zone.Identifier", suffix);
  }

  lemma {:induction false} ContainsInfix(prefix: string, t: string, suffix: string)
    ensures Contains(prefix + t + suffix, t)
  {
    if prefix == [] {
      assert prefix + t + suffix == t + suffix;
    } else {
      assert (prefix + t + suffix)[1..] == prefix[1..] + t + suffix;
      ContainsInfix(prefix[1..], t, suffix);
    }
  }
}
