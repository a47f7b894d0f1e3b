/**
 * Shared vocabulary of the mirror filesystem: the status codes the Dokan
 * callbacks return, the Win32 flag bits they test, the abstract local disk
 * and the trace of signals emitted towards the sync engine.
 */
module Types {

  /** A bit position of a DWORD. */
  type BitIndex = i: nat | i < 32

  /**
   * A DWORD / ULONG / ACCESS_MASK bit mask, as the set of its set bits:
   * `a | b` is `a + b`, `a & ~b` is `a - b`, and `a & b` is `a * b`.
   */
  type Mask = set<BitIndex>

  // File attribute bits (winnt.h).
  const FILE_ATTRIBUTE_READONLY: Mask := {0}       // 0x0000_0001
  const FILE_ATTRIBUTE_HIDDEN: Mask := {1}         // 0x0000_0002
  const FILE_ATTRIBUTE_SYSTEM: Mask := {2}         // 0x0000_0004
  const FILE_ATTRIBUTE_DIRECTORY: Mask := {4}      // 0x0000_0010
  // File flags carried in the same DWORD as the attributes.
  const FILE_FLAG_BACKUP_SEMANTICS: Mask := {25}   // 0x0200_0000
  const FILE_FLAG_DELETE_ON_CLOSE: Mask := {26}    // 0x0400_0000
  // Access rights.
  const GENERIC_WRITE: Mask := {30}                // 0x4000_0000
  const READ_CONTROL: Mask := {17}                 // 0x0002_0000
  const ACCESS_SYSTEM_SECURITY: Mask := {24}       // 0x0100_0000
  // Share mode.
  const FILE_SHARE_READ: Mask := {0}               // 0x0000_0001
  // Create options (kernel side).
  const FILE_DIRECTORY_FILE: Mask := {0}           // 0x0000_0001
  const FILE_NON_DIRECTORY_FILE: Mask := {6}       // 0x0000_0040
  // Security information bits.
  const SACL_SECURITY_INFORMATION: Mask := {3}     // 0x0000_0008
  const BACKUP_SECURITY_INFORMATION: Mask := {16}  // 0x0001_0000

  // Win32 error codes the callbacks compare against.
  const ERROR_NO_MORE_FILES: nat := 18
  const ERROR_NEGATIVE_SEEK: nat := 131
  const ERROR_ALREADY_EXISTS: nat := 183

  /** `m & flag` is not zero. */
  predicate Has(m: Mask, flag: Mask) {
    m * flag != {}
  }

  /** A mask that includes a non-zero `flag` has it. */
  lemma HasIncluded(m: Mask, flag: Mask)
    requires flag <= m
    ensures flag != {} ==> Has(m, flag)
  {
    if flag != {} {
      var b :| b in flag;
      assert b in m * flag;
    }
  }

  /** `m | bits`, when `add` holds: every bit of `m` is kept. */
  function AddIf(m: Mask, bits: Mask, add: bool): (r: Mask)
    ensures m <= r
    ensures add ==> bits <= r
    ensures add && bits != {} ==> Has(r, bits)
    ensures !add ==> r == m
  {
    if add then HasIncluded(m + bits, bits); m + bits else m
  }

  /** Sequence concatenation is associative. */
  lemma ConcatAssoc<T>(a: seq<T>, b: seq<T>, c: seq<T>)
    ensures a + (b + c) == a + b + c
  {
  }

  datatype Option<T> = None | Some(value: T)

  /** The outcome of a native Win32 call: success, or the GetLastError code. */
  datatype NativeResult = Ok | Failed(error: nat)

  /**
   * The NTSTATUS values the callbacks return. A native failure is reported
   * through DokanNtStatusFromWin32, whose table is not part of this model:
   * it is kept as the Win32 code it came from.
   */
  datatype Status =
    | Success
    | ObjectNameCollision
    | FileIsADirectory
    | NotADirectory
    | AccessDenied
    | CannotDelete
    | DirectoryNotEmpty
    | InvalidHandle
    | BufferOverflow
    | Win32Error(code: nat)

  /** One node of the local mirror directory. */
  datatype Kind = File | Dir
  datatype Entry = Entry(kind: Kind, size: nat)

  /** The local mirror: absolute path to entry. */
  type Disk = map<string, Entry>

  /** The entry type of a remote listing item (ItemTypeFile, ItemTypeDirectory, anything else). */
  datatype ItemType = ItemFile | ItemDirectory | ItemOther

  /** One item of a remote directory listing. */
  datatype RemoteItem = RemoteItem(name: string, itemType: ItemType, size: nat)

  /** A DiscoveryDirectoryResult: a result code and the ordered items. */
  datatype ListingResult = ListingResult(code: int, items: seq<RemoteItem>)

  /** Signals emitted towards the sync engine, in emission order. */
  datatype Event =
    | StartRemoteFileListJob(path: string)
    | AddToFileTree(itemType: ItemType, path: string)
    | SetFileRecord(item: RemoteItem, directory: string)
    | WriteFileSignal(path: string)
    | DeleteItem(path: string)
    | Move(oldPath: string, newPath: string)
}
