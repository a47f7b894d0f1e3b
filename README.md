# Mirror filesystem of the virtual drive, in Dafny

This project models the user-mode mirror filesystem in
`src/gui/vfs_windows.cpp`. The mirror makes a remote account appear as a
local Windows drive. Dokan calls it for every file operation. Each callback
maps the Dokan file name to a path under the mirror root, performs the
operation on that local copy, and tells the sync engine what happened
through Qt signals.

The model keeps the decision logic of those callbacks and the state they
share:

- **Path translation** (module `Paths`):
  - `GetFilePath`, over the `RootDirectory` and `UNCName` buffers.
  - `transformPath`, which builds the cache path handed to the sync engine.
  - The `completePath` of a listed item.
  - The `"\"` to `"/"` replacement.
- **Admission rules of `MirrorCreateFile`** (module `CreateFile`):
  - directory versus file conflicts;
  - denial of hidden and system overwrites;
  - read-only files with delete-on-close;
  - `TRUNCATE_EXISTING` forcing `GENERIC_WRITE`;
  - name-collision reporting.
- **`MirrorWriteFile`** (module `FileWrite`): the reopen, the size query, the
  paging-IO clamp with its UINT64 arithmetic, the seek, the write, and the
  "file changed" signal.
- **Deletion** (module `Deletion`):
  - `MirrorDeleteFile`;
  - the emptiness scan of `MirrorDeleteDirectory`;
  - the start/end toggle `i_deleted` of `TypeOfOperation_DeleteDirectory`.
- **Smaller callbacks** (module `FileOps`):
  - the listing handed back by `MirrorFindFiles`, where the root hides "." and "..";
  - `MirrorSetAllocationSize`;
  - `MirrorSetFileAttributes`;
  - the request adjustment of `MirrorGetFileSecurity`;
  - `CtrlHandler`.
- **Placeholder materialisation of `contentsOfDirectoryAtPath`** (module
  `Listing`). This is a specification on values plus its properties. It
  includes the ignore-list entry `MirrorMoveFile` records.
- **The `VfsWindows` singleton** (module `Vfs`). This class holds:
  - the mount root;
  - the file-static buffers;
  - `ignoredList` and `_fileListMap`;
  - the local mirror tree;
  - the delete toggle;
  - the trace of emitted signals.

  The callbacks that change this state are methods that update it in place.
  Their loops are proved against the `Listing` specification.

Native Win32 results are inputs of each callback: `CreateFile`,
`GetFileSize`, `SetFilePointerEx`, `WriteFile`, `FindFirstFile`/`FindNextFile`,
`SetFileInformationByHandle` and `GetUserObjectSecurity`. A failure carries
its `GetLastError` code. `DokanNtStatusFromWin32` is kept as
`Win32Error(code)`.

Bit masks (attributes, flags, access rights, share modes, create options,
security information) are modelled as the set of their set bits. `a | b`
becomes `a + b`, `a & ~b` becomes `a - b`, and "the bit is set" becomes a
non-empty intersection. Each Win32 constant is its bit, with its hex value
next to it.

Behaviours of the code that the model keeps, though they may surprise:
- The write signal compares `(int)NumberOfBytesToWrite + Offset` with the
  file size read *before* the write, not with the size after it. So a
  write that appends is never signalled (`FileWrite.AppendDoesNotNotify`).
- `contentsOfDirectoryAtPath` returns null on success and on failure. The
  model keeps only its effects.
- The delete toggle is one global counter, not one per path. An end call
  reports its own path, whatever path the start call had
  (`Deletion.ToggleFromPending`).
- A listing item whose path was blanked by the ignore list still emits
  `addToFileTree` and `setFileRecord` (with the empty path), because
  `QFileInfo("").exists()` is false.
- A file whose size has `0xFFFFFFFF` as its low DWORD is reported as a
  `GetFileSize` failure, as the code does.

## Model

| member | source | states |
|---|---|---|
| Paths.MirrorPath | src/gui/vfs_windows.cpp:129-142 | the root is a prefix of the result. Without a matching UNC prefix, the rest is the file name. With one, the rest is the name after the prefix, or nothing when that remainder starts with "." |
| Paths.GetFilePath | src/gui/vfs_windows.cpp:129-142 | the path is produced exactly when it fits MAX_PATH with its terminator, and it then starts with the root |
| Paths.MirrorPathInjective | src/gui/vfs_windows.cpp:139-141 | without a UNC name, distinct file names give distinct mirror paths |
| Paths.UncDotNamesCollapse | src/gui/vfs_windows.cpp:132-137 | every name of the form UNC + "." + tail maps to the bare root |
| Paths.TransformPath | src/gui/vfs_windows.cpp:91-94 | the result is the cache prefix followed by the path without its first character. An empty path gives just the prefix |
| Paths.TransformPathInjective | src/gui/vfs_windows.cpp:91-94 | two paths with the same leading separator have equal cache paths only if they are equal |
| Paths.TransformPathNotIdempotent | src/gui/vfs_windows.cpp:91-94 | applying transformPath twice never gives the once-translated path again |
| Paths.ToSlash | src/gui/vfs_windows.cpp:253 | the replacement keeps the length and leaves no backslash |
| Paths.CompletePathShape | src/gui/vfs_windows.cpp:2640-2642 | completePath starts with the trimmed root and ends with "/" followed by the item name |
| Paths.CompletePathInjective | src/gui/vfs_windows.cpp:2640-2642 | two items of one listing share a completePath only if their names are equal |
| Paths.PlaceholderIsMirrorPath | src/gui/vfs_windows.cpp:2640-2642 | with the root mount copies into RootDirectory (line 2857), the placeholder of a listed child, written with "/", is the mirror path GetFilePath computes for that child |
| Paths.SearchPattern | src/gui/vfs_windows.cpp:1384-1389 | the search pattern is the mirror path, then a "\" if it did not end in one, then "*" |
| Paths.SearchPatternOverruns | src/gui/vfs_windows.cpp:1384-1389 | as written, a mirror path GetFilePath accepts with MAX_PATH - 1 characters, or MAX_PATH - 2 not ending in "\", gives a pattern that with its terminator exceeds the MAX_PATH buffer |
| Paths.SearchPatternOverrunExample | src/gui/vfs_windows.cpp:1380-1389 | concretely, "\" followed by 255 letters under the root "C:" is accepted by GetFilePath, and its pattern needs MAX_PATH + 1 characters |
| CreateFile.ShareFor | src/gui/vfs_windows.cpp:413-420 | an existing directory gains FILE_SHARE_READ. Otherwise the share mode is unchanged, and no requested bit is ever dropped |
| CreateFile.OpenDirectory | src/gui/vfs_windows.cpp:498-593 | NOT_A_DIRECTORY exactly for an existing file opened with FILE_DIRECTORY_FILE when CreateDirectory did not fail. The open is always OPEN_EXISTING with FILE_FLAG_BACKUP_SEMANTICS. A handle is saved exactly when the open succeeds, and a failed CreateDirectory or CreateFile returns its native error |
| CreateFile.OpenFile | src/gui/vfs_windows.cpp:594-668 | ACCESS_DENIED exactly for a hidden/system overwrite. CANNOT_DELETE exactly for a read-only target with delete-on-close. Nothing is opened in either case. The open keeps the disposition, the flags and every requested access bit, and TRUNCATE_EXISTING adds GENERIC_WRITE. A failed CreateFile returns its native error. After a successful TRUNCATE_EXISTING of an existing file the attributes are set to the previous ones merged with the requested ones |
| CreateFile.MirrorCreateFile | src/gui/vfs_windows.cpp:413-713 | FILE_IS_A_DIRECTORY exactly when an existing directory is opened with FILE_NON_DIRECTORY_FILE. It also gives the directory and file denials and NOT_A_DIRECTORY as if-and-only-if conditions. OPEN_ALWAYS on an existing directory is a name collision, a file request reports a name collision exactly when its OPEN_ALWAYS or CREATE_ALWAYS open succeeded and GetLastError then gave ERROR_ALREADY_EXISTS, and success always saves a handle. A failed CreateDirectory or CreateFile returns its native error. TRUNCATE_EXISTING of an existing file, once opened, restores exactly the union of the previous and the requested attributes, and no other request restores any |
| FileWrite.ToU64 | src/gui/vfs_windows.cpp:1104-1111 | the UINT64 conversion is the identity on 0..2^64 and adds 2^64 to a negative LONGLONG |
| FileWrite.ToI32 | src/gui/vfs_windows.cpp:1165 | the (int) conversion of a DWORD lies in the 32-bit signed range and agrees with it modulo 2^32 |
| FileWrite.FileSize | src/gui/vfs_windows.cpp:1077-1086 | the UINT64 size has the low DWORD as remainder and the high DWORD as quotient by 2^32 |
| FileWrite.PagingLength | src/gui/vfs_windows.cpp:1102-1119 | the clamped length never exceeds the request, and without a wrap it is the smaller of the request and the bytes left before the end of the file |
| FileWrite.MirrorWriteFile | src/gui/vfs_windows.cpp:1016-1181 | gives the status of every exit (reopen, size query, paging past the end, seek, write). A paging write at or past the end succeeds with nothing written. WriteFile is reached exactly when no earlier step fails, with the clamped length. A reopened handle is always closed. The signal is sent exactly when the write succeeded and the notification condition holds, and it names the cache path |
| FileWrite.PagingWriteWithinFile | src/gui/vfs_windows.cpp:1102-1119 | a paging write that reaches WriteFile stays inside the file and writes min(request, size - offset) |
| FileWrite.ClampedWriteNotifies | src/gui/vfs_windows.cpp:1110-1169 | a paging write that the clamp shortens lands exactly on the end of the file and is signalled |
| FileWrite.AppendDoesNotNotify | src/gui/vfs_windows.cpp:1165-1170 | a non-empty write at offset == size (an append) is never signalled |
| FileWrite.OverwriteToEndNotifies | src/gui/vfs_windows.cpp:1165-1170 | a write ending exactly at the old end of the file is signalled |
| FileWrite.ZoneIdentifierNeverNotifies | src/gui/vfs_windows.cpp:1166 | no name containing "Zone.Identifier" is ever signalled |
| Deletion.MirrorDeleteFile | src/gui/vfs_windows.cpp:1458-1472 | gives ACCESS_DENIED exactly for a directory and then touches nothing. The delete disposition is set to DeleteOnClose exactly for a non-directory with an open handle. The call succeeds exactly when that call succeeds or there is no handle |
| Deletion.DeleteDirectoryScan | src/gui/vfs_windows.cpp:1521-1556 | succeeds without a scan when DeleteOnClose is false. Otherwise it gives DIRECTORY_NOT_EMPTY exactly when some entry is neither "." nor "..", and for an empty directory it gives success exactly when the scan ended with ERROR_NO_MORE_FILES |
| Deletion.ToggleStep | src/gui/vfs_windows.cpp:245-264 | the counter stays in {0,1}. A call reports a deletion exactly when the counter was set, then reports its own slash path and resets the counter |
| Deletion.ToggleAlternates | src/gui/vfs_windows.cpp:245-264 | from a fresh counter, after n calls the counter is n mod 2 and exactly every second call has been reported, with its path |
| Deletion.ToggleFromPending | src/gui/vfs_windows.cpp:245-264 | with a pending start, the next call is an end call that reports its own path |
| FileOps.Visible | src/gui/vfs_windows.cpp:1399-1404 | outside the root every entry is filled. At the root no "." or ".." is filled, and only listed names are ever filled |
| FileOps.VisibleKeepsOthers | src/gui/vfs_windows.cpp:1401-1403 | no name other than "." and ".." is ever hidden |
| FileOps.MirrorFindFiles | src/gui/vfs_windows.cpp:1391-1418 | a FindFirstFile failure is returned. Otherwise every entry is counted, exactly the visible entries are filled in order, and the status is success exactly when the scan ended with ERROR_NO_MORE_FILES |
| FileOps.MirrorSetAllocationSize | src/gui/vfs_windows.cpp:1819-1847 | the file never grows and only shrinks to the requested size on success. The status is given for an invalid handle, a failed size query, a negative size (ERROR_NEGATIVE_SEEK) and a failed seek or truncate |
| FileOps.AllocationIdempotent | src/gui/vfs_windows.cpp:1825-1840 | repeating a successful allocation request changes nothing further |
| FileOps.MirrorSetFileAttributes | src/gui/vfs_windows.cpp:1889-1905 | a value of 0 leaves the attributes and makes no native call. Any other value replaces them exactly when SetFileAttributes succeeds |
| FileOps.AttributesIdempotent | src/gui/vfs_windows.cpp:1889-1902 | setting the same attributes twice leaves what setting them once leaves |
| FileOps.SecurityInformation | src/gui/vfs_windows.cpp:2086-2089 | with the privilege the request is unchanged. Without it the SACL and BACKUP bits are cleared and every other bit is kept |
| FileOps.SecurityAccess | src/gui/vfs_windows.cpp:2092-2096 | the handle always has READ_CONTROL, has ACCESS_SYSTEM_SECURITY exactly for a SACL request with the privilege, and has nothing else |
| FileOps.MirrorGetFileSecurity | src/gui/vfs_windows.cpp:2083-2122 | the adjusted request and access are as above. A failed open or query is returned, ERROR_INSUFFICIENT_BUFFER becomes BUFFER_OVERFLOW, and success means both calls succeeded |
| FileOps.CtrlHandler | src/gui/vfs_windows.cpp:2448-2461 | exactly CTRL_C, CTRL_BREAK, CTRL_CLOSE, CTRL_LOGOFF and CTRL_SHUTDOWN are handled, and only those remove the mount point |
| Listing.Blanked | src/gui/vfs_windows.cpp:2644-2651 | the path becomes "" exactly when it is on the ignore list |
| Listing.Place | src/gui/vfs_windows.cpp:2656-2669 | every other path keeps exactly its presence and its entry. A non-blank path becomes present exactly for a file or directory item, as an empty entry of that kind. The blanked path creates nothing |
| Listing.MaterialiseKeepsExisting | src/gui/vfs_windows.cpp:2653-2672 | every path that existed before is present afterwards with its entry unchanged |
| Listing.MaterialiseAddsOnlyPlaceholders | src/gui/vfs_windows.cpp:2638-2675 | every added path is the completePath of a listed file or directory, is not ignored, and holds an empty entry of the item's kind |
| Listing.MaterialiseCoversListing | src/gui/vfs_windows.cpp:2638-2675 | every listed file or directory whose completePath is not ignored exists afterwards |
| Listing.MaterialiseSignals | src/gui/vfs_windows.cpp:2670-2671 | the signals are addToFileTree/setFileRecord pairs, each record naming the listed directory, at most one pair per item |
| Listing.MaterialiseItemSignals | src/gui/vfs_windows.cpp:2653-2671 | one item emits signals exactly when its (possibly blanked) completePath does not exist, and then exactly addToFileTree of its type and that path followed by setFileRecord naming the listed directory |
| Listing.MaterialiseAnnouncesAdditions | src/gui/vfs_windows.cpp:2638-2675 | every non-blank path announced by addToFileTree was absent before, and for a file or directory item it holds an empty entry of that kind afterwards; every path the listing adds is announced with the type of its entry |
| Listing.EmptyListingChangesNothing | src/gui/vfs_windows.cpp:2638 | an empty listing changes nothing and signals nothing |
| Listing.IgnoredEntryAsWritten | src/gui/vfs_windows.cpp:1640 | the recorded entry, as written, starts with the cache prefix |
| Listing.NestedEntryNeverMatches | src/gui/vfs_windows.cpp:2644-2651 | as written, the entry of a file moved out of a subdirectory never equals any completePath |
| Listing.NestedEntryExample | src/gui/vfs_windows.cpp:1640 | concretely, "\d\a" is recorded as "C:/cachedFiles/d\a", while the listing of "/d" computes "C:/cachedFiles/d/a" |
| Listing.IgnoredEntry | src/gui/vfs_windows.cpp:1640 | the corrected entry starts with the cache prefix |
| Listing.IgnoredEntryMatchesPlaceholder | src/gui/vfs_windows.cpp:2640-2648 | the corrected entry of a moved file is exactly the completePath a later listing of its directory under the cache root computes |
| Listing.IgnoredEntryAgreesAtTopLevel | src/gui/vfs_windows.cpp:1640 | for a file directly under the drive root, the corrected and as-written entries are equal |
| Listing.MovedFileNotRecreated | src/gui/vfs_windows.cpp:2644-2669 | after a move, the next listing of the old directory does not recreate the moved file |
| Vfs.VfsWindows.constructor | src/gui/vfs_windows.cpp:125-127 | the initial buffers are "C:", "" and "M:\\", the counter starts at 0, and the ignore list and the listing map start empty |
| Vfs.VfsWindows.Initialize | src/gui/vfs_windows.cpp:2697-2700 | records the mount root and letter and changes nothing else |
| Vfs.VfsWindows.Mount | src/gui/vfs_windows.cpp:2853-2858 | RootDirectory becomes the mount root and MountPoint the letter |
| Vfs.VfsWindows.FilePath | src/gui/vfs_windows.cpp:129-142 | GetFilePath on the current buffers starts with RootDirectory, and without a UNC name it is RootDirectory followed by the name |
| Vfs.VfsWindows.TypeOfOperationDeleteDirectory | src/gui/vfs_windows.cpp:245-264 | a start call sets the counter and emits nothing. An end call emits deleteItem for its slash path and resets the counter |
| Vfs.VfsWindows.ScanPattern | src/gui/vfs_windows.cpp:1380-1389 | corrected: the pattern exists exactly when the mirror path fits, is non-empty and its search pattern with the terminator fits MAX_PATH; it then extends the mirror path (and so RootDirectory), is shorter than MAX_PATH and ends in `\*` |
| Vfs.VfsWindows.DeleteDirectory | src/gui/vfs_windows.cpp:1475-1558 | the toggle moves as ToggleStep says and an end call appends deleteItem for its slash path to the trace. With DeleteOnClose the search pattern is ScanPattern's; a pattern that does not fit gives BUFFER_OVERFLOW, otherwise the status is as in DeleteDirectoryScan. The ignore list, listings, mirror, root and buffers are unchanged |
| Vfs.VfsWindows.MoveFile | src/gui/vfs_windows.cpp:1589-1652 | returns INVALID_HANDLE, BUFFER_OVERFLOW or the rename error. A successful rename of anything but the root emits the move with both cache paths. For a file, it appends the corrected entry Listing.IgnoredEntry to the ignore list (see Findings; line 1640 appends Listing.IgnoredEntryAsWritten), and nothing else changes |
| Vfs.VfsWindows.CleanIgnoredTask | src/gui/vfs_windows.cpp:2490-2494 | the whole ignore list is cleared |
| Vfs.VfsWindows.FolderFileListFinish | src/gui/vfs_windows.cpp:2683-2695 | a result is stored under its path, replacing an older one, and a null result changes nothing |
| Vfs.VfsWindows.BlankIgnored | src/gui/vfs_windows.cpp:2644-2651 | the foreach yields Listing.Blanked of the path |
| Vfs.VfsWindows.PlaceItem | src/gui/vfs_windows.cpp:2639-2672 | one pass of the loop body gives Listing's step for that item |
| Vfs.VfsWindows.PlaceAll | src/gui/vfs_windows.cpp:2638-2675 | the loop gives exactly Listing.Materialise of the items |
| Vfs.VfsWindows.ContentsOfDirectoryAtPath | src/gui/vfs_windows.cpp:2618-2681 | announces the listing job. A failed listing changes nothing else and keeps the map entry. A successful one materialises the listing and removes the entry |
| Vfs.VfsWindows.FindFiles | src/gui/vfs_windows.cpp:1334-1419 | the listing of the slash name is announced and, on success, materialised with its signals and removed from the map; a failed listing changes nothing else. The scan then searches ScanPattern's pattern; a pattern that does not fit gives BUFFER_OVERFLOW with nothing filled, otherwise it fills and counts exactly as in MirrorFindFiles, and succeeds exactly when it ended with ERROR_NO_MORE_FILES |
| Vfs.VfsWindows.WriteFile | src/gui/vfs_windows.cpp:1016-1181 | the status of every exit, the written count, the reopen/close of the handle and the WriteFile length are those of MirrorWriteFile, and the signal is appended to the trace exactly when that write sends it; no other state changes |

## Left out

- Native Win32 and Dokan calls are inputs, not modelled operations. This covers `CreateFile`, `GetFileAttributes`, `GetFileSize`, `SetFilePointerEx`, `WriteFile`, `FindFirstFile`/`FindNextFile`, `SetFileInformationByHandle`, `SetEndOfFile`, `SetFileAttributes`, `GetUserObjectSecurity`, `DokanRemoveMountPoint` and `SetConsoleCtrlHandler`. Handles, buffers and `CloseHandle` are reduced to flags in the outcome.
- The `DokanNtStatusFromWin32` table is not part of this model. A native failure stays `Win32Error(code)`.
- `MirrorReadFile`, `MirrorCleanup`, `MirrorCloseFile`, `MirrorFlushFileBuffers`, `MirrorGetFileInformation`, `MirrorLockFile`/`MirrorUnlockFile`, `MirrorSetEndOfFile`, `MirrorSetFileTime`, `MirrorSetFileSecurity`, `MirrorGetVolumeInformation`, `MirrorFindStreams` and the disk-space callbacks are left out. They only forward to native calls or return fixed values.
- Concurrency and blocking have no counterpart in a sequential model. This covers the mutexes, the condition-variable wait and the busy-wait of `contentsOfDirectoryAtPath`, the wake-up in `folderFileListFinish`, the threads of `mount`/`ThreadFunc`, and the 3.5 s `Sleep` of `CleanIgnoredTask`. `ContentsOfDirectoryAtPath` therefore requires the listing of its path to be in the map already, and `CleanIgnoredTask` is the state after the delay.
- Qt signals (`startRemoteFileListJob`, `addToFileTree`, `move`, `writeFile`, `deleteItem`) and `SyncWrapper::setFileRecord` are recorded as an event trace. Their receivers are not part of this model.
- The `createFileAtPath`/`createDirectoryAtPath` calls made by `MirrorCreateFile` are left out, because their bodies are empty. The same goes for its logging branches and the `DesiredAccess == 1507743` heuristic.
- `determinesTypeOfOperation`, the read trigger of `MirrorReadFile`, `getExplorerID`, impersonation, `AddSeSecurityNamePrivilege` and logging are left out. They depend on caller processes and tokens. `g_HasSeSecurityPrivilege` is a parameter.
- The mount option validation is left out: `dokanOptions` is zeroed, so those checks are dead. The mirror-path creation in `initialize`, `unmount`/`removeRecursively` and the wizard files are left out too, being GUI and process plumbing.
- The NULL-instance branches of `MirrorFindFiles` and `MirrorWriteFile` are left out. The singleton always exists once the drive is mounted.
- Paths.GetFilePath: a path that does not fit is `None`. What the C runtime's invalid-parameter handler then does with the caller is not modelled, and callers use the path only when it fits.
- Paths.ToLowerChar: `_wcsnicmp` folds only ASCII letters here. Locale-dependent folding of other characters is not modelled.
- Listing.OnDisk: `QFileInfo::exists` is an exact-match lookup in the mirror map. Windows' case-insensitive lookup is not modelled.
- Listing.Place: creating a placeholder is assumed to succeed for a non-empty path. A failing `QFile::open` or `QDir::mkdir` is not modelled.
- FileWrite.Notifies: `notw + Offset` is computed without bound and then converted to UINT64. A signed 64-bit overflow there, which is undefined behaviour in C, is not modelled separately.
- FileWrite.PagingWriteWithinFile: proved only for file sizes up to 2^64 − 2^32. Above that, `Offset + NumberOfBytesToWrite` can wrap in UINT64 and the clamp is skipped; `PagingLength` then states only `r <= length`.
- FileWrite.MirrorWriteFile: `*NumberOfBytesWritten` on a failed write is not modelled, because the caller ignores it on failure.
- FileOps.MirrorSetAllocationSize: a negative `AllocSize` is rejected with `ERROR_NEGATIVE_SEEK`, as `SetFilePointerEx` documents. Other seek failures come from the `seek` input.
- Vfs.VfsWindows.MoveFile: appends the corrected entry `Listing.IgnoredEntry` (separators normalised before `transformPath`), not the entry line 1640 records (`Listing.IgnoredEntryAsWritten`). The two differ for every file below a subdirectory, as the Findings row shows. The ignore list kept by the class is therefore the intended one, not the program's.
- Vfs.VfsWindows.FindFiles: where the code overruns its MAX_PATH buffer while appending `\*` (a mirror path of 258 characters not ending in `\`, or of 259), or reads `filePath[-1]` for an empty path (1384-1389), the method returns the corrected BUFFER_OVERFLOW without scanning (see Findings). The program's behaviour there is undefined and is not modelled.
- Vfs.VfsWindows.DeleteDirectory: the same corrected BUFFER_OVERFLOW replaces the buffer overrun and the empty-path read of 1525-1530 when DeleteOnClose is set. The program's undefined behaviour there is not modelled.
- Vfs.VfsWindows.Mount: the unbounded `wcscpy` of the mount root into the MAX_PATH-element `RootDirectory` (line 2857) is modelled as a plain assignment. A root of MAX_PATH characters or more, which overruns that buffer in the code, is not modelled.
- Types.RemoteItem: `name` is the string line 2642 obtains with `QString::fromLatin1` from the listing's bytes. The decoding itself is not modelled, so a UTF-8 name with non-ASCII characters, which becomes a garbled placeholder name in the code, is not distinguished here.
- The file-static variables (`i_deleted`, `RootDirectory`, `UNCName`, `MountPoint`) are fields of the `VfsWindows` singleton.

## Findings

| source | as written | input that shows it | evidently intended | confidence | as-written member | corrected member |
|---|---|---|---|---|---|---|
| src/gui/vfs_windows.cpp:1640 | a moved file's ignore-list entry is `transformPath` of the Dokan name, which keeps its `\` separators, while `completePath` (2640-2648) has only `/` separators | moving `\d\a` under appData `C:` records `C:/cachedFiles/d\a`; the listing of `/d` computes `C:/cachedFiles/d/a`, so the entry never matches and the moved file's placeholder is recreated | normalise the separators (as line 253 and line 1356 do) before `transformPath`, so the entry equals the placeholder a listing of the old directory computes | medium, not executed | Listing.NestedEntryNeverMatches | Listing.IgnoredEntryMatchesPlaceholder |
| src/gui/vfs_windows.cpp:1384-1389 | MirrorFindFiles (and MirrorDeleteDirectory at 1525-1530) appends `\*` and the terminator to the `filePath[DOKAN_MAX_PATH]` buffer GetFilePath filled, with no bound check; `DOKAN_MAX_PATH` is MAX_PATH (260) because `WIN10_ENABLE_LONG_PATH` is not defined (line 78) | a mirror path of 258 characters not ending in `\`, e.g. root `C:` and the name `\` followed by 255 letters: GetFilePath accepts it, and the pattern writes `filePath[258..260]`, one past the buffer; a 259-character path writes up to `filePath[261]` | refuse a pattern that does not fit, with STATUS_BUFFER_OVERFLOW as MirrorMoveFile does when it cannot get its buffer (1604-1607) | high, not executed | Paths.SearchPatternOverrunExample | Vfs.VfsWindows.ScanPattern |
