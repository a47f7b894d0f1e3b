/**
 * The VfsWindows singleton and the file-static state the callbacks share:
 * the mount root, the RootDirectory/UNCName/MountPoint buffers of
 * GetFilePath, the ignore list, the map of finished remote listings, the
 * local mirror, the delete toggle and the trace of signals emitted towards
 * the sync engine. Each callback that changes this state is a method here.
 */
module Vfs {
  import opened Types
  import opened Paths
  import opened Listing
  import opened Deletion
  import FileOps
  import FileWrite

  /** A DiscoveryDirectoryResult as folderFileListFinish receives it. */
  datatype DiscoveryResult = DiscoveryResult(path: string, result: ListingResult)

  class VfsWindows {
    /** QStandardPaths::AppDataLocation: the base of the cache paths. */
    const appData: string
    var rootPath: string
    var mountLetter: char
    /** The file-static buffers GetFilePath reads. */
    var rootDirectory: string
    var uncName: string
    var mountPoint: string
    var ignoredList: seq<string>
    var fileListMap: map<string, ListingResult>
    /** The local mirror directory tree. */
    var disk: Disk
    /** Everything emitted so far, in order. */
    var events: seq<Event>
    /** The file-static i_deleted of TypeOfOperation_DeleteDirectory. */
    var deleted: int

    predicate Valid()
      reads this
    {
      deleted == 0 || deleted == 1
    }

    /** The state at load time: the static initialisers, an empty ignore list and listing map. */
    constructor (appData: string, disk: Disk)
      ensures Valid()
      ensures this.appData == appData && this.disk == disk
      ensures rootPath == "" && rootDirectory == "C:" && uncName == "" && mountPoint == "M:\\"
      ensures ignoredList == [] && fileListMap == map[] && events == [] && deleted == 0
    {
      this.appData := appData;
      this.disk := disk;
      rootPath := "";
      mountLetter := 'M';
      rootDirectory := "C:";
      uncName := "";
      mountPoint := "M:\\";
      ignoredList := [];
      fileListMap := map[];
      events := [];
      deleted := 0;
    }

    /** initialize: records the mount root and the drive letter. */
    method Initialize(rootPath: string, mountLetter: char)
      modifies this
      ensures this.rootPath == rootPath && this.mountLetter == mountLetter
      ensures rootDirectory == old(rootDirectory) && uncName == old(uncName) && mountPoint == old(mountPoint)
      ensures ignoredList == old(ignoredList) && fileListMap == old(fileListMap)
      ensures disk == old(disk) && events == old(events) && deleted == old(deleted)
    {
      this.rootPath := rootPath;
      this.mountLetter := mountLetter;
    }

    /** mount: copies the mount root into RootDirectory and the letter into MountPoint. */
    method Mount()
      modifies this
      ensures rootDirectory == rootPath && mountPoint == [mountLetter]
      ensures rootPath == old(rootPath) && mountLetter == old(mountLetter) && uncName == old(uncName)
      ensures ignoredList == old(ignoredList) && fileListMap == old(fileListMap)
      ensures disk == old(disk) && events == old(events) && deleted == old(deleted)
    {
      rootDirectory := rootPath;
      mountPoint := [mountLetter];
    }

    /** GetFilePath on the current RootDirectory and UNCName. */
    function FilePath(fileName: string): (r: Option<string>)
      reads this
      ensures r.Some? ==> rootDirectory <= r.value
      ensures uncName == "" && r.Some? ==> r.value == rootDirectory + fileName
    {
      GetFilePath(rootDirectory, uncName, fileName)
    }

    /**
     * TypeOfOperation_DeleteDirectory: the first call of a pair only arms the
     * toggle, the second reports deleteItem for its own path and disarms it.
     */
    method TypeOfOperationDeleteDirectory(fileName: string)
      requires Valid()
      modifies this
      ensures Valid()
      ensures old(deleted) == 0 ==> deleted == 1 && events == old(events)
      ensures old(deleted) == 1 ==> deleted == 0 && events == old(events) + [DeleteItem(ToSlash(fileName))]
      ensures ignoredList == old(ignoredList) && fileListMap == old(fileListMap) && disk == old(disk)
      ensures rootPath == old(rootPath) && rootDirectory == old(rootDirectory) && uncName == old(uncName)
      ensures mountPoint == old(mountPoint) && mountLetter == old(mountLetter)
    {
      var path := ToSlash(fileName);
      if deleted == 0 {
        deleted := deleted + 1;
      } else {
        events := events + [DeleteItem(path)];
        deleted := 0;
      }
    }

    /**
     * The argument of FindFirstFile in FindFiles and DeleteDirectory: the
     * mirror path with a trailing "\*", in the same MAX_PATH buffer. A
     * mirror path that does not fit, and a pattern that with its terminator
     * does not fit, give none (the bound check the callbacks lack).
     */
    function ScanPattern(fileName: string): (r: Option<string>)
      reads this
      ensures r.Some? <==>
                FilePath(fileName).Some? && FilePath(fileName).value != "" &&
                |SearchPattern(FilePath(fileName).value)| < MAX_PATH
      ensures r.Some? ==>
                && FilePath(fileName).value <= r.value
                && rootDirectory <= r.value
                && |r.value| < MAX_PATH
                && |r.value| >= 2 && r.value[|r.value| - 2..] == "\\*"
    {
      match FilePath(fileName)
      case Some(p) =>
        if p == "" then None
        else
          var pattern := SearchPattern(p);
          if |pattern| < MAX_PATH then Some(pattern) else None
      case None => None
    }

    /**
     * MirrorDeleteDirectory: the toggle first, then, when DeleteOnClose is
     * set, the emptiness scan of the search pattern; a pattern that does not
     * fit its buffer is refused with BUFFER_OVERFLOW.
     */
    method DeleteDirectory(fileName: string, deleteOnClose: bool, find: FindResult)
      returns (status: Status, pattern: Option<string>)
      requires Valid()
      modifies this
      ensures Valid()
      ensures deleted == ToggleStep(old(deleted), fileName).0
      ensures !deleteOnClose ==> status == Success
      ensures deleteOnClose && pattern.None? ==> status == BufferOverflow
      ensures deleteOnClose && pattern.Some? && find.FindFailed? ==> status == Win32Error(find.error)
      ensures deleteOnClose && pattern.Some? && find.Found? ==> (status == DirectoryNotEmpty <==> !OnlyDots(Names(find)))
      ensures deleteOnClose && pattern.Some? && find.Found? && OnlyDots(Names(find)) ==>
                status == (if find.endError == ERROR_NO_MORE_FILES then Success else Win32Error(find.endError))
      // the end call of a pair reports the deletion
      ensures events == old(events) + (if old(deleted) == 1 then [DeleteItem(ToSlash(fileName))] else [])
      ensures deleteOnClose ==> pattern == ScanPattern(fileName)
      ensures !deleteOnClose ==> pattern.None?
      ensures ignoredList == old(ignoredList) && fileListMap == old(fileListMap) && disk == old(disk)
      ensures rootPath == old(rootPath) && rootDirectory == old(rootDirectory) && uncName == old(uncName)
      ensures mountPoint == old(mountPoint) && mountLetter == old(mountLetter)
    {
      TypeOfOperationDeleteDirectory(fileName);
      if !deleteOnClose {
        return Success, None;
      }
      pattern := ScanPattern(fileName);
      if pattern.None? {
        return BufferOverflow, pattern;
      }
      status := DeleteDirectoryScan(deleteOnClose, find);
    }

    /**
     * MirrorMoveFile after both GetFilePath calls: an invalid handle and a
     * failed allocation of the rename buffer are refused; a successful rename
     * of anything but the root reports the move with both cache paths, and a
     * moved file's old path goes on the ignore list so that the next listing
     * does not recreate its placeholder.
     */
    method MoveFile(oldFileName: string, newFileName: string, isDirectory: bool,
                    handleValid: bool, bufferAllocated: bool, rename: NativeResult) returns (status: Status)
      modifies this
      ensures !handleValid ==> status == InvalidHandle
      ensures handleValid && !bufferAllocated ==> status == BufferOverflow
      ensures handleValid && bufferAllocated ==>
                status == (if rename.Ok? then Success else Win32Error(rename.error))
      ensures status == Success && oldFileName != "\\" ==>
                events == old(events) + [Move(TransformPath(appData, oldFileName), TransformPath(appData, newFileName))]
      ensures status != Success || oldFileName == "\\" ==> events == old(events)
      ensures status == Success && oldFileName != "\\" && !isDirectory ==>
                ignoredList == old(ignoredList) + [IgnoredEntry(appData, oldFileName)]
      ensures status != Success || oldFileName == "\\" || isDirectory ==> ignoredList == old(ignoredList)
      ensures fileListMap == old(fileListMap) && disk == old(disk) && deleted == old(deleted)
      ensures rootPath == old(rootPath) && rootDirectory == old(rootDirectory) && uncName == old(uncName)
      ensures mountPoint == old(mountPoint) && mountLetter == old(mountLetter)
    {
      if !handleValid {
        return InvalidHandle;
      }
      if !bufferAllocated {
        return BufferOverflow;
      }
      if rename.Failed? {
        return Win32Error(rename.error);
      }
      if oldFileName != "\\" {
        events := events + [Move(TransformPath(appData, oldFileName), TransformPath(appData, newFileName))];
        if !isDirectory {
          ignoredList := ignoredList + [IgnoredEntry(appData, oldFileName)];
        }
      }
      return Success;
    }

    /** CleanIgnoredTask::run, once its delay has passed: the whole ignore list is dropped. */
    method CleanIgnoredTask()
      modifies this
      ensures ignoredList == []
      ensures fileListMap == old(fileListMap) && disk == old(disk) && events == old(events) && deleted == old(deleted)
      ensures rootPath == old(rootPath) && rootDirectory == old(rootDirectory) && uncName == old(uncName)
      ensures mountPoint == old(mountPoint) && mountLetter == old(mountLetter)
    {
      ignoredList := [];
    }

    /** folderFileListFinish: a result is stored under its path (replacing an older one); a null result is dropped. */
    method FolderFileListFinish(dr: Option<DiscoveryResult>)
      modifies this
      ensures dr.Some? ==> fileListMap == old(fileListMap)[dr.value.path := dr.value.result]
      ensures dr.None? ==> fileListMap == old(fileListMap)
      ensures ignoredList == old(ignoredList) && disk == old(disk) && events == old(events) && deleted == old(deleted)
      ensures rootPath == old(rootPath) && rootDirectory == old(rootDirectory) && uncName == old(uncName)
      ensures mountPoint == old(mountPoint) && mountLetter == old(mountLetter)
    {
      if dr.Some? {
        fileListMap := fileListMap[dr.value.path := dr.value.result];
      }
    }

    /** The foreach over ignoredList: completePath is blanked when any item equals it. */
    method BlankIgnored(completePath: string) returns (r: string)
      ensures r == Blanked(ignoredList, completePath)
    {
      r := completePath;
      var j := 0;
      while j < |ignoredList|
        invariant 0 <= j <= |ignoredList|
        invariant r == if completePath in ignoredList[..j] then "" else completePath
      {
        assert ignoredList[..j + 1] == ignoredList[..j] + [ignoredList[j]];
        if ignoredList[j] == r {
          r := "";
        }
        j := j + 1;
      }
      assert ignoredList[..j] == ignoredList;
    }

    /**
     * One pass of the loop of contentsOfDirectoryAtPath: the completePath of
     * the item, blanked if ignored; if it does not exist, an empty file or
     * directory is created and the item is reported.
     */
    method PlaceItem(mirror: Disk, path: string, item: RemoteItem) returns (placed: Disk, step: seq<Event>)
      ensures (placed, step) == MaterialiseItem(mirror, rootPath, path, ignoredList, item)
    {
      var root := TrimmedRoot(rootPath);
      var completePath := root + DirSlash(path) + item.name;
      completePath := BlankIgnored(completePath);
      placed, step := mirror, [];
      if !OnDisk(mirror, completePath) {
        if completePath != "" && item.itemType == ItemFile {
          placed := mirror[completePath := Entry(File, 0)];
        } else if completePath != "" && item.itemType == ItemDirectory {
          placed := mirror[completePath := Entry(Dir, 0)];
        }
        step := [AddToFileTree(item.itemType, completePath), SetFileRecord(item, rootPath + DirSlash(path))];
      }
    }

    /** The loop of contentsOfDirectoryAtPath over the items of a successful listing. */
    method PlaceAll(start: Disk, path: string, items: seq<RemoteItem>) returns (mirror: Disk, emitted: seq<Event>)
      ensures (mirror, emitted) == Materialise(start, rootPath, path, ignoredList, items)
    {
      mirror, emitted := start, [];
      var i := 0;
      ghost var whole := Materialise(start, rootPath, path, ignoredList, items);
      assert items[0..] == items;
      while i < |items|
        invariant 0 <= i <= |items|
        invariant whole.0 == Materialise(mirror, rootPath, path, ignoredList, items[i..]).0
        invariant whole.1 == emitted + Materialise(mirror, rootPath, path, ignoredList, items[i..]).1
      {
        MaterialiseAdvance(whole, mirror, emitted, rootPath, path, ignoredList, items, i);
        var step;
        mirror, step := PlaceItem(mirror, path, items[i]);
        emitted := emitted + step;
        i := i + 1;
      }
      MaterialiseUnfold(mirror, rootPath, path, ignoredList, items, i);
      assert emitted + [] == emitted;
    }

    /**
     * contentsOfDirectoryAtPath, once the listing of `path` is in the map
     * (the wait for folderFileListFinish is not modelled): the listing job
     * is announced; a failed listing changes nothing else; a successful one
     * materialises its placeholders and is removed from the map.
     */
    method ContentsOfDirectoryAtPath(path: string)
      requires path in fileListMap
      modifies this
      ensures old(fileListMap)[path].code != 0 ==>
                events == old(events) + [StartRemoteFileListJob(path)] && disk == old(disk) && fileListMap == old(fileListMap)
      ensures old(fileListMap)[path].code == 0 ==>
                var after := Materialise(old(disk), rootPath, path, ignoredList, old(fileListMap)[path].items);
                && disk == after.0
                && events == old(events) + [StartRemoteFileListJob(path)] + after.1
                && fileListMap == old(fileListMap) - {path}
      ensures ignoredList == old(ignoredList) && deleted == old(deleted)
      ensures rootPath == old(rootPath) && rootDirectory == old(rootDirectory) && uncName == old(uncName)
      ensures mountPoint == old(mountPoint) && mountLetter == old(mountLetter)
    {
      events := events + [StartRemoteFileListJob(path)];
      var listing := fileListMap[path];
      if listing.code != 0 {
        return;
      }
      var mirror, emitted := PlaceAll(disk, path, listing.items);
      disk := mirror;
      events := events + emitted;
      fileListMap := fileListMap - {path};
    }

    /**
     * MirrorFindFiles: the listing of the slash form of the name is fetched
     * and materialised first, then the mirror directory is scanned.
     */
    method FindFiles(fileName: string, find: FindResult) returns (o: FileOps.FindFilesOutcome, pattern: Option<string>)
      requires ToSlash(fileName) in fileListMap
      modifies this
      ensures pattern.None? ==> o == FileOps.FindFilesOutcome(BufferOverflow, [], 0)
      ensures pattern.Some? && find.FindFailed? ==> o.status == Win32Error(find.error) && o.filled == [] && o.count == 0
      ensures pattern.Some? && find.Found? ==>
                o.filled == FileOps.Visible(fileName == "\\", Names(find)) && o.count == |Names(find)|
      ensures pattern.Some? && find.Found? ==>
                o.status == (if find.endError == ERROR_NO_MORE_FILES then Success else Win32Error(find.endError))
      ensures old(fileListMap)[ToSlash(fileName)].code != 0 ==>
                && events == old(events) + [StartRemoteFileListJob(ToSlash(fileName))]
                && disk == old(disk)
                && fileListMap == old(fileListMap)
      ensures old(fileListMap)[ToSlash(fileName)].code == 0 ==>
                var after := Materialise(old(disk), rootPath, ToSlash(fileName), ignoredList,
                                         old(fileListMap)[ToSlash(fileName)].items);
                && disk == after.0
                && events == old(events) + [StartRemoteFileListJob(ToSlash(fileName))] + after.1
                && fileListMap == old(fileListMap) - {ToSlash(fileName)}
      // the directory scanned is the mirror of the name
      ensures pattern == ScanPattern(fileName)
      ensures ignoredList == old(ignoredList) && deleted == old(deleted)
      ensures rootPath == old(rootPath) && rootDirectory == old(rootDirectory) && uncName == old(uncName)
      ensures mountPoint == old(mountPoint) && mountLetter == old(mountLetter)
    {
      ContentsOfDirectoryAtPath(ToSlash(fileName));
      pattern := ScanPattern(fileName);
      if pattern.None? {
        return FileOps.FindFilesOutcome(BufferOverflow, [], 0), pattern;
      }
      o := FileOps.MirrorFindFiles(fileName, find);
    }

    /** MirrorWriteFile, with its "file changed" signal appended to the trace. */
    method WriteFile(q: FileWrite.Request, n: FileWrite.Native) returns (o: FileWrite.Outcome)
      modifies this
      ensures o.reopened <==> !q.handleValid && n.reopen.Ok?
      ensures o.closed == o.reopened
      ensures !q.handleValid && n.reopen.Failed? ==> o.status == Win32Error(n.reopen.error)
      ensures (q.handleValid || n.reopen.Ok?) && n.sizeLow == FileWrite.INVALID_FILE_SIZE ==> o.status == Win32Error(n.sizeError)
      ensures FileWrite.HasSize(q, n) && FileWrite.PastEnd(q, n) ==> o.status == Success && o.written == 0
      ensures FileWrite.HasSize(q, n) && !FileWrite.PastEnd(q, n) && n.seek.Failed? ==> o.status == Win32Error(n.seek.error)
      ensures FileWrite.ReachesWrite(q, n) && n.write.Failed? ==> o.status == Win32Error(n.write.error)
      ensures o.status == Success <==>
                FileWrite.HasSize(q, n) && (FileWrite.PastEnd(q, n) || (n.seek.Ok? && n.write.Ok?))
      ensures o.status == Success && o.requested.Some? ==> o.written == n.writtenCount
      ensures o.requested.Some? <==> FileWrite.ReachesWrite(q, n)
      ensures o.requested.Some? ==> o.requested.value == FileWrite.WriteLength(q, n)
      ensures o.signal.Some? ==> o.signal.value == WriteFileSignal(TransformPath(appData, q.fileName))
      ensures events == old(events) + (if o.signal.Some? then [o.signal.value] else [])
      ensures o.signal.Some? <==>
                (FileWrite.ReachesWrite(q, n) && n.write.Ok? &&
                 FileWrite.Notifies(q.fileName, FileWrite.WriteLength(q, n), q.offset, FileWrite.FileSize(n)))
      ensures ignoredList == old(ignoredList) && fileListMap == old(fileListMap) && disk == old(disk) && deleted == old(deleted)
      ensures rootPath == old(rootPath) && rootDirectory == old(rootDirectory) && uncName == old(uncName)
      ensures mountPoint == old(mountPoint) && mountLetter == old(mountLetter)
    {
      o := FileWrite.MirrorWriteFile(appData, q, n);
      if o.signal.Some? {
        events := events + [o.signal.value];
      }
    }
  }
}
