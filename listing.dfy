/**
 * Placeholder materialisation: what contentsOfDirectoryAtPath does with a
 * remote directory listing. Every listed item gets a completePath; a path
 * on the ignore list is blanked; an item whose path does not exist yet
 * becomes an empty file or an empty directory, and is reported to the sync
 * engine (addToFileTree, setFileRecord).
 */
module Listing {
  import opened Types
  import opened Paths

  /** completePath after the scan of ignoredList: "" when it equals one of its items. */
  function Blanked(ignored: seq<string>, p: string): (r: string)
    ensures r == "" || r == p
    ensures r == p <==> p !in ignored || p == ""
  {
    if p in ignored then "" else p
  }

  /** QFileInfo(p).exists(): the empty path never exists. */
  predicate OnDisk(disk: Disk, p: string) {
    p != "" && p in disk
  }

  /** The kind of entry a placeholder of this item type is. */
  function KindOf(t: ItemType): Kind
    requires t != ItemOther
  {
    if t == ItemFile then File else Dir
  }

  /**
   * Creating the placeholder of an absent path: QFile::open(ReadWrite)
   * creates an empty file, QDir::mkdir an empty directory; an item of any
   * other type, and the blanked path "", create nothing.
   */
  function Place(disk: Disk, p: string, t: ItemType): (r: Disk)
    requires !OnDisk(disk, p)
    // every other path keeps exactly what it had
    ensures forall q {:trigger q in r} :: q != p ==> (q in r <==> q in disk)
    ensures forall q {:trigger r[q]} :: q in disk && q != p ==> r[q] == disk[q]
    // the path itself becomes an empty entry of the item's kind, or stays absent
    ensures p != "" ==> (p in r <==> t != ItemOther)
    ensures p != "" && t != ItemOther ==> r[p].kind == KindOf(t) && r[p].size == 0
    // the blanked path creates nothing
    ensures p == "" ==> r == disk
  {
    if p == "" || t == ItemOther then disk else disk[p := Entry(KindOf(t), 0)]
  }

  /** The signals emitted for an item whose path did not exist. */
  function Announce(rootPath: string, path: string, item: RemoteItem, p: string): seq<Event> {
    [AddToFileTree(item.itemType, p), SetFileRecord(item, rootPath + DirSlash(path))]
  }

  /** One item of the listing: its placeholder and its signals, if its path does not exist. */
  function MaterialiseItem(disk: Disk, rootPath: string, path: string, ignored: seq<string>,
                           item: RemoteItem): (Disk, seq<Event>)
  {
    var p := Blanked(ignored, CompletePath(rootPath, path, item.name));
    if OnDisk(disk, p) then (disk, []) else (Place(disk, p, item.itemType), Announce(rootPath, path, item, p))
  }

  /**
   * The loop of contentsOfDirectoryAtPath over the items of a successful
   * listing of `path`, from the local mirror `disk`: the mirror afterwards
   * and the signals emitted, in order.
   */
  function Materialise(disk: Disk, rootPath: string, path: string, ignored: seq<string>,
                       items: seq<RemoteItem>): (Disk, seq<Event>)
    decreases |items|
  {
    if items == [] then (disk, [])
    else
      var first := MaterialiseItem(disk, rootPath, path, ignored, items[0]);
      var rest := Materialise(first.0, rootPath, path, ignored, items[1..]);
      (rest.0, first.1 + rest.1)
  }

  /** One item off the front of a suffix of the listing. */
  lemma MaterialiseUnfold(disk: Disk, rootPath: string, path: string, ignored: seq<string>,
                          items: seq<RemoteItem>, i: nat)
    requires i <= |items|
    ensures i == |items| ==> Materialise(disk, rootPath, path, ignored, items[i..]) == (disk, [])
    ensures i < |items| ==>
              var first := MaterialiseItem(disk, rootPath, path, ignored, items[i]);
              var rest := Materialise(first.0, rootPath, path, ignored, items[i + 1..]);
              && Materialise(disk, rootPath, path, ignored, items[i..]).0 == rest.0
              && Materialise(disk, rootPath, path, ignored, items[i..]).1 == first.1 + rest.1
  {
    if i < |items| {
      assert items[i..][0] == items[i] && items[i..][1..] == items[i + 1..];
    }
  }

  /** The mirror after a non-empty listing is the mirror the rest of the listing leaves after the first item. */
  lemma MaterialiseFirst(disk: Disk, rootPath: string, path: string, ignored: seq<string>, items: seq<RemoteItem>)
    requires items != []
    ensures Materialise(disk, rootPath, path, ignored, items).0 ==
            Materialise(MaterialiseItem(disk, rootPath, path, ignored, items[0]).0, rootPath, path, ignored, items[1..]).0
  {
  }

  /** The loop of contentsOfDirectoryAtPath keeps "what was emitted, then what the rest emits" equal to the whole. */
  lemma MaterialiseAdvance(whole: (Disk, seq<Event>), disk: Disk, emitted: seq<Event>, rootPath: string, path: string,
                           ignored: seq<string>, items: seq<RemoteItem>, i: nat)
    requires i < |items|
    requires whole.0 == Materialise(disk, rootPath, path, ignored, items[i..]).0
    requires whole.1 == emitted + Materialise(disk, rootPath, path, ignored, items[i..]).1
    ensures var first := MaterialiseItem(disk, rootPath, path, ignored, items[i]);
            && whole.0 == Materialise(first.0, rootPath, path, ignored, items[i + 1..]).0
            && whole.1 == (emitted + first.1) + Materialise(first.0, rootPath, path, ignored, items[i + 1..]).1
  {
    MaterialiseUnfold(disk, rootPath, path, ignored, items, i);
    var first := MaterialiseItem(disk, rootPath, path, ignored, items[i]);
    ConcatAssoc(emitted, first.1, Materialise(first.0, rootPath, path, ignored, items[i + 1..]).1);
  }

  /** Paths that already exist are left untouched, and nothing is ever removed. */
  lemma {:induction false} MaterialiseKeepsExisting(disk: Disk, rootPath: string, path: string,
                                                   ignored: seq<string>, items: seq<RemoteItem>)
    ensures var after := Materialise(disk, rootPath, path, ignored, items).0;
            forall p :: p in disk ==> p in after && after[p] == disk[p]
    decreases |items|
  {
    if items != [] {
      var p := Blanked(ignored, CompletePath(rootPath, path, items[0].name));
      if OnDisk(disk, p) {
        MaterialiseKeepsExisting(disk, rootPath, path, ignored, items[1..]);
      } else {
        MaterialiseKeepsExisting(Place(disk, p, items[0].itemType), rootPath, path, ignored, items[1..]);
      }
    }
  }

  /** The item of the listing that a placeholder at `p` stands for. */
  predicate PlaceholderFor(rootPath: string, path: string, ignored: seq<string>,
                           items: seq<RemoteItem>, p: string, e: Entry) {
    && p != "" && p !in ignored
    && exists i :: 0 <= i < |items| && CompletePath(rootPath, path, items[i].name) == p &&
                   items[i].itemType != ItemOther && e == Entry(KindOf(items[i].itemType), 0)
  }

  /**
   * Every path the listing adds is the completePath of a listed file or
   * directory, is not on the ignore list, and holds an empty entry of the
   * item's kind.
   */
  lemma {:induction false} MaterialiseAddsOnlyPlaceholders(disk: Disk, rootPath: string, path: string,
                                                          ignored: seq<string>, items: seq<RemoteItem>)
    ensures var after := Materialise(disk, rootPath, path, ignored, items).0;
            forall p :: p in after && p !in disk ==> PlaceholderFor(rootPath, path, ignored, items, p, after[p])
    decreases |items|
  {
    if items != [] {
      var after := Materialise(disk, rootPath, path, ignored, items).0;
      var p0 := Blanked(ignored, CompletePath(rootPath, path, items[0].name));
      var d1 := if OnDisk(disk, p0) then disk else Place(disk, p0, items[0].itemType);
      assert after == Materialise(d1, rootPath, path, ignored, items[1..]).0;
      MaterialiseAddsOnlyPlaceholders(d1, rootPath, path, ignored, items[1..]);
      MaterialiseKeepsExisting(d1, rootPath, path, ignored, items[1..]);
      forall p | p in after && p !in disk
        ensures PlaceholderFor(rootPath, path, ignored, items, p, after[p])
      {
        if p in d1 {
          PlaceholderForFirst(disk, rootPath, path, ignored, items, p);
        } else {
          PlaceholderForRest(rootPath, path, ignored, items, p, after[p]);
        }
      }
    }
  }

  /** A path the first item adds is that item's placeholder. */
  lemma PlaceholderForFirst(disk: Disk, rootPath: string, path: string, ignored: seq<string>,
                            items: seq<RemoteItem>, p: string)
    requires |items| > 0
    requires !OnDisk(disk, Blanked(ignored, CompletePath(rootPath, path, items[0].name)))
    requires p in Place(disk, Blanked(ignored, CompletePath(rootPath, path, items[0].name)), items[0].itemType)
    requires p !in disk
    ensures PlaceholderFor(rootPath, path, ignored, items, p,
                           Place(disk, Blanked(ignored, CompletePath(rootPath, path, items[0].name)), items[0].itemType)[p])
  {
    assert CompletePath(rootPath, path, items[0].name) == p;
  }

  /** A placeholder of a later item is a placeholder of the whole listing. */
  lemma PlaceholderForRest(rootPath: string, path: string, ignored: seq<string>,
                           items: seq<RemoteItem>, p: string, e: Entry)
    requires |items| > 0 && PlaceholderFor(rootPath, path, ignored, items[1..], p, e)
    ensures PlaceholderFor(rootPath, path, ignored, items, p, e)
  {
    var i :| 0 <= i < |items[1..]| && CompletePath(rootPath, path, items[1..][i].name) == p &&
             items[1..][i].itemType != ItemOther && e == Entry(KindOf(items[1..][i].itemType), 0);
    assert items[1..][i] == items[i + 1];
  }

  /**
   * Every listed file or directory whose completePath is not ignored exists
   * afterwards: it either was there already or got its placeholder.
   */
  lemma {:induction false} MaterialiseCoversListing(disk: Disk, rootPath: string, path: string,
                                                   ignored: seq<string>, items: seq<RemoteItem>, i: nat)
    requires i < |items| && items[i].itemType != ItemOther
    requires CompletePath(rootPath, path, items[i].name) !in ignored
    ensures CompletePath(rootPath, path, items[i].name) in Materialise(disk, rootPath, path, ignored, items).0
    decreases |items|
  {
    var d1 := MaterialiseItem(disk, rootPath, path, ignored, items[0]).0;
    MaterialiseFirst(disk, rootPath, path, ignored, items);
    if i == 0 {
      MaterialiseItemCovers(disk, rootPath, path, ignored, items[0]);
      MaterialiseKeepsExisting(d1, rootPath, path, ignored, items[1..]);
    } else {
      assert items[1..][i - 1] == items[i];
      MaterialiseCoversListing(d1, rootPath, path, ignored, items[1..], i - 1);
    }
  }

  /** A listed file or directory whose completePath is not ignored exists after its own step. */
  lemma MaterialiseItemCovers(disk: Disk, rootPath: string, path: string, ignored: seq<string>, item: RemoteItem)
    requires item.itemType != ItemOther
    requires CompletePath(rootPath, path, item.name) !in ignored
    ensures CompletePath(rootPath, path, item.name) in MaterialiseItem(disk, rootPath, path, ignored, item).0
  {
    var p := CompletePath(rootPath, path, item.name);
    assert Blanked(ignored, p) == p;
  }

  /** `events` is a sequence of addToFileTree/setFileRecord pairs, every record naming `directory`. */
  predicate Pairs(events: seq<Event>, directory: string) {
    && |events| % 2 == 0
    && forall k :: 0 <= k < |events| / 2 ==>
         events[2 * k].AddToFileTree? && events[2 * k + 1].SetFileRecord? && events[2 * k + 1].directory == directory
  }

  lemma PairsConcat(a: seq<Event>, b: seq<Event>, directory: string)
    requires Pairs(a, directory) && Pairs(b, directory)
    ensures Pairs(a + b, directory)
  {
    var e := a + b;
    forall k | 0 <= k < |e| / 2
      ensures e[2 * k].AddToFileTree? && e[2 * k + 1].SetFileRecord? && e[2 * k + 1].directory == directory
    {
      if 2 * k >= |a| {
        var m := k - |a| / 2;
        assert e[2 * k] == b[2 * m] && e[2 * k + 1] == b[2 * m + 1];
      }
    }
  }

  /**
   * Each item whose path did not exist (including a blanked path and an
   * item of another type) is reported by one addToFileTree and one
   * setFileRecord naming the listed directory; items already on disk are
   * reported by nothing.
   */
  lemma {:induction false} MaterialiseSignals(disk: Disk, rootPath: string, path: string,
                                             ignored: seq<string>, items: seq<RemoteItem>)
    ensures var events := Materialise(disk, rootPath, path, ignored, items).1;
            Pairs(events, rootPath + DirSlash(path)) && |events| <= 2 * |items|
    decreases |items|
  {
    if items != [] {
      var first := MaterialiseItem(disk, rootPath, path, ignored, items[0]);
      var rest := Materialise(first.0, rootPath, path, ignored, items[1..]);
      assert Materialise(disk, rootPath, path, ignored, items).1 == first.1 + rest.1;
      MaterialiseSignals(first.0, rootPath, path, ignored, items[1..]);
      MaterialiseItemSignals(disk, rootPath, path, ignored, items[0]);
      PairsConcat(first.1, rest.1, rootPath + DirSlash(path));
    }
  }

  /**
   * One item is reported by one addToFileTree/setFileRecord pair naming its
   * (possibly blanked) completePath exactly when that path does not exist,
   * and by nothing otherwise.
   */
  lemma MaterialiseItemSignals(disk: Disk, rootPath: string, path: string, ignored: seq<string>, item: RemoteItem)
    ensures var events := MaterialiseItem(disk, rootPath, path, ignored, item).1;
            Pairs(events, rootPath + DirSlash(path)) && |events| <= 2
    ensures var p := Blanked(ignored, CompletePath(rootPath, path, item.name));
            var events := MaterialiseItem(disk, rootPath, path, ignored, item).1;
            && (events != [] <==> !OnDisk(disk, p))
            && (events != [] ==> events == [AddToFileTree(item.itemType, p), SetFileRecord(item, rootPath + DirSlash(path))])
  {
    var events := MaterialiseItem(disk, rootPath, path, ignored, item).1;
    if events != [] {
      assert events[0].AddToFileTree? && events[1].SetFileRecord?;
    }
  }

  /** The item type a placeholder of this kind was created for. */
  function TypeOfKind(k: Kind): (t: ItemType)
    ensures t != ItemOther && KindOf(t) == k
  {
    match k
    case File => ItemFile
    case Dir => ItemDirectory
  }

  /**
   * The signals and the disk change agree: every non-blank path announced
   * was absent before, and for a file or directory item it holds an empty
   * entry of that kind afterwards; every path added is announced with the
   * type of its entry.
   */
  predicate AnnouncesAdditions(disk: Disk, after: Disk, events: seq<Event>) {
    && (forall e :: e in events && e.AddToFileTree? && e.path != "" ==>
          && e.path !in disk
          && (e.itemType != ItemOther ==> e.path in after && after[e.path] == Entry(KindOf(e.itemType), 0)))
    && (forall q :: q in after && q !in disk ==> AddToFileTree(TypeOfKind(after[q].kind), q) in events)
  }

  /** What the listing announces is exactly what it adds to the mirror. */
  lemma {:induction false} MaterialiseAnnouncesAdditions(disk: Disk, rootPath: string, path: string,
                                                        ignored: seq<string>, items: seq<RemoteItem>)
    ensures var r := Materialise(disk, rootPath, path, ignored, items);
            AnnouncesAdditions(disk, r.0, r.1)
    decreases |items|
  {
    if items != [] {
      var first := MaterialiseItem(disk, rootPath, path, ignored, items[0]);
      var rest := Materialise(first.0, rootPath, path, ignored, items[1..]);
      var after := rest.0;
      var events := first.1 + rest.1;
      assert Materialise(disk, rootPath, path, ignored, items) == (after, events);
      MaterialiseAnnouncesAdditions(first.0, rootPath, path, ignored, items[1..]);
      MaterialiseItemSignals(disk, rootPath, path, ignored, items[0]);
      MaterialiseKeepsExisting(first.0, rootPath, path, ignored, items[1..]);
      MaterialiseItemGrows(disk, rootPath, path, ignored, items[0]);
      var p := Blanked(ignored, CompletePath(rootPath, path, items[0].name));
      forall e | e in events && e.AddToFileTree? && e.path != ""
        ensures e.path !in disk
        ensures e.itemType != ItemOther ==> e.path in after && after[e.path] == Entry(KindOf(e.itemType), 0)
      {
        if e in first.1 {
          assert e == AddToFileTree(items[0].itemType, p);
        } else {
          assert e in rest.1;
        }
      }
      forall q | q in after && q !in disk
        ensures AddToFileTree(TypeOfKind(after[q].kind), q) in events
      {
        if q in first.0 {
          assert q == p && first.1 != [];
          assert first.1[0] in events;
        } else {
          assert AddToFileTree(TypeOfKind(after[q].kind), q) in rest.1;
        }
      }
    }
  }

  /**
   * One item adds at most its own completePath, as an empty entry of its
   * kind, and removes nothing.
   */
  lemma MaterialiseItemGrows(disk: Disk, rootPath: string, path: string, ignored: seq<string>, item: RemoteItem)
    ensures var p := Blanked(ignored, CompletePath(rootPath, path, item.name));
            var d := MaterialiseItem(disk, rootPath, path, ignored, item).0;
            && (forall q :: q in disk ==> q in d && d[q] == disk[q])
            && (forall q :: q in d && q !in disk ==> q == p && item.itemType != ItemOther && d[q] == Entry(KindOf(item.itemType), 0))
  {
  }

  /** An empty listing changes nothing and signals nothing. */
  lemma EmptyListingChangesNothing(disk: Disk, rootPath: string, path: string, ignored: seq<string>)
    ensures Materialise(disk, rootPath, path, ignored, []) == (disk, [])
  {
  }

  /**
   * The ignore-list entry MirrorMoveFile records for a moved file, as
   * written: transformPath of the Dokan name, which keeps its "\"
   * separators.
   */
  function IgnoredEntryAsWritten(appData: string, oldFileName: string): (r: string)
    ensures CachePrefix(appData) <= r
  {
    TransformPath(appData, oldFileName)
  }

  /**
   * As written, the entry of a file moved out of a subdirectory never equals
   * a completePath (which only has "/" separators), so a listing of that
   * subdirectory recreates the placeholder of the moved file.
   */
  lemma NestedEntryNeverMatches(appData: string, oldFileName: string, rootPath: string, path: string, name: string)
    requires |oldFileName| > 0 && '\\' in oldFileName[1..]
    requires '\\' !in rootPath && '\\' !in path && '\\' !in name
    ensures IgnoredEntryAsWritten(appData, oldFileName) != CompletePath(rootPath, path, name)
  {
    var k :| 0 <= k < |oldFileName[1..]| && oldFileName[1..][k] == '\\';
    var entry := IgnoredEntryAsWritten(appData, oldFileName);
    assert entry[|CachePrefix(appData)| + k] == '\\';
    var cp := CompletePath(rootPath, path, name);
    assert cp == TrimmedRoot(rootPath) + DirSlash(path) + name;
    assert '\\' !in TrimmedRoot(rootPath);
    assert '\\' !in DirSlash(path);
    assert '\\' !in cp;
  }

  /** A concrete instance: "\d\a" moved, the listing of "/d" under the cache root of "C:". */
  lemma NestedEntryExample()
    ensures IgnoredEntryAsWritten("C:", "\\d\\a") == "C:/cachedFiles/d\\a"
    ensures CompletePath(CacheRoot("C:"), "/d", "a") == "C:/cachedFiles/d/a"
    ensures IgnoredEntryAsWritten("C:", "\\d\\a") != CompletePath(CacheRoot("C:"), "/d", "a")
  {
    assert "\\d\\a"[1..] == "d\\a";
    assert TrimmedRoot(CacheRoot("C:")) == "C:/cachedFiles";
    assert DirSlash("/d") == "/d/";
  }

  /** The ignore-list entry with the separators normalised before transformPath, as the listing writes paths. */
  function IgnoredEntry(appData: string, oldFileName: string): (r: string)
    ensures CachePrefix(appData) <= r
  {
    TransformPath(appData, ToSlash(oldFileName))
  }

  /** The slash form of a child's Dokan name starts with "/" and is the directory, a "/", the name. */
  lemma SlashedChild(dir: string, name: string)
    requires |dir| > 0 && dir[0] == '\\' && '/' !in dir && '\\' !in name
    ensures ToSlash(Child(dir, name)) == DirSlash(ToSlash(dir)) + name
    ensures ToSlash(Child(dir, name))[0] == '/'
  {
    ChildSlash(dir, name);
    ToSlashAt(dir, 0);
  }

  /** The cache prefix in front of a "/"-led tail without its "/" is the cache root in front of the tail. */
  lemma CacheJoin(appData: string, tail: string)
    requires |tail| > 0 && tail[0] == '/'
    ensures CachePrefix(appData) + tail[1..] == TrimmedRoot(CacheRoot(appData)) + tail
  {
    var root := CacheRoot(appData);
    assert root[|root| - 1] == 's';
    assert tail == "/" + tail[1..];
  }

  /**
   * The corrected entry of a file `name` moved out of directory `dir` is
   * exactly the completePath a later listing of that directory computes,
   * when the mount root is the cache directory.
   */
  lemma IgnoredEntryMatchesPlaceholder(appData: string, dir: string, name: string)
    requires |dir| > 0 && dir[0] == '\\' && '/' !in dir && '\\' !in name
    ensures IgnoredEntry(appData, Child(dir, name)) == CompletePath(CacheRoot(appData), ToSlash(dir), name)
  {
    SlashedChild(dir, name);
    CacheJoin(appData, ToSlash(Child(dir, name)));
    ConcatAssoc(TrimmedRoot(CacheRoot(appData)), DirSlash(ToSlash(dir)), name);
  }

  /** For a name directly under the drive root the correction changes nothing. */
  lemma IgnoredEntryAgreesAtTopLevel(appData: string, name: string)
    requires '\\' !in name
    ensures IgnoredEntry(appData, "\\" + name) == IgnoredEntryAsWritten(appData, "\\" + name)
  {
    ToSlashConcat("\\", name);
    ToSlashSeparator();
    ToSlashIdentity(name);
    assert ("/" + name)[1..] == name && ("\\" + name)[1..] == name;
  }

  /**
   * A file moved out of `dir` (its corrected entry on the ignore list) is not
   * recreated by the next listing of `dir` under the cache root.
   */
  lemma MovedFileNotRecreated(disk: Disk, appData: string, dir: string, name: string,
                              ignored: seq<string>, items: seq<RemoteItem>)
    requires |dir| > 0 && dir[0] == '\\' && '/' !in dir && '\\' !in name
    requires IgnoredEntry(appData, Child(dir, name)) in ignored
    requires CompletePath(CacheRoot(appData), ToSlash(dir), name) !in disk
    ensures CompletePath(CacheRoot(appData), ToSlash(dir), name) !in
              Materialise(disk, CacheRoot(appData), ToSlash(dir), ignored, items).0
  {
    IgnoredEntryMatchesPlaceholder(appData, dir, name);
    MaterialiseAddsOnlyPlaceholders(disk, CacheRoot(appData), ToSlash(dir), ignored, items);
  }
}
