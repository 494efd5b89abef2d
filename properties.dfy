/**
  Properties of the directory walk, the argument handling and the trailing
  '/' removal of diff-dir, stated over the functions of module DiffDir.
 */
module DiffDirProperties {
  import opened FileSystem
  import opened DiffDir

  // ---------------------------------------------------------------------------
  // The readdir loop

  /** The loop runs over a listing piece by piece: the entries after a fatal
      result are never visited, and otherwise the printed lines of the two
      pieces follow each other. */
  lemma {:induction false} WalkEntriesAppend(fs: Snapshot, dir1: Path, dir2: Path, firstPass: bool, xs: seq<DirEntry>, ys: seq<DirEntry>)
    requires dir1 in fs.listing
    ensures WalkEntries(fs, dir1, dir2, firstPass, xs + ys) ==
      var head := WalkEntries(fs, dir1, dir2, firstPass, xs);
      if head.status == Fatal then head else Then(head.out, WalkEntries(fs, dir1, dir2, firstPass, ys))
  {
    if xs == [] {
      assert xs + ys == ys;
    } else {
      assert (xs + ys)[0] == xs[0];
      assert (xs + ys)[1..] == xs[1..] + ys;
      WalkEntriesAppend(fs, dir1, dir2, firstPass, xs[1..], ys);
    }
  }

  /** "." and ".." are skipped wherever readdir places them. */
  lemma DotEntryIgnored(fs: Snapshot, dir1: Path, dir2: Path, firstPass: bool, xs: seq<DirEntry>, dot: DirEntry, ys: seq<DirEntry>)
    requires dir1 in fs.listing && IsDot(dot.name)
    ensures WalkEntries(fs, dir1, dir2, firstPass, xs + [dot] + ys) == WalkEntries(fs, dir1, dir2, firstPass, xs + ys)
  {
    assert xs + [dot] + ys == xs + ([dot] + ys);
    WalkEntriesAppend(fs, dir1, dir2, firstPass, xs, [dot] + ys);
    assert ([dot] + ys)[1..] == ys;
    WalkEntriesAppend(fs, dir1, dir2, firstPass, xs, ys);
  }

  /** A loop that finishes without a fatal result has visited every named
      entry successfully, and prints the lines of each visit in listing
      order. */
  lemma SuccessfulLoopVisitsEntry(fs: Snapshot, dir1: Path, dir2: Path, firstPass: bool, entries: seq<DirEntry>, i: nat)
    requires dir1 in fs.listing && i < |entries| && !IsDot(entries[i].name)
    requires WalkEntries(fs, dir1, dir2, firstPass, entries).status == Ok
    ensures WalkEntries(fs, dir1, dir2, firstPass, entries[..i]).status == Ok
    ensures Visit(fs, dir1, dir2, firstPass, entries[i]).status == Ok
    ensures WalkEntries(fs, dir1, dir2, firstPass, entries).out ==
      WalkEntries(fs, dir1, dir2, firstPass, entries[..i]).out
      + Visit(fs, dir1, dir2, firstPass, entries[i]).out
      + WalkEntries(fs, dir1, dir2, firstPass, entries[i + 1..]).out
  {
    assert entries == entries[..i] + ([entries[i]] + entries[i + 1..]);
    WalkEntriesAppend(fs, dir1, dir2, firstPass, entries[..i], [entries[i]] + entries[i + 1..]);
    assert ([entries[i]] + entries[i + 1..])[0] == entries[i];
    assert ([entries[i]] + entries[i + 1..])[1..] == entries[i + 1..];
  }

  /** A successful compare of dir1 includes every line of every visit of an
      entry of dir1's listing. */
  lemma SuccessfulWalkCoversEntry(fs: Snapshot, dir1: Path, dir2: Path, firstPass: bool, i: nat)
    requires Walk(fs, dir1, dir2, firstPass).status == Ok
    ensures dir1 in fs.listing
    ensures i < |fs.listing[dir1]| && !IsDot(fs.listing[dir1][i].name) ==>
      var visit := Visit(fs, dir1, dir2, firstPass, fs.listing[dir1][i]);
      visit.status == Ok && forall e :: e in visit.out ==> e in Walk(fs, dir1, dir2, firstPass).out
  {
    if i < |fs.listing[dir1]| && !IsDot(fs.listing[dir1][i].name) {
      SuccessfulLoopVisitsEntry(fs, dir1, dir2, firstPass, fs.listing[dir1], i);
    }
  }

  /** A regular file of the first root that the forward pass reaches is
      reported MISSING (naming the second root's path) when lstat says the
      mirror is absent, and DIFFERS (naming the first root's path) when the
      mirror exists with another type, size or mtime. */
  lemma ForwardPassReportsRegularFile(fs: Snapshot, dir1: Path, dir2: Path, i: nat)
    requires Walk(fs, dir1, dir2, true).status == Ok
    requires dir1 in fs.listing && i < |fs.listing[dir1]|
    requires fs.listing[dir1][i].tag == DtReg && !IsDot(fs.listing[dir1][i].name)
    ensures var name := fs.listing[dir1][i].name;
      var path1, path2 := Child(dir1, name), Child(dir2, name);
      var out := Walk(fs, dir1, dir2, true).out;
      && IsRegular(Lstat(fs, path1))
      && (Lstat(fs, path2) == Failed(NoEntry) ==> Missing(path2) in out)
      && (DiffersFrom(fs, path1, path2) ==> Differs(path1) in out)
  {
    SuccessfulWalkCoversEntry(fs, dir1, dir2, true, i);
  }

  /** Every named non-directory entry that gets the existence-only check
      (every one in the reverse pass; in the forward pass every one not tagged
      DT_REG: symbolic links, devices, DT_UNKNOWN) is reported MISSING,
      naming the other root's path, when access(2) cannot find its mirror. */
  lemma ExistenceCheckReportsAbsentMirror(fs: Snapshot, dir1: Path, dir2: Path, firstPass: bool, i: nat)
    requires Walk(fs, dir1, dir2, firstPass).status == Ok
    requires dir1 in fs.listing && i < |fs.listing[dir1]|
    requires fs.listing[dir1][i].tag != DtDir && !IsDot(fs.listing[dir1][i].name)
    requires ExistenceOnly(firstPass, fs.listing[dir1][i].tag == DtReg)
    requires ProbeAccess(fs, Child(dir2, fs.listing[dir1][i].name)) == Inaccessible(NoEntry)
    ensures Missing(Child(dir2, fs.listing[dir1][i].name)) in Walk(fs, dir1, dir2, firstPass).out
  {
    SuccessfulWalkCoversEntry(fs, dir1, dir2, firstPass, i);
  }

  /** In the forward pass an entry whose readdir tag is not DT_REG (DT_UNKNOWN
      included) gets only the existence check: a regular file whose mirror
      differs in size or mtime goes unreported when the tag is DT_UNKNOWN. */
  lemma UnknownTagSkipsStampCheck(fs: Snapshot, dir1: Path, dir2: Path, entry: DirEntry)
    requires dir1 in fs.listing && entry.tag == DtUnknown
    requires DiffersFrom(fs, Child(dir1, entry.name), Child(dir2, entry.name))
    requires Child(dir2, entry.name) !in fs.accessErrors
    ensures Visit(fs, dir1, dir2, true, entry) == Report(Ok, [])
  {
  }

  // ---------------------------------------------------------------------------
  // Directories never produce a line of their own

  /** Every listing of the snapshot holds only directories and "."/"..". */
  predicate OnlyDirectories(fs: Snapshot)
  {
    forall d, k :: d in fs.listing && 0 <= k < |fs.listing[d]| ==>
      fs.listing[d][k].tag == DtDir || IsDot(fs.listing[d][k].name)
  }

  /** A walk through directories alone prints nothing, whatever its status:
      only check_same, called on non-directory entries, prints. */
  lemma {:induction false} DirectoriesPrintNothing(fs: Snapshot, dir1: Path, dir2: Path, firstPass: bool)
    requires OnlyDirectories(fs)
    ensures Walk(fs, dir1, dir2, firstPass).out == []
    decreases Below(fs, dir1), 1
  {
    if dir1 in fs.listing {
      DirectoryEntriesPrintNothing(fs, dir1, dir2, firstPass, fs.listing[dir1]);
    }
  }

  lemma {:induction false} DirectoryEntriesPrintNothing(fs: Snapshot, dir1: Path, dir2: Path, firstPass: bool, entries: seq<DirEntry>)
    requires OnlyDirectories(fs) && dir1 in fs.listing
    requires forall k :: 0 <= k < |entries| ==> entries[k] in fs.listing[dir1]
    ensures WalkEntries(fs, dir1, dir2, firstPass, entries).out == []
    decreases Below(fs, dir1), 0, |entries|
  {
    if entries != [] {
      var e := entries[0];
      assert forall k :: 0 <= k < |entries[1..]| ==> entries[1..][k] == entries[k + 1];
      if !IsDot(e.name) {
        var k :| 0 <= k < |fs.listing[dir1]| && fs.listing[dir1][k] == e;
        var path1 := Child(dir1, e.name);
        BelowShrinks(fs, dir1, path1);
        DirectoriesPrintNothing(fs, path1, Child(dir2, e.name), firstPass);
      }
      DirectoryEntriesPrintNothing(fs, dir1, dir2, firstPass, entries[1..]);
    }
  }

  // ---------------------------------------------------------------------------
  // Identical trees

  /** The listings agree with lstat and opendir: every name readdir yields,
      other than "." and "..", exists for lstat; a DT_DIR name can be opened
      and a DT_REG name is a regular file. */
  predicate ListingsConsistent(fs: Snapshot)
  {
    forall d, k :: d in fs.listing && 0 <= k < |fs.listing[d]| && !IsDot(fs.listing[d][k].name) ==>
      var child := Child(d, fs.listing[d][k].name);
      && child in fs.nodes
      && (fs.listing[d][k].tag == DtDir ==> child in fs.listing)
      && (fs.listing[d][k].tag == DtReg ==> fs.nodes[child].Reg?)
  }

  /** Everything under `dir1` has a mirror under `dir2` that both probes find,
      and a regular file's mirror is a regular file with the same size and
      mtime. */
  predicate Mirrored(fs: Snapshot, dir1: Path, dir2: Path)
  {
    forall q :: q in fs.nodes && Under(q, dir1) ==>
      var m := dir2 + q[|dir1|..];
      && m in fs.nodes && m !in fs.accessErrors
      && (fs.nodes[q].Reg? ==> fs.nodes[m] == fs.nodes[q])
  }

  lemma MirroredChild(fs: Snapshot, dir1: Path, dir2: Path, name: string)
    requires Mirrored(fs, dir1, dir2)
    ensures Mirrored(fs, Child(dir1, name), Child(dir2, name))
  {
    forall q | q in fs.nodes && Under(q, Child(dir1, name))
      ensures var m := Child(dir2, name) + q[|Child(dir1, name)|..];
        m in fs.nodes && m !in fs.accessErrors && (fs.nodes[q].Reg? ==> fs.nodes[m] == fs.nodes[q])
    {
      ChildPathShift(dir1, dir2, name, q);
    }
  }

  /** A walk of an openable tree against an identical one succeeds and prints
      nothing, in either pass. */
  lemma {:induction false} IdenticalTreesPrintNothing(fs: Snapshot, dir1: Path, dir2: Path, firstPass: bool)
    requires ListingsConsistent(fs) && Mirrored(fs, dir1, dir2) && dir1 in fs.listing
    ensures Walk(fs, dir1, dir2, firstPass) == Report(Ok, [])
    decreases Below(fs, dir1), 1
  {
    IdenticalEntriesPrintNothing(fs, dir1, dir2, firstPass, fs.listing[dir1]);
  }

  lemma {:induction false} IdenticalEntriesPrintNothing(fs: Snapshot, dir1: Path, dir2: Path, firstPass: bool, entries: seq<DirEntry>)
    requires ListingsConsistent(fs) && Mirrored(fs, dir1, dir2) && dir1 in fs.listing
    requires forall k :: 0 <= k < |entries| ==> entries[k] in fs.listing[dir1]
    ensures WalkEntries(fs, dir1, dir2, firstPass, entries) == Report(Ok, [])
    decreases Below(fs, dir1), 0, |entries|
  {
    if entries != [] {
      var e := entries[0];
      assert forall k :: 0 <= k < |entries[1..]| ==> entries[1..][k] == entries[k + 1];
      if !IsDot(e.name) {
        var path1, path2 := Child(dir1, e.name), Child(dir2, e.name);
        var k :| 0 <= k < |fs.listing[dir1]| && fs.listing[dir1][k] == e;
        assert path1 in fs.nodes;
        if e.tag == DtDir {
          BelowShrinks(fs, dir1, path1);
          MirroredChild(fs, dir1, dir2, e.name);
          IdenticalTreesPrintNothing(fs, path1, path2, firstPass);
        } else {
          assert Under(path1, dir1) && dir2 + path1[|dir1|..] == path2 by {
            assert path1[..|dir1| + 1] == dir1 + "/";
            assert path1[|dir1|..] == "/" + e.name;
          }
        }
      }
      IdenticalEntriesPrintNothing(fs, dir1, dir2, firstPass, entries[1..]);
    }
  }

  /** The whole program on two accepted roots whose trees mirror each other
      in both directions: exit status 0 and no output. */
  method IdenticalTreesExitZero(fs: Snapshot, argv: seq<string>) returns (exit: int, out: seq<Event>)
    requires ArgsAccepted(fs, argv) && ListingsConsistent(fs)
    requires Trimmed(argv[1]) in fs.listing && Trimmed(argv[2]) in fs.listing
    requires Mirrored(fs, Trimmed(argv[1]), Trimmed(argv[2])) && Mirrored(fs, Trimmed(argv[2]), Trimmed(argv[1]))
    ensures exit == 0 && out == []
  {
    IdenticalTreesPrintNothing(fs, Trimmed(argv[1]), Trimmed(argv[2]), true);
    IdenticalTreesPrintNothing(fs, Trimmed(argv[2]), Trimmed(argv[1]), false);
    exit, out := Run(fs, argv);
  }

  // ---------------------------------------------------------------------------
  // Every line names an entry readdir listed

  /** `p` is dir/name for a named, non-directory entry of some listing. */
  predicate Listed(fs: Snapshot, p: Path)
  {
    exists d, k :: d in fs.listing && 0 <= k < |fs.listing[d]| && !IsDot(fs.listing[d][k].name)
      && fs.listing[d][k].tag != DtDir && p == Child(d, fs.listing[d][k].name)
  }

  /** The path under the walked root that a line is about: DIFFERS names it,
      MISSING names its mirror under the other root. */
  function Subject(dir1: Path, dir2: Path, e: Event): Path
    requires e.Missing? ==> |dir2| <= |e.path|
  {
    match e
    case Differs(p) => p
    case Missing(p) => dir1 + p[|dir2|..]
  }

  /** No line is spurious: each one is about a non-directory entry that
      readdir listed under the walked root, so a directory is never
      reported itself. */
  lemma {:induction false} LinesNameListedEntries(fs: Snapshot, dir1: Path, dir2: Path, firstPass: bool)
    ensures forall e :: e in Walk(fs, dir1, dir2, firstPass).out ==> Listed(fs, Subject(dir1, dir2, e))
    decreases Below(fs, dir1), 1
  {
    if dir1 in fs.listing {
      LinesNameListedEntriesFrom(fs, dir1, dir2, firstPass, fs.listing[dir1]);
    }
  }

  lemma {:induction false} LinesNameListedEntriesFrom(fs: Snapshot, dir1: Path, dir2: Path, firstPass: bool, entries: seq<DirEntry>)
    requires dir1 in fs.listing
    requires forall k :: 0 <= k < |entries| ==> entries[k] in fs.listing[dir1]
    ensures forall e :: e in WalkEntries(fs, dir1, dir2, firstPass, entries).out ==> Listed(fs, Subject(dir1, dir2, e))
    decreases Below(fs, dir1), 0, |entries|
  {
    if entries != [] {
      var entry := entries[0];
      assert forall k :: 0 <= k < |entries[1..]| ==> entries[1..][k] == entries[k + 1];
      LinesNameListedEntriesFrom(fs, dir1, dir2, firstPass, entries[1..]);
      if !IsDot(entry.name) {
        var path1, path2 := Child(dir1, entry.name), Child(dir2, entry.name);
        var visit := Visit(fs, dir1, dir2, firstPass, entry);
        if entry.tag == DtDir {
          BelowShrinks(fs, dir1, path1);
          LinesNameListedEntries(fs, path1, path2, firstPass);
          assert visit == Walk(fs, path1, path2, firstPass);
          forall e | e in visit.out ensures Listed(fs, Subject(dir1, dir2, e)) {
            if e.Missing? {
              ChildPathShift(dir2, dir1, entry.name, e.path);
            }
            assert Subject(dir1, dir2, e) == Subject(path1, path2, e);
          }
        } else {
          var k :| 0 <= k < |fs.listing[dir1]| && fs.listing[dir1][k] == entry;
          assert Listed(fs, path1);
          assert path2[|dir2|..] == "/" + entry.name;
          assert dir1 + path2[|dir2|..] == path1;
        }
      }
    }
  }

  // ---------------------------------------------------------------------------
  // Trailing '/' removal

  /** The longest prefix not ending in '/' is unique. */
  lemma LongestNonSlashPrefixUnique(s: string, r1: string, r2: string)
    requires LongestNonSlashPrefix(s, r1) && LongestNonSlashPrefix(s, r2)
    ensures r1 == r2
  {
  }

  /** On every argument with a character other than '/', the guarded loop
      ends where the loop as written does. */
  lemma {:induction false} TrimmedAgreesWithLoopAsWritten(s: string)
    requires exists k :: 0 <= k < |s| && s[k] != '/'
    ensures TrimAsWritten(s) == Some(Trimmed(s))
  {
    var k :| 0 <= k < |s| && s[k] != '/';
    if s[|s| - 1] == '/' {
      assert |s| > 1;
      var t := s[..|s| - 1];
      assert t[k] != '/';
      TrimmedAgreesWithLoopAsWritten(t);
    }
  }

  /** A snapshot where "/" and "b" are two distinct directories. */
  function RootAndB(): Snapshot
  {
    Snapshot(
      map["/" := Dir, "b" := Dir],
      {},
      map[],
      map["/" := [], "b" := []],
      map["/" := "/", "b" := "/b"])
  }

  /** test_args accepts "/" as a root, and the loop as written then empties
      the argument and indexes before it; the guarded loop keeps "/". */
  lemma SlashRootOverrunsTrimLoop()
    ensures ArgsAccepted(RootAndB(), ["diff-dir", "/", "b"])
    ensures TrimAsWritten("/") == None
    ensures Trimmed("/") == "/" && Trimmed("b") == "b"
  {
  }

  // ---------------------------------------------------------------------------
  // Worked examples

  /** dir1 = {a/f (10 bytes, mtime 100)}, dir2 = {a/f (20 bytes, mtime 100)}. */
  function SizeExample(): Snapshot
  {
    Snapshot(
      map["dir1" := Dir, "dir1/" := Dir, "dir1/a" := Dir, "dir1/a/f" := Reg(10, 100),
          "dir2" := Dir, "dir2/a" := Dir, "dir2/a/f" := Reg(20, 100)],
      {},
      map[],
      map["dir1" := [DirEntry(".", DtDir), DirEntry("..", DtDir), DirEntry("a", DtDir)],
          "dir1/a" := [DirEntry("f", DtReg)],
          "dir2" := [DirEntry("a", DtDir)],
          "dir2/a" := [DirEntry("f", DtReg)]],
      map["dir1" := "/home/dir1", "dir1/" := "/home/dir1", "dir2" := "/home/dir2"])
  }

  /** The size difference is reported once, as DIFFERS on the first root's
      path, and the reverse pass prints nothing. */
  lemma SizeExampleOutput()
    ensures ArgsAccepted(SizeExample(), ["diff-dir", "dir1/", "dir2"])
    ensures Trimmed("dir1/") == "dir1" && Trimmed("dir2") == "dir2"
    ensures Walk(SizeExample(), "dir1", "dir2", true) == Report(Ok, [Differs("dir1/a/f")])
    ensures Walk(SizeExample(), "dir2", "dir1", false) == Report(Ok, [])
  {
    var fs := SizeExample();
    var f := DirEntry("f", DtReg);
    assert Child("dir1/a", "f") == "dir1/a/f" && Child("dir2/a", "f") == "dir2/a/f";
    assert Lstat(fs, "dir1/a/f") == Found(Reg(10, 100)) && Lstat(fs, "dir2/a/f") == Found(Reg(20, 100));
    assert Visit(fs, "dir1/a", "dir2/a", true, f) == Report(Ok, [Differs("dir1/a/f")]);
    assert WalkEntries(fs, "dir1/a", "dir2/a", true, [f]) == Report(Ok, [Differs("dir1/a/f")]);
    assert Walk(fs, "dir1/a", "dir2/a", true) == Report(Ok, [Differs("dir1/a/f")]);
    assert Child("dir1", "a") == "dir1/a" && Child("dir2", "a") == "dir2/a";
    assert Visit(fs, "dir1", "dir2", true, DirEntry("a", DtDir)) == Report(Ok, [Differs("dir1/a/f")]);
    assert Visit(fs, "dir2/a", "dir1/a", false, f) == Report(Ok, []);
    assert Walk(fs, "dir2/a", "dir1/a", false) == Report(Ok, []);
  }

  /** dir1 = {s/}, an empty directory; dir2 = {}. */
  function EmptyDirExample(): Snapshot
  {
    Snapshot(
      map["dir1" := Dir, "dir1/s" := Dir, "dir2" := Dir],
      {},
      map[],
      map["dir1" := [DirEntry("s", DtDir)], "dir1/s" := [], "dir2" := []],
      map["dir1" := "/home/dir1", "dir2" := "/home/dir2"])
  }

  /** A directory missing from the other side is not reported itself; an
      empty one goes unreported altogether. */
  lemma EmptyDirExampleOutput()
    ensures Walk(EmptyDirExample(), "dir1", "dir2", true) == Report(Ok, [])
    ensures Walk(EmptyDirExample(), "dir2", "dir1", false) == Report(Ok, [])
  {
    var fs := EmptyDirExample();
    assert Child("dir1", "s") == "dir1/s";
    assert Walk(fs, "dir1/s", Child("dir2", "s"), true) == Report(Ok, []);
    assert Visit(fs, "dir1", "dir2", true, DirEntry("s", DtDir)) == Report(Ok, []);
  }

  /** dir1 = {x.txt}, dir2 = {y.txt}. */
  function PresenceExample(): Snapshot
  {
    Snapshot(
      map["dir1" := Dir, "dir1/x.txt" := Reg(1, 1), "dir2" := Dir, "dir2/y.txt" := Reg(1, 1)],
      {},
      map[],
      map["dir1" := [DirEntry("x.txt", DtReg)], "dir2" := [DirEntry("y.txt", DtReg)]],
      map["dir1" := "/home/dir1", "dir2" := "/home/dir2"])
  }

  /** The forward pass reports dir2/x.txt missing; the reverse pass, which
      checks only existence, reports dir1/y.txt missing. */
  lemma PresenceExampleOutput()
    ensures Walk(PresenceExample(), "dir1", "dir2", true) == Report(Ok, [Missing("dir2/x.txt")])
    ensures Walk(PresenceExample(), "dir2", "dir1", false) == Report(Ok, [Missing("dir1/y.txt")])
  {
    var fs := PresenceExample();
    assert Child("dir1", "x.txt") == "dir1/x.txt" && Child("dir2", "x.txt") == "dir2/x.txt";
    assert Child("dir2", "y.txt") == "dir2/y.txt" && Child("dir1", "y.txt") == "dir1/y.txt";
    assert Lstat(fs, "dir2/x.txt") == Failed(NoEntry) && ProbeAccess(fs, "dir1/y.txt") == Inaccessible(NoEntry);
    assert Visit(fs, "dir1", "dir2", true, DirEntry("x.txt", DtReg)) == Report(Ok, [Missing("dir2/x.txt")]);
    assert Visit(fs, "dir2", "dir1", false, DirEntry("y.txt", DtReg)) == Report(Ok, [Missing("dir1/y.txt")]);
  }
}
