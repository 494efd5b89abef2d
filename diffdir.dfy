/**
  The decision logic of diff-dir: classify an entry (file_lstat), compare one
  entry against its mirror (check_same), walk a directory recursively
  (compare), validate the arguments (test_args) and run the two passes
  (main). Lines the program prints on standard output are returned as a
  sequence of events; a routine's 0/1 return value is a Status.
 */
module DiffDir {
  import opened FileSystem

  datatype Option<T> = None | Some(value: T)

  /** One line on standard output: "MISSING: <path>" or "DIFFERS: <path>". */
  datatype Event = Missing(path: Path) | Differs(path: Path)

  /** 0 (Ok) or 1 (Fatal), as every routine of the program returns. */
  datatype Status = Ok | Fatal

  /** A routine's status and the lines it printed, in order. Output is not
      rolled back: a Fatal report keeps the lines printed before the failure. */
  datatype Report = Report(status: Status, out: seq<Event>)

  /** The lines `before` were printed ahead of the routine that produced `r`. */
  function Then(before: seq<Event>, r: Report): Report
  {
    Report(r.status, before + r.out)
  }

  // ---------------------------------------------------------------------------
  // file_lstat

  /** file_lstat: 0 for a regular file; with mustExist every other outcome is
      fatal (1); otherwise -1 for ENOENT, -2 for an existing non-regular entry
      and 1 for any other error. */
  function FileLstat(fs: Snapshot, path: Path, mustExist: bool): (r: int)
    ensures r == 0 <==> IsRegular(Lstat(fs, path))
    ensures mustExist ==> r == 0 || r == 1
    ensures !mustExist ==> (r == -1 <==> Lstat(fs, path) == Failed(NoEntry))
    ensures !mustExist ==> (r == -2 <==> Lstat(fs, path).Found? && !Lstat(fs, path).node.Reg?)
    ensures !mustExist ==> (r == 1 <==> Lstat(fs, path) == Failed(OtherError))
  {
    match Lstat(fs, path)
    case Failed(e) => if mustExist || e != NoEntry then 1 else -1
    case Found(n) => if !n.Reg? then (if mustExist then 1 else -2) else 0
  }

  // ---------------------------------------------------------------------------
  // check_same

  /** Identity of two regular files as the program sees it: both regular,
      same st_size, same st_mtime seconds. */
  predicate SameStamp(self: Node, other: Node)
    requires self.Reg?
  {
    other.Reg? && other.size == self.size && other.mtime == self.mtime
  }

  /** One of the two probes the program uses said ENOENT for `p`. */
  predicate ReportedAbsent(fs: Snapshot, p: Path)
  {
    Lstat(fs, p) == Failed(NoEntry) || ProbeAccess(fs, p) == Inaccessible(NoEntry)
  }

  /** `self` is a regular file and `other` exists but is not a regular file
      with the same size and mtime. */
  predicate DiffersFrom(fs: Snapshot, self: Path, other: Path)
  {
    IsRegular(Lstat(fs, self)) && Lstat(fs, other).Found?
    && !SameStamp(Lstat(fs, self).node, Lstat(fs, other).node)
  }

  /** check_same takes its existence-only branch in the reverse pass and for
      every entry whose readdir tag is not DT_REG. */
  predicate ExistenceOnly(firstPass: bool, checkSize: bool)
  {
    !firstPass || !checkSize
  }

  /** check_same: compare `path1` (self) with its mirror `path2` (other).
      MISSING always names `path2`, DIFFERS always names `path1`. */
  function CheckSame(fs: Snapshot, path1: Path, path2: Path, firstPass: bool, checkSize: bool): (r: Report)
    ensures |r.out| <= 1
    ensures r.status == Fatal ==> r.out == []
    ensures forall e :: e in r.out ==>
      || (e == Missing(path2) && ReportedAbsent(fs, path2))
      || (e == Differs(path1) && !ExistenceOnly(firstPass, checkSize) && DiffersFrom(fs, path1, path2))
    // existence-only branch: access(path2, F_OK)
    ensures ExistenceOnly(firstPass, checkSize) ==>
      && (r == Report(Ok, []) <==> ProbeAccess(fs, path2) == Accessible)
      && (r == Report(Ok, [Missing(path2)]) <==> ProbeAccess(fs, path2) == Inaccessible(NoEntry))
      && (r == Report(Fatal, []) <==> ProbeAccess(fs, path2) == Inaccessible(OtherError))
    // full branch: lstat both sides
    ensures !ExistenceOnly(firstPass, checkSize) && !IsRegular(Lstat(fs, path1)) ==> r == Report(Fatal, [])
    ensures !ExistenceOnly(firstPass, checkSize) && IsRegular(Lstat(fs, path1)) ==>
      && (Lstat(fs, path2) == Failed(NoEntry) ==> r == Report(Ok, [Missing(path2)]))
      && (Lstat(fs, path2) == Failed(OtherError) ==> r == Report(Fatal, []))
      && (Lstat(fs, path2).Found? ==>
            && r.status == Ok
            && (r.out == [Differs(path1)] <==> !SameStamp(Lstat(fs, path1).node, Lstat(fs, path2).node))
            && (r.out == [] <==> SameStamp(Lstat(fs, path1).node, Lstat(fs, path2).node)))
  {
    if ExistenceOnly(firstPass, checkSize) then
      match ProbeAccess(fs, path2)
      case Accessible => Report(Ok, [])
      case Inaccessible(OtherError) => Report(Fatal, [])
      case Inaccessible(NoEntry) => Report(Ok, [Missing(path2)])
    else if FileLstat(fs, path1, true) != 0 then
      Report(Fatal, [])
    else
      var self := fs.nodes[path1];
      var err := FileLstat(fs, path2, false);
      if err == 1 then Report(Fatal, [])
      else if err == -1 then Report(Ok, [Missing(path2)])
      else if err == -2 || self.size != fs.nodes[path2].size || self.mtime != fs.nodes[path2].mtime then
        Report(Ok, [Differs(path1)])
      else Report(Ok, [])
  }

  // ---------------------------------------------------------------------------
  // compare: specification

  predicate IsDot(name: string)
  {
    name == "." || name == ".."
  }

  /** sprintf("%s/%s", dir, name): plain concatenation, no normalisation. */
  function Child(dir: Path, name: string): (p: Path)
    ensures |p| == |dir| + 1 + |name| && p[..|dir|] == dir && p[|dir|] == '/' && p[|dir| + 1..] == name
  {
    dir + "/" + name
  }

  /** `p` names something strictly inside `dir`: it starts with dir + "/". */
  predicate Under(p: Path, dir: Path)
  {
    |dir| < |p| && p[..|dir| + 1] == dir + "/"
  }

  /** What a line printed while walking `dir1` against `dir2` means: MISSING
      names a path under `dir2` that a probe found absent; DIFFERS names, in the
      forward pass only, a regular file under `dir1` whose mirror under `dir2`
      exists but is not a regular file of the same size and mtime. */
  predicate SoundEvent(fs: Snapshot, dir1: Path, dir2: Path, firstPass: bool, e: Event)
  {
    match e
    case Missing(p) => Under(p, dir2) && ReportedAbsent(fs, p)
    case Differs(p) => firstPass && Under(p, dir1) && DiffersFrom(fs, p, dir2 + p[|dir1|..])
  }

  /** The directories opendir can open whose paths are at least as long as
      `dir`. A walk only descends into longer paths, so this set shrinks. */
  function Below(fs: Snapshot, dir: Path): set<Path>
  {
    set p | p in fs.listing && |p| >= |dir|
  }

  lemma BelowShrinks(fs: Snapshot, dir: Path, child: Path)
    requires dir in fs.listing && |child| > |dir|
    ensures Below(fs, child) < Below(fs, dir)
  {
    assert dir in Below(fs, dir) - Below(fs, child);
  }

  /** A path under dir1/name is under dir1, and its mirror under dir2 is the
      same whether it is taken from (dir1, dir2) or from (dir1/name, dir2/name). */
  lemma ChildPathShift(dir1: Path, dir2: Path, name: string, p: Path)
    requires Under(p, Child(dir1, name))
    ensures Under(p, dir1)
    ensures dir2 + p[|dir1|..] == Child(dir2, name) + p[|Child(dir1, name)|..]
  {
  }

  /** A line that is sound for the walk of (dir1/name, dir2/name) is sound for
      the walk of (dir1, dir2). */
  lemma SoundInParent(fs: Snapshot, dir1: Path, dir2: Path, name: string, firstPass: bool, e: Event)
    requires SoundEvent(fs, Child(dir1, name), Child(dir2, name), firstPass, e)
    ensures SoundEvent(fs, dir1, dir2, firstPass, e)
  {
    match e
    case Missing(p) => ChildPathShift(dir2, dir1, name, p);
    case Differs(p) => ChildPathShift(dir1, dir2, name, p);
  }

  /** compare(dir1, dir2, firstPass) over the snapshot: opendir fails
      (Fatal) or every entry of the listing is visited in order. */
  function Walk(fs: Snapshot, dir1: Path, dir2: Path, firstPass: bool): (r: Report)
    ensures forall e :: e in r.out ==> SoundEvent(fs, dir1, dir2, firstPass, e)
    decreases Below(fs, dir1), 1, 0
  {
    if dir1 !in fs.listing then Report(Fatal, [])
    else WalkEntries(fs, dir1, dir2, firstPass, fs.listing[dir1])
  }

  /** The readdir loop from a given point on: "." and ".." are skipped, the
      first Fatal stops it, otherwise the lines are concatenated in order. */
  function WalkEntries(fs: Snapshot, dir1: Path, dir2: Path, firstPass: bool, entries: seq<DirEntry>): (r: Report)
    requires dir1 in fs.listing
    ensures forall e :: e in r.out ==> SoundEvent(fs, dir1, dir2, firstPass, e)
    decreases Below(fs, dir1), 0, |entries|
  {
    if entries == [] then Report(Ok, [])
    else if IsDot(entries[0].name) then WalkEntries(fs, dir1, dir2, firstPass, entries[1..])
    else
      var first := Visit(fs, dir1, dir2, firstPass, entries[0]);
      if first.status == Fatal then first
      else Then(first.out, WalkEntries(fs, dir1, dir2, firstPass, entries[1..]))
  }

  /** One iteration of the readdir loop on a named entry: a DT_DIR entry is
      walked recursively, any other entry goes to check_same, with checkSize
      true exactly for DT_REG. */
  function Visit(fs: Snapshot, dir1: Path, dir2: Path, firstPass: bool, entry: DirEntry): (r: Report)
    requires dir1 in fs.listing
    ensures forall e :: e in r.out ==> SoundEvent(fs, dir1, dir2, firstPass, e)
    decreases Below(fs, dir1), 0, 0
  {
    var path1, path2 := Child(dir1, entry.name), Child(dir2, entry.name);
    if entry.tag == DtDir then
      BelowShrinks(fs, dir1, path1);
      var r := Walk(fs, path1, path2, firstPass);
      assert forall e :: e in r.out ==> SoundEvent(fs, dir1, dir2, firstPass, e) by {
        forall e | e in r.out ensures SoundEvent(fs, dir1, dir2, firstPass, e) {
          SoundInParent(fs, dir1, dir2, entry.name, firstPass, e);
        }
      }
      r
    else
      assert Under(path2, dir2) && dir2 + path1[|dir1|..] == path2 by {
        assert path2[..|dir2| + 1] == dir2 + "/";
        assert path1[|dir1|..] == "/" + entry.name;
      }
      CheckSame(fs, path1, path2, firstPass, entry.tag == DtReg)
  }

  // ---------------------------------------------------------------------------
  // compare: the readdir loop

  /** compare: open `dir1`, visit its entries in readdir order, and return 1
      at the first fatal result. */
  method Compare(fs: Snapshot, dir1: Path, dir2: Path, firstPass: bool) returns (status: Status, out: seq<Event>)
    ensures Report(status, out) == Walk(fs, dir1, dir2, firstPass)
    decreases Below(fs, dir1)
  {
    if dir1 !in fs.listing {
      return Fatal, [];
    }
    var entries := fs.listing[dir1];
    out := [];
    var i := 0;
    while i < |entries|
      invariant 0 <= i <= |entries|
      invariant Walk(fs, dir1, dir2, firstPass) == Then(out, WalkEntries(fs, dir1, dir2, firstPass, entries[i..]))
    {
      var entry := entries[i];
      assert entries[i..][1..] == entries[i + 1..];
      i := i + 1;
      if IsDot(entry.name) {
        continue;
      }
      var path1, path2 := Child(dir1, entry.name), Child(dir2, entry.name);
      var st: Status, lines: seq<Event>;
      if entry.tag == DtDir {
        BelowShrinks(fs, dir1, path1);
        st, lines := Compare(fs, path1, path2, firstPass);
      } else {
        var r := CheckSame(fs, path1, path2, firstPass, entry.tag == DtReg);
        st, lines := r.status, r.out;
      }
      out := out + lines;
      if st == Fatal {
        return Fatal, out;
      }
    }
    return Ok, out;
  }

  // ---------------------------------------------------------------------------
  // test_args

  /** One root as test_args checks it: lstat (which does not follow a
      symbolic link) says directory, and realpath resolves it. */
  predicate RootAccepted(fs: Snapshot, arg: Path)
  {
    Lstat(fs, arg) == Found(Dir) && arg in fs.canonical
  }

  /** test_args succeeds: exactly two arguments after the program name, both
      accepted roots, with different canonical paths. */
  predicate ArgsAccepted(fs: Snapshot, argv: seq<string>)
  {
    && |argv| == 3
    && RootAccepted(fs, argv[1])
    && RootAccepted(fs, argv[2])
    && fs.canonical[argv[1]] != fs.canonical[argv[2]]
  }

  /** test_args: the arity check, then lstat and realpath on each argument in
      turn, then the comparison of the two canonical paths. */
  method TestArgs(fs: Snapshot, argv: seq<string>) returns (status: Status)
    ensures status == Ok <==> ArgsAccepted(fs, argv)
  {
    if |argv| != 3 {
      return Fatal;
    }
    var canon: seq<Path> := [];
    for i := 1 to 3
      invariant |canon| == i - 1
      invariant forall j :: 1 <= j < i ==> RootAccepted(fs, argv[j]) && canon[j - 1] == fs.canonical[argv[j]]
    {
      var st := Lstat(fs, argv[i]);
      if st.Failed? {
        return Fatal;
      }
      if !st.node.Dir? {
        return Fatal;
      }
      if argv[i] !in fs.canonical {
        return Fatal;
      }
      canon := canon + [fs.canonical[argv[i]]];
    }
    if canon[0] == canon[1] {
      return Fatal;
    }
    return Ok;
  }

  // ---------------------------------------------------------------------------
  // main: trailing '/' removal

  /** `r` is `s` with only '/' characters removed from its end. */
  predicate DropsTrailingSlashes(s: string, r: string)
  {
    r <= s && forall k :: |r| <= k < |s| ==> s[k] == '/'
  }

  /** `r` is the longest prefix of `s` that does not end in '/'. */
  predicate LongestNonSlashPrefix(s: string, r: string)
  {
    DropsTrailingSlashes(s, r) && |r| > 0 && r[|r| - 1] != '/'
  }

  /** The loops of main as written: drop the last character while it is '/'.
      None when the loop empties the string and then evaluates
      argv[i][strlen(argv[i]) - 1], which reads before the argument. */
  function TrimAsWritten(s: string): (r: Option<string>)
    ensures r.None? <==> forall k :: 0 <= k < |s| ==> s[k] == '/'
    ensures r.Some? ==> LongestNonSlashPrefix(s, r.value)
  {
    if |s| == 0 then None
    else if s[|s| - 1] == '/' then TrimAsWritten(s[..|s| - 1])
    else Some(s)
  }

  /** The trailing-'/' removal main evidently intends: as written, except that
      the first character is never removed, so "/" stays the root directory. */
  function Trimmed(s: string): (r: string)
    ensures DropsTrailingSlashes(s, r)
    ensures |s| > 0 ==> |r| > 0
    ensures |r| > 1 ==> r[|r| - 1] != '/'
  {
    if |s| > 1 && s[|s| - 1] == '/' then Trimmed(s[..|s| - 1]) else s
  }

  /** The loop of main with the emptiness guard added. */
  method StripTrailingSlashes(arg: string) returns (r: string)
    ensures r == Trimmed(arg)
  {
    r := arg;
    while |r| > 1 && r[|r| - 1] == '/'
      invariant Trimmed(r) == Trimmed(arg)
    {
      r := r[..|r| - 1];
    }
  }

  // ---------------------------------------------------------------------------
  // main

  /** main: validate, strip trailing '/', run the forward pass (full check)
      and, only if it succeeded, the reverse pass (existence only). Returns
      the exit status and everything printed on standard output. */
  method Run(fs: Snapshot, argv: seq<string>) returns (exit: int, out: seq<Event>)
    ensures exit == 0 || exit == 1
    ensures !ArgsAccepted(fs, argv) ==> exit == 1 && out == []
    ensures ArgsAccepted(fs, argv) ==>
      var root1, root2 := Trimmed(argv[1]), Trimmed(argv[2]);
      var forward := Walk(fs, root1, root2, true);
      var reverse := Walk(fs, root2, root1, false);
      if forward.status == Fatal then exit == 1 && out == forward.out
      else out == forward.out + reverse.out && (exit == 0 <==> reverse.status == Ok)
    ensures ArgsAccepted(fs, argv) ==>
      var root1, root2 := Trimmed(argv[1]), Trimmed(argv[2]);
      forall e :: e in out[|Walk(fs, root1, root2, true).out|..] ==> e.Missing? && Under(e.path, root1)
  {
    var st := TestArgs(fs, argv);
    if st == Fatal {
      return 1, [];
    }
    var root1 := StripTrailingSlashes(argv[1]);
    var root2 := StripTrailingSlashes(argv[2]);
    var forwardOut: seq<Event>;
    st, forwardOut := Compare(fs, root1, root2, true);
    if st == Fatal {
      return 1, forwardOut;
    }
    var reverseOut: seq<Event>;
    st, reverseOut := Compare(fs, root2, root1, false);
    out := forwardOut + reverseOut;
    assert out[|forwardOut|..] == reverseOut;
    exit := if st == Fatal then 1 else 0;
  }
}
