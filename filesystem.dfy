/**
  A fixed snapshot of a POSIX filesystem, seen only through the four calls
  diff-dir makes: lstat(2), access(2) with F_OK, opendir(3)/readdir(3) and
  realpath(3). Nothing changes while a run is in progress.
 */
module FileSystem {

  type Path = string

  /** The errno of a failed call, reduced to what the program distinguishes. */
  datatype Errno = NoEntry | OtherError

  /** What lstat(2) reports for an existing path: a regular file with its
      st_size and the seconds part of st_mtime, a directory, or anything else
      (symbolic link, device, fifo, socket). */
  datatype Node = Reg(size: int, mtime: int) | Dir | Other

  datatype Stat = Found(node: Node) | Failed(errno: Errno)

  datatype Access = Accessible | Inaccessible(errno: Errno)

  /** The d_type tag readdir(3) attaches to an entry. */
  datatype EntryType = DtDir | DtReg | DtUnknown | DtOther

  datatype DirEntry = DirEntry(name: string, tag: EntryType)

  /**
    nodes:        paths lstat(2) succeeds on, and what it reports.
    statErrors:   paths lstat(2) fails on with an errno other than ENOENT
                  (EACCES on a parent, ENAMETOOLONG, ...); every other path
                  is ENOENT.
    accessErrors: paths where access(2), which follows symbolic links,
                  disagrees with lstat(2): a dangling link (ENOENT), a link
                  loop (ELOOP).
    listing:      directories opendir(3) can open, with the entries readdir(3)
                  yields, in its order, "." and ".." included.
    canonical:    paths realpath(3) resolves, and the canonical path.
   */
  datatype Snapshot = Snapshot(
    nodes: map<Path, Node>,
    statErrors: set<Path>,
    accessErrors: map<Path, Errno>,
    listing: map<Path, seq<DirEntry>>,
    canonical: map<Path, Path>)

  /** lstat(2): does not follow a final symbolic link. */
  function Lstat(fs: Snapshot, p: Path): (s: Stat)
    ensures s.Found? <==> p in fs.nodes
    ensures s == Failed(NoEntry) <==> p !in fs.nodes && p !in fs.statErrors
  {
    if p in fs.nodes then Found(fs.nodes[p])
    else if p in fs.statErrors then Failed(OtherError)
    else Failed(NoEntry)
  }

  /** access(path, F_OK): follows symbolic links, so it agrees with lstat(2)
      except where accessErrors says otherwise. */
  function ProbeAccess(fs: Snapshot, p: Path): (a: Access)
    ensures p !in fs.accessErrors ==> (a == Accessible <==> p in fs.nodes)
    ensures p !in fs.accessErrors && Lstat(fs, p).Failed? ==> a == Inaccessible(Lstat(fs, p).errno)
  {
    if p in fs.accessErrors then Inaccessible(fs.accessErrors[p])
    else match Lstat(fs, p)
      case Found(_) => Accessible
      case Failed(e) => Inaccessible(e)
  }

  predicate IsRegular(s: Stat)
  {
    s.Found? && s.node.Reg?
  }
}
