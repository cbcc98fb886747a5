/** The abstract filesystem the walker observes. Each of the two trees is a finite map
    from a path RELATIVE to its root ("" is the root itself) to what the system calls
    report for that path: lstat(2), getdents(2) through readdirnames, and the outcomes of
    open(2), mmap(2) and readlink(2) that the content comparator needs. */
module Fs {
  import opened Base

  /** errno value that os.IsNotExist recognises. */
  const ENOENT: nat := 2

  /** The part of an lstat record that the core reads (syscall.Stat_t fields and the
      FileInfo type bits), together with the timestamps that it deliberately ignores. */
  datatype Stat = Stat(
    isDir: bool, isSymlink: bool,
    mode: int, uid: int, gid: int, rdev: int, size: int,
    dev: int, ino: int,
    atime: int, mtime: int, ctime: int)

  /** One directory entry as readdirnames returns it. */
  datatype NameIno = NameIno(name: string, ino: int)

  /** What listing a directory gives: its entries, or the errno of the failure. */
  datatype Listing = Names(entries: seq<NameIno>) | ListFailed(errno: nat)

  /** What opening (which follows a symlink), mapping the size bytes the walker passes
      (a symlink's own lstat size) and reading the link target of a path give. */
  datatype Content = Content(openOk: bool, mapped: Option<seq<byte>>, target: Option<string>)

  /** A path that exists, or one whose lstat fails with the given errno. */
  datatype Node =
    | Entry(stat: Stat, listing: Listing, content: Content)
    | Unstatable(errno: nat)

  type FS = map<string, Node>

  datatype LstatResult = Found(stat: Stat) | LstatFailed(errno: nat)

  datatype ReaddirResult = ReadOk(entries: seq<NameIno>) | ReadFailed(errno: nat)

  /** os.Lstat: a path missing from the tree fails with ENOENT. */
  function Lstat(fs: FS, path: string): (r: LstatResult)
    ensures r.Found? <==> path in fs && fs[path].Entry?
    ensures r.Found? ==> r.stat == fs[path].stat
    ensures path !in fs ==> r == LstatFailed(ENOENT)
  {
    if path !in fs then LstatFailed(ENOENT)
    else match fs[path]
      case Entry(st, _, _) => Found(st)
      case Unstatable(e) => LstatFailed(e)
  }

  /** os.IsNotExist on the errno of a failed call. */
  predicate IsNotExist(errno: nat) {
    errno == ENOENT
  }

  /** readdirnames: the entries of an existing directory, or the errno of the failure. */
  function Readdirnames(fs: FS, path: string): (r: ReaddirResult)
    ensures r.ReadOk? <==> path in fs && fs[path].Entry? && fs[path].listing.Names?
    ensures r.ReadOk? ==> r.entries == fs[path].listing.entries
  {
    if path !in fs then ReadFailed(ENOENT)
    else match fs[path]
      case Entry(_, Names(entries), _) => ReadOk(entries)
      case Entry(_, ListFailed(e), _) => ReadFailed(e)
      case Unstatable(e) => ReadFailed(e)
  }

  /** filepath.Join for a directory-relative path and an entry name that holds no
      separator: the empty path joins to the name itself. */
  function Join(path: string, name: string): (r: string)
    ensures |r| == if path == "" then |name| else |path| + 1 + |name|
  {
    if path == "" then name else path + "/" + name
  }

  /** A joined path starts with the directory's path and a separator, or is the name
      itself at the root. */
  lemma JoinPrefix(path: string, name: string)
    ensures path == "" ==> Join(path, name) == name
    ensures path != "" ==>
      Join(path, name)[..|path|] == path && Join(path, name)[|path|] == '/' && Join(path, name)[|path| + 1..] == name
  {
  }

  /** The file-type bits of st_mode (S_IFMT) and the three types the core tells apart. */
  const S_IFMT: int := 0xF000
  const S_IFDIR: int := 0x4000
  const S_IFREG: int := 0x8000
  const S_IFLNK: int := 0xA000

  /** mode & S_IFMT, for a 32-bit st_mode. */
  function TypeBits(mode: int): (t: int)
    requires 0 <= mode < 0x1_0000_0000
    ensures 0 <= t <= S_IFMT && t % 0x1000 == 0
  {
    (mode / 0x1000) % 0x10 * 0x1000
  }

  /** An lstat record as the kernel fills it: st_mode is a 32-bit value, and the
      directory and symlink bits of os.FileMode are its S_IFDIR and S_IFLNK types. */
  predicate ValidStat(st: Stat) {
    0 <= st.mode < 0x1_0000_0000 &&
    (st.isDir <==> TypeBits(st.mode) == S_IFDIR) &&
    (st.isSymlink <==> TypeBits(st.mode) == S_IFLNK)
  }

  /** An entry name as readdirnames reports it: getdents(2) never gives an empty name,
      and os.File.Readdirnames drops "." and "..". */
  predicate ValidName(name: string) {
    name != "" && name != "." && name != ".."
  }

  /** Every entry name a listing reports is valid, every lstat record is one the kernel
      can produce, and a root that lstat finds is a directory (the root is looked up as
      dir + "/", which fails with ENOTDIR for anything else). */
  ghost predicate ValidFs(fs: FS) {
    (forall p, i :: p in fs && fs[p].Entry? && fs[p].listing.Names? && 0 <= i < |fs[p].listing.entries| ==>
      ValidName(fs[p].listing.entries[i].name)) &&
    ("" in fs && fs[""].Entry? ==> fs[""].stat.isDir) &&
    (forall p :: p in fs && fs[p].Entry? ==> ValidStat(fs[p].stat))
  }
}

/** Errors the walker can return, identified by the failing call, the tree it was made
    on and the relative path, like os.PathError. */
module FsErrors {
  datatype Side = First | Second
  datatype Op = LstatOp | ReaddirOp
  datatype PathError = PathError(op: Op, side: Side, path: string, errno: nat)
}
