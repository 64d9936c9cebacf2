/**
 * The part of the operating system's filesystem that the packer, the
 * unpacker and the watchdog touch: regular files, directories with their
 * listings, and a set of paths on which every operation fails (permission
 * errors, I/O errors). Paths are byte strings joined with '/', as the source
 * builds them with fmt.Sprintf("%s%c%s", dir, os.PathSeparator, name).
 */
module Files {
  import opened Wrappers
  import opened Bytes

  type Path = Bytes
  type Name = Bytes

  /** dir + "/" + name. */
  function JoinPath(dir: Path, name: Name): (p: Path)
    ensures |p| == |dir| + 1 + |name|
  {
    dir + [Slash] + name
  }

  /** A joined path holds dir, the separator and name, in this order, and nothing else. */
  lemma JoinPathParts(dir: Path, name: Name)
    ensures var p := JoinPath(dir, name);
      p[..|dir|] == dir && p[|dir|] == Slash && p[|dir| + 1..] == name
  {
  }

  /** A name a directory listing can hold: non-empty, without '/' and without NUL. */
  predicate ValidName(n: Name)
  {
    |n| > 0 && Slash !in n && Nul !in n
  }

  /**
   * dirs maps every directory to the names it lists, in listing order;
   * faults are the paths on which stat, read, write and mkdir all fail with
   * an error other than "does not exist".
   */
  datatype Fs = Fs(files: map<Path, Bytes>, dirs: map<Path, seq<Name>>, faults: set<Path>)

  /** The error kinds of Go's os package that the source tests for. */
  datatype OsError = NotExistErr | ExistErr | OtherErr

  datatype StatResult = Found | Failed(err: OsError)

  /** os.IsNotExist on the error of a stat. */
  predicate IsNotExist(r: StatResult)
  {
    r == Failed(NotExistErr)
  }

  /** os.IsExist on the error of a stat. */
  predicate IsExist(r: StatResult)
  {
    r == Failed(ExistErr)
  }

  /** p lies below dir: it starts with dir followed by a '/'. */
  predicate Within(p: Path, dir: Path)
  {
    |p| > |dir| && p[..|dir|] == dir && p[|dir|] == Slash
  }

  /** Some regular file lies above p, so p cannot be reached (ENOTDIR). */
  predicate BelowFile(fs: Fs, p: Path)
  {
    exists q :: q in fs.files && Within(p, q)
  }

  /** No regular file lies at p or above it. */
  predicate NoFileAbove(fs: Fs, p: Path)
  {
    p !in fs.files && !BelowFile(fs, p)
  }

  /**
   * os.Stat: a successful stat, "does not exist", or some other error. A
   * path below a regular file fails with ENOTDIR, which is not "does not
   * exist".
   */
  function Stat(fs: Fs, p: Path): (r: StatResult)
    ensures r == Found <==> p !in fs.faults && (p in fs.files || p in fs.dirs)
    ensures r == Failed(NotExistErr) <==> p !in fs.faults && p !in fs.files && p !in fs.dirs && !BelowFile(fs, p)
    ensures r != Failed(ExistErr)
  {
    if p in fs.faults then Failed(OtherErr)
    else if p in fs.files || p in fs.dirs then Found
    else if BelowFile(fs, p) then Failed(OtherErr)
    else Failed(NotExistErr)
  }

  /** A name joined below a path with no file at or above it has no file above it either. */
  lemma JoinBelowNoFile(fs: Fs, dir: Path, name: Name)
    requires NoFileAbove(fs, dir) && Slash !in name
    ensures !BelowFile(fs, JoinPath(dir, name))
  {
    var p := JoinPath(dir, name);
    JoinPathParts(dir, name);
    forall q | q in fs.files && |q| < |dir|
      ensures !Within(p, q)
    {
      assert p[..|q|] == dir[..|q|];
    }
  }

  /** Adding only files below p keeps every file away from p and its ancestors. */
  lemma NoFileAboveKept(fs: Fs, out: Fs, p: Path)
    requires NoFileAbove(fs, p)
    requires forall q :: q in out.files ==> q in fs.files || Within(q, p)
    ensures NoFileAbove(out, p)
  {
  }

  /** The parent of a path below dir, itself below top, is still below top. */
  lemma ParentWithin(p: Path, dir: Path, top: Path)
    requires Within(p, dir) && Within(dir, top)
    ensures Parent(p).Some? && Within(Parent(p).value, top)
  {
    assert p[|dir|] == Slash;
    var i := LastSlash(p).value;
    assert forall j :: i < j < |p| ==> p[j] == p[i + 1..][j - i - 1];
    assert p[..|top|] == p[..|dir|][..|top|];
  }

  /** ioutil.ReadFile: the contents of a readable regular file. */
  function ReadFile(fs: Fs, p: Path): (r: Option<Bytes>)
    ensures r.Some? <==> p in fs.files && p !in fs.faults
    ensures r.Some? ==> r.value == fs.files[p]
  {
    if p in fs.files && p !in fs.faults then Some(fs.files[p]) else None
  }

  /** ioutil.ReadDir: the names in a listable directory, in listing order. */
  function ReadDir(fs: Fs, p: Path): (r: Option<seq<Name>>)
    ensures r.Some? <==> p in fs.dirs && p !in fs.faults
    ensures r.Some? ==> r.value == fs.dirs[p]
  {
    if p in fs.dirs && p !in fs.faults then Some(fs.dirs[p]) else None
  }

  /** Index of the last '/' in p. */
  function LastSlash(p: Path): (i: Option<nat>)
    ensures i.None? <==> Slash !in p
    ensures i.Some? ==> i.value < |p| && p[i.value] == Slash && Slash !in p[i.value + 1..]
  {
    if p == [] then None
    else if p[|p| - 1] == Slash then Some(|p| - 1)
    else
      var i := LastSlash(p[..|p| - 1]);
      assert i.Some? ==> p[i.value + 1..] == p[..|p| - 1][i.value + 1..] + [p[|p| - 1]];
      i
  }

  /**
   * The directory that must exist for p to be created. None stands for the
   * root directory or the working directory (p has no '/' after its first
   * byte), which always exist.
   */
  function Parent(p: Path): (d: Option<Path>)
    ensures d.Some? ==> |d.value| < |p|
  {
    match LastSlash(p)
    case Some(i) => if i > 0 then Some(p[..i]) else None
    case None => None
  }

  /** The last element of p, as its parent lists it. */
  function Leaf(p: Path): (n: Name)
    ensures Slash !in n
  {
    match LastSlash(p)
    case Some(i) => p[i + 1..]
    case None => p
  }

  /** The separator a join inserts is the last '/' of the joined path. */
  lemma {:induction false} LastSlashOfJoin(dir: Path, name: Name)
    requires Slash !in name
    ensures LastSlash(JoinPath(dir, name)) == Some(|dir|)
    decreases |name|
  {
    var p := JoinPath(dir, name);
    if name != [] {
      var front := name[..|name| - 1];
      assert p[..|p| - 1] == JoinPath(dir, front);
      LastSlashOfJoin(dir, front);
    }
  }

  lemma ParentOfJoin(dir: Path, name: Name)
    requires |dir| > 0 && Slash !in name
    ensures Parent(JoinPath(dir, name)) == Some(dir)
    ensures Leaf(JoinPath(dir, name)) == name
  {
    JoinPathParts(dir, name);
    LastSlashOfJoin(dir, name);
  }

  predicate ParentExists(fs: Fs, p: Path)
  {
    Parent(p).None? || Parent(p).value in fs.dirs
  }

  /** dirs with p's leaf appended to its parent's listing, unless it is listed already. */
  function Listed(dirs: map<Path, seq<Name>>, p: Path): (r: map<Path, seq<Name>>)
    ensures r.Keys == dirs.Keys
  {
    match Parent(p)
    case Some(d) =>
      if d in dirs && Leaf(p) !in dirs[d] then dirs[d := dirs[d] + [Leaf(p)]] else dirs
    case None => dirs
  }

  /**
   * ioutil.WriteFile: creates or truncates p and writes data. Fails when p is
   * faulty, is a directory, or its parent directory does not exist.
   */
  function WriteFile(fs: Fs, p: Path, data: Bytes): (r: (Fs, bool))
    ensures r.1 <==> p !in fs.faults && p !in fs.dirs && ParentExists(fs, p)
    ensures r.1 ==> r.0.files == fs.files[p := data] && r.0.dirs.Keys == fs.dirs.Keys
    ensures !r.1 ==> r.0 == fs
    ensures r.0.faults == fs.faults
  {
    if p !in fs.faults && p !in fs.dirs && ParentExists(fs, p) then
      (Fs(fs.files[p := data], Listed(fs.dirs, p), fs.faults), true)
    else (fs, false)
  }

  /**
   * os.Mkdir: creates the directory p with an empty listing. Fails when p is
   * faulty or exists, or its parent directory does not exist.
   */
  function Mkdir(fs: Fs, p: Path): (r: (Fs, bool))
    ensures r.1 <==> p !in fs.faults && p !in fs.dirs && p !in fs.files && ParentExists(fs, p)
    ensures r.1 ==> r.0.dirs.Keys == fs.dirs.Keys + {p} && r.0.dirs[p] == []
    ensures !r.1 ==> r.0 == fs
    ensures r.0.files == fs.files && r.0.faults == fs.faults
  {
    if p !in fs.faults && p !in fs.dirs && p !in fs.files && ParentExists(fs, p) then
      (Fs(fs.files, Listed(fs.dirs, p)[p := []], fs.faults), true)
    else (fs, false)
  }

  /**
   * os.MkdirAll: succeeds at once when p is a directory and fails when the
   * stat finds something else; otherwise creates the missing parents first
   * and then p. Parents created before a failure stay created.
   */
  function MkdirAll(fs: Fs, p: Path): (r: (Fs, bool))
    ensures r.0.files == fs.files && r.0.faults == fs.faults
    ensures fs.dirs.Keys <= r.0.dirs.Keys
    ensures r.1 ==> p in r.0.dirs
    decreases |p|
  {
    if Stat(fs, p) == Found then (fs, p in fs.dirs)
    else
      var (fs1, ok1) := if Parent(p).Some? then MkdirAll(fs, Parent(p).value) else (fs, true);
      if !ok1 then (fs1, false) else Mkdir(fs1, p)
  }

  /** s without its trailing '/' bytes. */
  function TrimTrailingSlashes(s: Path): (r: Path)
    ensures |r| <= |s| && r == s[..|r|]
    ensures r == [] || r[|r| - 1] != Slash
    ensures forall k :: |r| <= k < |s| ==> s[k] == Slash
  {
    if s == [] || s[|s| - 1] != Slash then s else TrimTrailingSlashes(s[..|s| - 1])
  }

  /**
   * filepath.Base: the last element of p after trailing slashes are removed;
   * "." for the empty path and "/" for a path of slashes only.
   */
  function Base(p: Path): (b: Name)
    ensures |b| > 0
  {
    if p == [] then [46]
    else
      var q := TrimTrailingSlashes(p);
      if q == [] then [Slash] else Leaf(q)
  }

  /** The base of a joined path is the name that was joined. */
  lemma BaseOfJoin(dir: Path, name: Name)
    requires |name| > 0 && Slash !in name
    ensures Base(JoinPath(dir, name)) == name
  {
    var p := JoinPath(dir, name);
    assert p[|p| - 1] == name[|name| - 1];
    LastSlashOfJoin(dir, name);
  }

  /** A base never contains '/' unless the path consists of slashes only. */
  lemma BaseHasNoSlash(p: Path)
    requires exists k :: 0 <= k < |p| && p[k] != Slash
    ensures Slash !in Base(p)
  {
    var k :| 0 <= k < |p| && p[k] != Slash;
    assert k < |TrimTrailingSlashes(p)|;
  }
}
