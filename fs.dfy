/** An abstract filesystem: a map from the components of a cleaned absolute
    path to a directory or a regular file. It stands for the handful of `os`
    calls the extractor and the materializer make (`MkdirAll`, `Mkdir`,
    `OpenFile`, `Create`, `WriteFile`, `ReadDir`, `RemoveAll`). The root `[]`
    is always a directory; symbolic links, ownership and the umask are not
    modelled. */
module Fs {
  import opened Types

  /** The components of a cleaned absolute path; `[]` is "/". */
  type Path = seq<string>

  datatype Node = Directory(mode: nat) | Regular(data: seq<byte>, mode: nat)

  type Nodes = map<Path, Node>

  datatype FsError =
    | NotADirectory(path: Path)   // ENOTDIR
    | IsADirectory(path: Path)    // EISDIR
    | NotFound(path: Path)        // ENOENT
    | Exists(path: Path)          // EEXIST

  /** One entry of an `os.ReadDir` listing. */
  datatype DirEntry = DirEntry(name: string, isDir: bool)

  const DefaultDirMode: nat := 0x1ED    // 0755
  const DefaultFileMode: nat := 0x1B6   // 0666, the mode os.Create passes

  predicate IsDir(n: Nodes, p: Path) {
    p == [] || (p in n && n[p].Directory?)
  }

  /** `p` is `dir` or lies below it. */
  predicate Under(dir: Path, p: Path) {
    |p| >= |dir| && p[..|dir|] == dir
  }

  predicate IsChild(dir: Path, p: Path) {
    |p| == |dir| + 1 && p[..|dir|] == dir
  }

  /** `n` and `m` agree about `k`. */
  predicate Same(n: Nodes, m: Nodes, k: Path) {
    (k in n <==> k in m) && (k in n ==> n[k] == m[k])
  }

  /** Every difference between `n` and `m` lies in the subtree at `dir`. */
  ghost predicate Frame(n: Nodes, m: Nodes, dir: Path) {
    forall k :: !Under(dir, k) ==> Same(n, m, k)
  }

  /** The entries directly inside `dir`. */
  function Children(n: Nodes, dir: Path): set<Path> {
    set k | k in n && IsChild(dir, k)
  }

  /** Go's `ModeSetuid`, `ModeSetgid` and `ModeSticky` bits of an
      `os.FileMode`. */
  const GoSetuid: int := 0x80_0000   // 1 << 23
  const GoSetgid: int := 0x40_0000   // 1 << 22
  const GoSticky: int := 0x10_0000   // 1 << 20

  predicate HasBit(m: int, bit: int)
    requires bit > 0
  {
    (m / bit) % 2 == 1
  }

  /** The mode `open(2)` and `mkdir(2)` receive for `os.FileMode(m)`. The
      conversion keeps the low 32 bits. `syscallMode` then keeps the nine
      permission bits and turns Go's setuid, setgid and sticky flags into
      04000, 02000 and 01000. Every other bit is dropped, including the Unix
      04000, 02000 and 01000 bits themselves. */
  function SyscallMode(m: int): (r: nat)
    ensures r < 0x1000 && r % 512 == m % 512
  {
    m % 512 + (if HasBit(m, GoSetuid) then 0x800 else 0)
      + (if HasBit(m, GoSetgid) then 0x400 else 0)
      + (if HasBit(m, GoSticky) then 0x200 else 0)
  }

  /** The last component dropped; "/" for "/". */
  function DirOf(p: Path): Path {
    if p == [] then [] else p[..|p| - 1]
  }

  /** `os.MkdirAll(p, mode)`: succeed at once on a directory, fail with
      ENOTDIR on a file, and otherwise create the parent chain and then `p`.
      Success leaves `p` a directory, keeps every existing entry, and adds
      only directories on the way to `p`. A failure names a regular file on
      that way. */
  function MakeDirs(n: Nodes, p: Path, mode: int): (r: Result<Nodes, FsError>)
    ensures r.Success? ==> IsDir(r.value, p) && forall k :: k in n ==> k in r.value && r.value[k] == n[k]
    ensures r.Success? ==> forall k :: k in r.value && k !in n ==>
      Under(k, p) && r.value[k] == Directory(SyscallMode(mode))
    ensures r.Failure? ==>
      r.error.NotADirectory? && Under(r.error.path, p) && r.error.path in n && n[r.error.path].Regular?
    decreases |p|
  {
    if p == [] then Success(n)
    else if p in n then
      if n[p].Directory? then Success(n) else Failure(NotADirectory(p))
    else
      var q := p[..|p| - 1];
      match MakeDirs(n, q, mode)
      case Failure(e) =>
        assert p[..|e.path|] == q[..|e.path|];
        Failure(e)
      case Success(n') =>
        assert forall k :: Under(k, q) ==> p[..|k|] == q[..|k|];
        Success(n'[p := Directory(SyscallMode(mode))])
  }

  /** `os.Mkdir(p, mode)`: the parent must be a directory and `p` must not
      exist. */
  function MakeDir(n: Nodes, p: Path, mode: int): (r: Result<Nodes, FsError>)
    ensures r.Success? <==> p !in n && p != [] && IsDir(n, DirOf(p))
    ensures r.Success? ==> r.value == n[p := Directory(SyscallMode(mode))]
  {
    if p == [] || p in n then Failure(Exists(p))
    else if !IsDir(n, p[..|p| - 1]) then
      if p[..|p| - 1] in n then Failure(NotADirectory(p)) else Failure(NotFound(p))
    else Success(n[p := Directory(SyscallMode(mode))])
  }

  /** Writing `data` from offset 0 over `prev` without truncating first. */
  function Overwrite(prev: seq<byte>, data: seq<byte>): seq<byte> {
    if |data| >= |prev| then data else data + prev[|data|..]
  }

  /** `os.OpenFile(p, O_CREATE|O_RDWR [|O_TRUNC], perm)` followed by writing
      `data` from offset 0. It succeeds unless `p` is a directory or, for a
      new file, the parent is not a directory. Only `p` changes. An existing
      file keeps its mode, and its data is exactly `data` when truncated. A
      new file holds `data` with the mode `perm` gives. */
  function Write(n: Nodes, p: Path, data: seq<byte>, perm: int, trunc: bool): (r: Result<Nodes, FsError>)
    ensures r.Success? <==> p != [] && !(p in n && n[p].Directory?) && (p in n || IsDir(n, DirOf(p)))
    ensures r.Success? ==> p in r.value && r.value[p].Regular? && forall k :: k != p ==> Same(n, r.value, k)
    ensures r.Success? && (trunc || p !in n) ==> r.value[p].data == data
    ensures r.Success? ==> r.value[p].mode == if p in n then n[p].mode else SyscallMode(perm)
  {
    if p == [] || (p in n && n[p].Directory?) then Failure(IsADirectory(p))
    else if p in n then
      Success(n[p := Regular(if trunc then data else Overwrite(n[p].data, data), n[p].mode)])
    else if !IsDir(n, p[..|p| - 1]) then
      if p[..|p| - 1] in n then Failure(NotADirectory(p)) else Failure(NotFound(p))
    else Success(n[p := Regular(data, SyscallMode(perm))])
  }

  /** `os.RemoveAll(p)`: `p` and everything below it disappear. */
  function RemoveTree(n: Nodes, p: Path): (m: Nodes)
    ensures forall k :: k in m <==> k in n && !Under(p, k)
    ensures forall k :: k in m ==> m[k] == n[k]
  {
    map k | k in n && !Under(p, k) :: n[k]
  }

  // ---------------------------------------------------------------------
  // Properties of the primitives

  /** Permission bits pass through unchanged; the Unix setuid bit of a raw
      tar mode is dropped, and Go's own setuid flag becomes it. */
  lemma ModeExamples(m: int)
    requires 0 <= m < 512
    ensures SyscallMode(m) == m
    ensures SyscallMode(0x9ED) == 0x1ED            // 04755 gives 0755
    ensures SyscallMode(0x81A4) == 0x1A4           // 0100644 gives 0644
    ensures SyscallMode(GoSetuid + 0x1ED) == 0x9ED // ModeSetuid|0755 gives 04755
    ensures SyscallMode(DefaultDirMode) == DefaultDirMode
    ensures SyscallMode(DefaultFileMode) == DefaultFileMode
  {
  }

  lemma FrameRefl(n: Nodes, dir: Path)
    ensures Frame(n, n, dir)
  {
  }

  lemma FrameTrans(a: Nodes, b: Nodes, c: Nodes, dir: Path)
    requires Frame(a, b, dir) && Frame(b, c, dir)
    ensures Frame(a, c, dir)
  {
    forall k | !Under(dir, k) ensures Same(a, c, k) {
      assert Same(a, b, k) && Same(b, c, k);
    }
  }

  lemma UnderSameLength(dir: Path, p: Path)
    requires Under(dir, p)
    ensures |p| == |dir| ==> p == dir
  {
  }

  /** `MkdirAll` below an existing directory `dir` only adds directories
      strictly below `dir`; it never removes or alters an entry, and on
      success `p` is a directory. On failure nothing changed. */
  lemma {:induction false} MakeDirsEffect(n: Nodes, dir: Path, p: Path, mode: int)
    requires IsDir(n, dir) && Under(dir, p)
    ensures MakeDirs(n, p, mode).Success? ==>
      var m := MakeDirs(n, p, mode).value;
      && IsDir(m, p)
      && (forall k :: k in n ==> k in m && m[k] == n[k])
      && (forall k :: k in m && k !in n ==> |k| > |dir| && Under(k, p) && m[k] == Directory(SyscallMode(mode)))
    decreases |p|
  {
    if p != [] && p !in n {
      UnderSameLength(dir, p);
      assert |p| > |dir|;
      var q := p[..|p| - 1];
      assert Under(dir, q) by { assert q[..|dir|] == p[..|dir|]; }
      MakeDirsEffect(n, dir, q, mode);
      match MakeDirs(n, q, mode)
      case Failure(_) =>
      case Success(n') =>
        forall k | k in n'[p := Directory(SyscallMode(mode))] && k !in n
          ensures |k| > |dir| && Under(k, p)
        {
          if k != p {
            assert Under(k, q);
            assert p[..|k|] == q[..|k|];
          }
        }
    }
  }

  lemma MakeDirsFrame(n: Nodes, dir: Path, p: Path, mode: int)
    requires IsDir(n, dir) && Under(dir, p)
    requires MakeDirs(n, p, mode).Success?
    ensures Frame(n, MakeDirs(n, p, mode).value, dir)
    ensures IsDir(MakeDirs(n, p, mode).value, dir)
    ensures dir in n ==> dir in MakeDirs(n, p, mode).value && MakeDirs(n, p, mode).value[dir] == n[dir]
  {
    MakeDirsEffect(n, dir, p, mode);
    var m := MakeDirs(n, p, mode).value;
    forall k | !Under(dir, k) ensures Same(n, m, k) {
    }
  }

  /** The nodes after an operation: the new map on success, the old one on
      failure. */
  function After(n: Nodes, r: Result<Nodes, FsError>): Nodes {
    if r.Success? then r.value else n
  }

  function ErrorOf(r: Result<Nodes, FsError>): Option<FsError> {
    if r.Success? then None else Some(r.error)
  }

  /** The filesystem the process sees; each method is one `os` call. */
  class FileSystem {
    var nodes: Nodes

    constructor (initial: Nodes)
      ensures nodes == initial
    {
      nodes := initial;
    }

    /** `os.MkdirAll`. */
    method MkdirAll(p: Path, mode: int) returns (err: Option<FsError>)
      modifies this
      ensures nodes == After(old(nodes), MakeDirs(old(nodes), p, mode))
      ensures err == ErrorOf(MakeDirs(old(nodes), p, mode))
    {
      var r := MakeDirs(nodes, p, mode);
      nodes := After(nodes, r);
      err := ErrorOf(r);
    }

    /** `os.Mkdir`. */
    method Mkdir(p: Path, mode: int) returns (err: Option<FsError>)
      modifies this
      ensures nodes == After(old(nodes), MakeDir(old(nodes), p, mode))
      ensures err == ErrorOf(MakeDir(old(nodes), p, mode))
    {
      var r := MakeDir(nodes, p, mode);
      nodes := After(nodes, r);
      err := ErrorOf(r);
    }

    /** `os.OpenFile` with `O_CREATE` (and `O_TRUNC` when `trunc`), then a
        copy of `data` into the file from offset 0. */
    method OpenAndWrite(p: Path, data: seq<byte>, perm: int, trunc: bool) returns (err: Option<FsError>)
      modifies this
      ensures nodes == After(old(nodes), Write(old(nodes), p, data, perm, trunc))
      ensures err == ErrorOf(Write(old(nodes), p, data, perm, trunc))
    {
      var r := Write(nodes, p, data, perm, trunc);
      nodes := After(nodes, r);
      err := ErrorOf(r);
    }

    /** `os.RemoveAll`. The model gives it no failure; the caller ignores
        the error Go would return. */
    method RemoveAll(p: Path)
      modifies this
      ensures nodes == RemoveTree(old(nodes), p)
    {
      nodes := RemoveTree(nodes, p);
    }

    /** `os.ReadDir`: one entry per child of `dir`. Go sorts the listing by
        name; only its length and contents matter to the callers here. */
    method ReadDir(dir: Path) returns (listing: seq<DirEntry>)
      ensures |listing| == |Children(nodes, dir)|
      ensures forall i :: 0 <= i < |listing| ==>
        dir + [listing[i].name] in Children(nodes, dir) &&
        listing[i].isDir == nodes[dir + [listing[i].name]].Directory?
      ensures forall i, j :: 0 <= i < j < |listing| ==> listing[i].name != listing[j].name
    {
      var pending := Children(nodes, dir);
      listing := [];
      while pending != {}
        invariant pending <= Children(nodes, dir)
        invariant |listing| + |pending| == |Children(nodes, dir)|
        invariant forall i :: 0 <= i < |listing| ==>
          dir + [listing[i].name] in Children(nodes, dir) &&
          listing[i].isDir == nodes[dir + [listing[i].name]].Directory? &&
          dir + [listing[i].name] !in pending
        invariant forall i, j :: 0 <= i < j < |listing| ==> listing[i].name != listing[j].name
        decreases |pending|
      {
        var k :| k in pending;
        assert dir + [k[|dir|]] == k;
        listing := listing + [DirEntry(k[|dir|], nodes[k].Directory?)];
        pending := pending - {k};
      }
    }
  }
}
