/** Archive extraction (internal/extractor/extractor.go): unpack an
    already-decoded tar.gz or zip archive into a fresh working directory,
    refusing any entry whose joined path leaves that directory, and report
    either the directory or its single wrapping subdirectory as the root. */
module Extractor {
  import opened Types
  import opened FilePath
  import opened Fs

  /** The header type flags the loop distinguishes; `Other` stands for
      symbolic and hard links, devices, FIFOs, pax headers and the rest. */
  datatype TarKind = TypeDir | TypeReg | Other(flag: byte)

  /** `mode` is the header's `int64` Mode field as the reader decodes it. */
  datatype TarHeader = TarHeader(name: string, kind: TarKind, mode: int, body: seq<byte>)

  /** What `tar.NewReader(gzip.NewReader(file))` yields: either the open
      fails, or a run of headers followed by EOF or, when `broken`, by a
      header that cannot be read. */
  datatype TarStream = TarOpenFailed | TarStream(headers: seq<TarHeader>, broken: bool)

  /** One entry of a zip central directory; `body` is `None` when `f.Open()`
      fails for it. */
  datatype ZipFile = ZipFile(name: string, isDir: bool, body: Option<seq<byte>>)

  datatype ZipArchive = ZipOpenFailed | ZipIndex(files: seq<ZipFile>)

  /** The downloaded file as each of the two readers would decode it. */
  datatype Archive = Archive(asTar: TarStream, asZip: ZipArchive)

  datatype ExtractError =
    | TempDirFailed(cause: FsError)
    | UnsupportedFormat(format: string)
    | OpenFailed
    | ReadHeaderFailed
    | InvalidPath(name: string)
    | CreateDirFailed(cause: FsError)
    | CreateParentFailed(cause: FsError)
    | CreateFileFailed(cause: FsError)
    | OpenEntryFailed(name: string)

  /** The filesystem after a step, and the error that stopped it, if any. */
  datatype Outcome = Outcome(nodes: Nodes, err: Option<ExtractError>)

  const TempDirMode: nat := 0x1C0   // 0700, what os.MkdirTemp uses

  /** The traversal check: the joined target must start with the cleaned
      destination followed by a separator. */
  predicate Inside(destDir: string, name: string) {
    HasPrefix(Join(destDir, name), Clean(destDir) + "/")
  }

  /** The components of the joined target, as the filesystem resolves it. */
  function Target(dest: Path, name: string): Path {
    Components(Join(Render(dest), name))
  }

  /** `filepath.Dir` on components: the parent, and "/" for "/". */
  function Parent(p: Path): Path {
    if p == [] then [] else p[..|p| - 1]
  }

  /** For a clean, absolute, non-root destination the check accepts a name
      exactly when its cleaned join is a strict descendant of the
      destination; the joined string is that descendant's path. */
  lemma InsideIffStrictDescendant(dest: Path, name: string)
    requires |dest| >= 1 && AllNormal(dest)
    ensures Join(Render(dest), name) == Render(Target(dest, name))
    ensures AllNormal(Target(dest, name))
    ensures Target(dest, name) == Resolve(true, dest, Split(name))
    ensures Inside(Render(dest), name) <==>
      |Target(dest, name)| > |dest| && Target(dest, name)[..|dest|] == dest
  {
    var rs := Resolve(true, dest, Split(name));
    JoinResolves(dest, name);
    SplitElementsSlashFree(name);
    ResolveRootedNormal(dest, Split(name));
    RenderRoundTrip(rs);
    RenderRoundTrip(dest);
    assert Target(dest, name) == rs;
    var j := Render(rs);
    var p := Clean(Render(dest)) + "/";
    assert p == "/" + (JoinSegs(dest) + "/");
    assert HasPrefix(j, p) <==> HasPrefix(JoinSegs(rs), JoinSegs(dest) + "/") by {
      if HasPrefix(j, p) {
        assert JoinSegs(rs)[..|p| - 1] == j[1..|p|] == p[1..];
      }
      if HasPrefix(JoinSegs(rs), JoinSegs(dest) + "/") {
        assert j[..|p|] == "/" + JoinSegs(rs)[..|p| - 1];
      }
    }
    JoinPrefix(dest, rs);
  }

  /** A name the check accepts has a target strictly inside `dest`. */
  lemma AcceptedIsInside(dest: Path, name: string)
    requires |dest| >= 1 && AllNormal(dest)
    requires Inside(Render(dest), name)
    ensures Under(dest, Target(dest, name)) && Target(dest, name) != dest
    ensures Under(dest, Parent(Target(dest, name)))
  {
    InsideIffStrictDescendant(dest, name);
    var t := Target(dest, name);
    assert Parent(t)[..|dest|] == t[..|dest|];
  }

  // ---------------------------------------------------------------------
  // tar.gz

  /** One header of the tar loop: check the path, then create a directory,
      or create the parents and write a regular file opened with the
      header's mode and without truncation; other kinds are skipped. Only
      an accepted name succeeds. A successful directory entry leaves its
      target a directory, a successful regular entry a regular file. Any
      other kind, and any failure before the file is opened, leaves the
      filesystem as it was. */
  function TarStep(n: Nodes, dest: Path, h: TarHeader): (o: Outcome)
    ensures o.err.None? ==> Inside(Render(dest), h.name)
    ensures o.err.None? && h.kind == TypeDir ==> IsDir(o.nodes, Target(dest, h.name))
    ensures o.err.None? && h.kind == TypeReg ==>
      Target(dest, h.name) in o.nodes && o.nodes[Target(dest, h.name)].Regular?
    ensures h.kind.Other? || (o.err.Some? && !o.err.value.CreateFileFailed?) ==> o.nodes == n
  {
    if !Inside(Render(dest), h.name) then Outcome(n, Some(InvalidPath(h.name)))
    else
      var key := Target(dest, h.name);
      match h.kind
      case TypeDir =>
        (match MakeDirs(n, key, DefaultDirMode)
         case Failure(e) => Outcome(n, Some(CreateDirFailed(e)))
         case Success(m) => Outcome(m, None))
      case TypeReg =>
        (match MakeDirs(n, Parent(key), DefaultDirMode)
         case Failure(e) => Outcome(n, Some(CreateParentFailed(e)))
         case Success(m) =>
           match Write(m, key, h.body, h.mode, false)
           case Failure(e) => Outcome(m, Some(CreateFileFailed(e)))
           case Success(m') => Outcome(m', None))
      case Other(_) => Outcome(n, None)
  }

  /** The headers in archive order; the first error stops the loop. */
  function TarRun(n: Nodes, dest: Path, hs: seq<TarHeader>): Outcome
    decreases |hs|
  {
    if hs == [] then Outcome(n, None)
    else
      var o := TarStep(n, dest, hs[0]);
      if o.err.Some? then o else TarRun(o.nodes, dest, hs[1..])
  }

  /** `extractTarGz`. */
  function TarOutcome(n: Nodes, dest: Path, s: TarStream): Outcome {
    match s
    case TarOpenFailed => Outcome(n, Some(OpenFailed))
    case TarStream(hs, broken) =>
      var o := TarRun(n, dest, hs);
      if o.err.None? && broken then Outcome(o.nodes, Some(ReadHeaderFailed)) else o
  }

  /** The tar loop, one header at a time against the filesystem. */
  method ExtractTarGz(fs: FileSystem, dest: Path, s: TarStream) returns (err: Option<ExtractError>)
    modifies fs
    ensures fs.nodes == TarOutcome(old(fs.nodes), dest, s).nodes
    ensures err == TarOutcome(old(fs.nodes), dest, s).err
  {
    if s.TarOpenFailed? {
      return Some(OpenFailed);
    }
    var hs := s.headers;
    var i := 0;
    while i < |hs|
      invariant 0 <= i <= |hs|
      invariant TarRun(old(fs.nodes), dest, hs) == TarRun(fs.nodes, dest, hs[i..])
    {
      var h := hs[i];
      assert hs[i..][1..] == hs[i + 1..];
      var target := Join(Render(dest), h.name);
      if !HasPrefix(target, Clean(Render(dest)) + "/") {
        return Some(InvalidPath(h.name));
      }
      var key := Components(target);
      match h.kind {
        case TypeDir =>
          var e := fs.MkdirAll(key, DefaultDirMode);
          if e.Some? {
            return Some(CreateDirFailed(e.value));
          }
        case TypeReg =>
          var e := fs.MkdirAll(Parent(key), DefaultDirMode);
          if e.Some? {
            return Some(CreateParentFailed(e.value));
          }
          e := fs.OpenAndWrite(key, h.body, h.mode, false);
          if e.Some? {
            return Some(CreateFileFailed(e.value));
          }
        case Other(_) =>
      }
      i := i + 1;
    }
    if s.broken {
      return Some(ReadHeaderFailed);
    }
    return None;
  }

  // ---------------------------------------------------------------------
  // zip

  /** One zip entry: check the path, then create a directory, or create the
      parents and the file with `os.Create` (default mode, truncating) and
      copy the entry's bytes in. Only an accepted name succeeds. A
      directory entry leaves its target a directory. A file entry that gets
      as far as creating its file leaves exactly the entry's bytes there, or
      no bytes when the entry cannot be opened. A failure before the file is
      created leaves the filesystem as it was. */
  function ZipStep(n: Nodes, dest: Path, f: ZipFile): (o: Outcome)
    ensures o.err.None? ==> Inside(Render(dest), f.name)
    ensures o.err.None? && f.isDir ==> IsDir(o.nodes, Target(dest, f.name))
    ensures !f.isDir && (o.err.None? || o.err.value.OpenEntryFailed?) ==>
      Target(dest, f.name) in o.nodes && o.nodes[Target(dest, f.name)].Regular? &&
      o.nodes[Target(dest, f.name)].data == (if f.body.Some? then f.body.value else [])
    ensures o.err.Some? && !o.err.value.CreateFileFailed? && !o.err.value.OpenEntryFailed? ==> o.nodes == n
  {
    if !Inside(Render(dest), f.name) then Outcome(n, Some(InvalidPath(f.name)))
    else
      var key := Target(dest, f.name);
      if f.isDir then
        match MakeDirs(n, key, DefaultDirMode)
        case Failure(e) => Outcome(n, Some(CreateDirFailed(e)))
        case Success(m) => Outcome(m, None)
      else
        match MakeDirs(n, Parent(key), DefaultDirMode)
        case Failure(e) => Outcome(n, Some(CreateParentFailed(e)))
        case Success(m) =>
          var data := if f.body.Some? then f.body.value else [];
          match Write(m, key, data, DefaultFileMode, true)
          case Failure(e) => Outcome(m, Some(CreateFileFailed(e)))
          case Success(m') =>
            if f.body.None? then Outcome(m', Some(OpenEntryFailed(f.name))) else Outcome(m', None)
  }

  function ZipRun(n: Nodes, dest: Path, fs: seq<ZipFile>): Outcome
    decreases |fs|
  {
    if fs == [] then Outcome(n, None)
    else
      var o := ZipStep(n, dest, fs[0]);
      if o.err.Some? then o else ZipRun(o.nodes, dest, fs[1..])
  }

  /** `extractZip`. */
  function ZipOutcome(n: Nodes, dest: Path, z: ZipArchive): Outcome {
    match z
    case ZipOpenFailed => Outcome(n, Some(OpenFailed))
    case ZipIndex(files) => ZipRun(n, dest, files)
  }

  /** The zip loop, one entry at a time against the filesystem. */
  method ExtractZip(fs: FileSystem, dest: Path, z: ZipArchive) returns (err: Option<ExtractError>)
    modifies fs
    ensures fs.nodes == ZipOutcome(old(fs.nodes), dest, z).nodes
    ensures err == ZipOutcome(old(fs.nodes), dest, z).err
  {
    if z.ZipOpenFailed? {
      return Some(OpenFailed);
    }
    var files := z.files;
    for i := 0 to |files|
      invariant ZipRun(old(fs.nodes), dest, files) == ZipRun(fs.nodes, dest, files[i..])
    {
      var f := files[i];
      assert files[i..][1..] == files[i + 1..];
      var target := Join(Render(dest), f.name);
      if !HasPrefix(target, Clean(Render(dest)) + "/") {
        return Some(InvalidPath(f.name));
      }
      var key := Components(target);
      if f.isDir {
        var e := fs.MkdirAll(key, DefaultDirMode);
        if e.Some? {
          return Some(CreateDirFailed(e.value));
        }
        continue;
      }
      var e := fs.MkdirAll(Parent(key), DefaultDirMode);
      if e.Some? {
        return Some(CreateParentFailed(e.value));
      }
      var data := if f.body.Some? then f.body.value else [];
      e := fs.OpenAndWrite(key, data, DefaultFileMode, true);
      if e.Some? {
        return Some(CreateFileFailed(e.value));
      }
      if f.body.None? {
        return Some(OpenEntryFailed(f.name));
      }
    }
    return None;
  }

  // ---------------------------------------------------------------------
  // Root stripping and the whole extraction

  /** `stripRootDirectory` on the listing of `dir`: descend into the only
      entry when there is exactly one and it is a directory. */
  function StripRootDirectory(dir: Path, entries: seq<DirEntry>): (root: Path)
    ensures root == dir || IsChild(dir, root)
  {
    if |entries| == 1 && entries[0].isDir then dir + [entries[0].name] else dir
  }

  /** `entries` is a listing of `dir` as `ReadDir` returns one. */
  ghost predicate Lists(n: Nodes, dir: Path, entries: seq<DirEntry>) {
    && |entries| == |Children(n, dir)|
    && forall i :: 0 <= i < |entries| ==>
         dir + [entries[i].name] in Children(n, dir) &&
         entries[i].isDir == n[dir + [entries[i].name]].Directory?
  }

  /** The root `stripRootDirectory` picks: the single child of `dir` when `dir`
      holds exactly one entry and it is a directory, else `dir` itself. */
  ghost predicate StrippedRoot(n: Nodes, dir: Path, root: Path) {
    || (Children(n, dir) == {root} && root in n && n[root].Directory?)
    || (root == dir && forall c :: c in Children(n, dir) && n[c].Directory? ==> Children(n, dir) != {c})
  }

  lemma StripRootDirectoryCorrect(n: Nodes, dir: Path, entries: seq<DirEntry>)
    requires Lists(n, dir, entries)
    ensures StrippedRoot(n, dir, StripRootDirectory(dir, entries))
    ensures StripRootDirectory(dir, entries) == dir || IsChild(dir, StripRootDirectory(dir, entries))
  {
    var cs := Children(n, dir);
    if |entries| == 1 {
      var c := dir + [entries[0].name];
      assert c in cs;
      assert cs == {c} by {
        assert |cs - {c}| == 0;
      }
      assert c[..|dir|] == dir;
    }
  }

  /** `Extract`: make the working directory, run the loop the format names,
      and on any error remove the working directory again. */
  function ExtractOutcome(n: Nodes, a: Archive, format: string, tmp: Path): Outcome {
    match MakeDir(n, tmp, TempDirMode)
    case Failure(e) => Outcome(n, Some(TempDirFailed(e)))
    case Success(n1) =>
      var o :=
        if format == "tar.gz" then TarOutcome(n1, tmp, a.asTar)
        else if format == "zip" then ZipOutcome(n1, tmp, a.asZip)
        else Outcome(n1, Some(UnsupportedFormat(format)));
      if o.err.Some? then Outcome(RemoveTree(o.nodes, tmp), o.err) else o
  }

  /** `tmp` is the name `os.MkdirTemp` picked: a clean absolute path below
      which nothing exists yet. */
  ghost predicate FreshTemp(n: Nodes, tmp: Path) {
    |tmp| >= 1 && AllNormal(tmp) && forall k :: k in n ==> !Under(tmp, k)
  }

  method Extract(fs: FileSystem, a: Archive, format: string, tmp: Path) returns (r: Result<Path, ExtractError>)
    requires FreshTemp(fs.nodes, tmp)
    modifies fs
    ensures fs.nodes == ExtractOutcome(old(fs.nodes), a, format, tmp).nodes
    ensures r.Failure? <==> ExtractOutcome(old(fs.nodes), a, format, tmp).err.Some?
    ensures r.Failure? ==> Some(r.error) == ExtractOutcome(old(fs.nodes), a, format, tmp).err
    ensures r.Success? ==> StrippedRoot(fs.nodes, tmp, r.value)
    ensures r.Success? ==> r.value == tmp || IsChild(tmp, r.value)
  {
    var e := fs.Mkdir(tmp, TempDirMode);
    if e.Some? {
      return Failure(TempDirFailed(e.value));
    }
    var err: Option<ExtractError>;
    if format == "tar.gz" {
      err := ExtractTarGz(fs, tmp, a.asTar);
    } else if format == "zip" {
      err := ExtractZip(fs, tmp, a.asZip);
    } else {
      err := Some(UnsupportedFormat(format));
    }
    if err.Some? {
      fs.RemoveAll(tmp);
      return Failure(err.value);
    }
    var entries := fs.ReadDir(tmp);
    var root := StripRootDirectory(tmp, entries);
    StripRootDirectoryCorrect(fs.nodes, tmp, entries);
    return Success(root);
  }
}

/** What the extraction model guarantees. */
module ExtractorFacts {
  import opened Types
  import opened FilePath
  import opened Fs
  import opened Extractor

  // ---------------------------------------------------------------------
  // The traversal check on concrete names

  lemma SplitTwo(a: string, b: string)
    requires '/' !in a && '/' !in b
    ensures Split(a + "/" + b) == [a, b]
  {
    SplitAppend(a, b);
    SplitNoSlash(a);
    SplitNoSlash(b);
  }

  /** Names that resolve to the destination itself fail the check, because
      the required prefix ends with a separator. */
  lemma SelfNamesRejected(dest: Path)
    requires |dest| >= 1 && AllNormal(dest)
    ensures !Inside(Render(dest), "")
    ensures !Inside(Render(dest), ".")
    ensures !Inside(Render(dest), "./")
  {
    InsideIffStrictDescendant(dest, "");
    InsideIffStrictDescendant(dest, ".");
    InsideIffStrictDescendant(dest, "./");
    SplitNoSlash(".");
    assert "./" == "." + "/" + "";
    SplitTwo(".", "");
    assert Resolve(true, dest, [""]) == Resolve(true, dest, []);
    assert Resolve(true, dest, ["."]) == Resolve(true, dest, []);
    assert Resolve(true, dest, [".", ""]) == Resolve(true, dest, [""]);
  }

  /** "a/.." climbs back to the destination itself. */
  lemma ClimbBackRejected(dest: Path)
    requires |dest| >= 1 && AllNormal(dest)
    ensures !Inside(Render(dest), "a/..")
  {
    InsideIffStrictDescendant(dest, "a/..");
    assert "a/.." == "a" + "/" + "..";
    SplitTwo("a", "..");
    assert Step(true, dest + ["a"], "..") == dest;
    assert Resolve(true, dest, ["a", ".."]) == Resolve(true, dest + ["a"], [".."]);
    assert Resolve(true, dest + ["a"], [".."]) == Resolve(true, dest, []);
  }

  /** "../x" lands beside the destination, never inside it. */
  lemma ParentNameRejected(dest: Path)
    requires |dest| >= 1 && AllNormal(dest)
    ensures !Inside(Render(dest), "../x")
  {
    InsideIffStrictDescendant(dest, "../x");
    assert "../x" == ".." + "/" + "x";
    SplitTwo("..", "x");
    var up := dest[..|dest| - 1];
    assert Step(true, dest, "..") == up;
    assert Resolve(true, dest, ["..", "x"]) == Resolve(true, up, ["x"]);
    assert Resolve(true, up, ["x"]) == Resolve(true, up + ["x"], []);
  }

  /** ".." inside a name is resolved before the check: "a/../b" lands on
      dest/b. */
  lemma InnerClimbAccepted(dest: Path)
    requires |dest| >= 1 && AllNormal(dest)
    ensures Inside(Render(dest), "a/../b") && Target(dest, "a/../b") == dest + ["b"]
  {
    InsideIffStrictDescendant(dest, "a/../b");
    assert "a/../b" == "a" + "/" + "../b";
    SplitAppend("a", "../b");
    SplitNoSlash("a");
    assert "../b" == ".." + "/" + "b";
    SplitTwo("..", "b");
    assert Split("a/../b") == ["a", "..", "b"];
    assert Step(true, dest + ["a"], "..") == dest;
    assert Resolve(true, dest, ["a", "..", "b"]) == Resolve(true, dest + ["a"], ["..", "b"]);
    assert Resolve(true, dest + ["a"], ["..", "b"]) == Resolve(true, dest, ["b"]);
    assert Resolve(true, dest, ["b"]) == Resolve(true, dest + ["b"], []);
    assert (dest + ["b"])[..|dest|] == dest;
  }

  /** A leading separator does not escape: "/etc/x" lands on dest/etc/x. */
  lemma AbsoluteNameAccepted(dest: Path)
    requires |dest| >= 1 && AllNormal(dest)
    ensures Inside(Render(dest), "/etc/x") && Target(dest, "/etc/x") == dest + ["etc", "x"]
  {
    InsideIffStrictDescendant(dest, "/etc/x");
    assert "/etc/x" == "" + "/" + "etc/x";
    SplitAppend("", "etc/x");
    assert Split("") == [""];
    assert "etc/x" == "etc" + "/" + "x";
    SplitTwo("etc", "x");
    assert Split("/etc/x") == ["", "etc", "x"];
    assert Resolve(true, dest, ["", "etc", "x"]) == Resolve(true, dest, ["etc", "x"]);
    assert Resolve(true, dest, ["etc", "x"]) == Resolve(true, dest + ["etc"], ["x"]);
    assert Resolve(true, dest + ["etc"], ["x"]) == Resolve(true, dest + ["etc", "x"], []);
    assert (dest + ["etc", "x"])[..|dest|] == dest;
  }

  // ---------------------------------------------------------------------
  // Containment

  lemma WriteUnderFrame(n: Nodes, dest: Path, key: Path, data: seq<byte>, perm: int, trunc: bool)
    requires Under(dest, key) && key != dest
    requires Write(n, key, data, perm, trunc).Success?
    ensures Frame(n, Write(n, key, data, perm, trunc).value, dest)
  {
  }

  /** Invariant of both loops: every change lies below the destination and
      the destination itself stays the directory it was. */
  ghost predicate Contained(n: Nodes, m: Nodes, dest: Path) {
    Frame(n, m, dest) && IsDir(m, dest) && (dest in n ==> dest in m && m[dest] == n[dest])
  }

  lemma ContainedTrans(a: Nodes, b: Nodes, c: Nodes, dest: Path)
    requires Contained(a, b, dest) && Contained(b, c, dest)
    ensures Contained(a, c, dest)
  {
    FrameTrans(a, b, c, dest);
  }

  /** Creating the parents and then the file leaves everything outside the
      destination as it was. */
  lemma FileStepContained(n: Nodes, dest: Path, key: Path, data: seq<byte>, perm: int, trunc: bool)
    requires IsDir(n, dest) && Under(dest, key) && key != dest && Under(dest, Parent(key))
    requires MakeDirs(n, Parent(key), DefaultDirMode).Success?
    ensures var m := MakeDirs(n, Parent(key), DefaultDirMode).value;
      && Contained(n, m, dest)
      && (Write(m, key, data, perm, trunc).Success? ==> Contained(n, Write(m, key, data, perm, trunc).value, dest))
  {
    var m := MakeDirs(n, Parent(key), DefaultDirMode).value;
    MakeDirsFrame(n, dest, Parent(key), DefaultDirMode);
    if Write(m, key, data, perm, trunc).Success? {
      var m' := Write(m, key, data, perm, trunc).value;
      WriteUnderFrame(m, dest, key, data, perm, trunc);
      assert Same(m, m', dest);
      assert Contained(m, m', dest);
      ContainedTrans(n, m, m', dest);
    }
  }

  lemma TarStepContained(n: Nodes, dest: Path, h: TarHeader)
    requires |dest| >= 1 && AllNormal(dest) && IsDir(n, dest)
    ensures Contained(n, TarStep(n, dest, h).nodes, dest)
  {
    FrameRefl(n, dest);
    if Inside(Render(dest), h.name) {
      var key := Target(dest, h.name);
      AcceptedIsInside(dest, h.name);
      match h.kind
      case TypeDir =>
        if MakeDirs(n, key, DefaultDirMode).Success? {
          MakeDirsFrame(n, dest, key, DefaultDirMode);
        }
      case TypeReg =>
        if MakeDirs(n, Parent(key), DefaultDirMode).Success? {
          FileStepContained(n, dest, key, h.body, h.mode, false);
        }
      case Other(_) =>
    }
  }

  lemma {:induction false} TarRunContained(n: Nodes, dest: Path, hs: seq<TarHeader>)
    requires |dest| >= 1 && AllNormal(dest) && IsDir(n, dest)
    ensures Contained(n, TarRun(n, dest, hs).nodes, dest)
    decreases |hs|
  {
    if hs == [] {
      FrameRefl(n, dest);
    } else {
      var o := TarStep(n, dest, hs[0]);
      TarStepContained(n, dest, hs[0]);
      if o.err.None? {
        TarRunContained(o.nodes, dest, hs[1..]);
        ContainedTrans(n, o.nodes, TarRun(o.nodes, dest, hs[1..]).nodes, dest);
      }
    }
  }

  lemma ZipStepContained(n: Nodes, dest: Path, f: ZipFile)
    requires |dest| >= 1 && AllNormal(dest) && IsDir(n, dest)
    ensures Contained(n, ZipStep(n, dest, f).nodes, dest)
  {
    FrameRefl(n, dest);
    if Inside(Render(dest), f.name) {
      var key := Target(dest, f.name);
      AcceptedIsInside(dest, f.name);
      if f.isDir {
        if MakeDirs(n, key, DefaultDirMode).Success? {
          MakeDirsFrame(n, dest, key, DefaultDirMode);
        }
      } else if MakeDirs(n, Parent(key), DefaultDirMode).Success? {
        var data := if f.body.Some? then f.body.value else [];
        FileStepContained(n, dest, key, data, DefaultFileMode, true);
      }
    }
  }

  lemma {:induction false} ZipRunContained(n: Nodes, dest: Path, fs: seq<ZipFile>)
    requires |dest| >= 1 && AllNormal(dest) && IsDir(n, dest)
    ensures Contained(n, ZipRun(n, dest, fs).nodes, dest)
    decreases |fs|
  {
    if fs == [] {
      FrameRefl(n, dest);
    } else {
      var o := ZipStep(n, dest, fs[0]);
      ZipStepContained(n, dest, fs[0]);
      if o.err.None? {
        ZipRunContained(o.nodes, dest, fs[1..]);
        ContainedTrans(n, o.nodes, ZipRun(o.nodes, dest, fs[1..]).nodes, dest);
      }
    }
  }

  /** Whatever the archive holds, extraction changes nothing outside the
      working directory. */
  lemma LoopContained(n1: Nodes, a: Archive, format: string, tmp: Path)
    requires |tmp| >= 1 && AllNormal(tmp) && IsDir(n1, tmp)
    ensures format == "tar.gz" ==> Contained(n1, TarOutcome(n1, tmp, a.asTar).nodes, tmp)
    ensures format == "zip" ==> Contained(n1, ZipOutcome(n1, tmp, a.asZip).nodes, tmp)
  {
    FrameRefl(n1, tmp);
    if a.asTar.TarStream? {
      TarRunContained(n1, tmp, a.asTar.headers);
    }
    if a.asZip.ZipIndex? {
      ZipRunContained(n1, tmp, a.asZip.files);
    }
  }

  /** An unsupported format, or any error while extracting, leaves the
      filesystem exactly as it was: the working directory and everything
      written into it are removed. */
  lemma ExtractFailureRestores(n: Nodes, a: Archive, format: string, tmp: Path)
    requires FreshTemp(n, tmp)
    requires ExtractOutcome(n, a, format, tmp).err.Some?
    ensures ExtractOutcome(n, a, format, tmp).nodes == n
  {
    if MakeDir(n, tmp, TempDirMode).Success? {
      var n1 := MakeDir(n, tmp, TempDirMode).value;
      assert n1 == n[tmp := Directory(TempDirMode)];
      var o :=
        if format == "tar.gz" then TarOutcome(n1, tmp, a.asTar)
        else if format == "zip" then ZipOutcome(n1, tmp, a.asZip)
        else Outcome(n1, Some(UnsupportedFormat(format)));
      LoopContained(n1, a, format, tmp);
      assert Frame(n1, o.nodes, tmp) by {
        if format != "tar.gz" && format != "zip" { FrameRefl(n1, tmp); }
      }
      var r := RemoveTree(o.nodes, tmp);
      forall k ensures k in r <==> k in n {
        if !Under(tmp, k) { assert Same(n1, o.nodes, k); }
        assert k in n ==> !Under(tmp, k);
      }
      forall k | k in r ensures r[k] == n[k] {
        assert Same(n1, o.nodes, k);
      }
      assert r == n;
    }
  }

  /** A successful extraction creates the working directory, writes only
      below it, and leaves every other entry as it was. */
  lemma ExtractSuccessContained(n: Nodes, a: Archive, format: string, tmp: Path)
    requires FreshTemp(n, tmp)
    requires ExtractOutcome(n, a, format, tmp).err.None?
    ensures var m := ExtractOutcome(n, a, format, tmp).nodes;
      Frame(n, m, tmp) && tmp in m && m[tmp] == Directory(TempDirMode)
    ensures format == "tar.gz" || format == "zip"
  {
    var n1 := MakeDir(n, tmp, TempDirMode).value;
    LoopContained(n1, a, format, tmp);
    var m := ExtractOutcome(n, a, format, tmp).nodes;
    assert Frame(n, n1, tmp);
    FrameTrans(n, n1, m, tmp);
  }

  // ---------------------------------------------------------------------
  // The loop stops at the first error

  lemma {:induction false} TarRunAppend(n: Nodes, dest: Path, hs: seq<TarHeader>, more: seq<TarHeader>)
    ensures TarRun(n, dest, hs + more) ==
      if TarRun(n, dest, hs).err.Some? then TarRun(n, dest, hs)
      else TarRun(TarRun(n, dest, hs).nodes, dest, more)
    decreases |hs|
  {
    if hs == [] {
      assert hs + more == more;
    } else {
      assert (hs + more)[0] == hs[0];
      assert (hs + more)[1..] == hs[1..] + more;
      var o := TarStep(n, dest, hs[0]);
      if o.err.None? {
        TarRunAppend(o.nodes, dest, hs[1..], more);
      }
    }
  }

  /** Once an entry fails, later entries change nothing. */
  lemma TarStopsAtFirstError(n: Nodes, dest: Path, hs: seq<TarHeader>, more: seq<TarHeader>)
    requires TarRun(n, dest, hs).err.Some?
    ensures TarRun(n, dest, hs + more) == TarRun(n, dest, hs)
  {
    TarRunAppend(n, dest, hs, more);
  }

  /** An entry whose path escapes aborts the loop with `InvalidPath` and
      leaves the filesystem as the entries before it made it. */
  lemma TarEscapeRejected(n: Nodes, dest: Path, pre: seq<TarHeader>, h: TarHeader, post: seq<TarHeader>)
    requires TarRun(n, dest, pre).err.None?
    requires !Inside(Render(dest), h.name)
    ensures TarRun(n, dest, pre + [h] + post) == Outcome(TarRun(n, dest, pre).nodes, Some(InvalidPath(h.name)))
  {
    TarRunAppend(n, dest, pre, [h] + post);
    assert pre + [h] + post == pre + ([h] + post);
  }

  /** An accepted link, device or pax header neither changes the filesystem
      nor stops the loop: it is as if it were not in the archive. */
  lemma TarOtherSkipped(n: Nodes, dest: Path, pre: seq<TarHeader>, h: TarHeader, post: seq<TarHeader>)
    requires h.kind.Other? && Inside(Render(dest), h.name)
    ensures TarRun(n, dest, pre + [h] + post) == TarRun(n, dest, pre + post)
  {
    TarRunAppend(n, dest, pre, [h] + post);
    TarRunAppend(n, dest, pre, post);
    assert pre + [h] + post == pre + ([h] + post);
    assert ([h] + post)[1..] == post;
  }

  lemma {:induction false} ZipRunAppend(n: Nodes, dest: Path, fs: seq<ZipFile>, more: seq<ZipFile>)
    ensures ZipRun(n, dest, fs + more) ==
      if ZipRun(n, dest, fs).err.Some? then ZipRun(n, dest, fs)
      else ZipRun(ZipRun(n, dest, fs).nodes, dest, more)
    decreases |fs|
  {
    if fs == [] {
      assert fs + more == more;
    } else {
      assert (fs + more)[0] == fs[0];
      assert (fs + more)[1..] == fs[1..] + more;
      var o := ZipStep(n, dest, fs[0]);
      if o.err.None? {
        ZipRunAppend(o.nodes, dest, fs[1..], more);
      }
    }
  }

  lemma ZipEscapeRejected(n: Nodes, dest: Path, pre: seq<ZipFile>, f: ZipFile, post: seq<ZipFile>)
    requires ZipRun(n, dest, pre).err.None?
    requires !Inside(Render(dest), f.name)
    ensures ZipRun(n, dest, pre + [f] + post) == Outcome(ZipRun(n, dest, pre).nodes, Some(InvalidPath(f.name)))
  {
    ZipRunAppend(n, dest, pre, [f] + post);
    assert pre + [f] + post == pre + ([f] + post);
  }

  // ---------------------------------------------------------------------
  // What a file entry leaves on disk: tar and zip differ

  /** A tar regular file keeps an existing file's mode and overwrites its
      bytes from offset 0 without truncating; a new file gets the
      permission bits `os.FileMode(header.Mode)` passes to `open(2)`. */
  lemma TarRegularEffect(n: Nodes, dest: Path, h: TarHeader)
    requires |dest| >= 1 && AllNormal(dest) && IsDir(n, dest)
    requires h.kind == TypeReg && Inside(Render(dest), h.name)
    requires TarStep(n, dest, h).err.None?
    ensures var key := Target(dest, h.name); var m := TarStep(n, dest, h).nodes;
      key in m &&
      m[key] == if key in n && n[key].Regular? then Regular(Overwrite(n[key].data, h.body), n[key].mode)
                else Regular(h.body, SyscallMode(h.mode))
  {
    var key := Target(dest, h.name);
    AcceptedIsInside(dest, h.name);
    MakeDirsEffect(n, dest, Parent(key), DefaultDirMode);
  }

  /** A zip file is created with the default mode (or keeps an existing
      file's mode) and truncated, so it holds exactly the entry's bytes. */
  lemma ZipFileEffect(n: Nodes, dest: Path, f: ZipFile)
    requires |dest| >= 1 && AllNormal(dest) && IsDir(n, dest)
    requires !f.isDir && Inside(Render(dest), f.name)
    requires ZipStep(n, dest, f).err.None?
    ensures var key := Target(dest, f.name); var m := ZipStep(n, dest, f).nodes;
      f.body.Some? && key in m &&
      m[key] == Regular(f.body.value, if key in n then n[key].mode else DefaultFileMode)
  {
    var key := Target(dest, f.name);
    AcceptedIsInside(dest, f.name);
    MakeDirsEffect(n, dest, Parent(key), DefaultDirMode);
  }
}
