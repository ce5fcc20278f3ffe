/** Template materialisation (internal/processor/processor.go): walk the
    extracted template in lexical pre-order, recreate its directories under
    the destination, copy binary files as they are and write text files with
    every occurrence of the module placeholder replaced. */
module Processor {
  import opened Types
  import opened FilePath
  import opened Fs
  import opened Replace

  // ---------------------------------------------------------------------
  // The binary/text classifier

  /** How many leading bytes `isBinary` looks at. */
  const CheckLimit: nat := 512

  function Min(a: nat, b: nat): nat {
    if a < b then a else b
  }

  /** The bytes `isBinary` looks at. */
  function Sample(content: seq<byte>): (s: seq<byte>)
    ensures |s| == Min(|content|, CheckLimit) && s == content[..|s|]
  {
    content[..Min(|content|, CheckLimit)]
  }

  /** A control byte other than newline, carriage return and tab. */
  predicate Control(b: byte) {
    b < 32 && b != 10 && b != 13 && b != 9
  }

  function CountControl(s: seq<byte>): (k: nat)
    ensures k <= |s|
    decreases |s|
  {
    if s == [] then 0
    else CountControl(s[..|s| - 1]) + (if Control(s[|s| - 1]) then 1 else 0)
  }

  /** Non-empty content whose sample holds a NUL byte, or more than 10%
      control bytes. The ratio `n / checkSize > 0.1` is `10 * n > checkSize`
      here, since both are at most 512. */
  predicate Binary(content: seq<byte>) {
    var s := Sample(content);
    |content| > 0 && (0 in s || 10 * CountControl(s) > |s|)
  }

  /** `isBinary`: a scan for NUL with early return, then a count. */
  method IsBinary(content: seq<byte>) returns (b: bool)
    ensures b == Binary(content)
  {
    if |content| == 0 {
      return false;
    }
    var checkSize := |content|;
    if checkSize > CheckLimit {
      checkSize := CheckLimit;
    }
    var sample := content[..checkSize];
    assert sample == Sample(content);
    var i := 0;
    while i < |sample|
      invariant 0 <= i <= |sample|
      invariant 0 !in sample[..i]
    {
      if sample[i] == 0 {
        return true;
      }
      assert sample[..i + 1] == sample[..i] + [sample[i]];
      i := i + 1;
    }
    assert sample[..i] == sample;
    var nonPrintable := 0;
    i := 0;
    while i < |sample|
      invariant 0 <= i <= |sample|
      invariant nonPrintable == CountControl(sample[..i])
    {
      var x := sample[i];
      assert sample[..i + 1][..i] == sample[..i];
      if x < 32 && x != 10 && x != 13 && x != 9 {
        nonPrintable := nonPrintable + 1;
      }
      i := i + 1;
    }
    assert sample[..i] == sample;
    return 10 * nonPrintable > checkSize;
  }

  /** Only the first 512 bytes decide: contents that agree on them, or on
      all of a shorter content, classify the same. */
  lemma SampleDecides(a: seq<byte>, b: seq<byte>, k: nat)
    requires k <= |a| && k <= |b| && a[..k] == b[..k]
    requires k >= CheckLimit || (k == |a| && k == |b|)
    ensures Binary(a) == Binary(b)
  {
    var m := Min(|a|, CheckLimit);
    assert m == Min(|b|, CheckLimit);
    assert Sample(a) == a[..k][..m] == b[..k][..m] == Sample(b);
  }

  lemma {:induction false} NoControlCountsZero(s: seq<byte>)
    requires forall i :: 0 <= i < |s| ==> !Control(s[i])
    ensures CountControl(s) == 0
    decreases |s|
  {
    if s != [] {
      NoControlCountsZero(s[..|s| - 1]);
    }
  }

  /** Content whose sample has no control byte other than `\n`, `\r` and
      `\t` is text; in particular empty content is. */
  lemma PrintableIsText(content: seq<byte>)
    requires forall i :: 0 <= i < |Sample(content)| ==> !Control(Sample(content)[i])
    ensures !Binary(content)
  {
    var s := Sample(content);
    NoControlCountsZero(s);
  }

  /** A NUL byte anywhere in the sample makes the content binary. */
  lemma NulIsBinary(content: seq<byte>, i: nat)
    requires i < |content| && i < CheckLimit && content[i] == 0
    ensures Binary(content)
  {
    assert Sample(content)[i] == 0;
  }

  // ---------------------------------------------------------------------
  // processFile and copyFile

  datatype FileError =
    | CreateFailed(cause: FsError)   // copyFile: opening the destination
    | WriteFailed(cause: FsError)    // os.WriteFile

  /** The filesystem after one file, the error if any, and the flag
      `processFile` returns. */
  datatype FileOutcome = FileOutcome(nodes: Nodes, err: Option<FileError>, replaced: bool)

  /** `processFile`: a binary file is copied (`O_TRUNC`, source mode) and
      reports no replacement; a text file is written with the placeholder
      replaced and reports whether it occurred. Only `key` can change; a
      failure changes nothing and reports no replacement; a replacement is
      reported only for a text file holding the placeholder. */
  function ProcessFile(n: Nodes, key: Path, content: seq<byte>, mode: nat,
                       placeholder: seq<byte>, moduleName: seq<byte>): (o: FileOutcome)
    requires |placeholder| > 0
    ensures o.err.Some? ==> o.nodes == n && !o.replaced
    ensures forall k :: k != key ==> Same(n, o.nodes, k)
    ensures o.replaced ==> !Binary(content) && Contains(content, placeholder)
  {
    if Binary(content) then
      match Write(n, key, content, mode, true)
      case Failure(e) => FileOutcome(n, Some(CreateFailed(e)), false)
      case Success(m) => FileOutcome(m, None, false)
    else
      match Write(n, key, ReplaceAll(content, placeholder, moduleName), mode, true)
      case Failure(e) => FileOutcome(n, Some(WriteFailed(e)), false)
      case Success(m) => FileOutcome(m, None, Contains(content, placeholder))
  }

  /** What one processed file leaves behind. A binary file is copied byte
      for byte and reports no replacement even when the placeholder occurs
      in it. A text file keeps the text between the occurrences and has the
      expanded module name in place of each; it reports a replacement
      exactly when there was an occurrence. Either way a new file gets the
      source mode, an existing one keeps its own, and nothing else changes. */
  lemma ProcessFileEffect(n: Nodes, key: Path, content: seq<byte>, mode: nat,
                          placeholder: seq<byte>, moduleName: seq<byte>)
    requires |placeholder| > 0
    requires ProcessFile(n, key, content, mode, placeholder, moduleName).err.None?
    ensures var o := ProcessFile(n, key, content, mode, placeholder, moduleName);
      && key in o.nodes && o.nodes[key].Regular?
      && (Binary(content) ==> o.nodes[key].data == content && !o.replaced)
      && (!Binary(content) ==>
            o.nodes[key].data == JoinWith(Pieces(content, placeholder), Expand(moduleName, placeholder))
            && (o.replaced <==> |Pieces(content, placeholder)| > 1))
      && o.nodes[key].mode == (if key in n then n[key].mode else SyscallMode(mode))
      && (forall k :: k != key ==> Same(n, o.nodes, k))
  {
    ReplaceIsJoin(content, placeholder, Expand(moduleName, placeholder));
    ContainsIffSplit(content, placeholder);
  }

  // ---------------------------------------------------------------------
  // The walk

  /** The extracted template as `filepath.Walk` sees it: children in
      lexical order. */
  datatype Tree =
    | Dir(name: string, mode: nat, children: seq<Tree>)
    | File(name: string, mode: nat, content: seq<byte>)

  /** A name `filepath.SkipDir` is returned for when it names a directory. */
  predicate Hidden(name: string) {
    |name| > 0 && name[0] == '.'
  }

  datatype ProcessError =
    | MkdirFailed(cause: FsError)                  // returned unwrapped
    | FileFailed(relPath: string, reason: FileError) // "failed to process file <relPath>"

  /** The walk's state: the destination filesystem, the two counters, and
      the error that stopped the walk. */
  datatype State = State(nodes: Nodes, files: nat, replaced: nat, err: Option<ProcessError>)

  /** The callback on one entry below the root, then (for a directory that
      is not pruned) its children. `rel` holds the components of the
      parent's path relative to the root. An errored state passes through;
      otherwise the counters only grow, and by no more replacements than
      files. */
  function Visit(st: State, dest: Path, rel: seq<string>, t: Tree,
                 placeholder: seq<byte>, moduleName: seq<byte>): (r: State)
    requires |placeholder| > 0
    ensures st.err.Some? ==> r == st
    ensures st.files <= r.files && st.replaced <= r.replaced
    ensures r.replaced - st.replaced <= r.files - st.files
    decreases t
  {
    if st.err.Some? then st
    else match t
      case File(name, mode, content) =>
        var o := ProcessFile(st.nodes, dest + rel + [name], content, mode, placeholder, moduleName);
        if o.err.Some? then
          State(o.nodes, st.files, st.replaced, Some(FileFailed(JoinSegs(rel + [name]), o.err.value)))
        else
          State(o.nodes, st.files + 1, st.replaced + (if o.replaced then 1 else 0), None)
      case Dir(name, mode, children) =>
        if Hidden(name) then st
        else
          match MakeDirs(st.nodes, dest + rel + [name], mode)
          case Failure(e) => State(st.nodes, st.files, st.replaced, Some(MkdirFailed(e)))
          case Success(m) =>
            VisitAll(State(m, st.files, st.replaced, None), dest, rel + [name], children, placeholder, moduleName)
  }

  function VisitAll(st: State, dest: Path, rel: seq<string>, ts: seq<Tree>,
                    placeholder: seq<byte>, moduleName: seq<byte>): (r: State)
    requires |placeholder| > 0
    ensures st.err.Some? ==> r == st
    ensures st.files <= r.files && st.replaced <= r.replaced
    ensures r.replaced - st.replaced <= r.files - st.files
    decreases ts
  {
    if ts == [] then st
    else VisitAll(Visit(st, dest, rel, ts[0], placeholder, moduleName), dest, rel, ts[1..], placeholder, moduleName)
  }

  /** `ProcessAndCopy`: the root itself is skipped (its relative path is
      "."), whatever its name; a root that is a file yields nothing. There
      are never more replacements than files. */
  function Walk(n: Nodes, root: Tree, dest: Path, placeholder: seq<byte>, moduleName: seq<byte>): (r: State)
    requires |placeholder| > 0
    ensures r.replaced <= r.files
  {
    var start := State(n, 0, 0, None);
    match root
    case File(_, _, _) => start
    case Dir(_, _, children) => VisitAll(start, dest, [], children, placeholder, moduleName)
  }

  // ---------------------------------------------------------------------
  // The same operations against the filesystem

  /** `copyFile`: open the destination with `O_CREATE|O_WRONLY|O_TRUNC` and
      the source mode, then copy the bytes. */
  method CopyFile(fs: FileSystem, key: Path, content: seq<byte>, mode: nat) returns (err: Option<FileError>)
    modifies fs
    ensures fs.nodes == After(old(fs.nodes), Write(old(fs.nodes), key, content, mode, true))
    ensures err == if Write(old(fs.nodes), key, content, mode, true).Success? then None
                   else Some(CreateFailed(Write(old(fs.nodes), key, content, mode, true).error))
  {
    var e := fs.OpenAndWrite(key, content, mode, true);
    if e.Some? {
      return Some(CreateFailed(e.value));
    }
    return None;
  }

  /** `processFile` on content already read from the source. */
  method ProcessFileAt(fs: FileSystem, key: Path, content: seq<byte>, mode: nat,
                       placeholder: seq<byte>, moduleName: seq<byte>)
    returns (replaced: bool, err: Option<FileError>)
    requires |placeholder| > 0
    modifies fs
    ensures var o := ProcessFile(old(fs.nodes), key, content, mode, placeholder, moduleName);
      fs.nodes == o.nodes && err == o.err && replaced == o.replaced
  {
    var binary := IsBinary(content);
    if binary {
      err := CopyFile(fs, key, content, mode);
      return false, err;
    }
    var hasMatch := Contains(content, placeholder);
    var modified := ReplaceAll(content, placeholder, moduleName);
    var e := fs.OpenAndWrite(key, modified, mode, true);
    if e.Some? {
      return false, Some(WriteFailed(e.value));
    }
    return hasMatch, None;
  }

  /** The state `ProcessAndCopy` keeps across the callbacks of
      `filepath.Walk`: the two counters, the destination and the
      substitution. */
  class Walker {
    var fileCount: nat
    var replacementCount: nat
    const fs: FileSystem
    const dest: Path
    const placeholder: seq<byte>
    const moduleName: seq<byte>

    constructor (fs: FileSystem, dest: Path, placeholder: seq<byte>, moduleName: seq<byte>)
      ensures fileCount == 0 && replacementCount == 0
      ensures this.fs == fs && this.dest == dest
      ensures this.placeholder == placeholder && this.moduleName == moduleName
    {
      fileCount := 0;
      replacementCount := 0;
      this.fs := fs;
      this.dest := dest;
      this.placeholder := placeholder;
      this.moduleName := moduleName;
    }

    /** The counters and the filesystem as a walk state. */
    function Current(err: Option<ProcessError>): State
      reads this, fs
    {
      State(fs.nodes, fileCount, replacementCount, err)
    }

    /** The callback on `t`, then its subtree unless the callback pruned it
        or failed. */
    method WalkEntry(rel: seq<string>, t: Tree) returns (err: Option<ProcessError>)
      requires |placeholder| > 0
      modifies this, fs
      ensures Current(err) == Visit(old(Current(None)), dest, rel, t, placeholder, moduleName)
      decreases t, 1
    {
      match t {
        case File(name, mode, content) =>
          var replaced, e := ProcessFileAt(fs, dest + rel + [name], content, mode, placeholder, moduleName);
          if e.Some? {
            return Some(FileFailed(JoinSegs(rel + [name]), e.value));
          }
          if replaced {
            replacementCount := replacementCount + 1;
          }
          fileCount := fileCount + 1;
          return None;
        case Dir(name, mode, children) =>
          if Hidden(name) {
            return None;
          }
          var e := fs.MkdirAll(dest + rel + [name], mode);
          if e.Some? {
            return Some(MkdirFailed(e.value));
          }
          err := WalkEntries(rel + [name], children);
      }
    }

    /** The children of a directory in order, stopping at the first error. */
    method WalkEntries(rel: seq<string>, ts: seq<Tree>) returns (err: Option<ProcessError>)
      requires |placeholder| > 0
      modifies this, fs
      ensures Current(err) == VisitAll(old(Current(None)), dest, rel, ts, placeholder, moduleName)
      decreases ts, 0
    {
      var i := 0;
      while i < |ts|
        invariant 0 <= i <= |ts|
        invariant VisitAll(old(Current(None)), dest, rel, ts, placeholder, moduleName)
               == VisitAll(Current(None), dest, rel, ts[i..], placeholder, moduleName)
      {
        assert ts[i..][1..] == ts[i + 1..];
        err := WalkEntry(rel, ts[i]);
        if err.Some? {
          ErrorAbsorbs(Current(err), dest, rel, ts[i + 1..], placeholder, moduleName);
          return err;
        }
        i := i + 1;
      }
      return None;
    }
  }

  /** `ProcessAndCopy`: returns the error that stopped the walk, if any, and
      the two counters it reports. Files written before an error stay. */
  method ProcessAndCopy(fs: FileSystem, root: Tree, dest: Path, placeholder: seq<byte>, moduleName: seq<byte>)
    returns (err: Option<ProcessError>, files: nat, replaced: nat)
    requires |placeholder| > 0
    modifies fs
    ensures var s := Walk(old(fs.nodes), root, dest, placeholder, moduleName);
      fs.nodes == s.nodes && err == s.err && files == s.files && replaced == s.replaced
  {
    var w := new Walker(fs, dest, placeholder, moduleName);
    if root.Dir? {
      err := w.WalkEntries([], root.children);
    } else {
      err := None;
    }
    files := w.fileCount;
    replaced := w.replacementCount;
  }

  // ---------------------------------------------------------------------
  // Properties of the walk

  /** After an error the walk does nothing more. */
  lemma {:induction false} ErrorAbsorbs(st: State, dest: Path, rel: seq<string>, ts: seq<Tree>,
                                        placeholder: seq<byte>, moduleName: seq<byte>)
    requires |placeholder| > 0 && st.err.Some?
    ensures VisitAll(st, dest, rel, ts, placeholder, moduleName) == st
    decreases |ts|
  {
    if ts != [] {
      ErrorAbsorbs(st, dest, rel, ts[1..], placeholder, moduleName);
    }
  }

  /** The files the walk processes, in order: every file outside a pruned
      directory, hidden files included. */
  function FilesOf(t: Tree): seq<Tree>
    decreases t
  {
    match t
    case File(_, _, _) => [t]
    case Dir(name, _, children) => if Hidden(name) then [] else FilesOfAll(children)
  }

  function FilesOfAll(ts: seq<Tree>): seq<Tree>
    decreases ts
  {
    if ts == [] then [] else FilesOf(ts[0]) + FilesOfAll(ts[1..])
  }

  /** Below the root: a root that is a file is not processed. */
  function RootFiles(root: Tree): seq<Tree> {
    if root.Dir? then FilesOfAll(root.children) else []
  }

  /** How many of `fs` are text files in which the placeholder occurs. */
  function Matching(fs: seq<Tree>, placeholder: seq<byte>): (k: nat)
    ensures k <= |fs|
    decreases |fs|
  {
    if fs == [] then 0
    else
      var here := fs[0].File? && !Binary(fs[0].content) && Contains(fs[0].content, placeholder);
      Matching(fs[1..], placeholder) + (if here then 1 else 0)
  }

  lemma {:induction false} MatchingAppend(a: seq<Tree>, b: seq<Tree>, placeholder: seq<byte>)
    ensures Matching(a + b, placeholder) == Matching(a, placeholder) + Matching(b, placeholder)
    decreases |a|
  {
    if a == [] {
      assert a + b == b;
    } else {
      assert (a + b)[0] == a[0];
      assert (a + b)[1..] == a[1..] + b;
      MatchingAppend(a[1..], b, placeholder);
    }
  }

  lemma {:induction false} VisitCounts(st: State, dest: Path, rel: seq<string>, t: Tree,
                                       placeholder: seq<byte>, moduleName: seq<byte>)
    requires |placeholder| > 0 && st.err.None?
    ensures var r := Visit(st, dest, rel, t, placeholder, moduleName);
      r.err.None? ==>
        r.files == st.files + |FilesOf(t)| &&
        r.replaced == st.replaced + Matching(FilesOf(t), placeholder)
    decreases t, 1
  {
    match t
    case File(_, _, _) =>
      assert FilesOf(t)[1..] == [];
    case Dir(name, mode, children) =>
      if !Hidden(name) && MakeDirs(st.nodes, dest + rel + [name], mode).Success? {
        var m := MakeDirs(st.nodes, dest + rel + [name], mode).value;
        VisitAllCounts(State(m, st.files, st.replaced, None), dest, rel + [name], children, placeholder, moduleName);
      }
  }

  lemma {:induction false} VisitAllCounts(st: State, dest: Path, rel: seq<string>, ts: seq<Tree>,
                                          placeholder: seq<byte>, moduleName: seq<byte>)
    requires |placeholder| > 0 && st.err.None?
    ensures var r := VisitAll(st, dest, rel, ts, placeholder, moduleName);
      r.err.None? ==>
        r.files == st.files + |FilesOfAll(ts)| &&
        r.replaced == st.replaced + Matching(FilesOfAll(ts), placeholder)
    decreases ts, 0
  {
    if ts != [] {
      var s1 := Visit(st, dest, rel, ts[0], placeholder, moduleName);
      VisitCounts(st, dest, rel, ts[0], placeholder, moduleName);
      MatchingAppend(FilesOf(ts[0]), FilesOfAll(ts[1..]), placeholder);
      if s1.err.None? {
        VisitAllCounts(s1, dest, rel, ts[1..], placeholder, moduleName);
      } else {
        ErrorAbsorbs(s1, dest, rel, ts[1..], placeholder, moduleName);
      }
    }
  }

  /** A walk that succeeds has counted every file outside pruned
      directories, and exactly the text files holding the placeholder as
      replaced; so there are never more replacements than files. */
  lemma WalkCounts(n: Nodes, root: Tree, dest: Path, placeholder: seq<byte>, moduleName: seq<byte>)
    requires |placeholder| > 0
    requires Walk(n, root, dest, placeholder, moduleName).err.None?
    ensures var r := Walk(n, root, dest, placeholder, moduleName);
      && r.files == |RootFiles(root)|
      && r.replaced == Matching(RootFiles(root), placeholder)
      && r.replaced <= r.files
  {
    if root.Dir? {
      VisitAllCounts(State(n, 0, 0, None), dest, [], root.children, placeholder, moduleName);
    }
  }

  /** Every entry the walk writes lies below the destination. */
  lemma {:induction false} VisitContained(st: State, dest: Path, rel: seq<string>, t: Tree,
                                          placeholder: seq<byte>, moduleName: seq<byte>)
    requires |placeholder| > 0 && IsDir(st.nodes, dest)
    ensures var r := Visit(st, dest, rel, t, placeholder, moduleName);
      Frame(st.nodes, r.nodes, dest) && IsDir(r.nodes, dest)
    decreases t, 1
  {
    FrameRefl(st.nodes, dest);
    if st.err.None? {
      match t
      case File(name, mode, content) =>
        var key := dest + rel + [name];
        assert key[..|dest|] == dest;
      case Dir(name, mode, children) =>
        var key := dest + rel + [name];
        if !Hidden(name) && MakeDirs(st.nodes, key, mode).Success? {
          assert key[..|dest|] == dest;
          var m := MakeDirs(st.nodes, key, mode).value;
          MakeDirsFrame(st.nodes, dest, key, mode);
          var s1 := State(m, st.files, st.replaced, None);
          VisitAllContained(s1, dest, rel + [name], children, placeholder, moduleName);
          FrameTrans(st.nodes, m, VisitAll(s1, dest, rel + [name], children, placeholder, moduleName).nodes, dest);
        }
    }
  }

  lemma {:induction false} VisitAllContained(st: State, dest: Path, rel: seq<string>, ts: seq<Tree>,
                                             placeholder: seq<byte>, moduleName: seq<byte>)
    requires |placeholder| > 0 && IsDir(st.nodes, dest)
    ensures var r := VisitAll(st, dest, rel, ts, placeholder, moduleName);
      Frame(st.nodes, r.nodes, dest) && IsDir(r.nodes, dest)
    decreases ts, 0
  {
    if ts == [] {
      FrameRefl(st.nodes, dest);
    } else {
      var s1 := Visit(st, dest, rel, ts[0], placeholder, moduleName);
      VisitContained(st, dest, rel, ts[0], placeholder, moduleName);
      VisitAllContained(s1, dest, rel, ts[1..], placeholder, moduleName);
      FrameTrans(st.nodes, s1.nodes, VisitAll(s1, dest, rel, ts[1..], placeholder, moduleName).nodes, dest);
    }
  }

  /** The walk changes nothing outside the destination, whether it
      succeeds or stops at an error, and the destination stays a
      directory. */
  lemma WalkContained(n: Nodes, root: Tree, dest: Path, placeholder: seq<byte>, moduleName: seq<byte>)
    requires |placeholder| > 0 && IsDir(n, dest)
    ensures var r := Walk(n, root, dest, placeholder, moduleName);
      Frame(n, r.nodes, dest) && IsDir(r.nodes, dest)
  {
    FrameRefl(n, dest);
    if root.Dir? {
      VisitAllContained(State(n, 0, 0, None), dest, [], root.children, placeholder, moduleName);
    }
  }

  lemma {:induction false} VisitAllAppend(st: State, dest: Path, rel: seq<string>, a: seq<Tree>, b: seq<Tree>,
                                          placeholder: seq<byte>, moduleName: seq<byte>)
    requires |placeholder| > 0
    ensures VisitAll(st, dest, rel, a + b, placeholder, moduleName)
         == VisitAll(VisitAll(st, dest, rel, a, placeholder, moduleName), dest, rel, b, placeholder, moduleName)
    decreases |a|
  {
    if a == [] {
      assert a + b == b;
    } else {
      assert (a + b)[0] == a[0];
      assert (a + b)[1..] == a[1..] + b;
      VisitAllAppend(Visit(st, dest, rel, a[0], placeholder, moduleName), dest, rel, a[1..], b, placeholder, moduleName);
    }
  }

  /** A directory whose name starts with "." is pruned with its whole
      subtree: the walk goes as if it were not there. */
  lemma HiddenDirPruned(st: State, dest: Path, rel: seq<string>, pre: seq<Tree>, d: Tree, post: seq<Tree>,
                        placeholder: seq<byte>, moduleName: seq<byte>)
    requires |placeholder| > 0 && d.Dir? && Hidden(d.name)
    ensures VisitAll(st, dest, rel, pre + [d] + post, placeholder, moduleName)
         == VisitAll(st, dest, rel, pre + post, placeholder, moduleName)
  {
    assert pre + [d] + post == pre + ([d] + post);
    assert ([d] + post)[0] == d && ([d] + post)[1..] == post;
    VisitAllAppend(st, dest, rel, pre, [d] + post, placeholder, moduleName);
    VisitAllAppend(st, dest, rel, pre, post, placeholder, moduleName);
  }

  /** The first failure ends the walk: later entries change nothing, and
      what was written before it stays. */
  lemma WalkStopsAtFirstError(st: State, dest: Path, rel: seq<string>, pre: seq<Tree>, post: seq<Tree>,
                              placeholder: seq<byte>, moduleName: seq<byte>)
    requires |placeholder| > 0
    requires VisitAll(st, dest, rel, pre, placeholder, moduleName).err.Some?
    ensures VisitAll(st, dest, rel, pre + post, placeholder, moduleName)
         == VisitAll(st, dest, rel, pre, placeholder, moduleName)
  {
    VisitAllAppend(st, dest, rel, pre, post, placeholder, moduleName);
    ErrorAbsorbs(VisitAll(st, dest, rel, pre, placeholder, moduleName), dest, rel, post, placeholder, moduleName);
  }

  /** The root is never an entry of the walk: its name and mode play no
      part, even when the name starts with ".". */
  lemma RootNameIgnored(n: Nodes, a: string, b: string, ma: nat, mb: nat, children: seq<Tree>, dest: Path,
                        placeholder: seq<byte>, moduleName: seq<byte>)
    requires |placeholder| > 0
    ensures Walk(n, Dir(a, ma, children), dest, placeholder, moduleName)
         == Walk(n, Dir(b, mb, children), dest, placeholder, moduleName)
  {
  }

  // ---------------------------------------------------------------------
  // What a successful walk leaves in the destination

  /** The bytes a processed file ends up holding. */
  function Output(content: seq<byte>, placeholder: seq<byte>, moduleName: seq<byte>): seq<byte>
    requires |placeholder| > 0
  {
    if Binary(content) then content else ReplaceAll(content, placeholder, moduleName)
  }

  predicate DistinctNames(ts: seq<Tree>) {
    forall i, j :: 0 <= i < j < |ts| ==> ts[i].name != ts[j].name
  }

  /** Sibling names are distinct at every level, as in a real directory. */
  predicate WellNamed(t: Tree)
    decreases t
  {
    match t
    case File(_, _, _) => true
    case Dir(_, _, cs) => DistinctNames(cs) && forall i :: 0 <= i < |cs| ==> WellNamed(cs[i])
  }

  /** What the walk is meant to leave below `base` for `t`: a file with its
      processed bytes and the source mode, or a directory with the source
      mode and, unless it is pruned, the layout of its children. */
  function Layout(base: Path, t: Tree, placeholder: seq<byte>, moduleName: seq<byte>): map<Path, Node>
    requires |placeholder| > 0
    decreases t
  {
    match t
    case File(name, mode, content) =>
      map[base + [name] := Regular(Output(content, placeholder, moduleName), SyscallMode(mode))]
    case Dir(name, mode, cs) =>
      if Hidden(name) then map[]
      else map[base + [name] := Directory(SyscallMode(mode))] + LayoutAll(base + [name], cs, placeholder, moduleName)
  }

  function LayoutAll(base: Path, ts: seq<Tree>, placeholder: seq<byte>, moduleName: seq<byte>): map<Path, Node>
    requires |placeholder| > 0
    decreases ts
  {
    if ts == [] then map[] else Layout(base, ts[0], placeholder, moduleName) + LayoutAll(base, ts[1..], placeholder, moduleName)
  }

  /** Nothing exists at or below `p`. */
  ghost predicate Vacant(n: Nodes, p: Path) {
    forall k :: k in n ==> !Under(p, k)
  }

  /** `k` lies below the entry of some sibling in `ts` that is not a pruned
      directory. */
  ghost predicate Owned(base: Path, ts: seq<Tree>, k: Path)
    decreases |ts|
  {
    ts != [] &&
    ((Under(base + [ts[0].name], k) && !(ts[0].Dir? && Hidden(ts[0].name))) || Owned(base, ts[1..], k))
  }

  lemma UnderName(base: Path, x: string, k: Path)
    requires Under(base + [x], k)
    ensures Under(base, k) && |k| > |base| && k[|base|] == x
  {
    assert k[..|base|] == (base + [x])[..|base|];
    assert k[|base|] == k[..|base| + 1][|base|];
  }

  /** A path whose name below `base` belongs to no sibling, or only to a
      pruned one, is owned by none. */
  lemma {:induction false} NotOwned(base: Path, ts: seq<Tree>, k: Path)
    requires |k| > |base|
    requires forall j :: 0 <= j < |ts| ==> ts[j].name != k[|base|] || (ts[j].Dir? && Hidden(ts[j].name))
    ensures !Owned(base, ts, k)
    decreases |ts|
  {
    if ts != [] {
      if Under(base + [ts[0].name], k) {
        UnderName(base, ts[0].name, k);
      }
      assert forall j :: 0 <= j < |ts[1..]| ==> ts[1..][j] == ts[j + 1];
      NotOwned(base, ts[1..], k);
    }
  }

  /** Every path of a layout lies below the entry it comes from, and a
      pruned directory contributes none. */
  lemma {:induction false} LayoutKeys(base: Path, t: Tree, placeholder: seq<byte>, moduleName: seq<byte>)
    requires |placeholder| > 0
    ensures forall k :: k in Layout(base, t, placeholder, moduleName) ==> Under(base + [t.name], k)
    ensures t.Dir? && Hidden(t.name) ==> Layout(base, t, placeholder, moduleName) == map[]
    decreases t, 1
  {
    match t
    case File(_, _, _) =>
    case Dir(name, mode, cs) =>
      if !Hidden(name) {
        LayoutAllKeys(base + [name], cs, placeholder, moduleName);
        forall k | k in LayoutAll(base + [name], cs, placeholder, moduleName)
          ensures Under(base + [name], k)
        {
          OwnedUnder(base + [name], cs, k);
        }
      }
  }

  lemma {:induction false} OwnedUnder(base: Path, ts: seq<Tree>, k: Path)
    requires Owned(base, ts, k)
    ensures Under(base, k)
    decreases |ts|
  {
    if Under(base + [ts[0].name], k) {
      UnderName(base, ts[0].name, k);
    } else {
      OwnedUnder(base, ts[1..], k);
    }
  }

  lemma {:induction false} LayoutAllKeys(base: Path, ts: seq<Tree>, placeholder: seq<byte>, moduleName: seq<byte>)
    requires |placeholder| > 0
    ensures forall k :: k in LayoutAll(base, ts, placeholder, moduleName) ==> Owned(base, ts, k)
    decreases ts, 0
  {
    if ts != [] {
      LayoutKeys(base, ts[0], placeholder, moduleName);
      LayoutAllKeys(base, ts[1..], placeholder, moduleName);
    }
  }

  /** Below a vacant `p`, the path `p + [c]` is vacant too. */
  lemma VacantBelow(n: Nodes, p: Path, c: string)
    requires Vacant(n, p)
    ensures Vacant(n, p + [c])
  {
    forall k | k in n ensures !Under(p + [c], k) {
      UnderExtend(p, c, k);
    }
  }

  lemma UnderExtend(p: Path, c: string, k: Path)
    ensures Under(p + [c], k) ==> Under(p, k)
  {
    if Under(p + [c], k) {
      UnderName(p, c, k);
    }
  }

  /** Adding the entries of a sibling named `x` keeps a sibling named `c`
      vacant. */
  lemma VacantAfter(n: Nodes, l: map<Path, Node>, base: Path, x: string, c: string)
    requires Vacant(n, base + [c]) && c != x
    requires forall k :: k in l ==> Under(base + [x], k)
    ensures Vacant(n + l, base + [c])
  {
    forall k | k in n + l ensures !Under(base + [c], k) {
      if k in l {
        UnderName(base, x, k);
        if Under(base + [c], k) {
          UnderName(base, c, k);
        }
      }
    }
  }

  /** Processing a file at a vacant path below a directory adds exactly
      that file. */
  lemma FileLands(n: Nodes, base: Path, name: string, content: seq<byte>, mode: nat,
                  placeholder: seq<byte>, moduleName: seq<byte>)
    requires |placeholder| > 0 && IsDir(n, base) && Vacant(n, base + [name])
    ensures var o := ProcessFile(n, base + [name], content, mode, placeholder, moduleName);
      o.err.None? &&
      o.nodes == n + map[base + [name] := Regular(Output(content, placeholder, moduleName), SyscallMode(mode))]
  {
    var key := base + [name];
    assert Under(key, key);
    assert DirOf(key) == base;
    var data := Output(content, placeholder, moduleName);
    var m := Write(n, key, data, mode, true).value;
    assert m == n + map[key := Regular(data, SyscallMode(mode))];
  }

  /** Creating a directory at a vacant path below a directory adds exactly
      that directory. */
  lemma DirLands(n: Nodes, base: Path, name: string, mode: nat)
    requires IsDir(n, base) && Vacant(n, base + [name])
    ensures MakeDirs(n, base + [name], mode) == Success(n[base + [name] := Directory(SyscallMode(mode))])
  {
    var key := base + [name];
    assert Under(key, key);
    assert key[..|key| - 1] == base;
  }

  lemma {:induction false} VisitLayout(st: State, dest: Path, rel: seq<string>, t: Tree,
                                       placeholder: seq<byte>, moduleName: seq<byte>)
    requires |placeholder| > 0 && st.err.None? && WellNamed(t)
    requires IsDir(st.nodes, dest + rel) && Vacant(st.nodes, dest + rel + [t.name])
    ensures var r := Visit(st, dest, rel, t, placeholder, moduleName);
      r.err.None? ==> r.nodes == st.nodes + Layout(dest + rel, t, placeholder, moduleName)
    decreases t, 1
  {
    var n, base := st.nodes, dest + rel;
    match t
    case File(name, mode, content) =>
      FileLands(n, base, name, content, mode, placeholder, moduleName);
    case Dir(name, mode, cs) =>
      if Hidden(name) {
        assert n + map[] == n;
      } else {
        var key := base + [name];
        DirLands(n, base, name, mode);
        var d := Directory(SyscallMode(mode));
        var m := n[key := d];
        assert dest + (rel + [name]) == key;
        forall i | 0 <= i < |cs| ensures Vacant(m, key + [cs[i].name]) {
          VacantBelow(n, key, cs[i].name);
          UnderExtend(key, cs[i].name, key);
        }
        var s1 := State(m, st.files, st.replaced, None);
        VisitAllLayout(s1, dest, rel + [name], cs, placeholder, moduleName);
        var l := LayoutAll(key, cs, placeholder, moduleName);
        MapUnionUpdate(n, key, d, l);
      }
  }

  lemma MapUnionUpdate(n: Nodes, key: Path, d: Node, l: map<Path, Node>)
    ensures n[key := d] + l == n + (map[key := d] + l)
  {
  }

  lemma MapUnionAssoc(a: Nodes, b: Nodes, c: Nodes)
    ensures (a + b) + c == a + (b + c)
  {
  }

  /** The first sibling's entries leave the parent a directory and the
      other siblings vacant. */
  lemma FirstSiblingKeeps(n: Nodes, l0: map<Path, Node>, base: Path, ts: seq<Tree>)
    requires |ts| >= 1 && DistinctNames(ts) && IsDir(n, base)
    requires forall i :: 0 <= i < |ts| ==> Vacant(n, base + [ts[i].name])
    requires forall k :: k in l0 ==> Under(base + [ts[0].name], k)
    ensures IsDir(n + l0, base)
    ensures forall i :: 0 <= i < |ts[1..]| ==> Vacant(n + l0, base + [ts[1..][i].name])
  {
    if base in l0 {
      UnderName(base, ts[0].name, base);
    }
    forall i | 0 <= i < |ts[1..]| ensures Vacant(n + l0, base + [ts[1..][i].name]) {
      assert ts[1..][i] == ts[i + 1];
      VacantAfter(n, l0, base, ts[0].name, ts[i + 1].name);
    }
  }

  lemma {:induction false} VisitAllLayout(st: State, dest: Path, rel: seq<string>, ts: seq<Tree>,
                                          placeholder: seq<byte>, moduleName: seq<byte>)
    requires |placeholder| > 0 && st.err.None?
    requires DistinctNames(ts) && forall i :: 0 <= i < |ts| ==> WellNamed(ts[i])
    requires IsDir(st.nodes, dest + rel)
    requires forall i :: 0 <= i < |ts| ==> Vacant(st.nodes, dest + rel + [ts[i].name])
    ensures var r := VisitAll(st, dest, rel, ts, placeholder, moduleName);
      r.err.None? ==> r.nodes == st.nodes + LayoutAll(dest + rel, ts, placeholder, moduleName)
    decreases ts, 0
  {
    var n, base := st.nodes, dest + rel;
    if ts == [] {
      assert n + map[] == n;
    } else {
      var s1 := Visit(st, dest, rel, ts[0], placeholder, moduleName);
      if s1.err.Some? {
        ErrorAbsorbs(s1, dest, rel, ts[1..], placeholder, moduleName);
      } else {
        VisitLayout(st, dest, rel, ts[0], placeholder, moduleName);
        var l0 := Layout(base, ts[0], placeholder, moduleName);
        LayoutKeys(base, ts[0], placeholder, moduleName);
        FirstSiblingKeeps(n, l0, base, ts);
        assert forall i :: 0 <= i < |ts[1..]| ==> ts[1..][i] == ts[i + 1];
        VisitAllLayout(s1, dest, rel, ts[1..], placeholder, moduleName);
        MapUnionAssoc(n, l0, LayoutAll(base, ts[1..], placeholder, moduleName));
      }
    }
  }

  /** A destination with nothing below it leaves every top-level sibling
      vacant. */
  lemma EmptyDestVacant(n: Nodes, dest: Path, ts: seq<Tree>)
    requires forall k :: k in n && Under(dest, k) ==> k == dest
    ensures forall i :: 0 <= i < |ts| ==> Vacant(n, dest + [] + [ts[i].name])
  {
    assert dest + [] == dest;
    forall i, k | 0 <= i < |ts| && k in n ensures !Under(dest + [ts[i].name], k) {
      UnderExtend(dest, ts[i].name, k);
    }
  }

  /** A walk that succeeds, into a destination directory with nothing below
      it yet, leaves exactly the template's layout there: every file outside
      a pruned directory at its relative path with its processed bytes and
      the source mode, every directory that is not pruned with the source
      mode, and nothing else. Entries outside the destination stay as they
      were. */
  lemma WalkLayout(n: Nodes, root: Tree, dest: Path, placeholder: seq<byte>, moduleName: seq<byte>)
    requires |placeholder| > 0 && WellNamed(root) && IsDir(n, dest)
    requires forall k :: k in n && Under(dest, k) ==> k == dest
    requires Walk(n, root, dest, placeholder, moduleName).err.None?
    ensures Walk(n, root, dest, placeholder, moduleName).nodes
         == n + (if root.Dir? then LayoutAll(dest, root.children, placeholder, moduleName) else map[])
  {
    if root.Dir? {
      assert dest + [] == dest;
      EmptyDestVacant(n, dest, root.children);
      VisitAllLayout(State(n, 0, 0, None), dest, [], root.children, placeholder, moduleName);
    } else {
      assert n + map[] == n;
    }
  }

  /** An entry's own path is in the layout of its siblings with the value
      the entry gives it. */
  lemma {:induction false} LayoutInAll(base: Path, ts: seq<Tree>, i: nat, placeholder: seq<byte>, moduleName: seq<byte>)
    requires |placeholder| > 0 && DistinctNames(ts) && i < |ts| && ts[i].File?
    ensures base + [ts[i].name] in LayoutAll(base, ts, placeholder, moduleName)
    ensures LayoutAll(base, ts, placeholder, moduleName)[base + [ts[i].name]]
         == Regular(Output(ts[i].content, placeholder, moduleName), SyscallMode(ts[i].mode))
    decreases |ts|
  {
    var key := base + [ts[i].name];
    if i == 0 {
      LayoutAllKeys(base, ts[1..], placeholder, moduleName);
      assert key[|base|] == ts[0].name;
      assert forall j :: 0 <= j < |ts[1..]| ==> ts[1..][j] == ts[j + 1];
      NotOwned(base, ts[1..], key);
    } else {
      assert ts[1..][i - 1] == ts[i];
      assert DistinctNames(ts[1..]);
      LayoutInAll(base, ts[1..], i - 1, placeholder, moduleName);
    }
  }

  /** A file directly inside the template root lands at `dest/name` with
      its processed bytes and its source mode. */
  lemma WalkCopiesTopFile(n: Nodes, root: Tree, dest: Path, i: nat, placeholder: seq<byte>, moduleName: seq<byte>)
    requires |placeholder| > 0 && WellNamed(root) && IsDir(n, dest)
    requires forall k :: k in n && Under(dest, k) ==> k == dest
    requires Walk(n, root, dest, placeholder, moduleName).err.None?
    requires root.Dir? && i < |root.children| && root.children[i].File?
    ensures var f, m := root.children[i], Walk(n, root, dest, placeholder, moduleName).nodes;
      dest + [f.name] in m && m[dest + [f.name]] == Regular(Output(f.content, placeholder, moduleName), SyscallMode(f.mode))
  {
    WalkLayout(n, root, dest, placeholder, moduleName);
    LayoutInAll(dest, root.children, i, placeholder, moduleName);
  }

  /** A pruned directory (such as `.git`) at the top of the template leaves
      no entry at or below its name in the destination. */
  lemma HiddenDirLeavesNothing(n: Nodes, root: Tree, dest: Path, i: nat, placeholder: seq<byte>, moduleName: seq<byte>)
    requires |placeholder| > 0 && WellNamed(root) && IsDir(n, dest)
    requires forall k :: k in n && Under(dest, k) ==> k == dest
    requires Walk(n, root, dest, placeholder, moduleName).err.None?
    requires root.Dir? && i < |root.children| && root.children[i].Dir? && Hidden(root.children[i].name)
    ensures forall k :: k in Walk(n, root, dest, placeholder, moduleName).nodes ==> !Under(dest + [root.children[i].name], k)
  {
    var cs := root.children;
    var p := dest + [cs[i].name];
    WalkLayout(n, root, dest, placeholder, moduleName);
    LayoutAllKeys(dest, cs, placeholder, moduleName);
    forall k | k in n + LayoutAll(dest, cs, placeholder, moduleName) && Under(p, k) ensures false {
      UnderName(dest, cs[i].name, k);
      if k in LayoutAll(dest, cs, placeholder, moduleName) {
        NotOwned(dest, cs, k);
      }
    }
  }
}
