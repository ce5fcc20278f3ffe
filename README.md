# goinit core in Dafny

goinit scaffolds a Go project from a template archive. It downloads the
archive named by the chosen architecture, unpacks it into a fresh working
directory and strips a single wrapping directory. It then walks the unpacked
tree and copies it into the project directory, replacing a module placeholder
in every text file with the user's module name.

This project models that pipeline's decisions over an abstract filesystem and
proves what they promise.

- **FilePath** (`filepath.dfy`): Go's lexical `filepath.Clean`, `Join` and
  `Ext` on '/'-separated elements. `Clean` is a stack scan: drop "" and ".",
  cancel ".." against the last kept element, drop ".." at the root. The
  module also defines the components of an absolute path and their rendering
  back to a string.
- **Fs** (`fs.dfy`): the filesystem as a map from path components to
  `Directory(mode)` or `Regular(data, mode)`. It gives the semantics of
  `MkdirAll`, `Mkdir`, `OpenFile` (with or without `O_TRUNC`), `RemoveAll`
  and `ReadDir`, and a `FileSystem` class whose methods perform them in place.
- **Extractor** (`extractor.dfy`): the traversal check, the tar and zip entry
  loops, root stripping and `Extract`. Each is a spec function, and each loop
  is also an imperative method proved equal to it. **ExtractorFacts** holds
  the properties.
- **Replace** (`replace.dfy`): what `ReplaceAll` and `Match` do with a
  `QuoteMeta`'d placeholder. The match is literal, leftmost and
  non-overlapping. The replacement is a `$` template: `$$` gives `$`; `$0` and
  `${0}` give the matched placeholder; any other name gives nothing, since
  the pattern has no groups; a malformed reference leaves its `$` as text.
- **Processor** (`processor.dfy`): `isBinary`, `processFile`, `copyFile` and
  the pruned pre-order walk of `ProcessAndCopy`. Its two counters live in a
  `Walker` object.
- **Downloader** (`downloader.dfy`): `DetectArchiveFormat`.
- **Config** (`config.dfy`): `GetBoilerplate` and `ValidateArchitecture`.
- **Cli** (`cli.dfy`): `wrapText`.

Inputs the program reads from outside are parameters of the model:
- **The archive** is given already decoded: a tar stream of headers, or a zip
  index of entries.
- **The template tree** is given as a `Tree` value.
- **The working directory's name** (chosen by `os.MkdirTemp`) is a parameter,
  required to be a clean absolute path with nothing under it yet.

A tar regular file is opened without `O_TRUNC`. An entry that lands on an
existing file keeps that file's mode and overwrites its bytes from offset 0,
leaving any longer tail in place. A zip file is truncated and keeps the
default create mode. Both are modelled as written.

## Model

| member | source | states |
|---|---|---|
| FilePath.Clean | internal/extractor/extractor.go:80 | the cleaned path is never empty, is rooted exactly when the input is, and a rooted input keeps its resolved components |
| FilePath.Join | internal/extractor/extractor.go:77 | the join is empty only for two empty texts; onto a rooted directory it is rooted and resolves to the components of dir + "/" + name |
| FilePath.Ext | internal/downloader/downloader.go:53 | the extension is a suffix of the path, starts with '.', and contains no separator |
| FilePath.ExtOfSuffix | internal/downloader/downloader.go:53 | a path ending in "." plus a text without '.' or '/' has exactly that extension |
| FilePath.RenderRoundTrip | internal/extractor/extractor.go:77-80 | rendering clean components and taking the components back is the identity, and such a path is already clean |
| FilePath.JoinResolves | internal/extractor/extractor.go:77 | joining a name onto a clean absolute directory is the rendering of the directory's components with the name's elements resolved onto them |
| FilePath.JoinPrefix | internal/extractor/extractor.go:80 | the string prefix test against "dir/" holds exactly when the component list strictly extends dir's |
| Fs.ModeExamples | internal/extractor/extractor.go:96 | `os.FileMode(header.Mode)` passed to the file system keeps the permission bits and carries Go's setuid bit to the Unix one: 04755 gives 0755, 0100644 gives 0644, ModeSetuid plus 0755 gives 04755, and plain permissions are unchanged |
| Fs.MakeDirs | internal/extractor/extractor.go:86 | a successful MkdirAll leaves the target a directory, keeps every existing entry, and adds only directories on the way to the target with the converted mode; a failure names a regular file on that way |
| Fs.MakeDir | internal/extractor/extractor.go:20 | Mkdir succeeds exactly when the path is new and its parent is a directory, and then adds just that directory |
| Fs.Write | internal/extractor/extractor.go:96 | opening for writing succeeds exactly when the path is not a directory and either exists or has a directory as parent; it then holds a regular file, every other path is as before, a truncated or new file holds exactly the data, and the mode is the existing one or the converted create mode |
| Fs.MakeDirsEffect | internal/extractor/extractor.go:86-93 | MkdirAll below an existing directory only adds directories on the way to the target, never alters an entry, and leaves the target a directory |
| Fs.MakeDirsFrame | internal/extractor/extractor.go:86-93 | a successful MkdirAll below a directory changes nothing outside it and keeps it a directory |
| Fs.FileSystem.MkdirAll | internal/extractor/extractor.go:86 | the in-place call leaves the state that MakeDirs gives, or the old state on failure, and reports the error |
| Fs.FileSystem.Mkdir | internal/extractor/extractor.go:20 | the working-directory creation as a single Mkdir |
| Fs.FileSystem.OpenAndWrite | internal/extractor/extractor.go:96-106 | OpenFile with or without truncation followed by the copy |
| Fs.FileSystem.RemoveAll | internal/extractor/extractor.go:28 | the new state is the old one without the subtree |
| Fs.FileSystem.ReadDir | internal/extractor/extractor.go:168 | the listing has as many entries as there are children, with distinct names, each naming a child and saying whether it is a directory |
| Extractor.TarStep | internal/extractor/extractor.go:77-107 | an entry that leaves no error passed the traversal check; a directory entry leaves its target a directory, a regular one leaves a regular file there; a skipped type, or an error other than a failed create, leaves the filesystem as it was |
| Extractor.ZipStep | internal/extractor/extractor.go:121-160 | an entry without error passed the check; a directory entry leaves a directory; a file entry, whether copied or failing to open, leaves a regular file holding the body or nothing; any earlier error changes nothing |
| Extractor.StripRootDirectory | internal/extractor/extractor.go:167-180 | the chosen root is the directory itself or one of its children |
| Extractor.InsideIffStrictDescendant | internal/extractor/extractor.go:77-82 | for a clean absolute non-root destination, the check accepts a name exactly when its cleaned join is a strict descendant of the destination |
| Extractor.AcceptedIsInside | internal/extractor/extractor.go:77-82 | an accepted entry's target and its parent both lie within the destination, and the target is not the destination itself |
| Extractor.ExtractTarGz | internal/extractor/extractor.go:53-111 | the tar loop leaves exactly the filesystem and error that TarOutcome gives: the first bad name or failing call stops it, and an unreadable header after the run is an error |
| Extractor.ExtractZip | internal/extractor/extractor.go:114-163 | the zip loop leaves exactly the filesystem and error that ZipOutcome gives; an entry that cannot be opened fails after its file was created |
| Extractor.StripRootDirectoryCorrect | internal/extractor/extractor.go:167-180 | the root is the single child when the directory holds exactly one entry and it is a directory, and the directory otherwise |
| Extractor.Extract | internal/extractor/extractor.go:16-50 | the filesystem after the call is ExtractOutcome's; failure is reported exactly when it has an error; a returned root is the stripped root, the working directory or one of its children |
| ExtractorFacts.SelfNamesRejected | internal/extractor/extractor.go:77-82 | "", "." and "./" resolve to the destination itself and are rejected |
| ExtractorFacts.ClimbBackRejected | internal/extractor/extractor.go:77-82 | "a/.." is rejected |
| ExtractorFacts.ParentNameRejected | internal/extractor/extractor.go:77-82 | "../x" is rejected |
| ExtractorFacts.InnerClimbAccepted | internal/extractor/extractor.go:77-80 | "a/../b" is accepted and lands on dest/b |
| ExtractorFacts.AbsoluteNameAccepted | internal/extractor/extractor.go:77-80 | "/etc/x" is accepted and lands on dest/etc/x |
| ExtractorFacts.TarRunContained | internal/extractor/extractor.go:77-107 | whatever the headers, the tar loop changes nothing outside the destination and leaves the destination as it was |
| ExtractorFacts.ZipRunContained | internal/extractor/extractor.go:121-160 | the same for the zip loop |
| ExtractorFacts.ExtractFailureRestores | internal/extractor/extractor.go:25-39 | on an unsupported format or any extraction error the filesystem is exactly as before the call |
| ExtractorFacts.ExtractSuccessContained | internal/extractor/extractor.go:20-35 | a successful extraction has a supported format, creates the working directory with mode 0700, and changes nothing outside it |
| ExtractorFacts.TarRunAppend | internal/extractor/extractor.go:68-108 | running headers a then b is running b on the result of a, unless a stopped with an error |
| ExtractorFacts.TarStopsAtFirstError | internal/extractor/extractor.go:80-82 | after a failing entry, later entries change nothing |
| ExtractorFacts.TarEscapeRejected | internal/extractor/extractor.go:80-82 | a rejected name ends the loop with InvalidPath and the state the earlier entries left |
| ExtractorFacts.TarOtherSkipped | internal/extractor/extractor.go:84-107 | an accepted header that is neither directory nor regular file has no effect at all |
| ExtractorFacts.ZipRunAppend | internal/extractor/extractor.go:121-160 | the zip loop composes the same way |
| ExtractorFacts.ZipEscapeRejected | internal/extractor/extractor.go:125-127 | a rejected zip name ends the loop with InvalidPath and the state the earlier entries left |
| ExtractorFacts.TarRegularEffect | internal/extractor/extractor.go:91-106 | a new tar regular file gets `os.FileMode(header.Mode)` as the file system receives it (permission bits plus setuid, setgid and sticky); an existing file keeps its mode and is overwritten from offset 0 without truncation |
| ExtractorFacts.ZipFileEffect | internal/extractor/extractor.go:137-159 | a zip file holds exactly the entry's bytes, with the default 0666 mode when new or the existing mode |
| Replace.Contains | internal/processor/processor.go:98 | Match reports true exactly when the placeholder occurs at some position of the content |
| Replace.Expand | internal/processor/processor.go:101 | a replacement without `$` is used as it is |
| Replace.ReplaceAll | internal/processor/processor.go:101 | ReplaceAll is the content split at the occurrences joined by the expanded template, and content without an occurrence is unchanged |
| Replace.FirstPieceEndsAtLeftmost | internal/processor/processor.go:101 | the scan stops at the leftmost occurrence: none starts inside the first piece, and one starts right after it when there is a second piece |
| Replace.OverlapLeftmost | internal/processor/processor.go:101 | in [1, 1, 1] the placeholder [1, 1] is replaced once, at the left, leaving [2, 1] |
| Replace.ReplaceIsJoin | internal/processor/processor.go:101 | literal replacement equals splitting at the occurrences and joining the pieces with the replacement |
| Replace.ReplaceBySelf | internal/processor/processor.go:101 | replacing the placeholder by itself gives the content back |
| Replace.PiecesRoundTrip | internal/processor/processor.go:101 | the pieces joined by the placeholder are the original content, so only the occurrences change |
| Replace.PiecesHaveNoOccurrence | internal/processor/processor.go:101 | no piece contains the placeholder, so every occurrence is replaced |
| Replace.ContainsIffSplit | internal/processor/processor.go:98 | Match reports true exactly when the content splits into more than one piece |
| Replace.NoOccurrenceUnchanged | internal/processor/processor.go:98-101 | content without the placeholder is unchanged whatever the replacement |
| Replace.ExpandExamples | internal/processor/processor.go:101 | `$$` gives `$`; `$0` and `${0}` give the match; `$1` and `$0a` give nothing |
| Replace.ExpandMalformed | internal/processor/processor.go:101 | a lone `$` and an unclosed `${0` are kept as text |
| Replace.ReplaceAllPlain | internal/processor/processor.go:101 | with no `$` in the module name, ReplaceAll is plain literal replacement by the module name |
| Processor.IsBinary | internal/processor/processor.go:145-175 | the two loops, NUL scan with early return and then the count, compute Binary: non-empty, with a NUL in the first min(len, 512) bytes or more than 10% control bytes there |
| Processor.SampleDecides | internal/processor/processor.go:151-156 | contents agreeing on their first 512 bytes, or identical shorter ones, classify the same |
| Processor.PrintableIsText | internal/processor/processor.go:146-174 | content whose sample holds no control byte apart from newline, carriage return and tab is text; empty content included |
| Processor.NulIsBinary | internal/processor/processor.go:159-163 | a NUL byte among the first 512 bytes makes the content binary |
| Processor.ProcessFile | internal/processor/processor.go:84-115 | a failed call changes nothing and reports no replacement; no path other than the destination changes; a replacement is reported only for text content holding the placeholder |
| Processor.ProcessFileEffect | internal/processor/processor.go:92-141 | a binary file is copied byte for byte with no replacement reported; a text file keeps the text between occurrences, gets the expanded name in each, and reports a replacement exactly when there was an occurrence; a new file gets the source mode as the file system receives it, an existing one keeps its mode; nothing else changes |
| Processor.CopyFile | internal/processor/processor.go:118-141 | copyFile is a truncating write of the source bytes with the source mode; a failure to open is CreateFailed |
| Processor.ProcessFileAt | internal/processor/processor.go:84-115 | processFile against the filesystem gives ProcessFile's state, error and flag |
| Processor.Visit | internal/processor/processor.go:24-71 | after an error the callback does nothing; the counters never go down, and replacementCount grows by no more than fileCount |
| Processor.VisitAll | internal/processor/processor.go:24-71 | the same over a list of entries |
| Processor.Walk | internal/processor/processor.go:21-71 | the final replacementCount is at most fileCount |
| Processor.Walker.WalkEntry | internal/processor/processor.go:24-71 | the callback and subtree walk on one entry leaves the filesystem, counters and error that Visit gives |
| Processor.Walker.WalkEntries | internal/processor/processor.go:24-71 | the walk over a directory's children leaves what VisitAll gives |
| Processor.ProcessAndCopy | internal/processor/processor.go:14-80 | the pruned walk leaves Walk's filesystem, error and counters; files written before an error stay |
| Processor.ErrorAbsorbs | internal/processor/processor.go:73-75 | after an error the walk does nothing more |
| Processor.VisitCounts | internal/processor/processor.go:62-69 | a successful callback on an entry counts its visible files and, among them, the text files holding the placeholder |
| Processor.VisitAllCounts | internal/processor/processor.go:62-69 | the same over a list of entries |
| Processor.WalkCounts | internal/processor/processor.go:21-69 | on success fileCount is the number of files outside pruned directories, replacementCount the number of those that are text and hold the placeholder, and replacementCount <= fileCount |
| Processor.VisitContained | internal/processor/processor.go:46-56 | one entry changes nothing outside the destination |
| Processor.VisitAllContained | internal/processor/processor.go:46-56 | nor does a list of them |
| Processor.WalkContained | internal/processor/processor.go:46-56 | the walk, successful or not, changes nothing outside the destination, which stays a directory |
| Processor.VisitAllAppend | internal/processor/processor.go:24-71 | walking a then b is walking b from where a left off |
| Processor.HiddenDirPruned | internal/processor/processor.go:40-44 | a directory whose name starts with "." is skipped with its whole subtree, as if absent |
| Processor.WalkStopsAtFirstError | internal/processor/processor.go:56-75 | once an entry fails, later entries change nothing |
| Processor.RootNameIgnored | internal/processor/processor.go:35-38 | the root is never an entry of the walk, whatever its name |
| Processor.WalkLayout | internal/processor/processor.go:12-71 | for a tree with distinct sibling names and a destination directory with nothing below it, a successful walk adds exactly the layout of the visible entries: each file at dest plus its relative path with the processed content and its converted mode, each directory there as a directory, and nothing for a hidden directory or anything in it |
| Processor.WalkCopiesTopFile | internal/processor/processor.go:46-56 | after such a walk a top-level file of the template sits at dest plus its name, holding the processed content with the converted source mode |
| Processor.HiddenDirLeavesNothing | internal/processor/processor.go:40-44 | after such a walk nothing exists at or under dest plus the name of a hidden top-level directory |
| Downloader.DetectArchiveFormat | internal/downloader/downloader.go:52-67 | the result is always "tar.gz" or "zip" |
| Downloader.OnlyExtensionDecides | internal/downloader/downloader.go:53-66 | the result is "zip" exactly when the extension is ".zip", and "tar.gz" otherwise |
| Downloader.TarGzUrl | internal/downloader/downloader.go:56-58 | a URL ending in ".tar.gz" gives "tar.gz" |
| Downloader.ZipUrl | internal/downloader/downloader.go:61-63 | a URL ending in ".zip" gives "zip" |
| Downloader.ZipWithQueryIsTarGz | internal/downloader/downloader.go:53-66 | a URL ending in ".zip?x=1" gives "tar.gz" |
| Downloader.GzAloneIsTarGz | internal/downloader/downloader.go:53-66 | a URL ending in ".gz" but not ".tar.gz" gives "tar.gz" |
| Config.GetBoilerplate | internal/config/config.go:34-41 | succeeds exactly when the key is present, with the stored record; otherwise NotFound for the key |
| Config.ValidateArchitecture | internal/config/config.go:44-52 | succeeds exactly when the architecture is in the offered list; otherwise NotAvailable with the list |
| Config.ListAndMapIndependent | internal/config/config.go:17-20 | an architecture can be offered yet have no boilerplate |
| Cli.Fields | main.go:191 | every field is non-empty and free of spaces |
| Cli.FieldsNoneIffBlank | main.go:191-194 | there are no fields, and so no lines, exactly when the text is all space |
| Cli.Wrap | main.go:190-210 | no words give no lines, and there are never more lines than words |
| Cli.WrapText | main.go:190-210 | the loop returns Wrap of the fields of the text |
| Cli.WrapFromJoin | main.go:197-208 | the lines joined with spaces are the current line and the remaining words joined with spaces |
| Cli.WrapFromLines | main.go:200-205 | every line is non-empty and is one word or fits the width |
| Cli.WrapFromGreedy | main.go:200-204 | a line ends only where the next word would not fit on it |
| Cli.FieldsOfJoin | main.go:191 | words joined with single spaces split back into the same words |
| Cli.WrapProperties | main.go:190-210 | no words give no lines; otherwise 1 <= lines <= words; joined, the lines give back the words in order, none lost or split; every line is non-empty and one word or within the width; breaks are greedy |

## Left out

- Decoding: gzip, tar and zip are not decoded. An archive is given as its
  headers or entries, and opening it or a gzip stream either fails or yields
  the whole sequence.
- Copy errors: `io.Copy` failing halfway through an entry is not modelled.
  An entry's bytes are all available, or, for a zip entry, cannot be opened.
- Filesystem details not modelled: the umask, symbolic links, ownership, and
  the name `os.MkdirTemp` picks. The working directory's name is a parameter
  with nothing under it yet.
- File modes: a Go `os.FileMode` is handed to the file system the way Go's
  `syscallMode` does it. The permission bits are kept and Go's setuid, setgid
  and sticky bits become the Unix ones; every other bit is dropped
  (`Fs.SyscallMode`).
- Fs.Write: a call fails only on the path shape (a directory there, or no
  directory as parent), never for permissions or resources. Opening an
  existing read-only file `O_RDWR` (the tar loop,
  internal/extractor/extractor.go:96), or creating a file under a directory
  without write permission, succeeds in the model where Go gets EACCES.
- Fs.MakeDirs: a directory is created below any existing directory whatever
  its permissions, so a `0555` directory from an archive or template does not
  make later creations fail.
- ExtractorFacts.TarRegularEffect: does not cover EACCES on an existing
  read-only file, which the model lets through (see Fs.Write above).
- Processor.ProcessFile: a write that fails after the open, in `os.WriteFile`
  (internal/processor/processor.go:110) or in `copyFile`'s `io.Copy`
  (internal/processor/processor.go:136), is not modelled. Only a failing open
  is.
- ExtractorFacts.ExtractFailureRestores: relies on `os.RemoveAll` succeeding.
  The model gives it no failure, and the code ignores the error it would
  return (internal/extractor/extractor.go:28, 33, 37, 44). A removal that fails
  partway would leave files behind.
- ReadDir order: Go sorts the listing by name, but only its length and
  contents are stated, because that is all `stripRootDirectory` uses.
- Extract: the error branch after `stripRootDirectory`
  (internal/extractor/extractor.go:43-46) cannot occur in the model, because
  the working directory always exists there.
- ProcessAndCopy: reading the source tree (`filepath.Walk`'s `Lstat` and
  directory reads, `os.ReadFile`, `os.Stat`, `os.Open`) is not modelled. The
  template is a `Tree` value, so those errors and `filepath.Rel` play no
  part.
- ProcessAndCopy: entry names are taken as single path elements, which is
  what directory listings yield.
- ProcessAndCopy: an empty placeholder is excluded by the precondition
  `|placeholder| > 0`. Go's empty pattern matches between every pair of runes,
  which would need UTF-8 decoding of the content.
- Replace.Expand: only ASCII letters, digits and `_` count as name bytes after
  `$`. Go also accepts other Unicode letters and digits there.
- isBinary: floating point is not modelled. `float64(n)/float64(checkSize) > 0.1`
  is stated as `10 * n > checkSize`, which is exact for sizes up to 512.
- Downloader.DetectArchiveFormat: URLs are character sequences, whereas
  `len(url) > 7` counts bytes. By `OnlyExtensionDecides` the result does not
  depend on that test.
- Not modelled as computation:
  - `downloader.Download`: network I/O.
  - `config.Load`: JSON decoding.
  - `internal/validator/validator.go`: a sequence of stat and mkdir calls.
  - The cobra command wiring, every progress message, and the list output.
  - The deferred cleanups in `createCmd` (main.go:98, 108).
- Error text: error messages are kept only as the error's kind and its
  payload (path, name or cause).
