# gozip's `ziplib` in Dafny

A model of the decision logic of the `ziplib` package of gozip, a zip/unzip
utility written in Go, with proofs about it. The model has three parts:

- **The pattern matcher** (`matchesAny`). It reports whether any of a list of
  shell globs matches the final element of a path. A malformed glob counts as
  no match. Go's `filepath.Match`, on names without '/', becomes
  `Glob.Tokenize`, which returns None for a malformed pattern, followed by the
  recursive `Glob.GlobMatch`. Base names hold no '/' unless they are "/".
  `filepath.Base`, `Dir`, `Clean`, `Join` and `Abs` are lexical functions in
  `Paths`.
- **The archive writer** (`Zip`, `addToZip`, `writeFileToZip`).
  - The sources are an abstract file tree, `Writer.Node`: a regular file, a
    directory with its children in the lexical order the walk visits them, or
    a directory that cannot be listed.
  - `Writer.AddAll` is the specification: the ordered entries (name, method,
    mode, time, bytes), the status lines, and the error that stopped it.
  - The method `Writer.Zip` is the source's loop, with the level clamp, proved
    equal to that specification.
- **The extractor and lister** (`Unzip`, `extractFile`, `List`).
  - `Extractor.Host` is a class. It holds the working directory, the file
    system, the archives that open, and the lines written to the status writer.
  - The file system is a map from canonical absolute paths, kept as segment
    sequences, to files and directories.
  - The method `Host.Unzip` runs the source's loop over the entries. Per entry
    it applies the filter, junk-paths naming, `Join`/`Abs`, the zip-slip check
    on the rendered strings exactly as written, the directory branch, the
    overwrite check, the write and the time restore.
  - `Unzip` is proved equal to the specification function
    `Extractor.ExtractAll`. It is also proved to change only the absolute
    output directory and what lies below it, or to add missing ancestors of
    it as directories, and to remove nothing (`Extractor.Confined`). This holds
    because the modelled file system has no symbolic links.

The options records of `options.go` are the datatypes of `Options`.

Quirks of the code, modelled as written:

- The zip-slip check asks for the prefix `absOutputDir + "/"`. With `/` as the
  output directory that prefix is `//`, which no cleaned path has, so only an
  entry resolving to `/` itself passes (`Extractor.RootOutputDirRefusesEntries`).
- `Store` is chosen when the unclamped `CompressionLevel` is 0, so the zero
  value of `ZipOptions` stores rather than deflates.
- The root of a recursive walk is itself tested against the exclusion
  patterns, so an excluded directory source adds nothing.
- `os.Stat("")` fails, so an empty source path is a stat failure.

## Model

| member | source | states |
|---|---|---|
| Options.OutputDir | ziplib/options.go:24-25 | the extraction directory is never empty: an empty `OutputDir` means ".", any other value is kept |
| Options.EmitAppend | ziplib/ziplib.go:116-119 | writing status lines in two batches leaves the writer as one batch would |
| Paths.Clean | ziplib/ziplib.go:147 | filepath.Clean on '/'-separated paths; proved to keep rootedness and never give "" (Paths.CleanKeepsRootedness) |
| Paths.Join | ziplib/ziplib.go:147 | filepath.Join of two elements; a plain name joined onto a directory lands directly in it (Paths.AbsJoinName) |
| Paths.Abs | ziplib/ziplib.go:126-150 | filepath.Abs against a given working directory, as segments; its rendering is proved to be Go's string (Paths.AbsIsJoinClean) |
| Paths.Dir | ziplib/ziplib.go:184 | filepath.Dir; the absolute path is the absolute Dir stepped by the last element (Paths.AbsOfDir) |
| Paths.Split | ziplib/ziplib.go:147 | a path splits into at least one element, none of which contains '/' |
| Paths.LastSlash | ziplib/ziplib.go:184 | the index found is the last '/' of the path, or -1 when there is none |
| Paths.Base | ziplib/match.go:8 | a base name is never empty and holds no '/' unless it is "/" |
| Paths.BaseIgnoresTrailingSlash | ziplib/ziplib.go:143-145 | a trailing '/' does not change the base name of a non-empty path |
| Paths.BaseOfDirectoryName | ziplib/ziplib.go:143-145 | a directory entry's name `name/` or `dir/name/` has base name `name` |
| Paths.BaseOfEmptyAndSlashes | ziplib/ziplib.go:143-145 | the empty path has base name "." and a path of '/' only has base name "/" |
| Paths.SplitJoin | ziplib/ziplib.go:147 | splitting the '/'-joined elements gives the elements back |
| Paths.SplitAppend | ziplib/ziplib.go:147 | splitting a '/'-joined pair is splitting each side |
| Paths.ResolveAppend | ziplib/ziplib.go:126 | cleaning a concatenation of elements is cleaning the first part, then the second |
| Paths.ResolveNames | ziplib/ziplib.go:147 | plain names are only appended by cleaning |
| Paths.ResolveRootedCanonical | ziplib/ziplib.go:126 | cleaning from an absolute root always yields a cleaned absolute path |
| Paths.StepCommutes | ziplib/ziplib.go:150 | one cleaning step of a relative path commutes with resolving it against cwd |
| Paths.ResolveThroughRelative | ziplib/ziplib.go:150 | cleaning a relative path and then resolving it against cwd equals resolving the raw elements |
| Paths.AbsIsJoinClean | ziplib/ziplib.go:126 | `Abs` gives a cleaned absolute path, and its rendering is `Clean(p)` for an absolute `p` and `Join(cwd, p)` otherwise |
| Paths.AbsClean | ziplib/ziplib.go:150 | resolving an already cleaned path gives the same absolute path |
| Paths.AbsOfDir | ziplib/ziplib.go:184 | the absolute path is the absolute `filepath.Dir`, stepped by the last element |
| Paths.CleanKeepsRootedness | ziplib/ziplib.go:87 | cleaning keeps a path absolute or relative and never yields "" |
| Paths.JoinKeepsRootedness | ziplib/ziplib.go:59-73 | joining a child onto a walked path keeps it absolute or relative and non-empty |
| Paths.BaseOfName | ziplib/ziplib.go:143-145 | the base name of `dir/name` is `name` |
| Paths.BaseOfPlainName | ziplib/ziplib.go:143-145 | a single name is its own base name |
| Paths.BaseIdempotent | ziplib/ziplib.go:143-145 | junking an already junked name changes nothing |
| Paths.RenderCanonical | ziplib/ziplib.go:154 | a cleaned absolute path renders to a string it can be read back from |
| Paths.AbsJoinName | ziplib/ziplib.go:147-150 | a plain name joined onto the output directory lands directly inside it |
| Glob.Tokenize | ziplib/match.go:8 | a pattern read into tokens, None exactly for a malformed one; literal patterns read to one token per character (Glob.LiteralTokens) |
| Glob.GlobMatch | ziplib/match.go:8 | whether a name matches the tokens; its meaning for `*`, `?` and literals is proved in the Glob lemmas below |
| Glob.Match | ziplib/match.go:8 | filepath.Match reported as "no error and matched", for names without '/' |
| Glob.LiteralTokens | ziplib/match.go:8 | a pattern without metacharacters reads to one literal token per character |
| Glob.ClassChar | ziplib/match.go:8 | reading one class character consumes input and leaves some |
| Glob.LiteralMatchesOnlyItself | ziplib/match_test.go:14 | a pattern without metacharacters matches exactly the name equal to it |
| Glob.StarMatchesAnyElement | ziplib/match.go:8 | `*` matches exactly the names containing no '/' |
| Glob.StarThenLiteral | ziplib/match_test.go:15-16 | `*` then a literal matches exactly the names that end in the literal with no '/' before it |
| Glob.QuestionMatchesOneChar | ziplib/match_test.go:22 | `?` matches exactly one character other than '/' |
| Glob.UnclosedClassNeverMatches | ziplib/match_test.go:21 | the malformed pattern `[invalid` matches nothing |
| Matcher.MatchesAny | ziplib/match.go:6-12 | some pattern of the list matches the base name; the loop's reading is proved in Matcher.MatchesAnyFirstThenRest |
| Matcher.MatchesAnyFirstThenRest | ziplib/match.go:7-11 | the loop's reading: the first pattern matches the base name, or one of the rest does |
| Matcher.NoPatternsNeverMatch | ziplib/match_test.go:12-13 | an empty pattern list matches no name |
| Matcher.MatchesAnyConcat | ziplib/match.go:7-12 | a match in either of two lists is a match in their concatenation and vice versa, so appending is monotone |
| Matcher.MatchesAnyOrderIrrelevant | ziplib/match.go:7-12 | lists with the same patterns agree, whatever the order or repetition |
| Matcher.MalformedPatternIgnored | ziplib/match.go:8 | inserting a malformed pattern anywhere changes no result |
| Matcher.MatchesBaseNameOnly | ziplib/match.go:8 | `dir/name` matches exactly when `name` does |
| Matcher.OnePattern | ziplib/match.go:6-12 | a one-pattern list matches exactly when its pattern matches the base name |
| Matcher.TwoPatterns | ziplib/match.go:6-12 | a two-pattern list matches exactly when one of the two matches the base name |
| Matcher.BaseOfFile | ziplib/match_test.go:14 | the base name of `foo.txt` is itself |
| Matcher.BaseOfNested | ziplib/match_test.go:20 | the base name of `dir/foo.txt` is `foo.txt` |
| Matcher.BaseOfGo | ziplib/match_test.go:18 | the base name of `foo.go` is itself |
| Matcher.BaseOfRs | ziplib/match_test.go:19 | the base name of `foo.rs` is itself |
| Matcher.StarTxtMatchesTxt | ziplib/match_test.go:15 | `*.txt` matches `foo.txt` |
| Matcher.StarTxtRejectsGo | ziplib/match_test.go:18 | `*.txt` does not match `foo.go` |
| Matcher.StarTxtRejectsRs | ziplib/match_test.go:19 | `*.txt` does not match `foo.rs` |
| Matcher.StarGoMatchesGo | ziplib/match_test.go:18 | `*.go` matches `foo.go` |
| Matcher.StarGoRejectsTxt | ziplib/match_test.go:16 | `*.go` does not match `foo.txt` |
| Matcher.StarGoRejectsRs | ziplib/match_test.go:19 | `*.go` does not match `foo.rs` |
| Matcher.QuestionExample | ziplib/match_test.go:22 | `fo?.txt` matches `foo.txt` |
| Matcher.ExactNameMatches | ziplib/match_test.go:14 | `foo.txt` against [`foo.txt`] matches |
| Matcher.GlobMatches | ziplib/match_test.go:15 | `foo.txt` against [`*.txt`] matches |
| Matcher.OtherGlobMisses | ziplib/match_test.go:16 | `foo.txt` against [`*.go`] does not match |
| Matcher.FirstOfTwoMatches | ziplib/match_test.go:17 | `foo.txt` against [`*.txt`, `*.go`] matches |
| Matcher.SecondOfTwoMatches | ziplib/match_test.go:18 | `foo.go` against [`*.txt`, `*.go`] matches |
| Matcher.NoneOfTwoMatches | ziplib/match_test.go:19 | `foo.rs` against [`*.txt`, `*.go`] does not match |
| Matcher.NestedPathUsesBaseName | ziplib/match_test.go:20 | `dir/foo.txt` against [`*.txt`] matches |
| Matcher.InvalidPatternIgnored | ziplib/match_test.go:21 | `foo.txt` against [`[invalid`] does not match, and nothing fails |
| Matcher.QuestionMarkMatches | ziplib/match_test.go:22 | `foo.txt` against [`fo?.txt`] matches |
| Writer.EntryMethod | ziplib/ziplib.go:89-93 | Store when the requested level is 0, else Deflate at the clamped level; proved in Writer.StoreExactlyAtLevelZero |
| Writer.WriteFile | ziplib/ziplib.go:82-112 | one entry named by the path, with the file's mode, time and bytes, and one "adding" line |
| Writer.AddToZip | ziplib/ziplib.go:48-80 | one source: a stat failure, a skip line, a walk, an excluded file or one entry; its cases are the Writer lemmas below |
| Writer.AddAll | ziplib/ziplib.go:40-45 | sources added in order until the first failure; Writer.Zip is proved equal to it |
| Writer.MethodCode | ziplib/ziplib.go:89-93 | Store is method 0 and Deflate method 8 (section 4.4.5 of APPNOTE.TXT), each only that |
| Writer.DeflateLevel | ziplib/ziplib.go:32-35 | the compressor's level lies in -1..9, equals the requested level when it is in range, and is -1 otherwise |
| Writer.StoreExactlyAtLevelZero | ziplib/ziplib.go:89-93 | entries are stored exactly when the unclamped level is 0; otherwise they deflate at the clamped level |
| Writer.Walk | ziplib/ziplib.go:59-73 | a walk announces each entry with one "adding" line at the same position; every entry uses the chosen method, has a base name no exclusion matches, and is absolute exactly when the walked path is |
| Writer.WalkChildren | ziplib/ziplib.go:59-73 | the same facts for the children of a directory, visited in order |
| Writer.ThenKeeps | ziplib/ziplib.go:59-73 | appending one walk's output to another keeps the line-per-entry and entry facts |
| Writer.Zip | ziplib/ziplib.go:16-46 | the archive and the error are those of adding the sources in order until the first failure, with the method chosen from the level; a nil status writer receives nothing, any other receives exactly the lines of that run |
| Writer.AddAllStopsAtFailure | ziplib/ziplib.go:40-44 | once a source fails, no later source is added |
| Writer.AddAllSucceeds | ziplib/ziplib.go:40-45 | Zip succeeds exactly when every source is added without error |
| Writer.AddAllFirstFailure | ziplib/ziplib.go:40-44 | a failed Zip holds what the sources before the first failing one added, then what that source added before its error |
| Writer.AddAllEntriesFit | ziplib/ziplib.go:63-68 | every entry of the archive uses the chosen method and has a base name no exclusion matches |
| Writer.AddToZipAdmitted | ziplib/ziplib.go:48-80 | the same for the entries of one source |
| Writer.ThenAdmitted | ziplib/ziplib.go:40-44 | concatenating admitted outputs keeps them admitted |
| Writer.NonRecursiveDirectorySkipped | ziplib/ziplib.go:54-58 | a directory source without the recursive option gives one "skipped, not recursive" line, no entries and no error |
| Writer.MissingSourceFails | ziplib/ziplib.go:49-52 | a source that does not exist fails with its path and adds nothing |
| Writer.ExcludedFileSourceSkipped | ziplib/ziplib.go:76-78 | an excluded file named as a source is skipped silently and without error |
| Writer.ExcludedDirectoryPruned | ziplib/ziplib.go:63-66 | an excluded directory contributes nothing, whatever lies below it |
| Writer.AddAllIgnoresOutput | ziplib/ziplib.go:17-20 | the status writer has no effect on the entries, the lines produced or the error |
| Writer.WalkSound | ziplib/ziplib.go:59-73 | every entry of a walk is a regular file the walk reaches through non-excluded directories, with that file's mode, time and bytes |
| Writer.WalkChildrenSound | ziplib/ziplib.go:59-73 | the same for the children of a directory |
| Writer.ReachesAmongCons | ziplib/ziplib.go:59-73 | a child list reaches a file through its first child or through the rest |
| Writer.WalkComplete | ziplib/ziplib.go:59-73 | a walk that does not fail has an entry for every regular file it reaches |
| Writer.WalkChildrenComplete | ziplib/ziplib.go:59-73 | the same for the children of a directory |
| Writer.ThenHasEntry | ziplib/ziplib.go:59-73 | an entry of either part of a concatenated output is an entry of the whole |
| FileSystems.MkdirAll | ziplib/ziplib.go:184-186 | on success the path is a directory, every old path keeps its node, and every new path is a directory at or above the path |
| FileSystems.AncestorsAreDirectories | ziplib/ziplib.go:184 | in a well-formed file system every ancestor of an existing path is an existing directory |
| FileSystems.MkdirAllMakesChain | ziplib/ziplib.go:184 | after MkdirAll the path and all its ancestors are directories, and the file system stays well-formed |
| FileSystems.MkdirAllWellFormed | ziplib/ziplib.go:159 | a successful MkdirAll keeps the file system well-formed |
| FileSystems.MkdirAllFailsOnFile | ziplib/ziplib.go:159-161 | MkdirAll fails exactly when the path or one of its ancestors is a file |
| FileSystems.Written | ziplib/ziplib.go:194-200 | a truncating open then a copy leaves the entry's bytes, stamped at the open, with an existing file's mode or else the entry's |
| FileSystems.SetTimes | ziplib/ziplib.go:170 | Chtimes sets both times and keeps the content and mode |
| FileSystems.WriteKeepsWellFormed | ziplib/ziplib.go:194 | writing a file where it can be created keeps the file system well-formed |
| Extractor.Selected | ziplib/ziplib.go:138-140 | an entry is kept when there are no file patterns or one of them matches its base name |
| Extractor.DestPath | ziplib/ziplib.go:142-147 | the output directory joined with the entry's name, or with its base name under junk paths |
| Extractor.Guard | ziplib/ziplib.go:154 | the literal prefix-or-equal check on the absolute strings; its meaning is Extractor.GuardIsContainment |
| Extractor.WriteEntry | ziplib/ziplib.go:177-206 | extractFile: the overwrite check, MkdirAll of the parent with mode 0o755, the truncating create, and one "inflating" line |
| Extractor.MakeDirectory | ziplib/ziplib.go:158-163 | the directory branch: MkdirAll with the entry's mode, an error naming the destination if it fails |
| Extractor.WriteStamped | ziplib/ziplib.go:165-172 | the file branch: extractFile, then both times set to the entry's time |
| Extractor.ExtractEntry | ziplib/ziplib.go:137-173 | one loop iteration: filter, naming, check, then the directory or the file branch; Extractor.Host.ExtractOne is proved equal to it |
| Extractor.ExtractAll | ziplib/ziplib.go:137-173 | the entries in archive order until the first failure; Extractor.Host.Unzip is proved equal to it |
| Extractor.Listing | ziplib/ziplib.go:218-224 | the record's name, both sizes, time and directory flag |
| Extractor.RefusalMessages | ziplib/ziplib.go:155-180 | a refused entry's message starts "illegal file path: " and then names the entry; a refused overwrite's starts "file exists: " and the destination |
| Extractor.GuardIsContainment | ziplib/ziplib.go:154-156 | on cleaned absolute paths the prefix check passes exactly when the destination is the output directory or below it, except that "/" admits only itself |
| Extractor.ContainedPassesGuard | ziplib/ziplib.go:154 | a destination at or below a non-root output directory passes the check |
| Extractor.SameRenderingSamePath | ziplib/ziplib.go:154 | two cleaned absolute paths with the same rendering are the same path |
| Extractor.NothingBelowDoubleSlash | ziplib/ziplib.go:154 | no cleaned absolute path starts with "//" |
| Extractor.PrefixRenderingIsBelow | ziplib/ziplib.go:154 | a rendering that starts with the output directory plus '/' is a path below it |
| Extractor.SlashedPrefix | ziplib/ziplib.go:154 | a string that starts with a prefix plus '/' is that prefix, '/', and the rest |
| Extractor.ConfinedTransitive | ziplib/ziplib.go:137-173 | two confined steps make one confined step |
| Extractor.PrefixesComparable | ziplib/ziplib.go:184 | two ancestors of one path lie one above the other |
| Extractor.MkdirAllConfined | ziplib/ziplib.go:159-186 | creating directories at or above the output directory, or below it, stays confined |
| Extractor.StepParentOnLine | ziplib/ziplib.go:184 | the parent of a destination at or below the output directory is above it or at or below it |
| Extractor.GuardedDestination | ziplib/ziplib.go:147-156 | a destination that passes the check is at or below the absolute output directory, and its parent is on the same line |
| Extractor.UpdateConfined | ziplib/ziplib.go:194 | writing at or below the output directory stays confined |
| Extractor.WriteEntryConfined | ziplib/ziplib.go:177-206 | extractFile for a guarded destination stays confined |
| Extractor.WriteStampedConfined | ziplib/ziplib.go:165-172 | extractFile and then Chtimes for a guarded destination stay confined |
| Extractor.ExtractEntryConfined | ziplib/ziplib.go:137-173 | whatever an entry holds, it changes only the output directory and what is below it, besides adding missing ancestors of it as directories, and removes nothing |
| Extractor.ExtractAllConfined | ziplib/ziplib.go:137-173 | the same for a whole archive |
| Extractor.UnselectedEntrySkipped | ziplib/ziplib.go:138-140 | with patterns given, an entry none of them matches changes nothing, prints nothing and is no error |
| Extractor.EscapingEntryRefused | ziplib/ziplib.go:154-156 | a selected entry that resolves outside the output directory stops the extraction with "illegal file path" and its name, before anything is written |
| Extractor.RootOutputDirRefusesEntries | ziplib/ziplib.go:154 | with "/" as the output directory, every entry not resolving to "/" is refused as an illegal path |
| Extractor.JunkedEntryLandsInOutputDir | ziplib/ziplib.go:142-147 | with junk paths, an entry with a plain base name lands directly in the output directory, and passes the check exactly when that directory is not "/" |
| Extractor.ExistingDestinationRefused | ziplib/ziplib.go:178-182 | without overwrite, a file entry whose destination exists stops with "file exists" and its path, and changes nothing |
| Extractor.ExistingDirectoryAccepted | ziplib/ziplib.go:158-163 | a directory entry whose destination is already a directory succeeds without overwrite and prints nothing |
| Extractor.ExtractedFile | ziplib/ziplib.go:165-172 | a file entry extracted without error leaves the entry's bytes at its destination, both times set to the entry's time, the old mode kept if a file was replaced, and one "inflating" line; other paths are unchanged and new ones are directories |
| Extractor.WrittenAndStamped | ziplib/ziplib.go:177-206 | the same for extractFile followed by Chtimes |
| Extractor.SecondExtractionRefused | ziplib/ziplib.go:178-182 | extracting a file entry a second time without overwrite fails with "file exists" and changes nothing |
| Extractor.OverwriteExtractionRepeats | ziplib/ziplib_test.go:234-238 | extracting a file entry a second time with overwrite succeeds again, announces it again and leaves the file system as the first extraction did |
| Extractor.RewriteStable | ziplib/ziplib.go:177-206 | with overwrite, extractFile followed by Chtimes repeated on its own result succeeds, writes one "inflating" line and changes nothing |
| Extractor.WriteEntryWellFormed | ziplib/ziplib.go:194-197 | extractFile keeps the file system well-formed and, on success, leaves a file at the destination |
| Extractor.WriteAndStampWellFormed | ziplib/ziplib.go:165-172 | extractFile followed by Chtimes keeps the file system well-formed |
| Extractor.ExtractEntryWellFormed | ziplib/ziplib.go:137-173 | one entry keeps the file system well-formed |
| Extractor.ExtractAllWellFormed | ziplib/ziplib.go:137-173 | a whole extraction keeps the file system well-formed |
| Extractor.StampOverwritten | ziplib/ziplib.go:170-172 | the time the open stamps on a file does not survive the Chtimes that follows |
| Extractor.ExtractAllStopsAtFailure | ziplib/ziplib.go:165-167 | once an entry fails, no later entry is processed, and the earlier ones stay extracted |
| Extractor.ExtractAllNext | ziplib/ziplib.go:137-173 | processing one more entry continues the run unless it already failed |
| Extractor.ExtractAllIgnoresOutput | ziplib/ziplib.go:116-119 | the status writer has no effect on the file system, the lines produced or the error |
| Extractor.ExtractEntryIgnoresOutput | ziplib/ziplib.go:116-119 | the same for one entry |
| Extractor.Host.constructor | ziplib/ziplib.go:115 | a host starts with the given working directory, file system and archives, and an empty status log |
| Extractor.Host.ExtractFile | ziplib/ziplib.go:177-206 | extractFile updates the file system and the status log as the specification of one file write says, and keeps it well-formed |
| Extractor.Host.Chtimes | ziplib/ziplib.go:170-172 | only the times of the one file change |
| Extractor.Host.ExtractOne | ziplib/ziplib.go:137-172 | one loop iteration does what the specification of one entry says |
| Extractor.Host.ExtractAndStamp | ziplib/ziplib.go:165-172 | the file branch does what the specification of write-then-restore-time says |
| Extractor.Host.Unzip | ziplib/ziplib.go:115-175 | an archive that does not open is an error that changes nothing; otherwise the file system and error are those of processing the entries in order until the first failure; a nil status writer receives nothing, any other receives exactly the lines of that run; every change is to the output directory or below it, or adds a missing ancestor of it as a directory, and nothing is removed |
| Extractor.Host.List | ziplib/ziplib.go:209-227 | an archive that does not open gives no entries and an error; otherwise one listing per record, in order, copying name, both sizes, time and directory flag |

## Left out

- The ZIP container format and DEFLATE coding (`archive/zip`, `compress/flate`): an archive is the sequence of its decoded entries and an entry carries its bytes. Writing an archive and reading it back is therefore not modelled as a round trip; the archive Zip builds and the archive Unzip reads are separate values.
- os.Create of the archive file and its failure, and the deferred Close calls; Zip has no archive path.
- filepath.Abs failing because the working directory cannot be read: the working directory is a parameter of the host.
- The wrapped operating-system error texts: an error is its kind plus the path or name its message names.
- The entry left in the archive when os.Open fails after CreateHeader, and failures of FileInfoHeader, CreateHeader, io.Copy, the entry reader and decompression; the model treats these steps as succeeding.
- Lstat failures of directory children during the walk; only a directory that cannot be listed is modelled as a walk error.
- os.Chtimes failure after a successful write: the destination is a file the extractor just wrote.
- Permission bits beyond being carried as numbers; the umask.
- Symbolic links. The walk uses Lstat and does not follow them. The file system of the extractor has no links either, and `Extractor.Confined` depends on that: in Go, a symbolic link that already exists under the output directory passes the lexical check of ziplib.go:154, and the write then follows it to a place outside the output directory.
- Windows separators: on a Unix host filepath.ToSlash is the identity, so an entry's name is the walked path itself.
- Glob matching works on characters, not on UTF-8 encoded runes, and a class range is compared by character code.
- Glob.Match agrees with filepath.Match only on names without '/'. On a name with '/', Go commits to the leftmost match of each piece after a `*` and can reject what Glob.Match accepts (`*[a/]*c` against `a/xc`). matchesAny only passes base names, and those hold a '/' only when they are "/".
- time.Time is an integer; `now` (the time a file open stamps) is a parameter.
- The command-line programs under cmd/ (flag parsing, table printing, exit codes) and the end-to-end tests against the system zip tools.
- The sorting of directory listings done by the walk: a directory's children are given already in lexical order.
