/** The extractor: Unzip writes the selected entries of an archive under an
    output directory, refusing an entry whose cleaned absolute path is not the
    output directory or below it, and List reports the entries of an archive.
    The ZIP reader and the inflater are outside the model: an archive is the
    sequence of its decoded entries. */
module Extractor {

  import opened Wrappers
  import opened Paths
  import opened Matcher
  import opened Options
  import opened FileSystems

  /** One record of an archive, as the reader decodes it.  `isDir` is what the
      record's file info reports (a name ending in '/', or directory
      attributes). */
  datatype Entry = Entry(
    name: string,
    isDir: bool,
    mode: nat,
    modified: Timestamp,
    uncompressedSize: uint64,
    compressedSize: uint64,
    content: seq<byte>)

  /** Why Unzip or List stopped.  Each carries the path or name its message
      names; the wrapped operating-system error is not modelled. */
  datatype Error =
    | OpenArchive(zipPath: string)
    | IllegalPath(name: string)
    | MkdirFailed(destPath: string)
    | FileExists(destPath: string)
    | ParentFailed(destPath: string)
    | CreateFailed(destPath: string)

  function Message(e: Error): string {
    match e
    case OpenArchive(_) => "open archive"
    case IllegalPath(name) => "illegal file path: " + name
    case MkdirFailed(p) => "mkdir " + p
    case FileExists(p) => "file exists: " + p + " (use overwrite option)"
    case ParentFailed(p) => "mkdir for " + p
    case CreateFailed(p) => "create " + p
  }

  /** The texts a caller can look for: a refused entry is reported as an
      illegal file path naming the entry, and a refused overwrite as an
      existing file naming the destination. */
  lemma RefusalMessages(name: string, destPath: string)
    ensures var m := Message(IllegalPath(name));
      |m| >= 19 && m[..19] == "illegal file path: " && m[19..] == name
    ensures var m := Message(FileExists(destPath));
      |m| >= 13 && m[..13] == "file exists: " && m[13..13 + |destPath|] == destPath
  {
  }

  /** Mode of the parent directories extractFile creates (0o755). */
  const ParentMode: nat := 0x1ED

  function InflatingLine(destPath: string): string {
    "  inflating: " + destPath + "\n"
  }

  /** Whether an entry passes the file-pattern filter: no patterns keep every
      entry. */
  predicate Selected(opts: UnzipOptions, e: Entry) {
    |opts.filePatterns| == 0 || MatchesAny(e.name, opts.filePatterns)
  }

  /** The path an entry is written to, relative to the working directory
      unless the output directory is absolute. */
  function DestPath(opts: UnzipOptions, e: Entry): string {
    Join(OutputDir(opts), if opts.junkPaths then Base(e.name) else e.name)
  }

  /** The zip-slip check on the two absolute path strings: the destination
      must start with the output directory followed by a separator, or be the
      output directory itself. */
  predicate Guard(absOutputDir: string, absDest: string) {
    absOutputDir + "/" <= absDest || absDest == absOutputDir
  }

  /** On canonical absolute paths the check is path containment, except that
      an output directory of "/" admits only itself: the prefix it asks for is
      "//", which no cleaned path has. */
  lemma GuardIsContainment(root: Segs, dest: Segs)
    requires Canonical(root) && Canonical(dest)
    ensures Guard(Render(true, root), Render(true, dest)) <==> root <= dest && (root == [] ==> dest == [])
  {
    var r, d := Render(true, root), Render(true, dest);
    if root <= dest && (root == [] ==> dest == []) {
      ContainedPassesGuard(root, dest);
    }
    if d == r {
      SameRenderingSamePath(root, dest);
    } else if r + "/" <= d {
      if root == [] {
        NothingBelowDoubleSlash(dest);
      } else {
        PrefixRenderingIsBelow(root, dest);
      }
    }
  }

  lemma ContainedPassesGuard(root: Segs, dest: Segs)
    requires Canonical(root) && Canonical(dest)
    requires root <= dest && (root == [] ==> dest == [])
    ensures Guard(Render(true, root), Render(true, dest))
  {
    if root != dest {
      var tail := dest[|root|..];
      assert dest == root + tail;
      JoinSegsAppend(root, tail);
    }
  }

  lemma SameRenderingSamePath(root: Segs, dest: Segs)
    requires Canonical(root) && Canonical(dest)
    requires Render(true, root) == Render(true, dest)
    ensures root == dest
  {
    var r, d := Render(true, root), Render(true, dest);
    assert d[1..] == JoinSegs(dest) && r[1..] == JoinSegs(root);
    if dest != [] {
      RenderCanonical(dest);
    }
    if root != [] {
      RenderCanonical(root);
    }
  }

  lemma NothingBelowDoubleSlash(dest: Segs)
    requires Canonical(dest)
    ensures !("//" <= Render(true, dest))
  {
    if dest != [] {
      RenderCanonical(dest);
      assert Render(true, dest)[1] == JoinSegs(dest)[0];
    }
  }

  lemma PrefixRenderingIsBelow(root: Segs, dest: Segs)
    requires Canonical(root) && Canonical(dest) && root != []
    requires Render(true, root) + "/" <= Render(true, dest)
    ensures root <= dest
  {
    var a, d := JoinSegs(root), JoinSegs(dest);
    SlashedPrefix(a, d);
    var suffix := d[|a| + 1..];
    RenderCanonical(root);
    assert dest != [];
    RenderCanonical(dest);
    SplitAppend(a, suffix);
  }

  lemma SlashedPrefix(a: string, d: string)
    requires "/" + a + "/" <= "/" + d
    ensures |a| < |d| && d == a + "/" + d[|a| + 1..]
  {
    assert d[..|a| + 1] == ("/" + d)[1..|a| + 2] == ("/" + a + "/")[1..] == a + "/";
    assert d == d[..|a| + 1] + d[|a| + 1..];
  }

  /** What processing some entries produced: the file system, the status lines
      and the error that stopped it, if any. */
  datatype Run = Run(fs: FileSystem, lines: seq<string>, failure: Option<Error>)

  /** extractFile followed by Chtimes: refuse an existing path unless
      overwriting, create the parent directories, open the file for writing
      (truncating it), copy the content, announce it, then set both times to
      the entry's modification time.  `now` is the time the open stamps. */
  function WriteEntry(fs: FileSystem, cwd: Segs, e: Entry, destPath: string, overwrite: bool, now: Timestamp): Run {
    var dest := Abs(cwd, destPath);
    if !overwrite && dest in fs then Run(fs, [], Some(FileExists(destPath)))
    else
      match MkdirAll(fs, Abs(cwd, Dir(destPath)), ParentMode)
      case None => Run(fs, [], Some(ParentFailed(destPath)))
      case Some(fs') =>
        if !CanCreate(fs', dest) then Run(fs', [], Some(CreateFailed(destPath)))
        else Run(fs'[dest := Written(fs', dest, e.content, e.mode, now)], [InflatingLine(destPath)], None)
  }

  /** One iteration of Unzip's loop. */
  function ExtractEntry(fs: FileSystem, cwd: Segs, opts: UnzipOptions, e: Entry): Run {
    if !Selected(opts, e) then Run(fs, [], None)
    else
      var destPath := DestPath(opts, e);
      var dest := Abs(cwd, destPath);
      if !Guard(Render(true, Abs(cwd, OutputDir(opts))), Render(true, dest)) then Run(fs, [], Some(IllegalPath(e.name)))
      else if e.isDir then MakeDirectory(fs, dest, destPath, e.mode)
      else WriteStamped(fs, cwd, e, destPath, opts.overwrite)
  }

  /** The directory branch of Unzip's loop: os.MkdirAll with the entry's mode. */
  function MakeDirectory(fs: FileSystem, dest: Segs, destPath: string, mode: nat): Run {
    match MkdirAll(fs, dest, mode)
    case None => Run(fs, [], Some(MkdirFailed(destPath)))
    case Some(fs') => Run(fs', [], None)
  }

  /** The file branch of Unzip's loop: extractFile, then os.Chtimes with the
      entry's modification time as both access and modification time. */
  function WriteStamped(fs: FileSystem, cwd: Segs, e: Entry, destPath: string, overwrite: bool): Run {
    var r := WriteEntry(fs, cwd, e, destPath, overwrite, e.modified);
    var dest := Abs(cwd, destPath);
    if r.failure.Some? then r
    else Run(r.fs[dest := SetTimes(r.fs[dest], e.modified)], r.lines, None)
  }

  /** Entries processed in archive order until the first error. */
  function ExtractAll(fs: FileSystem, cwd: Segs, opts: UnzipOptions, entries: seq<Entry>): Run
    decreases |entries|
  {
    if entries == [] then Run(fs, [], None)
    else
      var before := ExtractAll(fs, cwd, opts, entries[..|entries| - 1]);
      if before.failure.Some? then before
      else
        var r := ExtractEntry(before.fs, cwd, opts, entries[|entries| - 1]);
        Run(r.fs, before.lines + r.lines, r.failure)
  }

  /** What List reports for a record. */
  function Listing(e: Entry): ListEntry {
    ListEntry(e.name, e.uncompressedSize, e.compressedSize, e.modified, e.isDir)
  }

  /** The extraction may touch only the output directory and what lies below
      it, and may add missing ancestors of the output directory as
      directories; nothing is ever removed. */
  predicate Confined(before: FileSystem, after: FileSystem, root: Segs) {
    && (forall p :: p in before ==> p in after)
    && (forall p :: p in after && p !in before ==> root <= p || (p < root && after[p].DirNode?))
    && (forall p :: p in before && after[p] != before[p] ==> root <= p)
  }

  lemma ConfinedTransitive(a: FileSystem, b: FileSystem, c: FileSystem, root: Segs)
    requires Confined(a, b, root) && Confined(b, c, root)
    ensures Confined(a, c, root)
  {
    forall p | p in c && p !in a ensures root <= p || (p < root && c[p].DirNode?) {
      if p in b && !(root <= p) {
        assert c[p] == b[p];
      }
    }
  }

  /** Two prefixes of the same path are prefixes of one another. */
  lemma PrefixesComparable(p: Segs, q: Segs, x: Segs)
    requires p <= x && q <= x
    ensures p <= q || q <= p
  {
    if |p| <= |q| {
      assert p == q[..|p|];
    } else {
      assert q == p[..|q|];
    }
  }

  /** MkdirAll of a path on the same line as the output directory (above it or
      below it) stays confined. */
  lemma MkdirAllConfined(fs: FileSystem, x: Segs, mode: nat, root: Segs)
    requires x <= root || root <= x
    requires MkdirAll(fs, x, mode).Some?
    ensures Confined(fs, MkdirAll(fs, x, mode).value, root)
  {
    var fs' := MkdirAll(fs, x, mode).value;
    forall p | p in fs' && p !in fs ensures root <= p || (p < root && fs'[p].DirNode?) {
      if x <= root {
        assert p <= root;
      } else {
        PrefixesComparable(p, root, x);
      }
    }
  }

  /** The directory filepath.Dir names, stepped by the last element, gives
      the path; so when the path is at or below `root`, that directory is
      above `root` or at or below it. */
  lemma StepParentOnLine(root: Segs, dest: Segs, parent: Segs, last: string)
    requires Canonical(parent) && dest == Step(parent, true, last) && root <= dest
    ensures parent <= root || root <= parent
  {
    if last == ".." {
      if |parent| > 0 {
        assert dest == parent[..|parent| - 1];
      }
    } else if last != "" && last != "." {
      assert dest == parent + [last];
      PrefixesComparable(parent, root, dest);
    }
  }

  /** The absolute destination of an entry that passes the check is the output
      directory or below it, and its parent directory (as filepath.Dir gives
      it) is above the output directory or at or below it. */
  lemma GuardedDestination(cwd: Segs, outputDir: string, destPath: string)
    requires Canonical(cwd)
    requires Guard(Render(true, Abs(cwd, outputDir)), Render(true, Abs(cwd, destPath)))
    ensures Abs(cwd, outputDir) <= Abs(cwd, destPath)
    ensures Abs(cwd, Dir(destPath)) <= Abs(cwd, outputDir) || Abs(cwd, outputDir) <= Abs(cwd, Dir(destPath))
  {
    var root, dest, parent := Abs(cwd, outputDir), Abs(cwd, destPath), Abs(cwd, Dir(destPath));
    AbsIsJoinClean(cwd, outputDir);
    AbsIsJoinClean(cwd, destPath);
    AbsIsJoinClean(cwd, Dir(destPath));
    GuardIsContainment(root, dest);
    var last := destPath[LastSlash(destPath) + 1..];
    AbsOfDir(cwd, destPath);
    StepParentOnLine(root, dest, parent, last);
  }

  /** Replacing or adding the node at a path at or below `root` stays confined. */
  lemma UpdateConfined(fs: FileSystem, p: Segs, n: FsNode, root: Segs)
    requires root <= p
    ensures Confined(fs, fs[p := n], root)
  {
  }

  /** Writing a file whose destination is at or below `root`, after creating
      a parent directory that lies on the line of `root`, stays confined. */
  lemma WriteEntryConfined(fs: FileSystem, cwd: Segs, e: Entry, destPath: string, overwrite: bool, now: Timestamp, root: Segs)
    requires root <= Abs(cwd, destPath)
    requires Abs(cwd, Dir(destPath)) <= root || root <= Abs(cwd, Dir(destPath))
    ensures Confined(fs, WriteEntry(fs, cwd, e, destPath, overwrite, now).fs, root)
  {
    var dest, parent := Abs(cwd, destPath), Abs(cwd, Dir(destPath));
    if !(!overwrite && dest in fs) {
      var made := MkdirAll(fs, parent, ParentMode);
      if made.Some? {
        MkdirAllConfined(fs, parent, ParentMode, root);
        if CanCreate(made.value, dest) {
          var n := Written(made.value, dest, e.content, e.mode, now);
          UpdateConfined(made.value, dest, n, root);
          ConfinedTransitive(fs, made.value, made.value[dest := n], root);
        }
      }
    }
  }

  /** Extracting a file whose destination is at or below `root` and whose
      parent directory lies on the line of `root` stays confined. */
  lemma WriteStampedConfined(fs: FileSystem, cwd: Segs, e: Entry, destPath: string, overwrite: bool, root: Segs)
    requires root <= Abs(cwd, destPath)
    requires Abs(cwd, Dir(destPath)) <= root || root <= Abs(cwd, Dir(destPath))
    ensures Confined(fs, WriteStamped(fs, cwd, e, destPath, overwrite).fs, root)
  {
    WriteEntryConfined(fs, cwd, e, destPath, overwrite, e.modified, root);
    var r, dest := WriteEntry(fs, cwd, e, destPath, overwrite, e.modified), Abs(cwd, destPath);
    if r.failure.None? {
      UpdateConfined(r.fs, dest, SetTimes(r.fs[dest], e.modified), root);
      ConfinedTransitive(fs, r.fs, r.fs[dest := SetTimes(r.fs[dest], e.modified)], root);
    }
  }

  /** Security: whatever the archive holds, one entry changes only the output
      directory and what lies below it, besides creating missing ancestors of
      the output directory; nothing is removed. */
  lemma ExtractEntryConfined(fs: FileSystem, cwd: Segs, opts: UnzipOptions, e: Entry)
    requires Canonical(cwd)
    ensures Confined(fs, ExtractEntry(fs, cwd, opts, e).fs, Abs(cwd, OutputDir(opts)))
  {
    var root, destPath := Abs(cwd, OutputDir(opts)), DestPath(opts, e);
    var dest := Abs(cwd, destPath);
    if Selected(opts, e) && Guard(Render(true, root), Render(true, dest)) {
      GuardedDestination(cwd, OutputDir(opts), destPath);
      if e.isDir {
        if MkdirAll(fs, dest, e.mode).Some? {
          MkdirAllConfined(fs, dest, e.mode, root);
        }
      } else {
        WriteStampedConfined(fs, cwd, e, destPath, opts.overwrite, root);
      }
    }
  }

  /** Security over a whole archive. */
  lemma {:induction false} ExtractAllConfined(fs: FileSystem, cwd: Segs, opts: UnzipOptions, entries: seq<Entry>)
    requires Canonical(cwd)
    ensures Confined(fs, ExtractAll(fs, cwd, opts, entries).fs, Abs(cwd, OutputDir(opts)))
    decreases |entries|
  {
    if entries != [] {
      var init := entries[..|entries| - 1];
      ExtractAllConfined(fs, cwd, opts, init);
      var before := ExtractAll(fs, cwd, opts, init);
      if before.failure.None? {
        ExtractEntryConfined(before.fs, cwd, opts, entries[|entries| - 1]);
        ConfinedTransitive(fs, before.fs, ExtractAll(fs, cwd, opts, entries).fs, Abs(cwd, OutputDir(opts)));
      }
    }
  }

  // ---------------------------------------------------------------------------
  // One entry

  /** An entry the file patterns do not select is passed over: nothing
      changes, nothing is printed, no error. */
  lemma UnselectedEntrySkipped(fs: FileSystem, cwd: Segs, opts: UnzipOptions, e: Entry)
    requires |opts.filePatterns| > 0 && !MatchesAny(e.name, opts.filePatterns)
    ensures ExtractEntry(fs, cwd, opts, e) == Run(fs, [], None)
  {
  }

  /** A selected entry whose cleaned absolute destination is not the output
      directory or below it stops the extraction with "illegal file path",
      before anything is written. */
  lemma EscapingEntryRefused(fs: FileSystem, cwd: Segs, opts: UnzipOptions, e: Entry)
    requires Canonical(cwd) && Selected(opts, e)
    requires var root, dest := Abs(cwd, OutputDir(opts)), Abs(cwd, DestPath(opts, e));
      !(root <= dest) || (root == [] && dest != [])
    ensures ExtractEntry(fs, cwd, opts, e) == Run(fs, [], Some(IllegalPath(e.name)))
  {
    AbsIsJoinClean(cwd, OutputDir(opts));
    AbsIsJoinClean(cwd, DestPath(opts, e));
    GuardIsContainment(Abs(cwd, OutputDir(opts)), Abs(cwd, DestPath(opts, e)));
  }

  /** With "/" as the output directory every entry except one naming the root
      itself is refused as an illegal path. */
  lemma RootOutputDirRefusesEntries(fs: FileSystem, cwd: Segs, opts: UnzipOptions, e: Entry)
    requires Canonical(cwd) && Selected(opts, e)
    requires Abs(cwd, OutputDir(opts)) == [] && Abs(cwd, DestPath(opts, e)) != []
    ensures ExtractEntry(fs, cwd, opts, e) == Run(fs, [], Some(IllegalPath(e.name)))
  {
    EscapingEntryRefused(fs, cwd, opts, e);
  }

  /** With junk paths an entry whose base name is a plain name lands directly
      in the output directory, and passes the check unless the output
      directory is "/". */
  lemma JunkedEntryLandsInOutputDir(cwd: Segs, opts: UnzipOptions, e: Entry)
    requires Canonical(cwd) && opts.junkPaths && IsName(Base(e.name))
    ensures Abs(cwd, DestPath(opts, e)) == Abs(cwd, OutputDir(opts)) + [Base(e.name)]
    ensures Guard(Render(true, Abs(cwd, OutputDir(opts))), Render(true, Abs(cwd, DestPath(opts, e))))
      <==> Abs(cwd, OutputDir(opts)) != []
  {
    var root := Abs(cwd, OutputDir(opts));
    AbsJoinName(cwd, OutputDir(opts), Base(e.name));
    AbsIsJoinClean(cwd, OutputDir(opts));
    AbsIsJoinClean(cwd, DestPath(opts, e));
    GuardIsContainment(root, root + [Base(e.name)]);
  }

  /** Without the overwrite option a file entry whose destination already
      exists (as a file or a directory) stops the extraction with "file
      exists", before anything is written. */
  lemma ExistingDestinationRefused(fs: FileSystem, cwd: Segs, opts: UnzipOptions, e: Entry)
    requires Selected(opts, e) && !e.isDir && !opts.overwrite
    requires Guard(Render(true, Abs(cwd, OutputDir(opts))), Render(true, Abs(cwd, DestPath(opts, e))))
    requires Abs(cwd, DestPath(opts, e)) in fs
    ensures ExtractEntry(fs, cwd, opts, e) == Run(fs, [], Some(FileExists(DestPath(opts, e))))
  {
  }

  /** A directory entry whose destination is already a directory is accepted
      without the overwrite option and prints nothing. */
  lemma ExistingDirectoryAccepted(fs: FileSystem, cwd: Segs, opts: UnzipOptions, e: Entry)
    requires Selected(opts, e) && e.isDir
    requires Guard(Render(true, Abs(cwd, OutputDir(opts))), Render(true, Abs(cwd, DestPath(opts, e))))
    requires Abs(cwd, DestPath(opts, e)) in fs && fs[Abs(cwd, DestPath(opts, e))].DirNode?
    ensures ExtractEntry(fs, cwd, opts, e) == Run(fs, [], None)
  {
  }

  /** A file entry extracted without error leaves at its destination a file
      with the entry's content and both times set to the entry's modification
      time (keeping the mode of a file it replaced), announces it with one
      "inflating" line, and otherwise only adds directories. */
  lemma ExtractedFile(fs: FileSystem, cwd: Segs, opts: UnzipOptions, e: Entry)
    requires Selected(opts, e) && !e.isDir
    requires ExtractEntry(fs, cwd, opts, e).failure.None?
    ensures var r, dest := ExtractEntry(fs, cwd, opts, e), Abs(cwd, DestPath(opts, e));
      && dest in r.fs
      && r.fs[dest] == FileNode(e.content, if dest in fs then fs[dest].mode else e.mode, e.modified, e.modified)
      && r.lines == [InflatingLine(DestPath(opts, e))]
      && (forall p :: p in fs && p != dest ==> p in r.fs && r.fs[p] == fs[p])
      && (forall p :: p in r.fs && p !in fs && p != dest ==> r.fs[p].DirNode?)
  {
    WrittenAndStamped(fs, cwd, e, DestPath(opts, e), opts.overwrite);
  }

  /** The file branch, when it succeeds: the file holds the entry's bytes and
      times, keeps the mode of a file it replaces, and only new directories
      appear besides it. */
  lemma WrittenAndStamped(fs: FileSystem, cwd: Segs, e: Entry, destPath: string, overwrite: bool)
    requires WriteStamped(fs, cwd, e, destPath, overwrite).failure.None?
    ensures var r, dest := WriteStamped(fs, cwd, e, destPath, overwrite), Abs(cwd, destPath);
      && dest in r.fs
      && r.fs[dest] == FileNode(e.content, if dest in fs then fs[dest].mode else e.mode, e.modified, e.modified)
      && r.lines == [InflatingLine(destPath)]
      && (forall p :: p in fs && p != dest ==> p in r.fs && r.fs[p] == fs[p])
      && (forall p :: p in r.fs && p !in fs && p != dest ==> r.fs[p].DirNode?)
  {
    var dest, parent := Abs(cwd, destPath), Abs(cwd, Dir(destPath));
    var made := MkdirAll(fs, parent, ParentMode).value;
    if dest !in fs {
      assert dest !in made;
    }
  }

  /** Extracting a file entry a second time without the overwrite option fails
      with "file exists" and changes nothing. */
  lemma SecondExtractionRefused(fs: FileSystem, cwd: Segs, opts: UnzipOptions, e: Entry)
    requires Canonical(cwd) && Selected(opts, e) && !e.isDir && !opts.overwrite
    requires ExtractEntry(fs, cwd, opts, e).failure.None?
    ensures var fs' := ExtractEntry(fs, cwd, opts, e).fs;
      ExtractEntry(fs', cwd, opts, e) == Run(fs', [], Some(FileExists(DestPath(opts, e))))
  {
    ExtractedFile(fs, cwd, opts, e);
    ExistingDestinationRefused(ExtractEntry(fs, cwd, opts, e).fs, cwd, opts, e);
  }

  /** With the overwrite option, extracting a file entry a second time
      succeeds again, announces the file again, and leaves the file system
      exactly as the first extraction did. */
  lemma OverwriteExtractionRepeats(fs: FileSystem, cwd: Segs, opts: UnzipOptions, e: Entry)
    requires Selected(opts, e) && !e.isDir && opts.overwrite
    requires ExtractEntry(fs, cwd, opts, e).failure.None?
    ensures var fs' := ExtractEntry(fs, cwd, opts, e).fs;
      ExtractEntry(fs', cwd, opts, e) == Run(fs', [InflatingLine(DestPath(opts, e))], None)
  {
    var destPath := DestPath(opts, e);
    assert ExtractEntry(fs, cwd, opts, e) == WriteStamped(fs, cwd, e, destPath, true);
    RewriteStable(fs, cwd, e, destPath);
  }

  /** The file branch with overwriting, repeated on its own result, writes
      the same file again and changes nothing. */
  lemma RewriteStable(fs: FileSystem, cwd: Segs, e: Entry, destPath: string)
    requires WriteStamped(fs, cwd, e, destPath, true).failure.None?
    ensures var fs' := WriteStamped(fs, cwd, e, destPath, true).fs;
      WriteStamped(fs', cwd, e, destPath, true) == Run(fs', [InflatingLine(destPath)], None)
  {
    var dest, parent := Abs(cwd, destPath), Abs(cwd, Dir(destPath));
    var made := MkdirAll(fs, parent, ParentMode).value;
    var w := Written(made, dest, e.content, e.mode, e.modified);
    var fs' := made[dest := w][dest := SetTimes(w, e.modified)];
    assert WriteStamped(fs, cwd, e, destPath, true).fs == fs';
    assert parent in fs' && fs'[parent].DirNode?;
    assert MkdirAll(fs', parent, ParentMode) == Some(fs');
    assert CanCreate(fs', dest);
    var n := Written(fs', dest, e.content, e.mode, e.modified);
    assert fs'[dest := n][dest := SetTimes(n, e.modified)] == fs';
  }

  /** Writing a file entry keeps the file system well-formed. */
  lemma WriteEntryWellFormed(fs: FileSystem, cwd: Segs, e: Entry, destPath: string, overwrite: bool, now: Timestamp)
    requires WellFormed(fs)
    ensures var r := WriteEntry(fs, cwd, e, destPath, overwrite, now);
      && WellFormed(r.fs)
      && (r.failure.None? ==> CanCreate(r.fs, Abs(cwd, destPath)) && r.fs[Abs(cwd, destPath)].FileNode?)
  {
    var dest, parent := Abs(cwd, destPath), Abs(cwd, Dir(destPath));
    if !(!overwrite && dest in fs) && MkdirAll(fs, parent, ParentMode).Some? {
      MkdirAllWellFormed(fs, parent, ParentMode);
      var fs' := MkdirAll(fs, parent, ParentMode).value;
      if CanCreate(fs', dest) {
        WriteKeepsWellFormed(fs', dest, Written(fs', dest, e.content, e.mode, now));
      }
    }
  }

  /** Writing a file entry and restoring its time keeps the file system
      well-formed. */
  lemma WriteAndStampWellFormed(fs: FileSystem, cwd: Segs, e: Entry, destPath: string, overwrite: bool)
    requires WellFormed(fs)
    ensures WellFormed(WriteStamped(fs, cwd, e, destPath, overwrite).fs)
  {
    WriteEntryWellFormed(fs, cwd, e, destPath, overwrite, e.modified);
    var r, dest := WriteEntry(fs, cwd, e, destPath, overwrite, e.modified), Abs(cwd, destPath);
    if r.failure.None? {
      WriteKeepsWellFormed(r.fs, dest, SetTimes(r.fs[dest], e.modified));
    }
  }

  /** One entry keeps the file system well-formed. */
  lemma ExtractEntryWellFormed(fs: FileSystem, cwd: Segs, opts: UnzipOptions, e: Entry)
    requires WellFormed(fs)
    ensures WellFormed(ExtractEntry(fs, cwd, opts, e).fs)
  {
    var destPath := DestPath(opts, e);
    var dest := Abs(cwd, destPath);
    if !Selected(opts, e) || !Guard(Render(true, Abs(cwd, OutputDir(opts))), Render(true, dest)) {
    } else if e.isDir {
      if MkdirAll(fs, dest, e.mode).Some? {
        MkdirAllWellFormed(fs, dest, e.mode);
      }
    } else {
      WriteAndStampWellFormed(fs, cwd, e, destPath, opts.overwrite);
    }
  }

  /** The time the open stamps on the file does not survive: after Chtimes
      the result is the same whatever it was. */
  lemma StampOverwritten(fs: FileSystem, cwd: Segs, e: Entry, destPath: string, overwrite: bool, now: Timestamp, t: Timestamp)
    ensures var a, b := WriteEntry(fs, cwd, e, destPath, overwrite, now), WriteEntry(fs, cwd, e, destPath, overwrite, t);
      && a.failure == b.failure && a.lines == b.lines
      && (a.failure.Some? ==> a.fs == b.fs)
      && (a.failure.None? ==>
            var dest := Abs(cwd, destPath);
            dest in a.fs && dest in b.fs && a.fs[dest].FileNode? && b.fs[dest].FileNode?
            && a.fs[dest := SetTimes(a.fs[dest], t)] == b.fs[dest := SetTimes(b.fs[dest], t)])
  {
    var dest, parent := Abs(cwd, destPath), Abs(cwd, Dir(destPath));
    if !(!overwrite && dest in fs) && MkdirAll(fs, parent, ParentMode).Some? {
      var made := MkdirAll(fs, parent, ParentMode).value;
      if CanCreate(made, dest) {
        var x, y := Written(made, dest, e.content, e.mode, now), Written(made, dest, e.content, e.mode, t);
        assert SetTimes(x, t) == SetTimes(y, t);
        assert made[dest := x][dest := SetTimes(x, t)] == made[dest := SetTimes(x, t)];
        assert made[dest := y][dest := SetTimes(y, t)] == made[dest := SetTimes(y, t)];
      }
    }
  }

  // ---------------------------------------------------------------------------
  // A whole archive

  /** Once an entry fails, no later entry is processed. */
  lemma {:induction false} ExtractAllStopsAtFailure(fs: FileSystem, cwd: Segs, opts: UnzipOptions, entries: seq<Entry>, k: nat)
    requires k <= |entries|
    requires ExtractAll(fs, cwd, opts, entries[..k]).failure.Some?
    ensures ExtractAll(fs, cwd, opts, entries) == ExtractAll(fs, cwd, opts, entries[..k])
    decreases |entries| - k
  {
    if k < |entries| {
      assert entries[..|entries| - 1][..k] == entries[..k];
      ExtractAllStopsAtFailure(fs, cwd, opts, entries[..|entries| - 1], k);
    } else {
      assert entries[..k] == entries;
    }
  }

  /** Extracting one more entry of an archive: the run so far, continued with
      that entry unless it already failed. */
  lemma ExtractAllNext(fs: FileSystem, cwd: Segs, opts: UnzipOptions, entries: seq<Entry>, i: nat)
    requires i < |entries|
    ensures var before := ExtractAll(fs, cwd, opts, entries[..i]);
      ExtractAll(fs, cwd, opts, entries[..i + 1]) ==
        if before.failure.Some? then before
        else var r := ExtractEntry(before.fs, cwd, opts, entries[i]); Run(r.fs, before.lines + r.lines, r.failure)
  {
    assert entries[..i + 1][..i] == entries[..i];
  }

  /** The status writer never influences what is extracted or whether Unzip
      fails: only the lines that reach it depend on it. */
  lemma {:induction false} ExtractAllIgnoresOutput(fs: FileSystem, cwd: Segs, opts: UnzipOptions, o: Output, entries: seq<Entry>)
    ensures ExtractAll(fs, cwd, opts.(output := o), entries) == ExtractAll(fs, cwd, opts, entries)
    decreases |entries|
  {
    if entries != [] {
      ExtractAllIgnoresOutput(fs, cwd, opts, o, entries[..|entries| - 1]);
      var before := ExtractAll(fs, cwd, opts, entries[..|entries| - 1]);
      ExtractEntryIgnoresOutput(before.fs, cwd, opts, o, entries[|entries| - 1]);
    }
  }

  lemma ExtractEntryIgnoresOutput(fs: FileSystem, cwd: Segs, opts: UnzipOptions, o: Output, e: Entry)
    ensures ExtractEntry(fs, cwd, opts.(output := o), e) == ExtractEntry(fs, cwd, opts, e)
  {
    assert OutputDir(opts.(output := o)) == OutputDir(opts);
    assert DestPath(opts.(output := o), e) == DestPath(opts, e);
  }

  /** The whole extraction keeps the file system well-formed. */
  lemma {:induction false} ExtractAllWellFormed(fs: FileSystem, cwd: Segs, opts: UnzipOptions, entries: seq<Entry>)
    requires WellFormed(fs)
    ensures WellFormed(ExtractAll(fs, cwd, opts, entries).fs)
    decreases |entries|
  {
    if entries != [] {
      ExtractAllWellFormed(fs, cwd, opts, entries[..|entries| - 1]);
      var before := ExtractAll(fs, cwd, opts, entries[..|entries| - 1]);
      if before.failure.None? {
        ExtractEntryWellFormed(before.fs, cwd, opts, entries[|entries| - 1]);
      }
    }
  }

  // ---------------------------------------------------------------------------
  // The host

  /** The machine Unzip and List run on: its working directory, its file
      system, the files that open as valid ZIP archives (by path, as their
      decoded entries), and what has reached the status writer. */
  class Host {
    const cwd: Segs
    var fs: FileSystem
    var archives: map<string, seq<Entry>>
    var out: seq<string>

    ghost predicate Valid()
      reads this
    {
      Canonical(cwd) && WellFormed(fs)
    }

    constructor (cwd: Segs, fs: FileSystem, archives: map<string, seq<Entry>>)
      requires Canonical(cwd) && WellFormed(fs)
      ensures Valid()
      ensures this.cwd == cwd && this.fs == fs && this.archives == archives && out == []
    {
      this.cwd := cwd;
      this.fs := fs;
      this.archives := archives;
      out := [];
    }

    /** extractFile: `now` is the time the host stamps on the file it opens. */
    method ExtractFile(e: Entry, destPath: string, overwrite: bool, output: Output, now: Timestamp) returns (err: Option<Error>)
      requires Valid()
      modifies this`fs, this`out
      ensures Valid()
      ensures var r := WriteEntry(old(fs), cwd, e, destPath, overwrite, now);
        fs == r.fs && err == r.failure && out == old(out) + Emit(output, r.lines)
    {
      var dest, parent := Abs(cwd, destPath), Abs(cwd, Dir(destPath));
      if !overwrite && dest in fs {
        return Some(FileExists(destPath));
      }
      var made := MkdirAll(fs, parent, ParentMode);
      if made.None? {
        return Some(ParentFailed(destPath));
      }
      MkdirAllWellFormed(fs, parent, ParentMode);
      fs := made.value;
      if !CanCreate(fs, dest) {
        return Some(CreateFailed(destPath));
      }
      var node := Written(fs, dest, e.content, e.mode, now);
      WriteKeepsWellFormed(fs, dest, node);
      fs := fs[dest := node];
      if output.Writer? {
        out := out + [InflatingLine(destPath)];
      }
      err := None;
    }

    /** os.Chtimes on an existing file. */
    method Chtimes(p: Segs, t: Timestamp)
      requires Valid() && p in fs && fs[p].FileNode?
      modifies this`fs
      ensures Valid()
      ensures fs == old(fs)[p := SetTimes(old(fs)[p], t)]
    {
      WriteKeepsWellFormed(fs, p, SetTimes(fs[p], t));
      fs := fs[p := SetTimes(fs[p], t)];
    }

    /** One iteration of Unzip's loop: filter, name, check, then create the
        directory or extract the file and restore its time. */
    method ExtractOne(e: Entry, opts: UnzipOptions, outputDir: string, absOutputDir: Segs, now: Timestamp)
      returns (err: Option<Error>)
      requires Valid()
      requires outputDir == OutputDir(opts) && absOutputDir == Abs(cwd, outputDir)
      modifies this`fs, this`out
      ensures Valid()
      ensures var r := ExtractEntry(old(fs), cwd, opts, e);
        fs == r.fs && err == r.failure && out == old(out) + Emit(opts.output, r.lines)
    {
      if |opts.filePatterns| > 0 && !MatchesAny(e.name, opts.filePatterns) {
        return None;
      }
      var name := e.name;
      if opts.junkPaths {
        name := Base(name);
      }
      var destPath := Join(outputDir, name);
      var absDest := Abs(cwd, destPath);
      if !Guard(Render(true, absOutputDir), Render(true, absDest)) {
        return Some(IllegalPath(e.name));
      }
      if e.isDir {
        var made := MkdirAll(fs, absDest, e.mode);
        if made.None? {
          return Some(MkdirFailed(destPath));
        }
        MkdirAllWellFormed(fs, absDest, e.mode);
        fs := made.value;
        return None;
      }
      err := ExtractAndStamp(e, destPath, opts.overwrite, opts.output, now);
    }

    /** The file branch of Unzip's loop: extractFile, then Chtimes with the
        entry's modification time. */
    method ExtractAndStamp(e: Entry, destPath: string, overwrite: bool, output: Output, now: Timestamp)
      returns (err: Option<Error>)
      requires Valid()
      modifies this`fs, this`out
      ensures Valid()
      ensures var r := WriteStamped(old(fs), cwd, e, destPath, overwrite);
        fs == r.fs && err == r.failure && out == old(out) + Emit(output, r.lines)
    {
      StampOverwritten(fs, cwd, e, destPath, overwrite, now, e.modified);
      WriteEntryWellFormed(fs, cwd, e, destPath, overwrite, now);
      err := ExtractFile(e, destPath, overwrite, output, now);
      if err.Some? {
        return;
      }
      Chtimes(Abs(cwd, destPath), e.modified);
    }

    /** Unzip: `now` is the time the host stamps on files as it opens them. */
    method Unzip(zipPath: string, opts: UnzipOptions, now: Timestamp) returns (err: Option<Error>)
      requires Valid()
      modifies this`fs, this`out
      ensures Valid()
      ensures zipPath !in archives ==> err == Some(OpenArchive(zipPath)) && fs == old(fs) && out == old(out)
      ensures zipPath in archives ==>
        var r := ExtractAll(old(fs), cwd, opts, archives[zipPath]);
        fs == r.fs && err == r.failure
      ensures opts.output.Discard? ==> out == old(out)
      ensures zipPath in archives && opts.output.Writer? ==>
        out == old(out) + ExtractAll(old(fs), cwd, opts, archives[zipPath]).lines
      ensures Confined(old(fs), fs, Abs(cwd, OutputDir(opts)))
    {
      var outputDir := opts.outputDir;
      if outputDir == "" {
        outputDir := ".";
      }
      var absOutputDir := Abs(cwd, outputDir);
      if zipPath !in archives {
        return Some(OpenArchive(zipPath));
      }
      var entries := archives[zipPath];
      err := None;
      ghost var fs0, out0 := fs, out;
      ghost var lines: seq<string> := [];
      var i := 0;
      while i < |entries|
        invariant 0 <= i <= |entries|
        invariant Valid() && entries == archives[zipPath] && err.None?
        invariant ExtractAll(fs0, cwd, opts, entries[..i]) == Run(fs, lines, None)
        invariant out == out0 + Emit(opts.output, lines)
      {
        ghost var step := ExtractEntry(fs, cwd, opts, entries[i]);
        ExtractAllNext(fs0, cwd, opts, entries, i);
        err := ExtractOne(entries[i], opts, outputDir, absOutputDir, now);
        EmitAppend(out0, opts.output, lines, step.lines);
        if err.Some? {
          ExtractAllStopsAtFailure(fs0, cwd, opts, entries, i + 1);
          ExtractAllConfined(fs0, cwd, opts, entries);
          return;
        }
        lines := lines + step.lines;
        i := i + 1;
      }
      assert entries[..i] == entries;
      ExtractAllConfined(fs0, cwd, opts, entries);
    }

    /** List: the records of the archive, in archive order. */
    method List(zipPath: string) returns (listing: seq<ListEntry>, err: Option<Error>)
      ensures zipPath !in archives ==> listing == [] && err == Some(OpenArchive(zipPath))
      ensures zipPath in archives ==>
        && err == None
        && |listing| == |archives[zipPath]|
        && forall k :: 0 <= k < |listing| ==> listing[k] == Listing(archives[zipPath][k])
    {
      if zipPath !in archives {
        return [], Some(OpenArchive(zipPath));
      }
      var entries := archives[zipPath];
      listing := [];
      var i := 0;
      while i < |entries|
        invariant 0 <= i <= |entries|
        invariant |listing| == i
        invariant forall k :: 0 <= k < i ==> listing[k] == Listing(entries[k])
      {
        listing := listing + [Listing(entries[i])];
        i := i + 1;
      }
      err := None;
    }
  }
}
