/** The archive writer: Zip walks its sources in order and appends one entry per
    regular file it keeps, choosing Store or Deflate by the compression level.
    The ZIP container and the DEFLATE codec are outside the model: an entry is
    the header the writer builds plus the bytes it copies. */
module Writer {

  import opened Wrappers
  import opened Paths
  import opened Matcher
  import opened Options

  /** The file tree as the walk sees it.  A directory's children are in the
      lexical order of their names, which is the order the walk visits them.
      `Unlistable` is a directory whose listing cannot be read. */
  datatype Node =
    | File(name: string, mode: nat, modified: Timestamp, data: seq<byte>)
    | Dir(name: string, children: seq<Node>)
    | Unlistable(name: string)

  /** Compression method of an entry: 0 (stored) or 8 (deflated), section 4.4.5
      of PKWARE's APPNOTE.TXT. */
  datatype Method = Store | Deflate(level: int)

  function MethodCode(m: Method): (code: nat)
    ensures m.Store? <==> code == 0
    ensures m.Deflate? <==> code == 8
  {
    match m
    case Store => 0
    case Deflate(_) => 8
  }

  /** One entry as the writer emits it. */
  datatype Header = Header(name: string, compression: Method, mode: nat, modified: Timestamp, data: seq<byte>)

  /** Why adding a source failed: its status could not be read (it does not
      exist), or a directory met by the walk could not be listed. */
  datatype ZipError = StatFailed(path: string) | ListFailed(path: string)

  /** What adding some sources produced: entries, status lines, and the error
      that stopped it, if any. */
  datatype Emitted = Emitted(entries: seq<Header>, lines: seq<string>, failure: Option<ZipError>)

  const Nothing := Emitted([], [], None)

  function AddingLine(path: string): string {
    "  adding: " + path + "\n"
  }

  function SkippedLine(path: string): string {
    "  adding: " + path + "/ (skipped, not recursive)\n"
  }

  /** The level handed to the deflate compressor: the requested level when it is
      -1 (default) or 0-9, otherwise the default. */
  function DeflateLevel(compressionLevel: int): (level: int)
    ensures -1 <= level <= 9
    ensures -1 <= compressionLevel <= 9 ==> level == compressionLevel
    ensures level != compressionLevel ==> level == -1
  {
    if compressionLevel < -1 || compressionLevel > 9 then -1 else compressionLevel
  }

  /** The method of every entry: Store exactly when the requested level is 0. */
  function EntryMethod(compressionLevel: int, level: int): Method {
    if compressionLevel == 0 then Store else Deflate(level)
  }

  function Then(a: Emitted, b: Emitted): Emitted {
    Emitted(a.entries + b.entries, a.lines + b.lines, b.failure)
  }

  /** Every status line announces the entry at the same position. */
  predicate LinesAnnounce(r: Emitted) {
    |r.lines| == |r.entries|
    && forall k :: 0 <= k < |r.entries| ==> r.lines[k] == AddingLine(r.entries[k].name)
  }

  /** Properties every entry of a walk rooted at `path` has. */
  predicate EntriesFit(r: Emitted, path: string, exclude: seq<string>, m: Method) {
    forall k :: 0 <= k < |r.entries| ==>
      && r.entries[k].compression == m
      && !MatchesAny(r.entries[k].name, exclude)
      && IsAbs(r.entries[k].name) == IsAbs(path)
  }

  lemma ThenKeeps(a: Emitted, b: Emitted, path: string, exclude: seq<string>, m: Method)
    requires LinesAnnounce(a) && LinesAnnounce(b)
    requires EntriesFit(a, path, exclude, m) && EntriesFit(b, path, exclude, m)
    ensures LinesAnnounce(Then(a, b)) && EntriesFit(Then(a, b), path, exclude, m)
  {
    var r := Then(a, b);
    forall k | 0 <= k < |r.entries|
      ensures r.lines[k] == AddingLine(r.entries[k].name)
    {
      if k < |a.entries| {
        assert r.entries[k] == a.entries[k] && r.lines[k] == a.lines[k];
      } else {
        assert r.entries[k] == b.entries[k - |a.entries|] && r.lines[k] == b.lines[k - |a.lines|];
      }
    }
  }

  /** writeFileToZip: one entry named by the path, one status line. */
  function WriteFile(path: string, f: Node, m: Method): Emitted
    requires f.File?
  {
    Emitted([Header(path, m, f.mode, f.modified, f.data)], [AddingLine(path)], None)
  }

  /** The walk callback applied depth-first from `path`: a directory that
      cannot be listed stops the walk, a path whose base name matches an
      exclusion is skipped, and for a directory so is everything below it;
      other directories yield only their files. */
  function Walk(path: string, node: Node, exclude: seq<string>, m: Method): (r: Emitted)
    requires path != ""
    ensures LinesAnnounce(r)
    ensures EntriesFit(r, path, exclude, m)
    decreases node
  {
    match node
    case Unlistable(_) => Emitted([], [], Some(ListFailed(path)))
    case File(_, _, _, _) =>
      if MatchesAny(path, exclude) then Nothing else WriteFile(path, node, m)
    case Dir(_, children) =>
      if MatchesAny(path, exclude) then Nothing else WalkChildren(path, children, exclude, m)
  }

  /** The children of the directory at `path`, each at its joined path, until
      the first failure. */
  function WalkChildren(path: string, children: seq<Node>, exclude: seq<string>, m: Method): (r: Emitted)
    requires path != ""
    ensures LinesAnnounce(r)
    ensures EntriesFit(r, path, exclude, m)
    decreases children
  {
    if children == [] then Nothing
    else
      var child := Join(path, children[0].name);
      JoinKeepsRootedness(path, children[0].name);
      var first := Walk(child, children[0], exclude, m);
      if first.failure.Some? then first
      else
        var rest := WalkChildren(path, children[1..], exclude, m);
        ThenKeeps(first, rest, path, exclude, m);
        Then(first, rest)
  }

  /** addToZip for one source path; `sources` gives what each existing path
      names (os.Stat of the empty path fails). */
  function AddToZip(path: string, sources: map<string, Node>, opts: ZipOptions, m: Method): Emitted {
    if path == "" || path !in sources then Emitted([], [], Some(StatFailed(path)))
    else
      var node := sources[path];
      if !node.File? then
        if !opts.recursive then Emitted([], [SkippedLine(path)], None)
        else Walk(path, node, opts.excludePatterns, m)
      else if MatchesAny(path, opts.excludePatterns) then Nothing
      else WriteFile(path, node, m)
  }

  /** Sources added in order until the first one fails. */
  function AddAll(files: seq<string>, sources: map<string, Node>, opts: ZipOptions, m: Method): Emitted
    decreases |files|
  {
    if files == [] then Nothing
    else
      var before := AddAll(files[..|files| - 1], sources, opts, m);
      if before.failure.Some? then before
      else Then(before, AddToZip(files[|files| - 1], sources, opts, m))
  }

  /** Zip: the entries of the archive and the lines that reach the status
      writer.  On an error the archive keeps the entries written before it. */
  method Zip(files: seq<string>, sources: map<string, Node>, opts: ZipOptions)
    returns (archive: seq<Header>, printed: seq<string>, err: Option<ZipError>)
    ensures var r := AddAll(files, sources, opts, EntryMethod(opts.compressionLevel, DeflateLevel(opts.compressionLevel)));
      archive == r.entries && err == r.failure
    ensures opts.output.Discard? ==> printed == []
    ensures opts.output.Writer? ==>
      printed == AddAll(files, sources, opts, EntryMethod(opts.compressionLevel, DeflateLevel(opts.compressionLevel))).lines
  {
    var level := opts.compressionLevel;
    if level < -1 || level > 9 {
      level := -1;
    }
    var m := if opts.compressionLevel == 0 then Store else Deflate(level);
    assert m == EntryMethod(opts.compressionLevel, DeflateLevel(opts.compressionLevel));
    var lines: seq<string> := [];
    archive, err := [], None;
    var i := 0;
    while i < |files|
      invariant 0 <= i <= |files|
      invariant AddAll(files[..i], sources, opts, m) == Emitted(archive, lines, None)
    {
      var added := AddToZip(files[i], sources, opts, m);
      AddAllNext(files, i, sources, opts, m);
      archive, lines := archive + added.entries, lines + added.lines;
      if added.failure.Some? {
        err := added.failure;
        AddAllStopsAtFailure(files, i + 1, sources, opts, m);
        printed := Emit(opts.output, lines);
        return;
      }
      i := i + 1;
    }
    assert files[..i] == files;
    printed := Emit(opts.output, lines);
  }

  // ---------------------------------------------------------------------------
  // Properties of the writer

  /** Adding one more source: the run so far, continued with that source
      unless it already failed. */
  lemma AddAllNext(files: seq<string>, i: nat, sources: map<string, Node>, opts: ZipOptions, m: Method)
    requires i < |files|
    ensures var before := AddAll(files[..i], sources, opts, m);
      AddAll(files[..i + 1], sources, opts, m) ==
        if before.failure.Some? then before else Then(before, AddToZip(files[i], sources, opts, m))
  {
    assert files[..i + 1][..i] == files[..i];
  }

  /** Once a source fails, no later source is added. */
  lemma {:induction false} AddAllStopsAtFailure(files: seq<string>, k: nat, sources: map<string, Node>, opts: ZipOptions, m: Method)
    requires k <= |files|
    requires AddAll(files[..k], sources, opts, m).failure.Some?
    ensures AddAll(files, sources, opts, m) == AddAll(files[..k], sources, opts, m)
    decreases |files| - k
  {
    if k < |files| {
      assert files[..|files| - 1][..k] == files[..k];
      AddAllStopsAtFailure(files[..|files| - 1], k, sources, opts, m);
    } else {
      assert files[..k] == files;
    }
  }

  /** The entries of a run use method `m` and have base names no exclusion
      pattern matches. */
  predicate Admitted(r: Emitted, exclude: seq<string>, m: Method) {
    forall k :: 0 <= k < |r.entries| ==> r.entries[k].compression == m && !MatchesAny(r.entries[k].name, exclude)
  }

  lemma AddToZipAdmitted(path: string, sources: map<string, Node>, opts: ZipOptions, m: Method)
    ensures Admitted(AddToZip(path, sources, opts, m), opts.excludePatterns, m)
  {
    if path != "" && path in sources && !sources[path].File? && opts.recursive {
      var w := Walk(path, sources[path], opts.excludePatterns, m);
      assert EntriesFit(w, path, opts.excludePatterns, m);
    }
  }

  lemma ThenAdmitted(a: Emitted, b: Emitted, exclude: seq<string>, m: Method)
    requires Admitted(a, exclude, m) && Admitted(b, exclude, m)
    ensures Admitted(Then(a, b), exclude, m)
  {
    var r := Then(a, b);
    forall k | 0 <= k < |r.entries|
      ensures r.entries[k].compression == m && !MatchesAny(r.entries[k].name, exclude)
    {
      if k < |a.entries| {
        assert r.entries[k] == a.entries[k];
      } else {
        assert r.entries[k] == b.entries[k - |a.entries|];
      }
    }
  }

  /** Every entry Zip writes uses the chosen method and has a base name that
      no exclusion pattern matches. */
  lemma {:induction false} AddAllEntriesFit(files: seq<string>, sources: map<string, Node>, opts: ZipOptions, m: Method)
    ensures Admitted(AddAll(files, sources, opts, m), opts.excludePatterns, m)
    decreases |files|
  {
    if files != [] {
      AddAllEntriesFit(files[..|files| - 1], sources, opts, m);
      var before := AddAll(files[..|files| - 1], sources, opts, m);
      var added := AddToZip(files[|files| - 1], sources, opts, m);
      AddToZipAdmitted(files[|files| - 1], sources, opts, m);
      if before.failure.None? {
        ThenAdmitted(before, added, opts.excludePatterns, m);
      }
    }
  }

  /** Zip succeeds exactly when every source is added without error. */
  lemma {:induction false} AddAllSucceeds(files: seq<string>, sources: map<string, Node>, opts: ZipOptions, m: Method)
    ensures AddAll(files, sources, opts, m).failure.None? <==>
            forall j :: 0 <= j < |files| ==> AddToZip(files[j], sources, opts, m).failure.None?
    decreases |files|
  {
    if files != [] {
      var init := files[..|files| - 1];
      AddAllSucceeds(init, sources, opts, m);
      var before, last := AddAll(init, sources, opts, m), AddToZip(files[|files| - 1], sources, opts, m);
      assert AddAll(files, sources, opts, m).failure == if before.failure.Some? then before.failure else last.failure;
      if before.failure.Some? {
        var j :| 0 <= j < |init| && AddToZip(init[j], sources, opts, m).failure.Some?;
        assert init[j] == files[j];
      } else {
        forall j | 0 <= j < |init| ensures AddToZip(files[j], sources, opts, m).failure.None? {
          assert init[j] == files[j];
        }
      }
    }
  }

  /** A failed Zip holds everything the sources before the failing one added,
      then what the failing source added before its error. */
  lemma {:induction false} AddAllFirstFailure(files: seq<string>, sources: map<string, Node>, opts: ZipOptions, m: Method)
    requires AddAll(files, sources, opts, m).failure.Some?
    ensures exists k :: (0 <= k < |files|
      && AddAll(files[..k], sources, opts, m).failure.None?
      && AddToZip(files[k], sources, opts, m).failure.Some?
      && AddAll(files, sources, opts, m) == Then(AddAll(files[..k], sources, opts, m), AddToZip(files[k], sources, opts, m)))
    decreases |files|
  {
    var init := files[..|files| - 1];
    if AddAll(init, sources, opts, m).failure.Some? {
      AddAllFirstFailure(init, sources, opts, m);
      var k :| 0 <= k < |init|
        && AddAll(init[..k], sources, opts, m).failure.None?
        && AddToZip(init[k], sources, opts, m).failure.Some?
        && AddAll(init, sources, opts, m) == Then(AddAll(init[..k], sources, opts, m), AddToZip(init[k], sources, opts, m));
      assert init[..k] == files[..k];
      assert init[k] == files[k];
    } else {
      assert files[..|files| - 1] == init;
    }
  }

  /** A directory source without the recursive option yields one "skipped"
      line, no entries and no error. */
  lemma NonRecursiveDirectorySkipped(path: string, sources: map<string, Node>, opts: ZipOptions, m: Method)
    requires path != "" && path in sources && sources[path].Dir? && !opts.recursive
    ensures AddToZip(path, sources, opts, m) == Emitted([], [SkippedLine(path)], None)
  {
  }

  /** A source that does not exist fails with its path and adds nothing. */
  lemma MissingSourceFails(path: string, sources: map<string, Node>, opts: ZipOptions, m: Method)
    requires path !in sources
    ensures AddToZip(path, sources, opts, m) == Emitted([], [], Some(StatFailed(path)))
  {
  }

  /** A file named as a source whose base name is excluded is skipped without
      a line or an error. */
  lemma ExcludedFileSourceSkipped(path: string, sources: map<string, Node>, opts: ZipOptions, m: Method)
    requires path != "" && path in sources && sources[path].File? && MatchesAny(path, opts.excludePatterns)
    ensures AddToZip(path, sources, opts, m) == Nothing
  {
  }

  /** The status writer never influences what is archived or whether Zip
      fails: only the lines that reach it depend on it. */
  lemma {:induction false} AddAllIgnoresOutput(files: seq<string>, sources: map<string, Node>, opts: ZipOptions, o: Output, m: Method)
    ensures AddAll(files, sources, opts.(output := o), m) == AddAll(files, sources, opts, m)
    decreases |files|
  {
    if files != [] {
      AddAllIgnoresOutput(files[..|files| - 1], sources, opts, o, m);
    }
  }

  /** An excluded directory contributes nothing at all, whatever lies below it. */
  lemma ExcludedDirectoryPruned(path: string, node: Node, exclude: seq<string>, m: Method)
    requires path != "" && node.Dir? && MatchesAny(path, exclude)
    ensures Walk(path, node, exclude, m) == Nothing
  {
  }

  /** A regular file `leaf` that the walk from `node` at `path` reaches at the
      path `at`: through directories none of which is excluded, and itself not
      excluded. */
  ghost predicate Reaches(path: string, node: Node, exclude: seq<string>, at: string, leaf: Node)
    decreases node, 1
  {
    && path != ""
    && leaf.File?
    && !MatchesAny(path, exclude)
    && match node
       case Unlistable(_) => false
       case File(_, _, _, _) => at == path && leaf == node
       case Dir(_, children) => ReachesAmong(path, children, exclude, at, leaf)
  }

  /** Some child of the directory at `path` reaches `leaf` at `at`. */
  ghost predicate ReachesAmong(path: string, children: seq<Node>, exclude: seq<string>, at: string, leaf: Node)
    decreases children, 0
  {
    exists i :: 0 <= i < |children| && Reaches(Join(path, children[i].name), children[i], exclude, at, leaf)
  }

  /** The entry the writer makes for a reached file. */
  function EntryFor(at: string, leaf: Node, m: Method): Header
    requires leaf.File?
  {
    Header(at, m, leaf.mode, leaf.modified, leaf.data)
  }

  /** Every entry of a walk is a file the walk reaches, with that file's mode,
      time and bytes. */
  lemma {:induction false} WalkSound(path: string, node: Node, exclude: seq<string>, m: Method, k: nat)
    requires path != ""
    requires k < |Walk(path, node, exclude, m).entries|
    ensures exists leaf :: (Reaches(path, node, exclude, Walk(path, node, exclude, m).entries[k].name, leaf)
      && Walk(path, node, exclude, m).entries[k] == EntryFor(Walk(path, node, exclude, m).entries[k].name, leaf, m))
    decreases node
  {
    var h := Walk(path, node, exclude, m).entries[k];
    match node
    case File(_, _, _, _) =>
      assert Reaches(path, node, exclude, h.name, node);
    case Dir(_, children) =>
      WalkChildrenSound(path, children, exclude, m, k);
      var leaf: Node :| leaf.File? && ReachesAmong(path, children, exclude, h.name, leaf) && h == EntryFor(h.name, leaf, m);
      assert Reaches(path, node, exclude, h.name, leaf);
  }

  lemma {:induction false} WalkChildrenSound(path: string, children: seq<Node>, exclude: seq<string>, m: Method, k: nat)
    requires path != ""
    requires k < |WalkChildren(path, children, exclude, m).entries|
    ensures exists leaf: Node :: (leaf.File? && ReachesAmong(path, children, exclude, WalkChildren(path, children, exclude, m).entries[k].name, leaf)
      && WalkChildren(path, children, exclude, m).entries[k] == EntryFor(WalkChildren(path, children, exclude, m).entries[k].name, leaf, m))
    decreases children
  {
    var h := WalkChildren(path, children, exclude, m).entries[k];
    var child := Join(path, children[0].name);
    JoinKeepsRootedness(path, children[0].name);
    var first := Walk(child, children[0], exclude, m);
    if k < |first.entries| {
      assert h == first.entries[k];
      WalkSound(child, children[0], exclude, m, k);
      var leaf :| Reaches(child, children[0], exclude, h.name, leaf) && h == EntryFor(h.name, leaf, m);
      ReachesAmongCons(path, children, exclude, h.name, leaf);
    } else {
      var rest := WalkChildren(path, children[1..], exclude, m);
      assert WalkChildren(path, children, exclude, m) == Then(first, rest);
      var j := k - |first.entries|;
      assert h == rest.entries[j];
      WalkChildrenSound(path, children[1..], exclude, m, j);
      var leaf: Node :| leaf.File? && ReachesAmong(path, children[1..], exclude, rest.entries[j].name, leaf)
        && rest.entries[j] == EntryFor(rest.entries[j].name, leaf, m);
      ReachesAmongCons(path, children, exclude, h.name, leaf);
    }
  }

  /** A child list reaches a file through its first child or through the rest. */
  lemma ReachesAmongCons(path: string, children: seq<Node>, exclude: seq<string>, at: string, leaf: Node)
    requires children != []
    ensures ReachesAmong(path, children, exclude, at, leaf) <==>
      Reaches(Join(path, children[0].name), children[0], exclude, at, leaf) || ReachesAmong(path, children[1..], exclude, at, leaf)
  {
    var tail := children[1..];
    if ReachesAmong(path, tail, exclude, at, leaf) {
      var i :| 0 <= i < |tail| && Reaches(Join(path, tail[i].name), tail[i], exclude, at, leaf);
      assert tail[i] == children[i + 1];
    }
    if ReachesAmong(path, children, exclude, at, leaf) {
      var i :| 0 <= i < |children| && Reaches(Join(path, children[i].name), children[i], exclude, at, leaf);
      if i > 0 {
        assert tail[i - 1] == children[i];
      }
    }
  }

  /** A walk that does not fail has an entry for every file it reaches. */
  lemma {:induction false} WalkComplete(path: string, node: Node, exclude: seq<string>, m: Method, at: string, leaf: Node)
    requires Reaches(path, node, exclude, at, leaf)
    requires Walk(path, node, exclude, m).failure.None?
    ensures exists k :: (0 <= k < |Walk(path, node, exclude, m).entries|
      && Walk(path, node, exclude, m).entries[k] == EntryFor(at, leaf, m))
    decreases node
  {
    match node
    case File(_, _, _, _) =>
      assert Walk(path, node, exclude, m).entries[0] == EntryFor(at, leaf, m);
    case Dir(_, children) =>
      WalkChildrenComplete(path, children, exclude, m, at, leaf);
  }

  lemma {:induction false} WalkChildrenComplete(path: string, children: seq<Node>, exclude: seq<string>, m: Method,
                                               at: string, leaf: Node)
    requires path != "" && leaf.File?
    requires ReachesAmong(path, children, exclude, at, leaf)
    requires WalkChildren(path, children, exclude, m).failure.None?
    ensures exists k :: (0 <= k < |WalkChildren(path, children, exclude, m).entries|
      && WalkChildren(path, children, exclude, m).entries[k] == EntryFor(at, leaf, m))
    decreases children
  {
    var r := WalkChildren(path, children, exclude, m);
    var child := Join(path, children[0].name);
    JoinKeepsRootedness(path, children[0].name);
    var first := Walk(child, children[0], exclude, m);
    assert first.failure.None?;
    var rest := WalkChildren(path, children[1..], exclude, m);
    assert r == Then(first, rest);
    ReachesAmongCons(path, children, exclude, at, leaf);
    if Reaches(child, children[0], exclude, at, leaf) {
      WalkComplete(child, children[0], exclude, m, at, leaf);
    } else {
      WalkChildrenComplete(path, children[1..], exclude, m, at, leaf);
    }
    ThenHasEntry(first, rest, EntryFor(at, leaf, m));
  }

  /** An entry of either part is an entry of the concatenation. */
  lemma ThenHasEntry(a: Emitted, b: Emitted, h: Header)
    requires (exists k :: 0 <= k < |a.entries| && a.entries[k] == h) || (exists k :: 0 <= k < |b.entries| && b.entries[k] == h)
    ensures exists k :: 0 <= k < |Then(a, b).entries| && Then(a, b).entries[k] == h
  {
    if k :| 0 <= k < |a.entries| && a.entries[k] == h {
      assert Then(a, b).entries[k] == h;
    } else {
      var k :| 0 <= k < |b.entries| && b.entries[k] == h;
      assert Then(a, b).entries[|a.entries| + k] == h;
    }
  }

  /** Store is chosen exactly for level 0; every other level deflates, with an
      out-of-range level replaced by the default. */
  lemma StoreExactlyAtLevelZero(compressionLevel: int)
    ensures EntryMethod(compressionLevel, DeflateLevel(compressionLevel)).Store? <==> compressionLevel == 0
    ensures MethodCode(EntryMethod(compressionLevel, DeflateLevel(compressionLevel))) == if compressionLevel == 0 then 0 else 8
    ensures compressionLevel != 0 ==>
      EntryMethod(compressionLevel, DeflateLevel(compressionLevel)) ==
        Deflate(if -1 <= compressionLevel <= 9 then compressionLevel else -1)
  {
  }
}
