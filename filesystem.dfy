/** The host file system as the extractor sees it: a map from canonical
    absolute paths to files and directories, with the two operations Unzip
    relies on, os.MkdirAll and os.OpenFile with O_CREATE|O_TRUNC (followed by
    os.Chtimes). */
module FileSystems {

  import opened Wrappers
  import opened Paths
  import opened Options

  datatype FsNode =
    | FileNode(content: seq<byte>, mode: nat, atime: Timestamp, mtime: Timestamp)
    | DirNode(mode: nat)

  type FileSystem = map<Segs, FsNode>

  /** The root exists and is a directory, and the parent of every other path
      in the map exists and is a directory. */
  predicate WellFormed(fs: FileSystem) {
    && [] in fs && fs[[]].DirNode?
    && forall p :: p in fs && p != [] ==> p[..|p| - 1] in fs && fs[p[..|p| - 1]].DirNode?
  }

  /** os.MkdirAll: succeed at once if the path is a directory, fail if it is a
      file, otherwise create the parent chain and then the path itself. */
  function MkdirAll(fs: FileSystem, p: Segs, mode: nat): (r: Option<FileSystem>)
    ensures r.Some? ==> p in r.value && r.value[p].DirNode?
    ensures r.Some? ==> forall q :: q in fs ==> q in r.value && r.value[q] == fs[q]
    ensures r.Some? ==> forall q :: q in r.value && q !in fs ==> q <= p && r.value[q] == DirNode(mode)
    decreases |p|
  {
    if p in fs then
      if fs[p].DirNode? then Some(fs) else None
    else if p == [] then None
    else
      match MkdirAll(fs, p[..|p| - 1], mode)
      case None => None
      case Some(fs') => Some(fs'[p := DirNode(mode)])
  }

  /** In a well-formed file system every ancestor of a path that exists is a
      directory that exists. */
  lemma {:induction false} AncestorsAreDirectories(fs: FileSystem, p: Segs, q: Segs)
    requires WellFormed(fs) && p in fs && q < p
    ensures q in fs && fs[q].DirNode?
    decreases |p|
  {
    var parent := p[..|p| - 1];
    if q != parent {
      assert q < parent;
      AncestorsAreDirectories(fs, parent, q);
    }
  }

  /** After a successful MkdirAll of a well-formed file system, the path and
      every ancestor of it are directories, and the result is well-formed. */
  lemma {:induction false} MkdirAllMakesChain(fs: FileSystem, p: Segs, mode: nat)
    requires WellFormed(fs) && MkdirAll(fs, p, mode).Some?
    ensures WellFormed(MkdirAll(fs, p, mode).value)
    ensures forall q :: q <= p ==> q in MkdirAll(fs, p, mode).value && MkdirAll(fs, p, mode).value[q].DirNode?
    decreases |p|
  {
    var r := MkdirAll(fs, p, mode).value;
    if p in fs {
      forall q | q <= p ensures q in r && r[q].DirNode? {
        if q != p {
          AncestorsAreDirectories(fs, p, q);
        }
      }
    } else {
      var parent := p[..|p| - 1];
      MkdirAllMakesChain(fs, parent, mode);
      var r' := MkdirAll(fs, parent, mode).value;
      assert r == r'[p := DirNode(mode)];
      forall q | q <= p ensures q in r && r[q].DirNode? {
        if q != p {
          assert q <= parent;
        }
      }
    }
  }

  /** A successful MkdirAll keeps the file system well-formed. */
  lemma MkdirAllWellFormed(fs: FileSystem, p: Segs, mode: nat)
    requires WellFormed(fs) && MkdirAll(fs, p, mode).Some?
    ensures WellFormed(MkdirAll(fs, p, mode).value)
  {
    MkdirAllMakesChain(fs, p, mode);
  }

  /** MkdirAll of a well-formed file system fails exactly when some ancestor of
      the path, or the path itself, is a file. */
  lemma {:induction false} MkdirAllFailsOnFile(fs: FileSystem, p: Segs, mode: nat)
    requires WellFormed(fs)
    ensures MkdirAll(fs, p, mode).None? <==> exists q :: q <= p && q in fs && fs[q].FileNode?
    decreases |p|
  {
    if p in fs {
      if fs[p].DirNode? {
        forall q | q <= p && q in fs ensures fs[q].DirNode? {
          if q != p {
            AncestorsAreDirectories(fs, p, q);
          }
        }
      }
    } else {
      assert p != [];
      var parent := p[..|p| - 1];
      MkdirAllFailsOnFile(fs, parent, mode);
      if exists q :: q <= p && q in fs && fs[q].FileNode? {
        var q :| q <= p && q in fs && fs[q].FileNode?;
        assert q != p && |q| < |p|;
        assert q == parent[..|q|];
      }
    }
  }

  /** os.OpenFile with O_CREATE fails when the path is a directory or when its
      parent is not an existing directory. */
  predicate CanCreate(fs: FileSystem, p: Segs) {
    && p != []
    && p[..|p| - 1] in fs && fs[p[..|p| - 1]].DirNode?
    && !(p in fs && fs[p].DirNode?)
  }

  /** The node a truncating open followed by a copy leaves at `p`: the new
      content, the existing file's mode if there was one, else `mode`. */
  function Written(fs: FileSystem, p: Segs, content: seq<byte>, mode: nat, stamp: Timestamp): (n: FsNode)
    ensures n.FileNode? && n.content == content && n.atime == stamp && n.mtime == stamp
    ensures n.mode == if p in fs then fs[p].mode else mode
  {
    FileNode(content, if p in fs then fs[p].mode else mode, stamp, stamp)
  }

  /** os.Chtimes on a file: both times set to `t`, nothing else changes. */
  function SetTimes(n: FsNode, t: Timestamp): (r: FsNode)
    requires n.FileNode?
    ensures r.FileNode? && r.content == n.content && r.mode == n.mode && r.atime == t && r.mtime == t
  {
    n.(atime := t, mtime := t)
  }

  /** Writing a file where it can be created keeps the file system well-formed. */
  lemma WriteKeepsWellFormed(fs: FileSystem, p: Segs, n: FsNode)
    requires WellFormed(fs) && CanCreate(fs, p) && n.FileNode?
    ensures WellFormed(fs[p := n])
  {
    var fs' := fs[p := n];
    forall q | q in fs' && q != [] ensures q[..|q| - 1] in fs' && fs'[q[..|q| - 1]].DirNode? {
      if q != p && q[..|q| - 1] == p {
        assert false;
      }
    }
  }
}
