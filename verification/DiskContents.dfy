/** The tree checker: flatten a mounted tree, compare two of them, and the create/delete sanity check. */
module DiskContentsModel {
  import opened FileTree

  const NO_DIRENT: DirAttr := DirAttr(-1, -1, -1, -1, "")

  datatype FileAttributes = FileAttributes(dirAttr: DirAttr, statAttr: StatAttr, md5sum: string) {
    predicate CompareDirAttr(a: DirAttr) {
      dirAttr.ino == a.ino && dirAttr.off == a.off && dirAttr.reclen == a.reclen && dirAttr.kind == a.kind
      && dirAttr.name == a.name
    }

    predicate CompareStatAttr(a: StatAttr) {
      && statAttr.ino == a.ino && statAttr.mode == a.mode && statAttr.nlink == a.nlink
      && statAttr.uid == a.uid && statAttr.gid == a.gid
      && statAttr.size == a.size && statAttr.blksize == a.blksize && statAttr.blocks == a.blocks
    }

    /** std::string::compare as a bool: true when the digests differ. */
    predicate CompareMd5sum(a: string) {
      md5sum != a
    }

    predicate IsRegularFile() {
      KindOf(statAttr) == Regular
    }
  }

  type Contents = map<string, FileAttributes>

  /** What get_contents records of a node: the entry of a directory, the digest of a regular file. */
  function Recorded(n: TreeNode): FileAttributes {
    FileAttributes(if n.Kind() == Directory then n.dirent else NO_DIRENT, n.stat,
                   if n.Kind() == Regular then n.md5 else "")
  }

  /** The recorded attributes of some nodes of a tree, by spelling. */
  function Flat(t: Tree, ps: set<TreePath>): (m: Contents)
    requires WellFormed(t) && ps <= t.Keys
    ensures forall p <- ps :: Rel(p) in m && m[Rel(p)] == Recorded(t[p])
    ensures forall k <- m :: exists p <- ps :: Rel(p) == k
  {
    SpellingsDiffer(t);
    map p | p in ps :: Rel(p) := Recorded(t[p])
  }

  /** What flattening records: stat for all, the entry of a directory, the digest of a regular file. */
  lemma FlattenedEntry(t: Tree, p: TreePath, q: TreePath)
    requires WellFormed(t) && q in t && |q| > |p| && q[..|p|] == p
    ensures var flat := Flat(t, Below(t, p));
      && Rel(q) in flat && flat[Rel(q)].statAttr == t[q].stat
      && (t[q].stat.mode / 0x1000 % 16 == 4 ==> flat[Rel(q)].dirAttr == t[q].dirent)
      && (t[q].stat.mode / 0x1000 % 16 != 4 ==> flat[Rel(q)].dirAttr == DirAttr(-1, -1, -1, -1, ""))
      && flat[Rel(q)].md5sum == (if t[q].stat.mode / 0x1000 % 16 == 8 then t[q].md5 else "")
  {
    hide Flat, Rel, WellFormed;
    PathOrder(t, p, q);
  }

  lemma SpellingsDiffer(t: Tree)
    requires WellFormed(t)
    ensures forall p, q | p in t && q in t && Rel(p) == Rel(q) :: p == q
  {
    forall p, q | p in t && q in t && Rel(p) == Rel(q)
      ensures p == q
    {
      RelInjective(p, q);
    }
  }

  lemma FlatUnion(t: Tree, a: set<TreePath>, b: set<TreePath>)
    requires WellFormed(t) && a <= t.Keys && b <= t.Keys
    ensures Flat(t, a) + Flat(t, b) == Flat(t, a + b)
  {
    hide Flat, Rel, Recorded, WellFormed;
    var fa, fb, r := Flat(t, a), Flat(t, b), Flat(t, a + b);
    forall k | k in fa + fb
      ensures k in r && (fa + fb)[k] == r[k]
    {
      if k in fb {
        var p :| p in b && Rel(p) == k;
        assert p in a + b;
      } else {
        var p :| p in a && Rel(p) == k;
        assert p in a + b;
      }
    }
    forall k | k in r
      ensures k in fa + fb
    {
      var p :| p in a + b && Rel(p) == k;
    }
  }

  /** Two nodes the checker does not tell apart. */
  predicate Indistinguishable(a: FileAttributes, b: FileAttributes) {
    && a.CompareDirAttr(b.dirAttr)
    && a.CompareStatAttr(b.statAttr)
    && (a.IsRegularFile() ==> !a.CompareMd5sum(b.md5sum))
  }

  predicate SameContents(a: Contents, b: Contents) {
    a.Keys == b.Keys && forall k <- a :: Indistinguishable(a[k], b[k])
  }

  /** Two trees of the same shape, alike in every compared attribute below the root. */
  predicate SameTree(a: Tree, b: Tree) {
    a.Keys == b.Keys && forall p <- a :: p != [] ==> Indistinguishable(Recorded(a[p]), Recorded(b[p]))
  }

  /** The compared fields of the nodes, one by one. */
  lemma SameTreeIs(a: Tree, b: Tree)
    ensures SameTree(a, b) <==>
      && a.Keys == b.Keys
      && forall p <- a :: p != [] ==>
        && a[p].stat.ino == b[p].stat.ino && a[p].stat.mode == b[p].stat.mode && a[p].stat.nlink == b[p].stat.nlink
        && a[p].stat.uid == b[p].stat.uid && a[p].stat.gid == b[p].stat.gid && a[p].stat.size == b[p].stat.size
        && a[p].stat.blksize == b[p].stat.blksize && a[p].stat.blocks == b[p].stat.blocks
        && (a[p].stat.mode / 0x1000 % 16 == 8 ==> a[p].md5 == b[p].md5)
        && (a[p].stat.mode / 0x1000 % 16 == 4 ==>
              && a[p].dirent.ino == b[p].dirent.ino && a[p].dirent.off == b[p].dirent.off
              && a[p].dirent.reclen == b[p].dirent.reclen && a[p].dirent.kind == b[p].dirent.kind
              && a[p].dirent.name == b[p].dirent.name)
  {
  }

  /** Comparing in either direction gives the same verdict, and directories only match directories. */
  lemma SameTreeIsMutual(a: Tree, b: Tree)
    requires WellFormed(a) && WellFormed(b) && SameTree(a, b)
    ensures SameTree(b, a)
    ensures forall p <- a :: a[p].Kind() == b[p].Kind()
  {
    forall p | p in a
      ensures a[p].Kind() == b[p].Kind()
    {
      if p == [] {
        assert IsDir(a, []) && IsDir(b, []);
      } else {
        assert Indistinguishable(Recorded(a[p]), Recorded(b[p]));
      }
    }
  }

  lemma SubsetOfSameSize<T>(a: set<T>, b: set<T>)
    requires a <= b && |a| == |b|
    ensures a == b
  {
    assert |b - a| == |b| - |a|;
  }

  /** Flattening is faithful: the maps agree exactly when the trees do. */
  lemma FlattenFaithful(a: Tree, b: Tree)
    requires WellFormed(a) && WellFormed(b)
    ensures SameContents(Flat(a, Below(a, [])), Flat(b, Below(b, []))) <==> SameTree(a, b)
  {
    hide Flat, SameTree, SameContents, WellFormed;
    if SameContents(Flat(a, Below(a, [])), Flat(b, Below(b, []))) {
      ContentsTellTrees(a, b);
    }
    if SameTree(a, b) {
      TreesTellContents(a, b);
    }
  }

  lemma ContentsTellTrees(a: Tree, b: Tree)
    requires WellFormed(a) && WellFormed(b)
    requires SameContents(Flat(a, Below(a, [])), Flat(b, Below(b, [])))
    ensures SameTree(a, b)
  {
    hide Flat, Rel, Recorded, Indistinguishable, ValidPath;
    var fa, fb := Flat(a, Below(a, [])), Flat(b, Below(b, []));
    SamePaths(a, b);
    SamePaths(b, a);
    forall p | p in a && p != []
      ensures Indistinguishable(Recorded(a[p]), Recorded(b[p]))
    {
      assert p in Below(a, []) && p in Below(b, []);
      assert fa[Rel(p)] == Recorded(a[p]) && fb[Rel(p)] == Recorded(b[p]);
    }
  }

  lemma TreesTellContents(a: Tree, b: Tree)
    requires WellFormed(a) && WellFormed(b) && SameTree(a, b)
    ensures SameContents(Flat(a, Below(a, [])), Flat(b, Below(b, [])))
  {
    hide Flat, Rel, Recorded, Indistinguishable, WellFormed;
    var fa, fb := Flat(a, Below(a, [])), Flat(b, Below(b, []));
    assert Below(a, []) == Below(b, []);
    forall k | k in fa
      ensures k in fb && Indistinguishable(fa[k], fb[k])
    {
      var p :| p in Below(a, []) && Rel(p) == k;
      assert fa[Rel(p)] == Recorded(a[p]) && fb[Rel(p)] == Recorded(b[p]);
    }
    forall k | k in fb
      ensures k in fa
    {
      var p :| p in Below(b, []) && Rel(p) == k;
      assert p in Below(a, []);
    }
  }

  lemma SamePaths(a: Tree, b: Tree)
    requires WellFormed(a) && WellFormed(b)
    requires Flat(a, Below(a, [])).Keys <= Flat(b, Below(b, [])).Keys
    ensures a.Keys <= b.Keys
  {
    forall p | p in a
      ensures p in b
    {
      if p != [] {
        assert p in Below(a, []) && Rel(p) in Flat(a, Below(a, []));
        var q :| q in Below(b, []) && Rel(q) == Rel(p);
        RelInjective(p, q);
      }
    }
  }

  /** Every directory below `p` has an entry. */
  predicate NoEmptyDirBelow(t: Tree, p: TreePath) {
    forall q <- Below(t, p) :: IsDir(t, q) ==> Children(t, q) != {}
  }

  const DUMMY: string := "_dummy"

  /** No directory below `p` is empty, in terms of paths alone. */
  lemma NoEmptyDirBelowIs(t: Tree, p: TreePath)
    ensures NoEmptyDirBelow(t, p) <==>
      forall q <- t :: |q| > |p| && q[..|p|] == p && t[q].stat.mode / 0x1000 % 16 == 4 ==>
        exists c <- t :: |c| == |q| + 1 && c[..|q|] == q
  {
    hide KindOf;
    forall q | q in t
      ensures q in Below(t, p) <==> |q| > |p| && q[..|p|] == p
      ensures IsDir(t, q) <==> t[q].stat.mode / 0x1000 % 16 == 4
      ensures Children(t, q) != {} <==> exists c <- t :: |c| == |q| + 1 && c[..|q|] == q
    {
      PathOrder(t, p, q);
      if c :| c in t && |c| == |q| + 1 && c[..|q|] == q {
        PathOrder(t, q, c);
      }
    }
  }

  /** Some directory below the root has a subdirectory called "_dummy". */
  predicate DummyIsTaken(t: Tree) {
    exists p <- t :: p != [] && IsDir(t, p + [DUMMY])
  }

  class DiskContents {
    const diskPath: string
    const mountPoint: string
    const disk: Disk
    var contents: Contents

    constructor (diskPath: string, mountPoint: string, disk: Disk)
      ensures this.diskPath == diskPath && this.mountPoint == mountPoint && this.disk == disk
      ensures contents == map[]
    {
      this.diskPath, this.mountPoint, this.disk := diskPath, mountPoint, disk;
      contents := map[];
    }

    /** Adds an entry for every node below the directory `path`, in whatever order it is read. */
    method GetContents(path: TreePath)
      requires WellFormed(disk.tree)
      modifies this
      ensures contents == old(contents) + Flat(disk.tree, Below(disk.tree, path))
      decreases Below(disk.tree, path)
    {
      hide Flat, WellFormed, SubtreesOf, Below, Children, Rel, Recorded, KindOf, ProperPrefix, ValidPath;
      ghost var t := disk.tree;
      var entries := Children(disk.tree, path);
      ghost var done := {};
      UnderNone(t, path);
      UnderAllChildren(t, path);
      while entries != {}
        invariant entries + done == Children(t, path) && entries !! done
        invariant SubtreesOf(t, path, done) <= t.Keys
        invariant contents == old(contents) + Flat(t, SubtreesOf(t, path, done))
        decreases entries
      {
        var entry :| entry in entries;
        ChildFacts(t, path, entry);
        UnderKeys(t, path, done);
        FlatOneMore(t, path, done, entry, old(contents));
        var currentPath := mountPoint + Rel(path) + "/" + entry[|path|];
        var relativePath := currentPath[|mountPoint|..];
        assert relativePath == Rel(path) + "/" + entry[|path|];
        RelAppend(path, entry[|path|]);
        ghost var seen := contents;
        contents := contents[relativePath := Recorded(disk.tree[entry])];
        FlatOne(t, entry);
        assert contents == seen + Flat(t, {entry});
        if disk.tree[entry].Kind() == Directory {
          GetContents(entry);
        } else {
          NothingBelowFile(t, entry);
        }
        assert contents == seen + Flat(t, {entry}) + Flat(t, Below(t, entry));
        entries := entries - {entry};
        done := done + {entry};
      }
    }

    /**
     True for a disk and itself; otherwise true if and only if the two flattened trees agree, which
     for fresh objects means that the trees do. Something is reported exactly when it is false.
     */
    method CompareDiskContents(other: DiskContents) returns (retValue: bool, reported: bool)
      requires WellFormed(disk.tree) && WellFormed(other.disk.tree)
      modifies this, other
      ensures reported <==> !retValue
      ensures diskPath == other.diskPath ==> retValue
      ensures diskPath == other.diskPath ==> contents == old(contents) && other.contents == old(other.contents)
      ensures diskPath != other.diskPath ==>
        && contents == old(contents) + Flat(disk.tree, Below(disk.tree, []))
        && other.contents == old(other.contents) + Flat(other.disk.tree, Below(other.disk.tree, []))
        && (retValue <==> SameContents(contents, other.contents))
      ensures diskPath != other.diskPath && old(contents) == map[] && old(other.contents) == map[] ==>
        (retValue <==> SameTree(disk.tree, other.disk.tree))
      ensures diskPath != other.diskPath && old(contents) == map[] && old(other.contents) == map[] ==>
        (retValue <==>
          && disk.tree.Keys == other.disk.tree.Keys
          && forall p <- disk.tree :: p != [] ==>
            var a, b := disk.tree[p], other.disk.tree[p];
            && a.stat.ino == b.stat.ino && a.stat.mode == b.stat.mode && a.stat.nlink == b.stat.nlink
            && a.stat.uid == b.stat.uid && a.stat.gid == b.stat.gid && a.stat.size == b.stat.size
            && a.stat.blksize == b.stat.blksize && a.stat.blocks == b.stat.blocks
            && (a.stat.mode / 0x1000 % 16 == 8 ==> a.md5 == b.md5)
            && (a.stat.mode / 0x1000 % 16 == 4 ==>
                  && a.dirent.ino == b.dirent.ino && a.dirent.off == b.dirent.off
                  && a.dirent.reclen == b.dirent.reclen && a.dirent.kind == b.dirent.kind
                  && a.dirent.name == b.dirent.name))
    {
      hide Flat, WellFormed, Below, SameTree, Indistinguishable;
      retValue, reported := true, false;
      if diskPath == other.diskPath {
        return;
      }
      GetContents([]);
      other.GetContents([]);
      retValue, reported := CompareMaps(contents, other.contents);
      FlattenFaithful(disk.tree, other.disk.tree);
      SameTreeIs(disk.tree, other.disk.tree);
      assert forall m: Contents :: map[] + m == m;
    }

    /** One pass over the entries of one side, and a comparison of the sizes. */
    static method CompareMaps(contents: Contents, others: Contents) returns (retValue: bool, reported: bool)
      ensures retValue <==> SameContents(contents, others)
      ensures retValue <==> contents.Keys == others.Keys && forall k <- contents ::
        var a, b := contents[k], others[k];
        && a.dirAttr.ino == b.dirAttr.ino && a.dirAttr.off == b.dirAttr.off && a.dirAttr.reclen == b.dirAttr.reclen
        && a.dirAttr.kind == b.dirAttr.kind && a.dirAttr.name == b.dirAttr.name
        && a.statAttr.ino == b.statAttr.ino && a.statAttr.mode == b.statAttr.mode
        && a.statAttr.nlink == b.statAttr.nlink && a.statAttr.uid == b.statAttr.uid
        && a.statAttr.gid == b.statAttr.gid && a.statAttr.size == b.statAttr.size
        && a.statAttr.blksize == b.statAttr.blksize && a.statAttr.blocks == b.statAttr.blocks
        && (a.statAttr.mode / 0x1000 % 16 == 8 ==> a.md5sum == b.md5sum)
      ensures reported <==> !retValue
    {
      retValue, reported := true, false;
      if |contents| != |others| {
        retValue, reported := false, true;
      }
      var todo := contents.Keys;
      while todo != {}
        invariant todo <= contents.Keys && (reported <==> !retValue)
        invariant retValue <==> (|contents| == |others| &&
          forall k <- contents.Keys - todo :: k in others && Indistinguishable(contents[k], others[k]))
        decreases todo
      {
        var i :| i in todo;
        todo := todo - {i};
        assert contents.Keys - todo == contents.Keys - (todo + {i}) + {i};
        var iFa := contents[i];
        if i !in others {
          retValue, reported := false, true;
          continue;
        }
        var jFa := others[i];
        if !iFa.CompareDirAttr(jFa.dirAttr) || !iFa.CompareStatAttr(jFa.statAttr) {
          retValue, reported := false, true;
          continue;
        }
        if iFa.IsRegularFile() {
          if iFa.CompareMd5sum(jFa.md5sum) {
            retValue, reported := false, true;
          }
        }
      }
      if retValue {
        assert contents.Keys - todo == contents.Keys;
        SubsetOfSameSize(contents.Keys, others.Keys);
      }
    }

    /** Counts entries, "." and ".." included, until there are more than two. */
    method IsEmptyDirOrFile(path: TreePath) returns (r: bool)
      requires WellFormed(disk.tree)
      ensures r <==> !IsDir(disk.tree, path) || Children(disk.tree, path) == {}
    {
      if path !in disk.tree || disk.tree[path].Kind() != Directory {
        return true;
      }
      var entries := {path + ["."], path + [".."]} + Children(disk.tree, path);
      EntryCount(disk.tree, path);
      var numDirEntries := 0;
      while entries != {}
        invariant numDirEntries + |entries| == 2 + |Children(disk.tree, path)| && numDirEntries <= 2
      {
        var entry :| entry in entries;
        entries := entries - {entry};
        numDirEntries := numDirEntries + 1;
        if numDirEntries > 2 {
          break;
        }
      }
      return numDirEntries <= 2;
    }

    method IsFile(path: TreePath) returns (r: bool)
      ensures r <==> path in disk.tree && !IsDir(disk.tree, path)
    {
      return path in disk.tree && disk.tree[path].Kind() != Directory;
    }

    /**
     Deletes what is at `path`, or below it if that is a directory with entries. The latter works
     if and only if no directory below is empty: an empty one is removed twice, once by the call
     for it and once, in vain, by its parent's.
     */
    method DeleteFiles(path: TreePath) returns (ok: bool)
      requires WellFormed(disk.tree) && path in disk.tree
      modifies disk
      ensures WellFormed(disk.tree)
      ensures PrunedAt(old(disk.tree), disk.tree, path)
      ensures !IsDir(old(disk.tree), path) ==> ok && disk.tree == old(disk.tree) - {path}
      ensures IsDir(old(disk.tree), path) && Children(old(disk.tree), path) == {} ==>
        ok && disk.tree == if path == [] then old(disk.tree) else old(disk.tree) - {path}
      ensures IsDir(old(disk.tree), path) && Children(old(disk.tree), path) != {} ==>
        && (ok <==> NoEmptyDirBelow(old(disk.tree), path))
        && (ok ==> disk.tree == old(disk.tree) - Below(old(disk.tree), path))
      decreases Below(disk.tree, path)
    {
      hide WellFormed, Below, Children, NoEmptyDirBelow, SubtreesOf, KindOf, ProperPrefix, ValidPath;
      ghost var t := disk.tree;
      var isEmptyOrFile := IsEmptyDirOrFile(path);
      if isEmptyOrFile {
        LeafRemoved(t, path);
        if path == [] {
          return true;
        }
        var isFile := IsFile(path);
        var res;
        if isFile {
          res := disk.Unlink(path);
        } else {
          res := disk.Rmdir(path);
        }
        return res == 0;
      }

      var entries := Children(disk.tree, path);
      ghost var done := {};
      NothingUnder(t, path);
      UnderAllChildren(t, path);
      while entries != {}
        invariant entries + done == Children(t, path) && entries !! done
        invariant WellFormed(disk.tree) && disk.tree == t - SubtreesOf(t, path, done)
        invariant forall c <- done :: Deletable(t, c)
        decreases entries
      {
        ghost var before := disk.tree;
        var subpath :| subpath in entries;
        entries := entries - {subpath};
        ChildFacts(t, path, subpath);
        UnderOneMore(t, path, done, subpath);
        UntouchedSubtree(t, path, done, subpath);
        UnderBounds(t, path, done);
        var subpathIsFile := IsFile(subpath);
        var res := DeleteFiles(subpath);
        if !res {
          NotDeletable(t, path, subpath);
          PrunedFurther(t, disk.tree, path, subpath, done);
          return res;
        }
        if !subpathIsFile {
          BelowRemoved(before, subpath);
          var removed := disk.Rmdir(subpath);
          if removed < 0 {
            NotDeletable(t, path, subpath);
            PrunedFurther(t, disk.tree, path, subpath, done);
            return false;
          }
        }
        LeafRemoved(t, subpath);
        assert disk.tree == t - (SubtreesOf(t, path, done) + {subpath} + Below(t, subpath));
        done := done + {subpath};
      }
      assert done == Children(t, path);
      AllDeletable(t, path);
      return true;
    }

    /**
     A file called "_dummy" in every directory below the root. It works if and only if none of
     them has a subdirectory of that name. What was flattened before must still be in the tree.
     */
    method MakeFiles() returns (ok: bool)
      requires WellFormed(disk.tree) && contents.Keys <= Flat(disk.tree, Below(disk.tree, [])).Keys
      modifies this, disk
      ensures ok <==> !DummyIsTaken(old(disk.tree))
      ensures exists ds :: ds <= DirsBelow(old(disk.tree)) && disk.tree == WithDummies(old(disk.tree), ds)
      ensures ok ==> disk.tree == WithDummies(old(disk.tree), DirsBelow(old(disk.tree)))
      ensures ok <==> forall p <- old(disk.tree) :: p != [] ==>
        !(p + ["_dummy"] in old(disk.tree) && old(disk.tree)[p + ["_dummy"]].stat.mode / 0x1000 % 16 == 4)
      ensures ok ==> forall q <- old(disk.tree) :: q in disk.tree && disk.tree[q] == old(disk.tree)[q]
      ensures ok ==> forall d <- old(disk.tree) :: d != [] && old(disk.tree)[d].stat.mode / 0x1000 % 16 == 4 ==>
        d + ["_dummy"] in disk.tree && disk.tree[d + ["_dummy"]].stat.mode / 0x1000 % 16 != 4
      ensures ok ==> forall q <- disk.tree :: q !in old(disk.tree) ==>
        |q| > 1 && q[|q| - 1] == "_dummy" && q[..|q| - 1] in old(disk.tree) && disk.tree[q] == NEW_FILE
    {
      hide Flat, WellFormed, WithDummies, DummyIsTaken, Rel, KindOf, ProperPrefix, ValidPath, DummyPaths;
      ghost var t := disk.tree;
      GetContents([]);
      assert contents == Flat(t, Below(t, []));
      NoDummies(t);
      DummyIsTakenIs(t);
      var todo := contents.Keys;
      ghost var ds := {};
      while todo != {}
        invariant todo <= contents.Keys && contents == Flat(t, Below(t, []))
        invariant ds <= DirsBelow(t) && disk.tree == WithDummies(t, ds)
        invariant forall d <- DirsBelow(t) :: d in ds <==> Rel(d) !in todo
        invariant forall d <- ds :: !IsDir(t, d + [DUMMY])
        decreases todo
      {
        var i :| i in todo;
        todo := todo - {i};
        ghost var d := SpelledNode(t, i);
        OnlySpelling(t, d);
        if KindOf(contents[i].statAttr) == Directory {
          var touched := CreateDummy(i, t, ds, d);
          if !touched {
            return false;
          }
          ds := ds + {d};
        }
      }
      assert ds == DirsBelow(t);
      NothingTaken(t);
      DummiesAre(t);
      return true;
    }

    /** One turn of the loop: open "_dummy" in the directory the key spells, and close it. */
    method CreateDummy(i: string, ghost t: Tree, ghost ds: set<TreePath>, ghost d: TreePath) returns (ok: bool)
      requires WellFormed(t) && ds <= DirsBelow(t) && d in DirsBelow(t) && Rel(d) == i
      requires disk.tree == WithDummies(t, ds)
      modifies disk
      ensures ok <==> !IsDir(t, d + [DUMMY])
      ensures !ok ==> DummyIsTaken(t) && disk.tree == old(disk.tree)
      ensures ok ==> disk.tree == WithDummies(t, ds + {d})
    {
      hide WithDummies, Rel, WellFormed;
      DummiesKeepShape(t, ds);
      OneMoreDummy(t, ds, d);
      OnlySpelling(disk.tree, d);
      var fd := disk.OpenCreate(i, DUMMY);
      if fd < 0 {
        DummyTaken(t, d);
        return false;
      }
      return true;
    }

    /**
     Passes if and only if no directory below the root has a subdirectory "_dummy", and then
     nothing but the root is left. The files made first are what keeps deletion from failing.
     */
    method SanityChecks() returns (ok: bool)
      requires WellFormed(disk.tree) && contents.Keys <= Flat(disk.tree, Below(disk.tree, [])).Keys
      modifies this, disk
      ensures ok <==> !DummyIsTaken(old(disk.tree))
      ensures ok <==> forall p <- old(disk.tree) :: p != [] ==>
        !(p + ["_dummy"] in old(disk.tree) && old(disk.tree)[p + ["_dummy"]].stat.mode / 0x1000 % 16 == 4)
      ensures ok ==> disk.tree.Keys == {[]}
    {
      hide Flat, WithDummies, DummyIsTaken, WellFormed, PrunedAt, NoEmptyDirBelow, Children, DirsBelow;
      ghost var t := disk.tree;
      var made := MakeFiles();
      if !made {
        return false;
      }
      DummiesKeepShape(t, DirsBelow(t));
      DummiesFill(t);
      OnlyRootLeft(disk.tree);
      var deleted := DeleteFiles([]);
      if !deleted {
        return false;
      }
      return true;
    }
  }

  // ------------------------------------------------------ the "_dummy" files

  function DirsBelow(t: Tree): set<TreePath> {
    set d | d in t && d != [] && t[d].Kind() == Directory
  }

  function DummyPaths(ds: set<TreePath>): set<TreePath> {
    set d | d in ds :: d + [DUMMY]
  }

  /** `t` with a file "_dummy" in the directories `ds`, unless there is one already. */
  function WithDummies(t: Tree, ds: set<TreePath>): Tree {
    t + map q | q in DummyPaths(ds) && q !in t :: NEW_FILE
  }

  lemma DummyIsTakenIs(t: Tree)
    ensures DummyIsTaken(t) <==> exists p <- t ::
      p != [] && p + ["_dummy"] in t && t[p + ["_dummy"]].stat.mode / 0x1000 % 16 == 4
  {
    hide KindOf;
    forall p | p in t
      ensures IsDir(t, p + [DUMMY]) <==> p + ["_dummy"] in t && t[p + ["_dummy"]].stat.mode / 0x1000 % 16 == 4
    {
      PathOrder(t, p, p + [DUMMY]);
    }
  }

  /** The tree afterwards, node by node. */
  lemma DummiesAre(t: Tree)
    requires WellFormed(t) && !DummyIsTaken(t)
    ensures var u := WithDummies(t, DirsBelow(t));
      && (forall q <- t :: q in u && u[q] == t[q])
      && (forall d <- t :: d != [] && t[d].stat.mode / 0x1000 % 16 == 4 ==>
            d + ["_dummy"] in u && u[d + ["_dummy"]].stat.mode / 0x1000 % 16 != 4)
      && (forall q <- u :: q !in t ==>
            |q| > 1 && q[|q| - 1] == "_dummy" && q[..|q| - 1] in t && u[q] == NEW_FILE)
  {
    hide WellFormed, ProperPrefix, KindOf;
    var u := WithDummies(t, DirsBelow(t));
    DummyIsTakenIs(t);
    NewFileIsRegular();
    forall d | d in t && d != [] && t[d].stat.mode / 0x1000 % 16 == 4
      ensures d + ["_dummy"] in u && u[d + ["_dummy"]].stat.mode / 0x1000 % 16 != 4
    {
      PathOrder(t, d, d);
      assert d in DirsBelow(t) && d + [DUMMY] in DummyPaths(DirsBelow(t));
    }
    forall q | q in u && q !in t
      ensures |q| > 1 && q[|q| - 1] == "_dummy" && q[..|q| - 1] in t && u[q] == NEW_FILE
    {
      var d :| d in DirsBelow(t) && q == d + [DUMMY];
      assert q[..|q| - 1] == d;
    }
  }

  lemma NoDummies(t: Tree)
    requires WellFormed(t)
    ensures WithDummies(t, {}) == t
    ensures forall d <- DirsBelow(t) :: Rel(d) in Flat(t, Below(t, []))
  {
    hide Flat, Rel;
    assert DummyPaths({}) == {};
    forall d | d in DirsBelow(t)
      ensures d in Below(t, [])
    {
    }
  }

  lemma SpelledNode(t: Tree, k: string) returns (d: TreePath)
    requires WellFormed(t) && k in Flat(t, Below(t, []))
    ensures d in t && d != [] && Rel(d) == k && Flat(t, Below(t, []))[k] == Recorded(t[d])
  {
    hide Flat, Rel;
    d :| d in Below(t, []) && Rel(d) == k;
  }

  lemma OnlySpelling(t: Tree, d: TreePath)
    requires WellFormed(t) && d in t
    ensures forall q <- t :: Rel(q) == Rel(d) ==> q == d
  {
    SpellingsDiffer(t);
  }

  lemma DummyPathIsValid(d: TreePath)
    requires ValidPath(d)
    ensures ValidPath(d + [DUMMY])
  {
  }

  lemma DummyIsNoDir(t: Tree, ds: set<TreePath>, p: TreePath)
    ensures IsDir(WithDummies(t, ds), p) <==> IsDir(t, p)
  {
    NewFileIsRegular();
    hide KindOf, DummyPaths;
  }

  /** The files are new leaves: no directory comes, goes or loses an entry. */
  lemma DummiesKeepShape(t: Tree, ds: set<TreePath>)
    requires WellFormed(t) && ds <= DirsBelow(t)
    ensures WellFormed(WithDummies(t, ds)) && t.Keys <= WithDummies(t, ds).Keys
    ensures forall p :: IsDir(WithDummies(t, ds), p) <==> IsDir(t, p)
  {
    hide KindOf, ValidPath, IsDir;
    var u := WithDummies(t, ds);
    assert t.Keys <= u.Keys;
    forall p
      ensures IsDir(u, p) <==> IsDir(t, p)
    {
      DummyIsNoDir(t, ds, p);
    }
    forall q | q in u
      ensures ValidPath(q) && (q != [] ==> IsDir(t, q[..|q| - 1]))
    {
      if q !in t {
        var d :| d in ds && q == d + [DUMMY];
        DummyPathIsValid(d);
        DirIsThere(t, d);
        assert q[..|q| - 1] == d;
      }
    }
  }

  lemma DirIsThere(t: Tree, d: TreePath)
    ensures d in DirsBelow(t) ==> IsDir(t, d)
  {
  }

  lemma OneMorePath(ds: set<TreePath>, d: TreePath)
    ensures DummyPaths(ds + {d}) == DummyPaths(ds) + {d + [DUMMY]}
  {
    assert d in ds + {d};
    forall q | q in DummyPaths(ds)
      ensures q in DummyPaths(ds + {d})
    {
      var e :| e in ds && q == e + [DUMMY];
      assert e in ds + {d};
    }
  }

  lemma OneMoreDummy(t: Tree, ds: set<TreePath>, d: TreePath)
    ensures DummyPaths(ds + {d}) == DummyPaths(ds) + {d + [DUMMY]}
    ensures WithDummies(t, ds + {d}) ==
      if d + [DUMMY] in WithDummies(t, ds) then WithDummies(t, ds) else WithDummies(t, ds)[d + [DUMMY] := NEW_FILE]
  {
    hide DummyPaths;
    OneMorePath(ds, d);
  }

  lemma DummyTaken(t: Tree, d: TreePath)
    requires d in t && d != []
    ensures IsDir(t, d + [DUMMY]) ==> DummyIsTaken(t)
  {
  }

  lemma NothingTaken(t: Tree)
    requires WellFormed(t) && forall d <- DirsBelow(t) :: !IsDir(t, d + [DUMMY])
    ensures !DummyIsTaken(t)
  {
    forall p | p in t && p != []
      ensures !IsDir(t, p + [DUMMY])
    {
      assert (p + [DUMMY])[..|p|] == p;
    }
  }

  lemma OnlyRootLeft(t: Tree)
    requires WellFormed(t)
    ensures IsDir(t, []) && (t - Below(t, [])).Keys == {[]}
    ensures Children(t, []) == {} ==> t.Keys == {[]}
  {
    UnderAllChildren(t, []);
    forall q | q in t && q != []
      ensures q in Below(t, [])
    {
    }
  }

  lemma DummiesFill(t: Tree)
    requires WellFormed(t)
    ensures NoEmptyDirBelow(WithDummies(t, DirsBelow(t)), [])
  {
    var ds := DirsBelow(t);
    DummiesKeepShape(t, ds);
    var u := WithDummies(t, ds);
    forall q | q in Below(u, []) && IsDir(u, q)
      ensures Children(u, q) != {}
    {
      assert q in ds && q + [DUMMY] in DummyPaths(ds);
      assert (q + [DUMMY])[..|q|] == q;
      assert q + [DUMMY] in Children(u, q);
    }
  }

  /** Deletion changes no node it leaves, and leaves all that are not at or below the path. */
  lemma KeptElsewhere(t: Tree, u: Tree, p: TreePath)
    requires PrunedAt(t, u, p)
    ensures forall q <- u :: q in t && u[q] == t[q]
    ensures forall q <- t :: |q| < |p| || q[..|p|] != p ==> q in u
  {
    hide WellFormed, Below;
    forall q | q in t && (|q| < |p| || q[..|p|] != p)
      ensures q in u
    {
      PathOrder(t, p, q);
      assert p[..|p|] == p;
      assert q != p && q !in Below(t, p);
      assert q in u || q in t.Keys - u.Keys;
    }
  }

  /** `u` is `t` without some of what is at or below `p`. */
  predicate PrunedAt(t: Tree, u: Tree, p: TreePath) {
    && u.Keys <= t.Keys
    && (forall q <- u :: u[q] == t[q])
    && t.Keys - u.Keys <= {p} + Below(t, p)
  }

  /** What the deletion loop needs of an entry. */
  predicate Deletable(t: Tree, c: TreePath) {
    IsDir(t, c) ==> Children(t, c) != {} && NoEmptyDirBelow(t, c)
  }

  lemma Regroup(a: Contents, b: Contents, c: Contents, d: Contents)
    ensures a + b + c + d == a + (b + c + d)
  {
  }

  /** The entry itself and what is below it, added to the entries before it. */
  lemma FlatOneMore(t: Tree, p: TreePath, done: set<TreePath>, c: TreePath, before: Contents)
    requires WellFormed(t) && c in Children(t, p) && c !in done
    requires SubtreesOf(t, p, done) <= t.Keys && c in t && Below(t, c) <= t.Keys
    ensures SubtreesOf(t, p, done + {c}) <= t.Keys
    ensures before + Flat(t, SubtreesOf(t, p, done)) + Flat(t, {c}) + Flat(t, Below(t, c))
         == before + Flat(t, SubtreesOf(t, p, done + {c}))
  {
    hide Flat, WellFormed, SubtreesOf, Below, Children, Recorded;
    UnderOneMore(t, p, done, c);
    FlatUnion(t, SubtreesOf(t, p, done), {c});
    FlatUnion(t, SubtreesOf(t, p, done) + {c}, Below(t, c));
    Regroup(before, Flat(t, SubtreesOf(t, p, done)), Flat(t, {c}), Flat(t, Below(t, c)));
  }

  lemma UnderNone(t: Tree, p: TreePath)
    requires WellFormed(t)
    ensures SubtreesOf(t, p, {}) == {} && Flat(t, {}) == map[]
  {
  }

  lemma UnderKeys(t: Tree, p: TreePath, cs: set<TreePath>)
    ensures SubtreesOf(t, p, cs) <= t.Keys && Below(t, p) <= t.Keys
  {
  }

  lemma ChildFacts(t: Tree, p: TreePath, c: TreePath)
    requires c in Children(t, p)
    ensures c in t && |c| == |p| + 1 && c == p + [c[|p|]]
    ensures Below(t, c) < Below(t, p) && Below(t, c) <= t.Keys && c !in Below(t, c)
  {
    assert c in Below(t, p) && c !in Below(t, c);
    forall q | q in Below(t, c)
      ensures q in Below(t, p)
    {
      assert q[..|p|] == q[..|c|][..|p|];
    }
  }

  lemma FlatOne(t: Tree, p: TreePath)
    requires WellFormed(t) && p in t
    ensures Flat(t, {p}) == map[Rel(p) := Recorded(t[p])]
  {
    hide Flat, Rel, Recorded, WellFormed;
    assert p in {p};
  }

  lemma NothingBelowFile(t: Tree, p: TreePath)
    requires WellFormed(t) && p in t && !IsDir(t, p)
    ensures Below(t, p) == {} && Flat(t, {}) == map[]
  {
    forall q | q in t && ProperPrefix(p, q)
      ensures false
    {
      AncestorsExist(t, q, |p|);
    }
  }

  lemma EntryCount(t: Tree, p: TreePath)
    requires WellFormed(t)
    ensures |{p + ["."], p + [".."]} + Children(t, p)| == 2 + |Children(t, p)|
  {
    hide IsDir;
    var dots := {p + ["."], p + [".."]};
    assert (p + ["."])[|p|] != (p + [".."])[|p|];
    forall q | q in Children(t, p)
      ensures q !in dots
    {
      assert ValidPath(q) && q[|p|] in q;
    }
  }

  lemma NothingUnder(t: Tree, p: TreePath)
    ensures SubtreesOf(t, p, {}) == {} && t - {} == t
  {
  }

  lemma UnderBounds(t: Tree, p: TreePath, cs: set<TreePath>)
    ensures SubtreesOf(t, p, cs) <= Below(t, p)
  {
  }

  lemma LeafRemoved(t: Tree, p: TreePath)
    requires WellFormed(t) && p in t
    ensures !IsDir(t, p) ==> p != [] && Below(t, p) == {} && Children(t, p) == {}
    ensures p != [] && Children(t, p) == {} ==> WellFormed(t - {p})
  {
    if !IsDir(t, p) {
      NothingBelowFile(t, p);
      assert Children(t, p) <= Below(t, p);
    }
    if p != [] && Children(t, p) == {} {
      var u := t - {p};
      forall q | q in u && q != []
        ensures IsDir(u, q[..|q| - 1])
      {
        assert q in t && (q[..|q| - 1] == p ==> q in Children(t, p));
      }
    }
  }

  lemma BelowRemoved(t: Tree, p: TreePath)
    requires WellFormed(t) && p in t
    ensures WellFormed(t - Below(t, p)) && Children(t - Below(t, p), p) == {}
    ensures WellFormed(t - Below(t, p) - {p}) || p == []
    ensures IsDir(t, p) ==> IsDir(t - Below(t, p), p)
  {
    var u := t - Below(t, p);
    forall q | q in u && q != []
      ensures IsDir(u, q[..|q| - 1])
    {
      PrefixOfPrefix(p, q, |q| - 1);
    }
    LeafRemoved(u, p);
  }

  /** Deleting below other children leaves the subtree at `c` as it was. */
  lemma UntouchedSubtree(t: Tree, p: TreePath, done: set<TreePath>, c: TreePath)
    requires c in Children(t, p) && c !in done
    ensures var u := t - SubtreesOf(t, p, done);
      && c in u && IsDir(u, c) == IsDir(t, c)
      && Below(u, c) == Below(t, c) && Children(u, c) == Children(t, c)
      && NoEmptyDirBelow(u, c) == NoEmptyDirBelow(t, c)
  {
    var u := t - SubtreesOf(t, p, done);
    assert c[..|p| + 1] == c;
    forall q | q in t && ProperPrefix(c, q)
      ensures q in u
    {
      assert q[..|c|] == c;
    }
    forall q | q in Below(t, c)
      ensures Children(u, q) == Children(t, q) && IsDir(u, q) == IsDir(t, q)
    {
      forall r | r in Children(t, q)
        ensures r in u
      {
        PrefixOfPrefix(c, r, |q|);
      }
    }
  }

  lemma PrunedFurther(t: Tree, u: Tree, p: TreePath, c: TreePath, done: set<TreePath>)
    requires c in Children(t, p) && PrunedAt(t - SubtreesOf(t, p, done), u, c)
    ensures PrunedAt(t, u, p)
  {
    ChildFacts(t, p, c);
    assert c in Below(t, p);
    UnderBounds(t, p, done);
    assert Below(t - SubtreesOf(t, p, done), c) <= Below(t, c);
  }

  lemma NotDeletable(t: Tree, p: TreePath, c: TreePath)
    requires c in Children(t, p) && !Deletable(t, c)
    ensures !NoEmptyDirBelow(t, p)
  {
    ChildFacts(t, p, c);
    assert c in Below(t, p);
  }

  lemma AllDeletable(t: Tree, p: TreePath)
    requires WellFormed(t) && forall c <- Children(t, p) :: Deletable(t, c)
    ensures NoEmptyDirBelow(t, p)
  {
    UnderAllChildren(t, p);
    forall q | q in Below(t, p) && IsDir(t, q)
      ensures Children(t, q) != {}
    {
      var c := q[..|p| + 1];
      assert c in Children(t, p) && Deletable(t, c);
      if q != c {
        AncestorsExist(t, q, |p| + 1);
        assert q in Below(t, c);
      }
    }
  }
}
