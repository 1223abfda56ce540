/** A mounted file tree, named by paths from its root, and the system calls the checker makes on it. */
module FileTree {

  type TreePath = seq<string>

  datatype Kind = Directory | Regular | Other

  /** struct stat; the last two fields are printed but never compared. */
  datatype StatAttr = StatAttr(ino: int, mode: nat, nlink: int, uid: int, gid: int,
                               size: int, blksize: int, blocks: int, rdev: int, dev: int)

  datatype DirAttr = DirAttr(ino: int, off: int, reclen: int, kind: int, name: string)

  /** S_ISDIR and S_ISREG: the kind of a file is the four bits of st_mode above the permissions. */
  function KindOf(stat: StatAttr): Kind {
    var format := stat.mode / 0x1000 % 16;
    if format == 4 then Directory else if format == 8 then Regular else Other
  }

  /** What readdir, stat and md5sum report of one file or directory. */
  datatype TreeNode = TreeNode(stat: StatAttr, dirent: DirAttr, md5: string) {
    function Kind(): Kind {
      KindOf(stat)
    }
  }

  type Tree = map<TreePath, TreeNode>

  predicate ValidName(n: string) {
    n != "" && n != "." && n != ".." && '/' !in n
  }

  predicate ValidPath(p: TreePath) {
    forall n <- p :: ValidName(n)
  }

  predicate IsDir(t: Tree, p: TreePath) {
    p in t && t[p].Kind() == Directory
  }

  /** Every path is a chain of directories from the root. */
  ghost predicate WellFormed(t: Tree) {
    && IsDir(t, [])
    && (forall p <- t :: ValidPath(p))
    && (forall p <- t :: p != [] ==> IsDir(t, p[..|p| - 1]))
  }

  predicate ProperPrefix(p: TreePath, q: TreePath) {
    |p| < |q| && q[..|p|] == p
  }

  function Below(t: Tree, p: TreePath): set<TreePath> {
    set q | q in t && ProperPrefix(p, q)
  }

  function Children(t: Tree, p: TreePath): set<TreePath> {
    set q | q in t && ProperPrefix(p, q) && |q| == |p| + 1
  }

  /** The part of the tree under `p` that hangs off the children in `cs`. */
  function SubtreesOf(t: Tree, p: TreePath, cs: set<TreePath>): set<TreePath> {
    set q | q in t && ProperPrefix(p, q) && q[..|p| + 1] in cs
  }

  /** The order of paths, spelled out: what is below a path, what hangs off it, and what a directory is. */
  lemma PathOrder(t: Tree, p: TreePath, q: TreePath)
    ensures q in Below(t, p) <==> q in t && |q| > |p| && q[..|p|] == p
    ensures q in Children(t, p) <==> q in t && |q| == |p| + 1 && q[..|p|] == p
    ensures IsDir(t, q) <==> q in t && t[q].stat.mode / 0x1000 % 16 == 4
  {
  }

  lemma {:induction false} AncestorsExist(t: Tree, p: TreePath, n: nat)
    requires WellFormed(t) && p in t && n < |p|
    ensures IsDir(t, p[..n])
    decreases |p| - n
  {
    if n == |p| - 1 {
      assert IsDir(t, p[..|p| - 1]);
    } else {
      AncestorsExist(t, p, n + 1);
      assert p[..n + 1][..n] == p[..n];
    }
  }

  lemma PrefixOfPrefix(p: TreePath, q: TreePath, n: nat)
    requires n <= |q|
    ensures ProperPrefix(p, q[..n]) ==> ProperPrefix(p, q) && q[..|p|] == q[..n][..|p|]
  {
  }

  lemma UnderAllChildren(t: Tree, p: TreePath)
    requires WellFormed(t)
    ensures SubtreesOf(t, p, Children(t, p)) == Below(t, p)
    ensures Children(t, p) == {} <==> Below(t, p) == {}
  {
    forall q | q in Below(t, p)
      ensures q[..|p| + 1] in Children(t, p)
    {
      if |q| > |p| + 1 {
        AncestorsExist(t, q, |p| + 1);
      } else {
        assert q[..|p| + 1] == q;
      }
      assert q[..|p| + 1][..|p|] == p;
    }
  }

  lemma UnderOneMore(t: Tree, p: TreePath, cs: set<TreePath>, c: TreePath)
    requires c in Children(t, p) && c !in cs
    ensures SubtreesOf(t, p, cs + {c}) == SubtreesOf(t, p, cs) + {c} + Below(t, c)
    ensures SubtreesOf(t, p, cs) !! {c} + Below(t, c)
  {
    forall q | q in t
      ensures ProperPrefix(p, q) && q[..|p| + 1] == c <==> q == c || ProperPrefix(c, q)
    {
      if q == c {
        assert c[..|p| + 1] == c;
      } else if ProperPrefix(c, q) {
        assert q[..|p|] == q[..|c|][..|p|];
      }
    }
  }

  // ---------------------------------------------------------- path strings

  /** The path below the mount point as the C++ code spells it. */
  function Rel(p: TreePath): string {
    if p == [] then "" else "/" + p[0] + Rel(p[1..])
  }

  lemma {:induction false} RelAppend(p: TreePath, n: string)
    ensures Rel([]) == "" && Rel(p + [n]) == Rel(p) + "/" + n
  {
    if p == [] {
      assert [n][1..] == [];
    } else {
      assert (p + [n])[1..] == p[1..] + [n];
      RelAppend(p[1..], n);
    }
  }

  /** Slash-free names make the spelling unambiguous. */
  lemma {:induction false} RelInjective(p: TreePath, q: TreePath)
    requires ValidPath(p) && ValidPath(q) && Rel(p) == Rel(q)
    ensures p == q
  {
    if p != [] && q != [] {
      assert p[0] in p && q[0] in q;
      assert Rel(p)[1..] == p[0] + Rel(p[1..]) && Rel(q)[1..] == q[0] + Rel(q[1..]);
      SameName(p[0], q[0], Rel(p[1..]), Rel(q[1..]));
      assert Rel(p)[1..][|p[0]|..] == Rel(p[1..]);
      assert Rel(q)[1..][|q[0]|..] == Rel(q[1..]);
      RelInjective(p[1..], q[1..]);
      assert p == [p[0]] + p[1..] && q == [q[0]] + q[1..];
    }
  }

  lemma SameName(a: string, b: string, x: string, y: string)
    requires ValidName(a) && ValidName(b) && a + x == b + y
    requires (x == "" || x[0] == '/') && (y == "" || y[0] == '/')
    ensures a == b
  {
    var s := a + x;
    assert forall i | 0 <= i < |a| :: s[i] == a[i] && a[i] in a;
    assert forall i | 0 <= i < |b| :: s[i] == b[i] && b[i] in b;
    assert |a| < |s| ==> s[|a|] == '/';
    assert |b| < |s| ==> s[|b|] == '/';
    assert a == s[..|a|] && b == s[..|b|];
  }

  // ------------------------------------------------------------ system calls

  const NEW_FILE: TreeNode :=
    TreeNode(StatAttr(0, 0x8000, 1, 0, 0, 0, 0, 0, 0, 0), DirAttr(0, 0, 0, 0, ""), "")

  lemma NewFileIsRegular()
    ensures NEW_FILE.Kind() == Regular
  {
  }

  /** Calls fail exactly when the tree does not permit them. */
  class Disk {
    var tree: Tree

    constructor (tree: Tree)
      ensures this.tree == tree
    {
      this.tree := tree;
    }

    method Unlink(p: TreePath) returns (res: int)
      modifies this
      ensures res == 0 <==> p in old(tree) && !IsDir(old(tree), p)
      ensures tree == if res == 0 then old(tree) - {p} else old(tree)
    {
      if p in tree && tree[p].Kind() != Directory {
        tree := tree - {p};
        return 0;
      }
      return -1;
    }

    method Rmdir(p: TreePath) returns (res: int)
      modifies this
      ensures res == 0 || res == -1
      ensures res == 0 <==> IsDir(old(tree), p) && p != [] && Children(old(tree), p) == {}
      ensures tree == if res == 0 then old(tree) - {p} else old(tree)
    {
      if p in tree && tree[p].Kind() == Directory && p != [] && Children(tree, p) == {} {
        tree := tree - {p};
        return 0;
      }
      return -1;
    }

    /** open with O_CREAT | O_RDWR on `name` in the directory spelled `dir` below the mount point. */
    method OpenCreate(dir: string, name: string) returns (fd: int)
      requires WellFormed(tree) && ValidName(name)
      modifies this
      ensures fd >= 0 <==> exists p :: IsDir(old(tree), p) && Rel(p) == dir && !IsDir(old(tree), p + [name])
      ensures fd < 0 ==> tree == old(tree)
      ensures forall p | fd >= 0 && IsDir(old(tree), p) && Rel(p) == dir ::
        tree == if p + [name] in old(tree) then old(tree) else old(tree)[p + [name] := NEW_FILE]
    {
      if p :| p in tree && Rel(p) == dir {
        forall q | q in tree && Rel(q) == dir
          ensures q == p
        {
          RelInjective(p, q);
        }
        if tree[p].Kind() != Directory || (p + [name] in tree && tree[p + [name]].Kind() == Directory) {
          return -1;
        }
        if p + [name] !in tree {
          tree := tree[p + [name] := NEW_FILE];
        }
        assert IsDir(old(tree), p) && Rel(p) == dir && !IsDir(old(tree), p + [name]);
        return 3;
      }
      return -1;
    }
  }
}
