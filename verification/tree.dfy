/** The menu tree of the permission editor and the traversals the selection
    logic is built on: listing every path, the descendants of a node, the
    ancestors of a path, and the lookup of a node by its path. */
module Tree {
  import opened Wrappers
  import opened Seqs

  /** A menu entry as the editor holds it. `path` is the key a selection
      refers to; an absent `children` array is the empty sequence and an
      absent icon the empty string. */
  datatype Node = Node(path: string, title: string, icon: string, children: seq<Node>)

  /** A menu entry as the menu service delivers it, before `ProcessNodes`:
      it may carry a `name` that takes precedence over `title` (the TypeScript code's `label`). */
  datatype RawNode = RawNode(path: string, name: Option<string>, title: string, icon: string, children: seq<RawNode>)

  // ---------------------------------------------------------------------
  // Reference vocabulary
  // ---------------------------------------------------------------------

  /** Every node of the forest, in pre-order (a node, then its subtree,
      then its later siblings). */
  ghost function Nodes(f: seq<Node>): seq<Node> {
    if f == [] then [] else [f[0]] + Nodes(f[0].children) + Nodes(f[1..])
  }

  /** The path of each node, position by position. */
  ghost function Paths(ns: seq<Node>): seq<string> {
    seq(|ns|, i requires 0 <= i < |ns| => ns[i].path)
  }

  /** The invariant the menu data is meant to satisfy: no path occurs twice. */
  ghost predicate UniquePaths(f: seq<Node>) {
    NoDup(AllPaths(f))
  }

  /** `chain` runs from a root of `f` down, each node a direct child of the
      one before, and the last one has a direct child whose path is `t`. */
  ghost predicate IsParentChain(f: seq<Node>, chain: seq<Node>, t: string) {
    && |chain| > 0
    && chain[0] in f
    && (forall k :: 0 <= k < |chain| - 1 ==> chain[k + 1] in chain[k].children)
    && (exists c :: c in chain[|chain| - 1].children && c.path == t)
  }

  /** The first pre-order occurrence of `t` in `f` is a root of `f`. */
  ghost predicate RootFirst(f: seq<Node>, t: string) {
    exists i :: 0 <= i < |f| && f[i].path == t && t !in AllPaths(f[..i])
  }

  // ---------------------------------------------------------------------
  // getAllPaths
  // ---------------------------------------------------------------------

  /** Paths of all nodes of the forest: a node's path, then the paths of
      its subtree, then those of its later siblings. */
  function AllPaths(f: seq<Node>): seq<string> {
    if f == [] then [] else [f[0].path] + AllPaths(f[0].children) + AllPaths(f[1..])
  }

  lemma PathsAppend(a: seq<Node>, b: seq<Node>)
    ensures Paths(a + b) == Paths(a) + Paths(b)
  {
  }

  lemma {:induction false} AllPathsAppend(a: seq<Node>, b: seq<Node>)
    ensures AllPaths(a + b) == AllPaths(a) + AllPaths(b)
    decreases |a|
  {
    if a == [] {
      assert a + b == b;
    } else {
      assert (a + b)[0] == a[0];
      assert (a + b)[1..] == a[1..] + b;
      AllPathsAppend(a[1..], b);
    }
  }

  /** `AllPaths` lists the path of every node in pre-order, one entry per
      node. */
  lemma {:induction false} AllPathsPreOrder(f: seq<Node>)
    ensures AllPaths(f) == Paths(Nodes(f))
    ensures |AllPaths(f)| == |Nodes(f)|
  {
    if f != [] {
      AllPathsPreOrder(f[0].children);
      AllPathsPreOrder(f[1..]);
      PathsAppend([f[0]], Nodes(f[0].children));
      PathsAppend([f[0]] + Nodes(f[0].children), Nodes(f[1..]));
    }
  }

  lemma AllPathsSplit(f: seq<Node>, i: nat)
    requires i <= |f|
    ensures AllPaths(f) == AllPaths(f[..i]) + AllPaths(f[i..])
  {
    assert f == f[..i] + f[i..];
    AllPathsAppend(f[..i], f[i..]);
  }

  lemma AllPathsHead(g: seq<Node>)
    requires g != []
    ensures AllPaths(g) == [g[0].path] + AllPaths(g[0].children) + AllPaths(g[1..])
  {
  }

  /** The paths of a forest split around its `i`-th root. */
  lemma AllPathsAt(f: seq<Node>, i: nat)
    requires i < |f|
    ensures AllPaths(f) == AllPaths(f[..i]) + ([f[i].path] + AllPaths(f[i].children) + AllPaths(f[i + 1..]))
  {
    AllPathsSplit(f, i);
    var g := f[i..];
    assert g[0] == f[i];
    assert g[1..] == f[i + 1..];
    AllPathsHead(g);
  }

  /** A path occurs in a forest exactly when it is a root's path or occurs
      below a root. */
  lemma {:induction false} InAllPaths(f: seq<Node>, x: string)
    ensures x in AllPaths(f) <==> exists i :: 0 <= i < |f| && (f[i].path == x || x in AllPaths(f[i].children))
  {
    if f != [] {
      InAllPaths(f[1..], x);
      if x in AllPaths(f[1..]) {
        var i :| 0 <= i < |f[1..]| && (f[1..][i].path == x || x in AllPaths(f[1..][i].children));
        assert f[i + 1] == f[1..][i];
      }
      forall i | 0 <= i < |f| && (f[i].path == x || x in AllPaths(f[i].children))
        ensures x in AllPaths(f)
      {
        AllPathsAt(f, i);
      }
    }
  }

  /** Every node of the pre-order listing lies in the forest with its whole
      subtree. */
  lemma {:induction false} SubtreeInForest(f: seq<Node>, n: Node)
    requires n in Nodes(f)
    ensures n.path in AllPaths(f)
    ensures forall x :: x in AllPaths(n.children) ==> x in AllPaths(f)
  {
    assert f != [];
    if n == f[0] {
    } else if n in Nodes(f[0].children) {
      SubtreeInForest(f[0].children, n);
    } else {
      SubtreeInForest(f[1..], n);
    }
  }

  /** Below a forest with unique paths, the subtrees of two different roots
      share no path, and a root's path does not recur below it. */
  lemma UniqueRoots(f: seq<Node>, i: nat, j: nat)
    requires UniquePaths(f)
    requires i < |f| && j < |f|
    ensures f[i].path !in AllPaths(f[i].children)
    ensures UniquePaths(f[i].children)
    ensures i != j ==> forall x :: x in AllPaths([f[i]]) ==> x !in AllPaths([f[j]])
  {
    AllPathsAt(f, i);
    var a := AllPaths(f[..i]);
    var c := AllPaths(f[i].children);
    var d := AllPaths(f[i + 1..]);
    NoDupAppend(a, [f[i].path] + c + d);
    NoDupAppend([f[i].path] + c, d);
    NoDupAppend([f[i].path], c);
    if i < j {
      SplitRoots(f, i, j);
    } else if j < i {
      SplitRoots(f, j, i);
    }
  }

  lemma SplitRoots(f: seq<Node>, i: nat, j: nat)
    requires UniquePaths(f)
    requires i < j < |f|
    ensures forall x :: x in AllPaths([f[i]]) ==> x !in AllPaths([f[j]])
  {
    assert f == f[..j] + f[j..];
    AllPathsAppend(f[..j], f[j..]);
    NoDupAppend(AllPaths(f[..j]), AllPaths(f[j..]));
    forall x | x in AllPaths([f[i]]) ensures x in AllPaths(f[..j]) {
      AllPathsHead([f[i]]);
      assert f[..j][i] == f[i];
      InAllPaths(f[..j], x);
    }
    forall x | x in AllPaths([f[j]]) ensures x in AllPaths(f[j..]) {
      AllPathsHead([f[j]]);
      assert f[j..][0] == f[j];
      InAllPaths(f[j..], x);
    }
  }

  // ---------------------------------------------------------------------
  // getAllDescendantPaths
  // ---------------------------------------------------------------------

  /** Paths strictly below `n`: each child's path followed by the paths
      below that child. */
  function DescendantPaths(n: Node): seq<string> {
    DescendantsOf(n.children)
  }

  function DescendantsOf(cs: seq<Node>): seq<string> {
    if cs == [] then [] else [cs[0].path] + DescendantPaths(cs[0]) + DescendantsOf(cs[1..])
  }

  /** The descendants of a node are the pre-order paths of its children's
      forest; the node's own path is among them only when a node below it
      carries the same path. */
  lemma {:induction false} DescendantPathsSpec(n: Node)
    ensures DescendantPaths(n) == AllPaths(n.children)
    ensures n.path in DescendantPaths(n) <==> exists d :: d in Nodes(n.children) && d.path == n.path
  {
    DescendantsOfSpec(n.children);
    AllPathsPreOrder(n.children);
    var ns := Nodes(n.children);
    if n.path in Paths(ns) {
      var k :| 0 <= k < |ns| && Paths(ns)[k] == n.path;
      assert ns[k] in ns;
    }
    if exists d :: d in ns && d.path == n.path {
      var d :| d in ns && d.path == n.path;
      var k :| 0 <= k < |ns| && ns[k] == d;
      assert Paths(ns)[k] == n.path;
    }
  }

  lemma {:induction false} DescendantsOfSpec(cs: seq<Node>)
    ensures DescendantsOf(cs) == AllPaths(cs)
  {
    if cs != [] {
      DescendantsOfSpec(cs[0].children);
      DescendantsOfSpec(cs[1..]);
    }
  }

  /** The roots of a forest are among its nodes. */
  lemma {:induction false} RootInNodes(f: seq<Node>, i: nat)
    requires i < |f|
    ensures f[i] in Nodes(f)
  {
    if i > 0 {
      RootInNodes(f[1..], i - 1);
      assert f[1..][i - 1] == f[i];
    }
  }

  /** The nodes below a node of the forest are nodes of the forest. */
  lemma {:induction false} NodesBelow(f: seq<Node>, a: Node, m: Node)
    requires a in Nodes(f) && m in Nodes(a.children)
    ensures m in Nodes(f)
  {
    assert f != [];
    if a == f[0] {
    } else if a in Nodes(f[0].children) {
      NodesBelow(f[0].children, a, m);
    } else {
      NodesBelow(f[1..], a, m);
    }
  }

  /** Under unique paths, the subtree of every node has unique paths and
      does not repeat the node's own path. */
  lemma {:induction false} UniqueBelow(f: seq<Node>, a: Node)
    requires UniquePaths(f) && a in Nodes(f)
    ensures UniquePaths(a.children) && a.path !in AllPaths(a.children)
  {
    assert f != [];
    UniqueRoots(f, 0, 0);
    if a == f[0] {
    } else if a in Nodes(f[0].children) {
      UniqueBelow(f[0].children, a);
    } else {
      AllPathsHead(f);
      NoDupAppend([f[0].path] + AllPaths(f[0].children), AllPaths(f[1..]));
      UniqueBelow(f[1..], a);
    }
  }

  /** Under unique paths, two nodes of the forest with the same path are the
      same node. */
  lemma SamePathSameNode(f: seq<Node>, a: Node, b: Node)
    requires UniquePaths(f) && a in Nodes(f) && b in Nodes(f) && a.path == b.path
    ensures a == b
  {
    AllPathsPreOrder(f);
    var ns := Nodes(f);
    var i :| 0 <= i < |ns| && ns[i] == a;
    var j :| 0 <= j < |ns| && ns[j] == b;
    assert AllPaths(f)[i] == a.path && AllPaths(f)[j] == b.path;
  }

  /** Under unique paths, no node of the forest is among its own
      descendants. */
  lemma NotOwnDescendant(f: seq<Node>, n: Node)
    requires UniquePaths(f) && n in Nodes(f)
    ensures n.path !in DescendantPaths(n)
  {
    DescendantPathsSpec(n);
    UniqueBelow(f, n);
  }

  // ---------------------------------------------------------------------
  // getAllParentPaths
  // ---------------------------------------------------------------------

  /** The depth-first search of the TypeScript code, `acc` being the chain of
      ancestor paths of the forest being scanned: a match among the roots
      returns `acc`, a non-empty result from a subtree is returned, and an
      exhausted forest yields the empty sequence. */
  function ParentPathsFrom(f: seq<Node>, t: string, acc: seq<string>): seq<string> {
    if f == [] then []
    else if f[0].path == t then acc
    else
      var found := ParentPathsFrom(f[0].children, t, acc + [f[0].path]);
      if |found| > 0 then found else ParentPathsFrom(f[1..], t, acc)
  }

  /** Ancestor paths of `t`, nearest-root first. */
  function ParentPaths(f: seq<Node>, t: string): seq<string> {
    ParentPathsFrom(f, t, [])
  }

  lemma RootFirstStep(f: seq<Node>, t: string)
    requires f != [] && f[0].path != t
    ensures t in AllPaths(f[0].children) ==> !RootFirst(f, t)
    ensures t !in AllPaths(f[0].children) ==> (RootFirst(f, t) <==> RootFirst(f[1..], t))
  {
    forall i | 1 <= i <= |f|
      ensures AllPaths(f[..i]) == [f[0].path] + AllPaths(f[0].children) + AllPaths(f[1..][..i - 1])
    {
      assert f[..i][0] == f[0];
      assert f[..i][1..] == f[1..][..i - 1];
    }
    if t !in AllPaths(f[0].children) {
      if RootFirst(f, t) {
        var i :| 0 <= i < |f| && f[i].path == t && t !in AllPaths(f[..i]);
        assert f[1..][i - 1] == f[i];
      }
      if RootFirst(f[1..], t) {
        var j :| 0 <= j < |f[1..]| && f[1..][j].path == t && t !in AllPaths(f[1..][..j]);
        assert f[j + 1] == f[1..][j];
      }
    }
  }

  lemma ChainCons(n: Node, chain: seq<Node>, t: string)
    requires IsParentChain(n.children, chain, t)
    ensures IsParentChain([n], [n] + chain, t)
    ensures Paths([n] + chain) == [n.path] + Paths(chain)
  {
    var c := [n] + chain;
    assert c[|c| - 1] == chain[|chain| - 1];
    forall k | 0 <= k < |c| - 1 ensures c[k + 1] in c[k].children {
      if k > 0 {
        assert c[k + 1] == chain[k] && c[k] == chain[k - 1];
      }
    }
  }

  lemma ChainWiden(f: seq<Node>, g: seq<Node>, chain: seq<Node>, t: string)
    requires IsParentChain(f, chain, t)
    requires forall n :: n in f ==> n in g
    ensures IsParentChain(g, chain, t)
  {
  }

  /** The search with accumulator `acc`: nothing when `t` is absent, `acc`
      when the first occurrence of `t` is a root, and otherwise `acc`
      extended by the paths of a chain from a root to a parent of `t`. */
  lemma {:induction false} ParentPathsFromSpec(f: seq<Node>, t: string, acc: seq<string>)
    ensures t !in AllPaths(f) ==> ParentPathsFrom(f, t, acc) == []
    ensures t in AllPaths(f) && RootFirst(f, t) ==> ParentPathsFrom(f, t, acc) == acc
    ensures t in AllPaths(f) && !RootFirst(f, t) ==>
              exists chain :: IsParentChain(f, chain, t) && ParentPathsFrom(f, t, acc) == acc + Paths(chain)
  {
    if f != [] {
      var n := f[0];
      if n.path == t {
        assert f[..0] == [];
        assert RootFirst(f, t);
      } else {
        RootFirstStep(f, t);
        var acc' := acc + [n.path];
        ParentPathsFromSpec(n.children, t, acc');
        var found := ParentPathsFrom(n.children, t, acc');
        if t in AllPaths(n.children) {
          if RootFirst(n.children, t) {
            var i :| 0 <= i < |n.children| && n.children[i].path == t && t !in AllPaths(n.children[..i]);
            assert n.children[i] in n.children;
            assert IsParentChain(f, [n], t);
            assert found == acc + Paths([n]);
          } else {
            var chain :| IsParentChain(n.children, chain, t) && found == acc' + Paths(chain);
            ChainCons(n, chain, t);
            ChainWiden([n], f, [n] + chain, t);
            assert found == acc + Paths([n] + chain);
          }
        } else {
          ParentPathsFromSpec(f[1..], t, acc);
          if t in AllPaths(f[1..]) && !RootFirst(f[1..], t) {
            var chain :| IsParentChain(f[1..], chain, t) && ParentPathsFrom(f[1..], t, acc) == acc + Paths(chain);
            ChainWiden(f[1..], f, chain, t);
          }
        }
      }
    }
  }

  /** `ParentPaths(f, t)` is empty exactly when `t` is absent or first
      occurs as a root; otherwise it lists the paths of a chain from a root
      to a parent of `t`. */
  lemma ParentPathsSpec(f: seq<Node>, t: string)
    ensures ParentPaths(f, t) == [] <==> (t !in AllPaths(f) || RootFirst(f, t))
    ensures ParentPaths(f, t) != [] ==> exists chain :: IsParentChain(f, chain, t) && ParentPaths(f, t) == Paths(chain)
  {
    ParentPathsFromSpec(f, t, []);
    if t in AllPaths(f) && !RootFirst(f, t) {
      var chain :| IsParentChain(f, chain, t) && ParentPaths(f, t) == [] + Paths(chain);
      assert |Paths(chain)| > 0;
    }
  }

  /** The target of a parent chain occurs below the chain's root. */
  lemma {:induction false} ChainTargetBelow(f: seq<Node>, chain: seq<Node>, t: string)
    requires IsParentChain(f, chain, t)
    ensures t in AllPaths(chain[0].children)
    decreases |chain|
  {
    var cs := chain[0].children;
    if |chain| == 1 {
      var c :| c in cs && c.path == t;
      var i :| 0 <= i < |cs| && cs[i] == c;
      AllPathsAt(cs, i);
    } else {
      var tail := chain[1..];
      assert tail[|tail| - 1] == chain[|chain| - 1];
      forall k | 0 <= k < |tail| - 1 ensures tail[k + 1] in tail[k].children {
        assert tail[k + 1] == chain[k + 2] && tail[k] == chain[k + 1];
      }
      assert IsParentChain(cs, tail, t);
      ChainTargetBelow(cs, tail, t);
      var i :| 0 <= i < |cs| && cs[i] == chain[1];
      AllPathsAt(cs, i);
    }
  }

  /** Under unique paths, no root carries the target of a parent chain. */
  lemma ChainTargetNotRoot(f: seq<Node>, chain: seq<Node>, t: string, i: nat)
    requires UniquePaths(f) && IsParentChain(f, chain, t) && i < |f|
    ensures f[i].path != t
  {
    ChainTargetBelow(f, chain, t);
    var j :| 0 <= j < |f| && f[j] == chain[0];
    UniqueRoots(f, i, j);
    AllPathsHead([f[i]]);
    AllPathsHead([f[j]]);
    assert f[i].path in AllPaths([f[i]]);
    assert t in AllPaths([f[j]]);
  }

  /** Under unique paths, a path has at most one parent chain. */
  lemma {:induction false} ChainUnique(f: seq<Node>, c1: seq<Node>, c2: seq<Node>, t: string)
    requires UniquePaths(f)
    requires IsParentChain(f, c1, t) && IsParentChain(f, c2, t)
    ensures c1 == c2
    decreases |c1|
  {
    ChainsShareRoot(f, c1, c2, t);
    var g := c1[0].children;
    if |c1| > 1 || |c2| > 1 {
      var t1 := c1[1..];
      var t2 := c2[1..];
      if |c1| > 1 {
        ChainTail(f, c1, t);
      }
      if |c2| > 1 {
        ChainTail(f, c2, t);
      }
      if |c1| == 1 {
        var c :| c in g && c.path == t;
        var k :| 0 <= k < |g| && g[k] == c;
        ChainTargetNotRoot(g, t2, t, k);
      } else if |c2| == 1 {
        var c :| c in g && c.path == t;
        var k :| 0 <= k < |g| && g[k] == c;
        ChainTargetNotRoot(g, t1, t, k);
      } else {
        ChainUnique(g, t1, t2, t);
        assert c1 == [c1[0]] + t1 && c2 == [c2[0]] + t2;
      }
    }
  }

  /** Under unique paths, two parent chains of one path start at the same
      root. */
  lemma ChainsShareRoot(f: seq<Node>, c1: seq<Node>, c2: seq<Node>, t: string)
    requires UniquePaths(f)
    requires IsParentChain(f, c1, t) && IsParentChain(f, c2, t)
    ensures c1[0] == c2[0] && UniquePaths(c1[0].children)
  {
    ChainTargetBelow(f, c1, t);
    ChainTargetBelow(f, c2, t);
    var i :| 0 <= i < |f| && f[i] == c1[0];
    var j :| 0 <= j < |f| && f[j] == c2[0];
    UniqueRoots(f, i, j);
    AllPathsHead([f[i]]);
    AllPathsHead([f[j]]);
    assert t in AllPaths([f[i]]) && t in AllPaths([f[j]]);
  }

  /** Dropping the root of a parent chain longer than one node leaves a
      parent chain of the same path among the root's children. */
  lemma ChainTail(f: seq<Node>, c: seq<Node>, t: string)
    requires IsParentChain(f, c, t) && |c| > 1
    ensures IsParentChain(c[0].children, c[1..], t)
  {
    var tl := c[1..];
    assert tl[|tl| - 1] == c[|c| - 1];
    forall k | 0 <= k < |tl| - 1 ensures tl[k + 1] in tl[k].children {
      assert tl[k + 1] == c[k + 2] && tl[k] == c[k + 1];
    }
  }

  /** With unique paths: a root has no parent paths, and any chain leading
      to `t` is exactly what `ParentPaths` returns. */
  lemma ParentPathsUnique(f: seq<Node>, t: string)
    requires UniquePaths(f)
    ensures (exists i :: 0 <= i < |f| && f[i].path == t) ==> ParentPaths(f, t) == []
    ensures forall chain :: IsParentChain(f, chain, t) ==> ParentPaths(f, t) == Paths(chain)
  {
    ParentPathsSpec(f, t);
    if exists i :: 0 <= i < |f| && f[i].path == t {
      var i :| 0 <= i < |f| && f[i].path == t;
      forall k | 0 <= k < i ensures t !in AllPaths([f[k]]) {
        UniqueRoots(f, i, k);
        assert AllPaths([f[i]]) == [f[i].path] + AllPaths(f[i].children);
      }
      NotInPrefix(f, i, t);
      assert RootFirst(f, t);
    }
    forall chain | IsParentChain(f, chain, t) ensures ParentPaths(f, t) == Paths(chain) {
      ChainTargetBelow(f, chain, t);
      var j :| 0 <= j < |f| && f[j] == chain[0];
      AllPathsAt(f, j);
      if RootFirst(f, t) {
        var i :| 0 <= i < |f| && f[i].path == t && t !in AllPaths(f[..i]);
        ChainTargetNotRoot(f, chain, t, i);
      }
      var other :| IsParentChain(f, other, t) && ParentPaths(f, t) == Paths(other);
      ChainUnique(f, chain, other, t);
    }
  }

  /** Every node of a parent chain is a node of the forest. */
  lemma {:induction false} ChainInNodes(f: seq<Node>, chain: seq<Node>, t: string, k: nat)
    requires IsParentChain(f, chain, t) && k < |chain|
    ensures chain[k] in Nodes(f)
    decreases k
  {
    if k == 0 {
      var i :| 0 <= i < |f| && f[i] == chain[0];
      RootInNodes(f, i);
    } else {
      ChainInNodes(f, chain, t, k - 1);
      var cs := chain[k - 1].children;
      var i :| 0 <= i < |cs| && cs[i] == chain[k];
      RootInNodes(cs, i);
      NodesBelow(f, chain[k - 1], chain[k]);
    }
  }

  /** The child that ends a parent chain lies below every node of the chain. */
  lemma {:induction false} ChainEndBelow(f: seq<Node>, chain: seq<Node>, t: string, c: Node, k: nat)
    requires IsParentChain(f, chain, t) && c in chain[|chain| - 1].children && k < |chain|
    ensures c in Nodes(chain[k].children)
    decreases |chain| - k
  {
    if k == |chain| - 1 {
      var cs := chain[k].children;
      var i :| 0 <= i < |cs| && cs[i] == c;
      RootInNodes(cs, i);
    } else {
      ChainEndBelow(f, chain, t, c, k + 1);
      var cs := chain[k].children;
      var i :| 0 <= i < |cs| && cs[i] == chain[k + 1];
      RootInNodes(cs, i);
      NodesBelow(cs, chain[k + 1], c);
    }
  }

  /** Under unique paths, the ancestors of a node are not below it and do not
      include it: its parent paths and its descendant paths are disjoint, and
      its own path is not among its parent paths. */
  lemma AncestorsNotBelow(f: seq<Node>, n: Node)
    requires UniquePaths(f) && n in Nodes(f)
    ensures forall x :: x in ParentPaths(f, n.path) ==> x !in DescendantPaths(n)
    ensures n.path !in ParentPaths(f, n.path)
  {
    ParentPathsSpec(f, n.path);
    DescendantPathsSpec(n);
    if ParentPaths(f, n.path) != [] {
      var chain: seq<Node> :| IsParentChain(f, chain, n.path) && ParentPaths(f, n.path) == Paths(chain);
      var c: Node :| c in chain[|chain| - 1].children && c.path == n.path;
      forall x | x in ParentPaths(f, n.path) ensures x !in AllPaths(n.children) && x != n.path {
        var k :| 0 <= k < |chain| && Paths(chain)[k] == x;
        var a := chain[k];
        ChainInNodes(f, chain, n.path, k);
        ChainEndBelow(f, chain, n.path, c, k);
        NodesBelow(f, a, c);
        SamePathSameNode(f, c, n);
        UniqueBelow(f, a);
        SubtreeInForest(a.children, n);
      }
    }
  }

  lemma NotInPrefix(f: seq<Node>, i: nat, t: string)
    requires i <= |f|
    requires forall k :: 0 <= k < i ==> t !in AllPaths([f[k]])
    ensures t !in AllPaths(f[..i])
  {
    InAllPaths(f[..i], t);
    forall k | 0 <= k < i ensures f[..i][k].path != t && t !in AllPaths(f[..i][k].children) {
      assert f[..i][k] == f[k];
      assert AllPaths([f[k]]) == [f[k].path] + AllPaths(f[k].children);
    }
  }

  // ---------------------------------------------------------------------
  // findNodeByPath
  // ---------------------------------------------------------------------

  /** Depth-first search by exact path equality; the first match wins. */
  function FindNodeByPath(f: seq<Node>, p: string): Option<Node> {
    if f == [] then None
    else if f[0].path == p then Some(f[0])
    else
      match FindNodeByPath(f[0].children, p)
      case Some(n) => Some(n)
      case None => FindNodeByPath(f[1..], p)
  }

  /** The node found is the first node, in pre-order, whose path is `p`;
      there is none exactly when `p` is not among the forest's paths. */
  lemma {:induction false} FindNodeByPathSpec(f: seq<Node>, p: string)
    ensures |Nodes(f)| == |AllPaths(f)|
    ensures FindNodeByPath(f, p) == if p in AllPaths(f) then Some(Nodes(f)[IndexOf(AllPaths(f), p)]) else None
  {
    AllPathsPreOrder(f);
    if f != [] && f[0].path != p {
      FindNodeByPathSpec(f[0].children, p);
      FindNodeByPathSpec(f[1..], p);
      if p in AllPaths(f[0].children) {
        FirstBelowHead(f, p);
      } else if p in AllPaths(f[1..]) {
        FirstInTail(f, p);
      }
    }
  }

  /** A path first met below the first root is found at the same node in the
      pre-order listing of the whole forest. */
  lemma FirstBelowHead(f: seq<Node>, p: string)
    requires f != [] && f[0].path != p && p in AllPaths(f[0].children)
    ensures p in AllPaths(f)
    ensures |Nodes(f)| == |AllPaths(f)| && |Nodes(f[0].children)| == |AllPaths(f[0].children)|
    ensures Nodes(f)[IndexOf(AllPaths(f), p)] == Nodes(f[0].children)[IndexOf(AllPaths(f[0].children), p)]
  {
    var ch, rest := f[0].children, f[1..];
    AllPathsPreOrder(f);
    AllPathsPreOrder(ch);
    AllPathsPreOrder(rest);
    var head := [f[0].path] + AllPaths(ch);
    assert AllPaths(f) == head + AllPaths(rest);
    IndexOfAppend([f[0].path], AllPaths(ch), p);
    IndexOfAppend(head, AllPaths(rest), p);
    var k := IndexOf(AllPaths(ch), p);
    assert IndexOf(AllPaths(f), p) == 1 + k;
    var ns := [f[0]] + Nodes(ch);
    assert Nodes(f) == ns + Nodes(rest);
    assert Nodes(f)[1 + k] == ns[1 + k] == Nodes(ch)[k];
  }

  /** A path absent below the first root and met in the later roots is found
      at the same node in the pre-order listing of the whole forest. */
  lemma FirstInTail(f: seq<Node>, p: string)
    requires f != [] && f[0].path != p && p !in AllPaths(f[0].children) && p in AllPaths(f[1..])
    ensures p in AllPaths(f)
    ensures |Nodes(f)| == |AllPaths(f)| && |Nodes(f[1..])| == |AllPaths(f[1..])|
    ensures Nodes(f)[IndexOf(AllPaths(f), p)] == Nodes(f[1..])[IndexOf(AllPaths(f[1..]), p)]
  {
    var ch, rest := f[0].children, f[1..];
    AllPathsPreOrder(ch);
    AllPathsPreOrder(rest);
    var a, b := AllPaths(ch), AllPaths(rest);
    var head := [f[0].path] + a;
    assert AllPaths(f) == head + b;
    assert p !in head;
    IndexOfAppend(head, b, p);
    var m := IndexOf(b, p);
    assert IndexOf(AllPaths(f), p) == |head| + m;
    var ns := [f[0]] + Nodes(ch);
    assert Nodes(f) == ns + Nodes(rest);
    assert |ns| == |head|;
    assert Nodes(f)[|ns| + m] == Nodes(rest)[m];
  }

  /** Whatever node the search returns carries the path searched for. */
  lemma {:induction false} FindNodeByPathMatches(f: seq<Node>, p: string)
    ensures FindNodeByPath(f, p).Some? ==> FindNodeByPath(f, p).value.path == p
  {
    if f != [] && f[0].path != p {
      FindNodeByPathMatches(f[0].children, p);
      FindNodeByPathMatches(f[1..], p);
    }
  }

  /** The node found for a path of the forest has that path. */
  lemma FindNodeByPathFound(f: seq<Node>, p: string)
    requires p in AllPaths(f)
    ensures FindNodeByPath(f, p).Some?
    ensures FindNodeByPath(f, p).value.path == p
    ensures FindNodeByPath(f, p).value in Nodes(f)
  {
    FindNodeByPathSpec(f, p);
    AllPathsPreOrder(f);
  }

  // ---------------------------------------------------------------------
  // processNodes
  // ---------------------------------------------------------------------

  /** `name || label`: a non-empty name wins over the title. */
  function DisplayLabel(n: RawNode): string {
    if n.name.Some? && n.name.value != "" then n.name.value else n.title
  }

  /** Normalises delivered nodes: display label chosen, children processed. */
  function ProcessNodes(f: seq<RawNode>): (r: seq<Node>)
    ensures |r| == |f|
    ensures forall i :: 0 <= i < |f| ==> r[i].path == f[i].path && r[i].icon == f[i].icon && |r[i].children| == |f[i].children|
    ensures forall i :: 0 <= i < |f| && f[i].name.Some? && f[i].name.value != "" ==> r[i].title == f[i].name.value
    ensures forall i :: 0 <= i < |f| && (f[i].name.None? || f[i].name.value == "") ==> r[i].title == f[i].title
  {
    seq(|f|, i requires 0 <= i < |f| => Node(f[i].path, DisplayLabel(f[i]), f[i].icon, ProcessNodes(f[i].children)))
  }

  /** `n` is the processed form of `raw` at every depth: same path and icon,
      the non-empty name if there is one and the title otherwise, and
      children that are the processed forms of the raw children. */
  ghost predicate ProcessedFrom(raw: RawNode, n: Node)
    decreases raw
  {
    && n.path == raw.path
    && n.icon == raw.icon
    && (if raw.name.Some? && raw.name.value != "" then n.title == raw.name.value else n.title == raw.title)
    && |n.children| == |raw.children|
    && forall i :: 0 <= i < |raw.children| ==> ProcessedFrom(raw.children[i], n.children[i])
  }

  /** The label rule and the shape hold for nodes at every depth. */
  lemma {:induction false} ProcessNodesDeep(f: seq<RawNode>)
    ensures forall i :: 0 <= i < |f| ==> ProcessedFrom(f[i], ProcessNodes(f)[i])
  {
    forall i | 0 <= i < |f| ensures ProcessedFrom(f[i], ProcessNodes(f)[i]) {
      ProcessNodesDeep(f[i].children);
    }
  }

  /** A processed node seen as delivered without a `name`. */
  function Unprocess(f: seq<Node>): (r: seq<RawNode>)
    ensures |r| == |f|
  {
    seq(|f|, i requires 0 <= i < |f| => RawNode(f[i].path, None, f[i].title, f[i].icon, Unprocess(f[i].children)))
  }

  /** Processing nodes that carry no `name` gives back the same tree, so
      processing is faithful to paths, labels, icons and shape. */
  lemma {:induction false} ProcessNodesRoundTrip(f: seq<Node>)
    ensures ProcessNodes(Unprocess(f)) == f
  {
    forall i | 0 <= i < |f| ensures ProcessNodes(Unprocess(f))[i] == f[i] {
      ProcessNodesRoundTrip(f[i].children);
    }
  }

  // ---------------------------------------------------------------------
  // expandAllNodes
  // ---------------------------------------------------------------------

  /** Appends, in pre-order, the path of every node that has children. */
  function ExpandAllNodes(expanded: seq<string>, f: seq<Node>): seq<string>
    decreases f
  {
    if f == [] then expanded
    else if |f[0].children| > 0 then ExpandAllNodes(ExpandAllNodes(expanded + [f[0].path], f[0].children), f[1..])
    else ExpandAllNodes(expanded, f[1..])
  }

  /** The paths of those listed nodes that have children, in order. */
  ghost function InnerPaths(ns: seq<Node>): seq<string> {
    if ns == [] then [] else (if |ns[0].children| > 0 then [ns[0].path] else []) + InnerPaths(ns[1..])
  }

  lemma {:induction false} InnerPathsAppend(a: seq<Node>, b: seq<Node>)
    ensures InnerPaths(a + b) == InnerPaths(a) + InnerPaths(b)
    decreases |a|
  {
    if a == [] {
      assert a + b == b;
    } else {
      assert (a + b)[1..] == a[1..] + b;
      InnerPathsAppend(a[1..], b);
    }
  }

  /** Expanding keeps what was already expanded and appends the paths of
      exactly the nodes with children, in pre-order. */
  lemma {:induction false} ExpandAllNodesSpec(expanded: seq<string>, f: seq<Node>)
    ensures ExpandAllNodes(expanded, f) == expanded + InnerPaths(Nodes(f))
    decreases f
  {
    if f != [] {
      var ch := f[0].children;
      InnerPathsAppend([f[0]], Nodes(ch));
      InnerPathsAppend([f[0]] + Nodes(ch), Nodes(f[1..]));
      if |ch| > 0 {
        ExpandAllNodesSpec(expanded + [f[0].path], ch);
        ExpandAllNodesSpec(ExpandAllNodes(expanded + [f[0].path], ch), f[1..]);
      } else {
        ExpandAllNodesSpec(expanded, f[1..]);
      }
    }
  }
}
