/** The update rule applied each time the tree widget reports its ticked
    paths: find the one path that changed, then cascade an untick to the
    node's descendants or a tick to the node's ancestors. */
module Selection {
  import opened Wrappers
  import opened Seqs
  import opened Tree

  /** The first element of `xs` that is missing from `ys`. The TypeScript
      code scans `new Set(xs)`, whose iteration order is first-occurrence
      order, so the element found is the same. */
  function FirstMissing(xs: seq<string>, ys: seq<string>): (r: Option<string>)
    ensures r.None? <==> forall x :: x in xs ==> x in ys
    ensures r.Some? ==> r.value in xs && r.value !in ys
    ensures r.Some? ==> forall j :: 0 <= j < IndexOf(xs, r.value) ==> xs[j] in ys
  {
    if xs == [] then None
    else if xs[0] !in ys then Some(xs[0])
    else FirstMissing(xs[1..], ys)
  }

  /** The path a toggle changed: the first removal from the previous
      selection, and only when there is none the first addition. A path
      equal to the empty string is falsy in the TypeScript code and never
      counts; when it is the first removal the scan for removals has
      already stopped, so later removals go unnoticed. */
  function ChangedPath(prev: seq<string>, ticked: seq<string>): (r: Option<string>)
    ensures r.Some? ==> r.value != "" && (r.value in prev <==> r.value !in ticked)
    ensures r.Some? && r.value !in ticked ==> r == FirstMissing(prev, ticked)
    ensures r.Some? && r.value in ticked ==>
              r == FirstMissing(ticked, prev) && FirstMissing(prev, ticked) in {None, Some("")}
    ensures r.None? ==>
              FirstMissing(prev, ticked) in {None, Some("")} && FirstMissing(ticked, prev) in {None, Some("")}
    ensures (forall x :: x in prev <==> x in ticked) ==> r.None?
  {
    var removed := FirstMissing(prev, ticked);
    if removed.Some? && removed.value != "" then removed
    else
      var added := FirstMissing(ticked, prev);
      if added.Some? && added.value != "" then added else None
  }

  /** The untick filter: keeps, in order, every element that is neither `p`
      nor among `desc`. */
  function DropSubtree(xs: seq<string>, p: string, desc: seq<string>): (r: seq<string>)
    ensures IsSubsequence(r, xs)
    ensures forall x :: x in r <==> x in xs && x != p && x !in desc
    ensures forall x :: x != p && x !in desc ==> multiset(r)[x] == multiset(xs)[x]
  {
    if xs == [] then []
    else
      var rest := DropSubtree(xs[1..], p, desc);
      assert xs == [xs[0]] + xs[1..];
      if xs[0] != p && xs[0] !in desc then
        assert ([xs[0]] + rest)[1..] == rest;
        [xs[0]] + rest
      else
        rest
  }

  /** The selection after the widget reports `ticked`, given the previous
      selection `prev` and the menu tree. */
  function UpdateSelection(tree: seq<Node>, prev: seq<string>, ticked: seq<string>): seq<string> {
    match ChangedPath(prev, ticked)
    case None => prev
    case Some(p) =>
      match FindNodeByPath(tree, p)
      case None => prev
      case Some(n) =>
        if p !in ticked then DropSubtree(prev, p, DescendantPaths(n))
        else Dedup(ticked + ParentPaths(tree, p))
  }

  /** While the tree is still empty no changed path is found in it, so
      every toggle leaves the selection as it was. */
  lemma UpdateSelectionEmptyTree(prev: seq<string>, ticked: seq<string>)
    ensures UpdateSelection([], prev, ticked) == prev
  {
  }

  lemma {:induction false} DropSubtreeKeepsAll(xs: seq<string>, p: string, desc: seq<string>)
    requires forall x :: x in xs ==> x != p && x !in desc
    ensures DropSubtree(xs, p, desc) == xs
  {
    if xs != [] {
      var tail := xs[1..];
      forall x | x in tail ensures x != p && x !in desc {
        var k :| 0 <= k < |tail| && tail[k] == x;
        assert xs[k + 1] == x;
        assert x in xs;
      }
      DropSubtreeKeepsAll(tail, p, desc);
      assert xs[0] in xs;
      assert xs == [xs[0]] + tail;
    }
  }

  lemma {:induction false} DropSubtreeLast(xs: seq<string>, p: string, desc: seq<string>)
    ensures DropSubtree(xs + [p], p, desc) == DropSubtree(xs, p, desc)
  {
    if xs == [] {
      assert [p][1..] == [];
    } else {
      assert (xs + [p])[0] == xs[0];
      assert (xs + [p])[1..] == xs[1..] + [p];
      DropSubtreeLast(xs[1..], p, desc);
    }
  }

  /** Untick case: the changed path is the first removal and is found in the
      tree. The new selection is the previous one, order kept, with that path
      and every path below its node removed and every other entry kept as
      often as it occurred. */
  lemma UpdateSelectionUntick(tree: seq<Node>, prev: seq<string>, ticked: seq<string>, p: string)
    requires ChangedPath(prev, ticked) == Some(p) && p !in ticked && p in AllPaths(tree)
    ensures FindNodeByPath(tree, p).Some?
    ensures var below := AllPaths(FindNodeByPath(tree, p).value.children);
            var r := UpdateSelection(tree, prev, ticked);
            && p !in r
            && (forall d :: d in below ==> d !in r)
            && IsSubsequence(r, prev)
            && (forall x :: x != p && x !in below ==> multiset(r)[x] == multiset(prev)[x])
  {
    FindNodeByPathFound(tree, p);
    DescendantPathsSpec(FindNodeByPath(tree, p).value);
  }

  /** Tick case: no removal, and the first addition is found in the tree. The
      new selection is duplicate-free, holds exactly the ticked paths and the
      ancestor paths of the changed one, and lists the ticked paths first. */
  lemma UpdateSelectionTick(tree: seq<Node>, prev: seq<string>, ticked: seq<string>, p: string)
    requires ChangedPath(prev, ticked) == Some(p) && p in ticked && p in AllPaths(tree)
    ensures NoDup(UpdateSelection(tree, prev, ticked))
    ensures forall x :: x in UpdateSelection(tree, prev, ticked) <==> x in ticked || x in ParentPaths(tree, p)
    ensures forall i, j :: 0 <= i < j < |UpdateSelection(tree, prev, ticked)| && UpdateSelection(tree, prev, ticked)[j] in ticked ==>
              UpdateSelection(tree, prev, ticked)[i] in ticked
  {
    UpdateSelectionTickOrder(tree, prev, ticked, p);
    var parents := ParentPaths(tree, p);
    var r := UpdateSelection(tree, prev, ticked);
    forall i, j | 0 <= i < j < |r| && r[j] in ticked ensures r[i] in ticked {
      IndexOfAppend(ticked, parents, r[i]);
      IndexOfAppend(ticked, parents, r[j]);
    }
  }

  /** Tick case, order: the new selection lists the ticked paths followed by
      the ancestor paths in the order of their first occurrence. */
  lemma UpdateSelectionTickOrder(tree: seq<Node>, prev: seq<string>, ticked: seq<string>, p: string)
    requires ChangedPath(prev, ticked) == Some(p) && p in ticked && p in AllPaths(tree)
    ensures var r := UpdateSelection(tree, prev, ticked);
            var xs := ticked + ParentPaths(tree, p);
            && NoDup(r)
            && (forall x :: x in r <==> x in xs)
            && (forall i, j :: 0 <= i < j < |r| ==> IndexOf(xs, r[i]) < IndexOf(xs, r[j]))
  {
    FindNodeByPathFound(tree, p);
    var xs := ticked + ParentPaths(tree, p);
    assert UpdateSelection(tree, prev, ticked) == Dedup(xs);
    DedupSpec(xs);
  }

  /** No-op cases: the selection is left as it was when the reported paths
      equal the previous selection as sets, when no path changed, or when the
      changed path is not in the tree. */
  lemma UpdateSelectionUnchanged(tree: seq<Node>, prev: seq<string>, ticked: seq<string>)
    ensures (forall x :: x in prev <==> x in ticked) ==> UpdateSelection(tree, prev, ticked) == prev
    ensures ChangedPath(prev, ticked).None? ==> UpdateSelection(tree, prev, ticked) == prev
    ensures ChangedPath(prev, ticked).Some? && ChangedPath(prev, ticked).value !in AllPaths(tree) ==>
              UpdateSelection(tree, prev, ticked) == prev
  {
    if ChangedPath(prev, ticked).Some? {
      FindNodeByPathSpec(tree, ChangedPath(prev, ticked).value);
    }
  }

  /** Only the reported ticks drive detection: when every previously selected
      path is still reported, nothing previously selected is lost. */
  lemma UnreportedUntickIgnored(tree: seq<Node>, prev: seq<string>, ticked: seq<string>)
    requires forall x :: x in prev ==> x in ticked
    ensures forall x :: x in prev ==> x in UpdateSelection(tree, prev, ticked)
  {
    var c := ChangedPath(prev, ticked);
    if c.Some? && FindNodeByPath(tree, c.value).Some? {
      FindNodeByPathSpec(tree, c.value);
      UpdateSelectionTick(tree, prev, ticked, c.value);
    }
  }

  /** With unique paths, ticking a node selects every ancestor on its chain
      from the root. */
  lemma TickSelectsAncestors(tree: seq<Node>, prev: seq<string>, ticked: seq<string>, p: string, chain: seq<Node>)
    requires UniquePaths(tree) && IsParentChain(tree, chain, p)
    requires ChangedPath(prev, ticked) == Some(p) && p in ticked
    ensures forall k :: 0 <= k < |chain| ==> chain[k].path in UpdateSelection(tree, prev, ticked)
  {
    ChainTargetBelow(tree, chain, p);
    var j :| 0 <= j < |tree| && tree[j] == chain[0];
    InAllPaths(tree, p);
    ParentPathsUnique(tree, p);
    UpdateSelectionTick(tree, prev, ticked, p);
    forall k | 0 <= k < |chain| ensures chain[k].path in ParentPaths(tree, p) {
      assert Paths(chain)[k] == chain[k].path;
    }
  }

  /** Ticking a path and then unticking it restores a duplicate-free
      selection, provided the selection already held the path's ancestors and
      none of its descendants. */
  lemma ToggleRoundTrip(tree: seq<Node>, s: seq<string>, p: string)
    requires NoDup(s) && p !in s && p != "" && p in AllPaths(tree)
    requires forall x :: x in ParentPaths(tree, p) ==> x in s
    requires FindNodeByPath(tree, p).Some?
    requires forall x :: x in DescendantPaths(FindNodeByPath(tree, p).value) ==> x !in s
    ensures UpdateSelection(tree, s, s + [p]) == s + [p]
    ensures UpdateSelection(tree, s + [p], s) == s
  {
    var n := FindNodeByPath(tree, p).value;
    assert ChangedPath(s, s + [p]) == Some(p);
    assert NoDup(s + [p]);
    DedupAppendPresent(s + [p], ParentPaths(tree, p));
    DedupNoDup(s + [p]);
    assert UpdateSelection(tree, s, s + [p]) == s + [p];
    assert ChangedPath(s + [p], s) == Some(p);
    DropSubtreeLast(s, p, DescendantPaths(n));
    DropSubtreeKeepsAll(s, p, DescendantPaths(n));
    assert UpdateSelection(tree, s + [p], s) == s;
  }
}
