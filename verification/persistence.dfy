/** Conversions between the flat selection and the nested permission forest
    that is stored per role: the projection written on save, the guard that
    refuses a save without a role, and the flattening applied when a role is
    chosen. */
module Persistence {
  import opened Wrappers
  import opened Seqs
  import opened Tree

  // ---------------------------------------------------------------------
  // getSelectedNodesData
  // ---------------------------------------------------------------------

  /** Keeps, in order, the entries of `xs` that occur in `ys`. */
  function Keep(xs: seq<string>, ys: seq<string>): (r: seq<string>)
    ensures forall x :: x in r <==> x in xs && x in ys
  {
    if xs == [] then []
    else
      assert xs == [xs[0]] + xs[1..];
      (if xs[0] in ys then [xs[0]] else []) + Keep(xs[1..], ys)
  }

  /** The nodes of `cs` whose path is selected, in order: every selected
      node is kept as often as it occurs, and no other node. */
  function SelectedChildren(cs: seq<Node>, sel: seq<string>): (r: seq<Node>)
    ensures IsSubsequence(r, cs)
    ensures forall c :: c in r <==> c in cs && c.path in sel
    ensures forall c: Node {:trigger multiset(r)[c]} :: c.path in sel ==> multiset(r)[c] == multiset(cs)[c]
  {
    if cs == [] then []
    else
      var rest := SelectedChildren(cs[1..], sel);
      assert cs == [cs[0]] + cs[1..];
      if cs[0].path in sel then
        assert ([cs[0]] + rest)[1..] == rest;
        [cs[0]] + rest
      else
        rest
  }

  /** The paths of the kept children are the selected paths among the
      children's paths, in order. */
  lemma {:induction false} SelectedChildrenPaths(cs: seq<Node>, sel: seq<string>)
    ensures Paths(SelectedChildren(cs, sel)) == Keep(Paths(cs), sel)
  {
    if cs != [] {
      SelectedChildrenPaths(cs[1..], sel);
      var head := if cs[0].path in sel then [cs[0]] else [];
      var rest := SelectedChildren(cs[1..], sel);
      var ps := Paths(cs);
      assert ps == [cs[0].path] + Paths(cs[1..]);
      assert ps[0] == cs[0].path && ps[1..] == Paths(cs[1..]);
      assert SelectedChildren(cs, sel) == head + rest;
      PathsAppend(head, rest);
      assert Paths(SelectedChildren(cs, sel)) == Paths(head) + Paths(rest);
      assert Keep(ps, sel) == Paths(head) + Keep(ps[1..], sel);
    }
  }

  /** A grandchild as written on save: its own fields and no children. */
  function GrandchildCopy(g: Node): Node {
    Node(g.path, g.title, g.icon, [])
  }

  /** A child as written on save: its selected children, each copied
      without children of its own. */
  function ChildCopy(c: Node, sel: seq<string>): Node {
    var gs := SelectedChildren(c.children, sel);
    Node(c.path, c.title, c.icon, seq(|gs|, i requires 0 <= i < |gs| => GrandchildCopy(gs[i])))
  }

  /** A selected node as written on save, with its selected children. */
  function TopCopy(n: Node, sel: seq<string>): Node {
    var cs := SelectedChildren(n.children, sel);
    Node(n.path, n.title, n.icon, seq(|cs|, i requires 0 <= i < |cs| => ChildCopy(cs[i], sel)))
  }

  /** One entry for each path of `pending` that is found in the tree. */
  function EmitSelected(tree: seq<Node>, sel: seq<string>, pending: seq<string>): seq<Node> {
    if pending == [] then []
    else
      (match FindNodeByPath(tree, pending[0])
       case Some(n) => [TopCopy(n, sel)]
       case None => [])
      + EmitSelected(tree, sel, pending[1..])
  }

  /** The nested forest written on save. Every selected path found anywhere
      in the tree becomes a top-level entry, not only the roots. */
  function SelectedNodesData(tree: seq<Node>, sel: seq<string>): seq<Node> {
    EmitSelected(tree, sel, sel)
  }

  /** The general recursive projection: a copy of `n` whose children are its
      selected children, projected in turn, cut off `depth` levels below `n`.
      The save projection is this with depth 2. */
  function Prune(n: Node, sel: seq<string>, depth: nat): Node
    decreases depth, 0
  {
    Node(n.path, n.title, n.icon,
         if depth == 0 then [] else PruneAll(SelectedChildren(n.children, sel), sel, depth - 1))
  }

  /** The projections of a list of nodes, in order. */
  function PruneAll(cs: seq<Node>, sel: seq<string>, depth: nat): seq<Node>
    decreases depth, 1, |cs|
  {
    if cs == [] then [] else [Prune(cs[0], sel, depth)] + PruneAll(cs[1..], sel, depth)
  }

  /** `PruneAll` keeps the length and projects position by position. */
  lemma {:induction false} PruneAllAt(cs: seq<Node>, sel: seq<string>, depth: nat, j: nat)
    ensures |PruneAll(cs, sel, depth)| == |cs|
    ensures j < |cs| ==> PruneAll(cs, sel, depth)[j] == Prune(cs[j], sel, depth)
    decreases |cs|
  {
    if cs != [] {
      PruneAllAt(cs[1..], sel, depth, if j == 0 then 0 else j - 1);
    }
  }

  /** A projected node copies its source's own fields, and each of its
      children is the projection of a selected direct child of the source. */
  lemma PruneChildren(n: Node, sel: seq<string>, depth: nat)
    ensures var e := Prune(n, sel, depth); e.path == n.path && e.title == n.title && e.icon == n.icon
    ensures depth == 0 ==> Prune(n, sel, depth).children == []
    ensures depth > 0 ==>
              forall j :: 0 <= j < |Prune(n, sel, depth).children| ==>
                exists c :: c in n.children && c.path in sel && Prune(n, sel, depth).children[j] == Prune(c, sel, depth - 1)
  {
    if depth > 0 {
      var e := Prune(n, sel, depth);
      var cs := SelectedChildren(n.children, sel);
      forall j | 0 <= j < |e.children|
        ensures exists c :: c in n.children && c.path in sel && e.children[j] == Prune(c, sel, depth - 1)
      {
        PruneAllAt(cs, sel, depth - 1, j);
        SelectedChildAt(n.children, sel, j);
        var c := cs[j];
        assert c in n.children && c.path in sel && e.children[j] == Prune(c, sel, depth - 1);
      }
      assert forall j :: 0 <= j < |e.children| ==>
               exists c :: c in n.children && c.path in sel && e.children[j] == Prune(c, sel, depth - 1);
    }
  }

  lemma SelectedChildAt(cs: seq<Node>, sel: seq<string>, j: nat)
    requires j < |SelectedChildren(cs, sel)|
    ensures SelectedChildren(cs, sel)[j] in cs && SelectedChildren(cs, sel)[j].path in sel
  {
    assert SelectedChildren(cs, sel)[j] in SelectedChildren(cs, sel);
  }

  /** Below the cut-off, every selected direct child of the source yields a
      child of the projection, and the projection's children carry the
      selected children's paths in source order. */
  lemma PruneKeepsSelected(n: Node, sel: seq<string>, depth: nat)
    requires depth > 0
    ensures forall c :: c in n.children && c.path in sel ==> Prune(c, sel, depth - 1) in Prune(n, sel, depth).children
    ensures Paths(Prune(n, sel, depth).children) == Keep(Paths(n.children), sel)
  {
    forall c | c in n.children && c.path in sel ensures Prune(c, sel, depth - 1) in Prune(n, sel, depth).children {
      PruneKeepsChild(n, sel, depth, c);
    }
    PruneKeepsPaths(n, sel, depth);
  }

  /** A selected direct child yields a child of the projection. */
  lemma PruneKeepsChild(n: Node, sel: seq<string>, depth: nat, c: Node)
    requires depth > 0 && c in n.children && c.path in sel
    ensures Prune(c, sel, depth - 1) in Prune(n, sel, depth).children
  {
    var cs := SelectedChildren(n.children, sel);
    assert c in cs;
    PruneAllHas(cs, sel, depth - 1, c);
    assert Prune(n, sel, depth).children == PruneAll(cs, sel, depth - 1);
  }

  /** The projection's children carry the selected children's paths. */
  lemma PruneKeepsPaths(n: Node, sel: seq<string>, depth: nat)
    requires depth > 0
    ensures Paths(Prune(n, sel, depth).children) == Keep(Paths(n.children), sel)
  {
    var cs := SelectedChildren(n.children, sel);
    var ps := PruneAll(cs, sel, depth - 1);
    assert Prune(n, sel, depth).children == ps;
    PruneAllPathsEq(cs, sel, depth - 1);
    SelectedChildrenPaths(n.children, sel);
    assert Paths(ps) == Keep(Paths(n.children), sel);
  }

  /** The projection of each listed node is among the projections. */
  lemma {:induction false} PruneAllHas(cs: seq<Node>, sel: seq<string>, depth: nat, c: Node)
    requires c in cs
    ensures Prune(c, sel, depth) in PruneAll(cs, sel, depth)
  {
    if c != cs[0] {
      PruneAllHas(cs[1..], sel, depth, c);
    }
  }

  /** Projection keeps the listed paths and their order. */
  lemma {:induction false} PruneAllPathsEq(cs: seq<Node>, sel: seq<string>, depth: nat)
    ensures Paths(PruneAll(cs, sel, depth)) == Paths(cs)
  {
    if cs != [] {
      PruneAllPathsEq(cs[1..], sel, depth);
      PathsAppend([Prune(cs[0], sel, depth)], PruneAll(cs[1..], sel, depth));
      PathsAppend([cs[0]], cs[1..]);
      assert cs == [cs[0]] + cs[1..];
    }
  }

  /** Every path below a projected node is selected and lies below its
      source node. */
  lemma {:induction false} PrunePaths(n: Node, sel: seq<string>, depth: nat, x: string)
    requires x in AllPaths(Prune(n, sel, depth).children)
    ensures x in sel && x in AllPaths(n.children)
    decreases depth, 0
  {
    if depth > 0 {
      var cs := SelectedChildren(n.children, sel);
      PruneAllPaths(cs, sel, depth - 1, x);
      InAllPaths(cs, x);
      var j :| 0 <= j < |cs| && (cs[j].path == x || x in AllPaths(cs[j].children));
      SelectedChildAt(n.children, sel, j);
      BelowChild(n.children, cs[j], x);
    }
  }

  /** Every path in the projections of selected nodes is selected and lies
      in the nodes themselves. */
  lemma {:induction false} PruneAllPaths(cs: seq<Node>, sel: seq<string>, depth: nat, x: string)
    requires forall c :: c in cs ==> c.path in sel
    requires x in AllPaths(PruneAll(cs, sel, depth))
    ensures x in sel && x in AllPaths(cs)
    decreases depth, 1, |cs|
  {
    if cs != [] {
      var h := Prune(cs[0], sel, depth);
      var t := PruneAll(cs[1..], sel, depth);
      assert ([h] + t)[0] == h && ([h] + t)[1..] == t;
      assert x in [h.path] + AllPaths(h.children) + AllPaths(t);
      if x == h.path {
        assert cs[0] in cs;
      } else if x in AllPaths(h.children) {
        PrunePaths(cs[0], sel, depth, x);
      } else {
        assert forall c :: c in cs[1..] ==> c in cs;
        PruneAllPaths(cs[1..], sel, depth, x);
      }
    }
  }

  /** A path at or below a child is listed for the children. */
  lemma BelowChild(cs: seq<Node>, c: Node, x: string)
    requires c in cs && (x == c.path || x in AllPaths(c.children))
    ensures x in AllPaths(cs)
  {
    var k :| 0 <= k < |cs| && cs[k] == c;
    AllPathsAt(cs, k);
  }

  lemma ChildCopyIsPrune(c: Node, sel: seq<string>)
    ensures ChildCopy(c, sel) == Prune(c, sel, 1)
  {
    var gs := SelectedChildren(c.children, sel);
    PruneAllAt(gs, sel, 0, 0);
    forall i | 0 <= i < |gs| ensures PruneAll(gs, sel, 0)[i] == GrandchildCopy(gs[i]) {
      PruneAllAt(gs, sel, 0, i);
    }
  }

  lemma TopCopyIsPrune(n: Node, sel: seq<string>)
    ensures TopCopy(n, sel) == Prune(n, sel, 2)
  {
    var cs := SelectedChildren(n.children, sel);
    PruneAllAt(cs, sel, 1, 0);
    forall i | 0 <= i < |cs| ensures PruneAll(cs, sel, 1)[i] == ChildCopy(cs[i], sel) {
      PruneAllAt(cs, sel, 1, i);
      ChildCopyIsPrune(cs[i], sel);
    }
  }

  lemma {:induction false} EmitSelectedPaths(tree: seq<Node>, sel: seq<string>, pending: seq<string>)
    ensures Paths(EmitSelected(tree, sel, pending)) == Keep(pending, AllPaths(tree))
  {
    if pending != [] {
      var p := pending[0];
      EmitSelectedPaths(tree, sel, pending[1..]);
      var rest := EmitSelected(tree, sel, pending[1..]);
      FindNodeByPathSpec(tree, p);
      if p in AllPaths(tree) {
        FindNodeByPathFound(tree, p);
        var head := [TopCopy(FindNodeByPath(tree, p).value, sel)];
        PathsAppend(head, rest);
        assert Paths(head) == [p];
      }
    }
  }

  /** Each entry of `r` is the save copy of the node found for its path. */
  ghost predicate CopiesOfFound(tree: seq<Node>, sel: seq<string>, r: seq<Node>) {
    forall i :: 0 <= i < |r| ==>
      FindNodeByPath(tree, r[i].path).Some? && r[i] == TopCopy(FindNodeByPath(tree, r[i].path).value, sel)
  }

  lemma {:induction false} EmitSelectedSources(tree: seq<Node>, sel: seq<string>, pending: seq<string>)
    ensures CopiesOfFound(tree, sel, EmitSelected(tree, sel, pending))
  {
    if pending != [] {
      var p := pending[0];
      EmitSelectedSources(tree, sel, pending[1..]);
      var rest := EmitSelected(tree, sel, pending[1..]);
      var r := EmitSelected(tree, sel, pending);
      var found := FindNodeByPath(tree, p);
      if found.Some? {
        FindNodeByPathMatches(tree, p);
        assert r == [TopCopy(found.value, sel)] + rest;
        forall i | 0 <= i < |r|
          ensures FindNodeByPath(tree, r[i].path).Some? && r[i] == TopCopy(FindNodeByPath(tree, r[i].path).value, sel)
        {
          if i > 0 {
            assert r[i] == rest[i - 1];
          }
        }
      } else {
        assert r == rest;
      }
    }
  }

  /** Each saved entry is the depth-2 projection of the node found for its
      path. */
  lemma SavedEntriesArePrunes(tree: seq<Node>, sel: seq<string>)
    ensures forall i :: 0 <= i < |SelectedNodesData(tree, sel)| ==>
              && FindNodeByPath(tree, SelectedNodesData(tree, sel)[i].path).Some?
              && SelectedNodesData(tree, sel)[i] == Prune(FindNodeByPath(tree, SelectedNodesData(tree, sel)[i].path).value, sel, 2)
  {
    var r := SelectedNodesData(tree, sel);
    EmitSelectedSources(tree, sel, sel);
    forall i | 0 <= i < |r|
      ensures FindNodeByPath(tree, r[i].path).Some? && r[i] == Prune(FindNodeByPath(tree, r[i].path).value, sel, 2)
    {
      TopCopyIsPrune(FindNodeByPath(tree, r[i].path).value, sel);
    }
  }

  /** The saved forest has exactly one entry per selected path found in the
      tree, in selection order; each entry is the depth-2 projection of the
      node found for it, so every emitted child and grandchild is selected
      and a direct child of its parent's source node, and grandchildren have
      no children. */
  lemma SelectedNodesDataSpec(tree: seq<Node>, sel: seq<string>)
    ensures Paths(SelectedNodesData(tree, sel)) == Keep(sel, AllPaths(tree))
    ensures forall i :: 0 <= i < |SelectedNodesData(tree, sel)| ==>
              && FindNodeByPath(tree, SelectedNodesData(tree, sel)[i].path).Some?
              && SelectedNodesData(tree, sel)[i] == Prune(FindNodeByPath(tree, SelectedNodesData(tree, sel)[i].path).value, sel, 2)
    ensures forall i, x :: 0 <= i < |SelectedNodesData(tree, sel)| && x in AllPaths(SelectedNodesData(tree, sel)[i].children) ==>
              x in sel
    ensures forall i, j, k ::
              && 0 <= i < |SelectedNodesData(tree, sel)|
              && 0 <= j < |SelectedNodesData(tree, sel)[i].children|
              && 0 <= k < |SelectedNodesData(tree, sel)[i].children[j].children|
              ==> SelectedNodesData(tree, sel)[i].children[j].children[k].children == []
  {
    var r := SelectedNodesData(tree, sel);
    EmitSelectedPaths(tree, sel, sel);
    SavedEntriesArePrunes(tree, sel);
    forall i, x | 0 <= i < |r| && x in AllPaths(r[i].children) ensures x in sel {
      PrunePaths(FindNodeByPath(tree, r[i].path).value, sel, 2, x);
    }
    forall i, j, k | 0 <= i < |r| && 0 <= j < |r[i].children| && 0 <= k < |r[i].children[j].children|
      ensures r[i].children[j].children[k].children == []
    {
      GrandchildrenAreLeaves(FindNodeByPath(tree, r[i].path).value, sel, j, k);
    }
  }

  lemma GrandchildrenAreLeaves(n: Node, sel: seq<string>, j: nat, k: nat)
    requires j < |Prune(n, sel, 2).children| && k < |Prune(n, sel, 2).children[j].children|
    ensures Prune(n, sel, 2).children[j].children[k].children == []
  {
    var e := Prune(n, sel, 2);
    PruneChildren(n, sel, 2);
    var c :| c in n.children && c.path in sel && e.children[j] == Prune(c, sel, 1);
    PruneChildren(c, sel, 1);
    var g :| g in c.children && g.path in sel && e.children[j].children[k] == Prune(g, sel, 0);
  }

  /** A path occurs anywhere in the saved forest exactly when it is selected
      and found in the tree. */
  lemma SavedPaths(tree: seq<Node>, sel: seq<string>)
    ensures forall x :: x in AllPaths(SelectedNodesData(tree, sel)) <==> x in sel && x in AllPaths(tree)
  {
    var r := SelectedNodesData(tree, sel);
    SelectedNodesDataSpec(tree, sel);
    forall x | x in AllPaths(r) ensures x in sel && x in AllPaths(tree) {
      InAllPaths(r, x);
      var i :| 0 <= i < |r| && (r[i].path == x || x in AllPaths(r[i].children));
      assert Paths(r)[i] == r[i].path;
      assert r[i].path in Keep(sel, AllPaths(tree));
      if x != r[i].path {
        var n := FindNodeByPath(tree, r[i].path).value;
        FindNodeByPathFound(tree, r[i].path);
        PrunePaths(n, sel, 2, x);
        SubtreeInForest(tree, n);
      }
    }
    forall x | x in sel && x in AllPaths(tree) ensures x in AllPaths(r) {
      var ks := Keep(sel, AllPaths(tree));
      assert x in ks;
      var i :| 0 <= i < |ks| && ks[i] == x;
      assert r[i].path == Paths(r)[i] == x;
      InAllPaths(r, x);
    }
  }

  lemma {:induction false} EmitEmptyTree(sel: seq<string>, pending: seq<string>)
    ensures EmitSelected([], sel, pending) == []
  {
    if pending != [] {
      EmitEmptyTree(sel, pending[1..]);
    }
  }

  // ---------------------------------------------------------------------
  // saveSelection (the part before the network call)
  // ---------------------------------------------------------------------

  /** JavaScript truthiness of a role id: `null` and `0` are falsy. */
  predicate Truthy(id: Option<int>) {
    id.Some? && id.value != 0
  }

  datatype SaveError = NoRoleSelected

  /** What is handed to the persistence call: the role and the projected
      forest. Its serialisation is not part of this model. */
  datatype SaveRequest = SaveRequest(role: int, permissions: seq<Node>)

  /** A save without a role is refused before any request is made; otherwise
      the request carries the role and one top-level entry per selected path
      found in the tree, each the depth-2 projection of the node found. */
  function SaveSelection(role: Option<int>, tree: seq<Node>, sel: seq<string>): (r: Result<SaveRequest, SaveError>)
    ensures r.Failure? <==> !Truthy(role)
    ensures r.Success? ==> r.value.role == role.value && r.value.role != 0
    ensures r.Success? ==> Paths(r.value.permissions) == Keep(sel, AllPaths(tree))
    ensures r.Success? ==>
              forall i :: 0 <= i < |r.value.permissions| ==>
                && FindNodeByPath(tree, r.value.permissions[i].path).Some?
                && r.value.permissions[i] == Prune(FindNodeByPath(tree, r.value.permissions[i].path).value, sel, 2)
  {
    if !Truthy(role) then Failure(NoRoleSelected)
    else
      SelectedNodesDataSpec(tree, sel);
      Success(SaveRequest(role.value, SelectedNodesData(tree, sel)))
  }

  /** While the tree is still empty, a save with a role writes an empty
      forest, whatever is selected. */
  lemma SaveEmptyTree(role: Option<int>, sel: seq<string>)
    ensures SelectedNodesData([], sel) == []
    ensures Truthy(role) ==> SaveSelection(role, [], sel) == Success(SaveRequest(role.value, []))
  {
    EmitEmptyTree(sel, sel);
  }

  // ---------------------------------------------------------------------
  // onRoleChange (the part after the permissions have arrived)
  // ---------------------------------------------------------------------

  /** What the role's stored permissions look like when they arrive. */
  datatype RolePayload =
    | Absent                              // any falsy value: null, undefined, 0, false, NaN or ""
    | Rejected                            // the request failed
    | Array(forest: seq<Node>)            // an already decoded array
    | Text(decoded: Option<seq<Node>>)    // a non-empty JSON string; None when parsing fails or yields no array
    | OtherValue                          // any other truthy value, on which the traversal throws

  /** The selection used when a role has no usable permissions. */
  const DefaultSelection: seq<string> := ["/"]

  /** The selection after choosing role `roleId`: unchanged for a falsy id,
      the default for missing, empty or unusable permissions, and otherwise
      the pre-order path list of the permission forest. A JSON string that
      decodes to an empty array is not caught by the emptiness guard and
      gives the empty selection. */
  function OnRoleChange(roleId: Option<int>, current: seq<string>, payload: RolePayload): (r: seq<string>)
    ensures !Truthy(roleId) ==> r == current
    ensures Truthy(roleId) && payload.Array? && payload.forest != [] ==> r == Paths(Nodes(payload.forest))
    ensures Truthy(roleId) && payload.Text? && payload.decoded.Some? ==> r == Paths(Nodes(payload.decoded.value))
    ensures Truthy(roleId) && (payload in {Absent, Rejected, OtherValue, Array([]), Text(None)}) ==> r == ["/"]
  {
    if !Truthy(roleId) then current
    else
      match payload
      case Absent => DefaultSelection
      case Array(f) =>
        if f == [] then DefaultSelection
        else
          AllPathsPreOrder(f);
          AllPaths(f)
      case Text(Some(f)) =>
        AllPathsPreOrder(f);
        AllPaths(f)
      case _ => DefaultSelection
  }

  /** Saving and then loading the same role gives back, as a set, exactly the
      selected paths that are in the tree; nothing is lost to the depth limit
      of the projection because every selected path is also written at top
      level. An empty save delivered as an array falls back to the default. */
  lemma SaveThenLoad(tree: seq<Node>, sel: seq<string>, id: int, current: seq<string>)
    requires id != 0
    ensures var saved := SelectedNodesData(tree, sel);
            forall x :: x in OnRoleChange(Some(id), current, Text(Some(saved))) <==> x in sel && x in AllPaths(tree)
    ensures var saved := SelectedNodesData(tree, sel);
            (exists x :: x in sel && x in AllPaths(tree)) ==>
              forall x :: x in OnRoleChange(Some(id), current, Array(saved)) <==> x in sel && x in AllPaths(tree)
    ensures var saved := SelectedNodesData(tree, sel);
            (forall x :: x in sel ==> x !in AllPaths(tree)) ==> OnRoleChange(Some(id), current, Array(saved)) == ["/"]
  {
    var saved := SelectedNodesData(tree, sel);
    SavedPaths(tree, sel);
    AllPathsPreOrder(saved);
    assert OnRoleChange(Some(id), current, Text(Some(saved))) == AllPaths(saved);
    if saved == [] {
      assert OnRoleChange(Some(id), current, Array(saved)) == ["/"];
    } else {
      assert OnRoleChange(Some(id), current, Array(saved)) == AllPaths(saved);
      AllPathsHead(saved);
      assert saved[0].path in AllPaths(saved);
    }
  }
}
