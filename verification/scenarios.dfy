/** Worked examples on a small menu: an administration section with two
    pages below it. */
module Scenarios {
  import opened Wrappers
  import opened Seqs
  import opened Tree
  import opened Selection
  import opened Persistence

  const Users := Node("/admin/users", "Users", "person", [])
  const Roles := Node("/admin/roles", "Roles", "badge", [])
  const Admin := Node("/admin", "Admin", "settings", [Users, Roles])
  const Menu := [Admin]

  /** Ticking a page also selects its section. */
  lemma TickPageSelectsSection()
    ensures UpdateSelection(Menu, [], ["/admin/users"]) == ["/admin/users", "/admin"]
  {
    assert ChangedPath([], ["/admin/users"]) == Some("/admin/users");
    assert FindNodeByPath(Menu, "/admin/users") == Some(Users);
    assert [] + ["/admin"] == ["/admin"];
    assert ParentPathsFrom(Admin.children, "/admin/users", ["/admin"]) == ["/admin"];
    assert ParentPaths(Menu, "/admin/users") == ["/admin"];
    var xs := ["/admin/users", "/admin"];
    assert ["/admin/users"] + ["/admin"] == xs;
    assert xs[..1] == ["/admin/users"];
    assert Dedup(xs[..1]) == ["/admin/users"];
    assert Dedup(xs) == xs;
  }

  /** Unticking the section then removes the section and both pages. */
  lemma UntickSectionClearsIt()
    ensures UpdateSelection(Menu, ["/admin/users", "/admin"], ["/admin/users"]) == []
  {
    assert ChangedPath(["/admin/users", "/admin"], ["/admin/users"]) == Some("/admin");
    assert FindNodeByPath(Menu, "/admin") == Some(Admin);
    assert Admin.children[1..] == [Roles];
    assert [Roles][1..] == [];
    assert DescendantPaths(Users) == [] && DescendantPaths(Roles) == [];
    assert DescendantsOf([Roles]) == ["/admin/roles"];
    assert DescendantPaths(Admin) == ["/admin/users", "/admin/roles"];
  }

  /** Ticking a page and unticking it again keeps the section that the tick
      added, so a toggle is not undone by the reverse toggle in general. */
  lemma TickThenUntickKeepsSection()
    ensures UpdateSelection(Menu, ["/admin/users", "/admin"], ["/admin"]) == ["/admin"]
  {
    assert ChangedPath(["/admin/users", "/admin"], ["/admin"]) == Some("/admin/users");
    assert FindNodeByPath(Menu, "/admin/users") == Some(Users);
    assert DescendantPaths(Users) == [];
  }

  /** A role without stored permissions gets the default selection. */
  lemma EmptyRoleGetsDefault()
    ensures OnRoleChange(Some(3), ["/admin"], Array([])) == ["/"]
    ensures OnRoleChange(Some(3), ["/admin"], Rejected) == ["/"]
  {
  }

  /** Saving without a role is refused; saving with one writes the section
      with its selected page, and the page again at top level. */
  lemma SaveExamples()
    ensures SaveSelection(None, Menu, ["/admin"]) == Failure(NoRoleSelected)
    ensures SelectedNodesData(Menu, ["/admin", "/admin/users"]) ==
            [Node("/admin", "Admin", "settings", [Node("/admin/users", "Users", "person", [])]),
             Node("/admin/users", "Users", "person", [])]
  {
    var sel := ["/admin", "/admin/users"];
    assert FindNodeByPath(Menu, "/admin") == Some(Admin);
    assert FindNodeByPath(Menu, "/admin/users") == Some(Users);
    assert Admin.children[1..] == [Roles];
    assert [Roles][1..] == [];
    assert SelectedChildren([Roles], sel) == [];
    assert SelectedChildren(Admin.children, sel) == [Users];
    assert SelectedChildren(Users.children, sel) == [];
    var top := Node("/admin/users", "Users", "person", []);
    assert ChildCopy(Users, sel) == top;
    assert TopCopy(Admin, sel) == Node("/admin", "Admin", "settings", [top]);
    assert TopCopy(Users, sel) == top;
    assert sel[1..] == ["/admin/users"] && sel[1..][1..] == [];
    assert EmitSelected(Menu, sel, ["/admin/users"]) == [top];
  }

  /** Reloading that save lists the page twice: once below the section and
      once at top level. This is where repeated entries in the selection
      usually come from. */
  lemma ReloadRepeatsChild()
    ensures OnRoleChange(Some(1), [], Array(SelectedNodesData(Menu, ["/admin", "/admin/users"]))) ==
            ["/admin", "/admin/users", "/admin/users"]
  {
    SaveExamples();
    var page := Node("/admin/users", "Users", "person", []);
    var saved := [Node("/admin", "Admin", "settings", [page]), page];
    assert saved[1..] == [page] && [page][1..] == [];
    assert AllPaths([page]) == ["/admin/users"];
    assert AllPaths(saved) == ["/admin", "/admin/users", "/admin/users"];
  }
}
