# Permission-tree selection, modelled in Dafny

This project models the permission-tree logic of a role administration front
end. An administrator chooses a role and ticks entries of a menu tree. Each
entry is identified by its `path`. The editor keeps a flat list of ticked
paths consistent with the tree:

- ticking an entry also selects all its ancestors;
- unticking an entry removes it and every entry below it;
- choosing a role flattens the role's stored permission forest into a
  selection, or falls back to the single path `"/"`;
- saving projects the selection back into a nested forest.

The composable's reactive references become explicit parameters: the tree,
the previous selection and the paths the widget reports as ticked. Every
operation is a pure function, and its properties are proved as lemmas.

Modules:

- `Wrappers` (`wrappers.dfy`): `Option` for nullable values and `Result` for
  a refused save.
- `Seqs` (`seqs.dfy`): duplicate-freedom, first index, subsequences, and
  `Dedup`, which models `Array.from(new Set(xs))` (insertion order, first
  occurrence kept).
- `Tree` (`tree.dfy`): the `Node` datatype and the traversals
  `getAllPaths`, `getAllDescendantPaths`, `getAllParentPaths` and
  `findNodeByPath`, plus `processNodes` and `expandAllNodes`. The ghost
  function `Nodes` (pre-order node list) is the reference the traversals are
  proved against.
- `Selection` (`selection.dfy`): `updateSelection`, i.e. how the changed path
  is detected and how the untick and tick cascades work.
- `Persistence` (`persistence.dfy`): `getSelectedNodesData`, the no-role
  guard of `saveSelection`, and the pure part of `onRoleChange`.
- `Scenarios` (`scenarios.dfy`): worked examples on a two-level menu.

Modelling choices:

- The TypeScript `label` field is called `title`, because `label` is a Dafny
  keyword.
- A missing `children` array is the empty sequence. A missing icon is the
  empty string.
- A role id is `Option<int>`, where `None` stands for `null`. It is falsy
  when it is `None` or `0`.
- The permissions that arrive for a role are a `RolePayload`:
  - absent, which covers every falsy value (`null`, `undefined`, `0`,
    `false`, `NaN` and `""`), since the guard tests `!rolePermissions`;
  - a rejected request;
  - a decoded array;
  - a non-empty JSON string, with the outcome of decoding it;
  - any other truthy value, on which the traversal throws.

Behaviour of the code that the model keeps:

- The untick branch filters the previous selection, not the reported one.
  Duplicates in the previous selection therefore survive an untick
  (`Selection.UpdateSelectionUntick`).
- The changed path is the first removal, in first-occurrence order of the
  previous selection. Only when there is no removal is it the first
  addition. An untick that the widget does not report is never detected.
- The empty string is falsy, so it never counts as a changed path. If it is
  the first removal, the scan for removals has already stopped: later
  removals go unnoticed and the first non-empty addition is used instead.
- `getAllParentPaths` returns `[]` both for a path that is absent and for a
  path whose first pre-order occurrence is a root.
- `getSelectedNodesData` writes a top-level entry for every selected path
  found anywhere in the tree, not only for the roots. It filters children
  and grandchildren and gives grandchildren no children.
- A permission array that is empty gives `["/"]`. A JSON string that decodes
  to an empty array passes the emptiness guard and gives the empty
  selection.

Three behaviours that one might expect but that the code does not have:

- Toggling a path on and then off is not undone in general. The untick
  leaves in place the ancestors that the tick added
  (`Scenarios.TickThenUntickKeepsSection`). The selection comes back only
  when the ancestors were already selected (`Selection.ToggleRoundTrip`).
- Saving does not write only the root-level paths. It writes a top-level
  entry for every selected path found in the tree, so the two-level depth
  limit of the nested copy loses nothing when the saved forest is loaded
  again (`Persistence.SaveThenLoad`).
- The selection is not kept as a set. The tick branch deduplicates, but the
  untick branch keeps the repeats of the previous array. Repeats usually
  come from reloading a saved role: a selected child is written both below
  its parent and at top level, so the path list of the reloaded forest
  holds it twice (`Scenarios.ReloadRepeatsChild`).

## Model

| member | source | states |
|---|---|---|
| `Tree.AllPaths` | src/features/menu/composables/useTreeLogic.ts:59-68 | no contract of its own; its contract is stated by `Tree.AllPathsPreOrder`, `Tree.InAllPaths` and `Tree.SubtreeInForest` |
| `Tree.DescendantPaths` | src/features/menu/composables/useTreeLogic.ts:70-79 | no contract of its own; its contract is stated by `Tree.DescendantPathsSpec` and `Tree.NotOwnDescendant` |
| `Tree.DescendantsOf` | src/features/menu/composables/useTreeLogic.ts:70-79 | no contract of its own; its contract is stated by `Tree.DescendantsOfSpec` |
| `Tree.ParentPathsFrom` | src/features/menu/composables/useTreeLogic.ts:81-95 | no contract of its own; its contract is stated by `Tree.ParentPathsFromSpec` |
| `Tree.ParentPaths` | src/features/menu/composables/useTreeLogic.ts:81-95 | no contract of its own; its contract is stated by `Tree.ParentPathsSpec`, `Tree.ParentPathsUnique` and `Tree.AncestorsNotBelow` |
| `Tree.FindNodeByPath` | src/features/menu/composables/useTreeLogic.ts:97-106 | no contract of its own; its contract is stated by `Tree.FindNodeByPathSpec`, `Tree.FindNodeByPathMatches` and `Tree.FindNodeByPathFound` |
| `Tree.DisplayLabel` | src/features/menu/composables/useTreeLogic.ts:21 | no contract of its own; the label rule it computes is stated in the contract of `Tree.ProcessNodes` |
| `Tree.ExpandAllNodes` | src/features/menu/composables/useTreeLogic.ts:50-57 | no contract of its own; its contract is stated by `Tree.ExpandAllNodesSpec` |
| `Tree.AllPathsPreOrder` | src/features/menu/composables/useTreeLogic.ts:59-68 | the path list is the path of every node in pre-order, one entry per node |
| `Tree.InAllPaths` | src/features/menu/composables/useTreeLogic.ts:59-68 | a path is listed exactly when it is some root's path or is listed below some root |
| `Tree.SubtreeInForest` | src/features/menu/composables/useTreeLogic.ts:59-68 | every node of the forest has its path and all paths below it listed for the forest |
| `Tree.DescendantPathsSpec` | src/features/menu/composables/useTreeLogic.ts:70-79 | the descendant paths are the pre-order paths of the children's subtrees; the node's own path is included only if a node below it has the same path |
| `Tree.DescendantsOfSpec` | src/features/menu/composables/useTreeLogic.ts:70-79 | the paths collected below a list of children are the pre-order paths of their subtrees |
| `Tree.NotOwnDescendant` | src/features/menu/composables/useTreeLogic.ts:70-79 | with unique paths, no node at any depth is among its own descendants |
| `Tree.ParentPathsFromSpec` | src/features/menu/composables/useTreeLogic.ts:81-95 | the search with accumulator returns nothing for an absent path, the accumulator when the first occurrence is a root, and otherwise the accumulator extended by a root-to-parent chain |
| `Tree.ParentPathsSpec` | src/features/menu/composables/useTreeLogic.ts:81-95 | parent paths are empty iff the target is absent or first occurs as a root; when not empty they are the paths of a chain whose nodes are each a direct child of the previous one and whose last node has a child with the target path |
| `Tree.ParentPathsUnique` | src/features/menu/composables/useTreeLogic.ts:81-95 | with unique paths, a root has no parent paths and every chain leading to the target is exactly the returned one |
| `Tree.ChainTargetBelow` | src/features/menu/composables/useTreeLogic.ts:81-95 | the target of a parent chain is listed below the chain's root node |
| `Tree.ChainTargetNotRoot` | src/features/menu/composables/useTreeLogic.ts:81-95 | with unique paths, no root carries the target of a parent chain |
| `Tree.ChainUnique` | src/features/menu/composables/useTreeLogic.ts:81-95 | with unique paths, a target has at most one root-to-parent chain |
| `Tree.AncestorsNotBelow` | src/features/menu/composables/useTreeLogic.ts:81-95 | with unique paths, for any node the ancestor paths collected for its path and its descendant paths share nothing, and its own path is not among its ancestor paths |
| `Tree.FindNodeByPathSpec` | src/features/menu/composables/useTreeLogic.ts:97-106 | the search returns the first node in pre-order whose path is the one searched for, and nothing exactly when the path is not listed |
| `Tree.FindNodeByPathMatches` | src/features/menu/composables/useTreeLogic.ts:97-106 | any node the search returns has the searched path |
| `Tree.FindNodeByPathFound` | src/features/menu/composables/useTreeLogic.ts:97-106 | a listed path is always found, as a node of the forest with that path |
| `Tree.ProcessNodes` | src/features/menu/composables/useTreeLogic.ts:18-25 | processing keeps the number of nodes and each node's path, icon and number of children; the label is the name when the name is present and non-empty, and the label otherwise |
| `Tree.ProcessNodesDeep` | src/features/menu/composables/useTreeLogic.ts:18-25 | the label rule, path, icon and the processing of children hold for the nodes at every depth |
| `Tree.ProcessNodesRoundTrip` | src/features/menu/composables/useTreeLogic.ts:18-25 | processing nodes that carry no name gives back the same tree |
| `Tree.ExpandAllNodesSpec` | src/features/menu/composables/useTreeLogic.ts:50-57 | expanding keeps the paths already expanded and appends, in pre-order, exactly the paths of nodes that have children |
| `Seqs.Dedup` | src/features/menu/composables/useTreeLogic.ts:142-146 | `Array.from(new Set(xs))` has the same elements as its input |
| `Seqs.DedupSpec` | src/features/menu/composables/useTreeLogic.ts:142-146 | the deduplicated array has no repeats and keeps the first-occurrence order of its input |
| `Seqs.DedupAppendPresent` | src/features/menu/composables/useTreeLogic.ts:142-146 | appending elements that are already present does not change the deduplicated array |
| `Selection.FirstMissing` | src/features/menu/composables/useTreeLogic.ts:113-125 | the scan yields nothing iff every element is in the other collection; otherwise it yields the first element in order that is missing from it |
| `Selection.ChangedPath` | src/features/menu/composables/useTreeLogic.ts:112-128 | the changed path is never empty; a removed path is the first removal; an added path is used only when there is no non-empty first removal; equal sets give no change |
| `Selection.DropSubtree` | src/features/menu/composables/useTreeLogic.ts:135-138 | the untick filter gives an order-preserving subsequence without the path and its descendants that keeps every other entry as often as it occurred |
| `Selection.DropSubtreeKeepsAll` | src/features/menu/composables/useTreeLogic.ts:135-138 | the untick filter leaves a selection untouched when it holds neither the path nor any descendant |
| `Selection.UpdateSelection` | src/features/menu/composables/useTreeLogic.ts:108-150 | no contract of its own; its contract is stated by `Selection.UpdateSelectionUntick`, `Selection.UpdateSelectionTick`, `Selection.UpdateSelectionTickOrder`, `Selection.UpdateSelectionUnchanged` and `Selection.UpdateSelectionEmptyTree` |
| `Selection.UpdateSelectionUntick` | src/features/menu/composables/useTreeLogic.ts:131-138 | when the first removal is in the tree, the new selection is the previous one with that path and all paths below its node removed and every other entry kept in order |
| `Selection.UpdateSelectionTick` | src/features/menu/composables/useTreeLogic.ts:139-146 | when the first addition is in the tree, the new selection has no repeats, holds exactly the ticked paths and the parent paths, and lists ticked paths before parent paths |
| `Selection.UpdateSelectionTickOrder` | src/features/menu/composables/useTreeLogic.ts:142-146 | when the first addition is in the tree, the new selection lists the ticked and then the parent paths once each, in the order of their first occurrence |
| `Selection.UpdateSelectionUnchanged` | src/features/menu/composables/useTreeLogic.ts:128-130 | the selection is unchanged when the reported and previous paths are equal as sets, when nothing changed, or when the changed path is not in the tree |
| `Selection.UpdateSelectionEmptyTree` | src/features/menu/composables/useTreeLogic.ts:128-130 | with an empty tree every changed path is missing from it, so the selection stays as it was |
| `Selection.UnreportedUntickIgnored` | src/features/menu/composables/useTreeLogic.ts:108-126 | when every previously selected path is still reported, no previously selected path is lost |
| `Selection.TickSelectsAncestors` | src/features/menu/composables/useTreeLogic.ts:139-146 | with unique paths, ticking a node selects every node on its chain from the root |
| `Selection.ToggleRoundTrip` | src/features/menu/composables/useTreeLogic.ts:108-150 | ticking a path and then unticking it gives back a duplicate-free selection that already held the path's ancestors and none of its descendants |
| `Persistence.Keep` | src/features/menu/composables/useTreeLogic.ts:209-211 | the kept entries are exactly those of the selection found in the tree |
| `Persistence.SelectedChildren` | src/features/menu/composables/useTreeLogic.ts:219-228 | the children kept on save are an order-preserving subsequence of the source's children; a child is kept iff its path is selected, and each selected child as often as it occurs |
| `Persistence.SelectedChildrenPaths` | src/features/menu/composables/useTreeLogic.ts:219-228 | the kept children carry exactly the selected paths among the children's paths, in source order |
| `Persistence.GrandchildCopy` | src/features/menu/composables/useTreeLogic.ts:229-234 | no contract of its own; its contract is stated by `Persistence.ChildCopyIsPrune` and `Persistence.GrandchildrenAreLeaves` |
| `Persistence.ChildCopy` | src/features/menu/composables/useTreeLogic.ts:222-236 | no contract of its own; its contract is stated by `Persistence.ChildCopyIsPrune` |
| `Persistence.TopCopy` | src/features/menu/composables/useTreeLogic.ts:212-237 | no contract of its own; its contract is stated by `Persistence.TopCopyIsPrune` |
| `Persistence.EmitSelected` | src/features/menu/composables/useTreeLogic.ts:209-241 | no contract of its own; its contract is stated by `Persistence.EmitSelectedPaths`, `Persistence.SavedEntriesArePrunes` and `Persistence.EmitEmptyTree` |
| `Persistence.SelectedNodesData` | src/features/menu/composables/useTreeLogic.ts:206-244 | no contract of its own; its contract is stated by `Persistence.SelectedNodesDataSpec` and `Persistence.SavedPaths` |
| `Persistence.PruneChildren` | src/features/menu/composables/useTreeLogic.ts:212-236 | a projected node copies its source's path, label and icon; at depth 0 it has no children, and otherwise each child is the projection of a selected direct child of the source |
| `Persistence.PruneKeepsSelected` | src/features/menu/composables/useTreeLogic.ts:219-236 | below the cut-off, every selected direct child of the source yields a child of the projection, and the children's paths are the selected children's paths in source order |
| `Persistence.PrunePaths` | src/features/menu/composables/useTreeLogic.ts:219-236 | every path below a projected node is selected and lies below its source node |
| `Persistence.ChildCopyIsPrune` | src/features/menu/composables/useTreeLogic.ts:222-236 | the copy written for a selected child is its projection to depth 1 onto the selection |
| `Persistence.TopCopyIsPrune` | src/features/menu/composables/useTreeLogic.ts:212-236 | the entry written for a found node is its projection to depth 2 onto the selection |
| `Persistence.GrandchildrenAreLeaves` | src/features/menu/composables/useTreeLogic.ts:229-234 | grandchildren in a saved entry have no children |
| `Persistence.EmitSelectedPaths` | src/features/menu/composables/useTreeLogic.ts:209-241 | the saved entries carry, in order, the selected paths that are found in the tree |
| `Persistence.SavedEntriesArePrunes` | src/features/menu/composables/useTreeLogic.ts:206-244 | each saved entry is the depth-2 projection of the node its path finds in the tree |
| `Persistence.SelectedNodesDataSpec` | src/features/menu/composables/useTreeLogic.ts:206-244 | the saved forest has one entry per selected path found in the tree, in selection order; each is the depth-2 projection of the node found; everything below an entry is selected; grandchildren have no children |
| `Persistence.SavedPaths` | src/features/menu/composables/useTreeLogic.ts:206-244 | a path occurs anywhere in the saved forest exactly when it is selected and in the tree |
| `Persistence.EmitEmptyTree` | src/features/menu/composables/useTreeLogic.ts:209-241 | with an empty tree no selected path is found, so nothing is written |
| `Persistence.SaveEmptyTree` | src/features/menu/composables/useTreeLogic.ts:206-259 | with an empty tree the saved forest is empty, and a save with a truthy role sends that role with an empty forest |
| `Persistence.SaveSelection` | src/features/menu/composables/useTreeLogic.ts:246-259 | a save is refused iff no truthy role is selected; otherwise it carries that role and one entry per selected path found in the tree, in selection order, each being the depth-2 projection onto the selection of the node its path finds |
| `Persistence.OnRoleChange` | src/features/menu/composables/useTreeLogic.ts:168-204 | a falsy role id keeps the selection; absent, empty, failed or unusable permissions give exactly `["/"]`; otherwise the selection is the pre-order path list of the permission forest |
| `Persistence.SaveThenLoad` | src/features/menu/composables/useTreeLogic.ts:168-244 | loading a saved selection gives back, as a set, exactly the selected paths that are in the tree; an empty save delivered as an array gives `["/"]` |
| `Scenarios.TickPageSelectsSection` | src/features/menu/composables/useTreeLogic.ts:139-146 | ticking `/admin/users` gives `["/admin/users", "/admin"]` |
| `Scenarios.UntickSectionClearsIt` | src/features/menu/composables/useTreeLogic.ts:133-138 | unticking `/admin` after that gives the empty selection |
| `Scenarios.TickThenUntickKeepsSection` | src/features/menu/composables/useTreeLogic.ts:133-138 | unticking the page again leaves `["/admin"]`, so the ancestor added by the tick stays |
| `Scenarios.EmptyRoleGetsDefault` | src/features/menu/composables/useTreeLogic.ts:168-204 | a role with an empty permission array, or whose request fails, gets `["/"]` |
| `Scenarios.SaveExamples` | src/features/menu/composables/useTreeLogic.ts:206-254 | a save without a role is refused, and a selected section is written with its selected page, with the page also written at top level |
| `Scenarios.ReloadRepeatsChild` | src/features/menu/composables/useTreeLogic.ts:168-244 | reloading the saved section and page gives `["/admin", "/admin/users", "/admin/users"]`, with the page listed twice |

## Left out

- Vue reactivity and lifecycle (`ref`, `onMounted`, `nextTick`), Quasar notifications and console logging: UI plumbing with no stated behaviour.
- The network calls in `loadTreeData`, `loadRoles`, `saveSelection` and `onRoleChange`. The permissions that arrive for a role are an input (`RolePayload`). `loadRoles` does nothing except that fetch.
- `loadTreeData` only fetches and logs; its call to `processNodes` and `expandAllNodes` is commented out, and so is the assignment of the tree. Both functions are modelled on their own. The composable therefore never fills the tree itself: the tree is whatever the consuming page assigns to the returned reference. While it keeps its initial value `[]`, every toggle leaves the selection unchanged (`Selection.UpdateSelectionEmptyTree`) and every save writes an empty forest (`Persistence.SaveEmptyTree`).
- `JSON.parse` and `JSON.stringify`. The outcome of decoding is part of the input. The request built by `SaveSelection` is not serialised.
- `Persistence.OnRoleChange`: a decoded array whose entries are not menu nodes is not modelled; such an array is either a forest of `Node`s or counts as unusable.
- `Persistence.SaveSelection`: the outcome of the save request is not modelled. Neither are the notifications shown after a success or a failure.
- `Tree.ProcessNodes`: the `tickable: true` flag and the other fields that the object spread copies are not modelled. They play no part in selection.
- A role id that is `NaN` or `undefined` is not modelled. Only `null` and `0` are falsy here.
- Overlapping saves and out-of-order responses: these are about concurrency, not sequential logic.
- `src/services/menuServices.ts`, `src/stores/auth.ts` and `src/router/routes.ts`: HTTP wrappers, a login store and a route table, with no selection logic. The repository that the composable actually imports (`../infrastructure/menu.api`) is not part of this model.
