# LOST label tree and SIA state, in Dafny

This project models three small pieces of the LOST annotation tool and proves
properties of them.

- **The SIA reducer** (`frontend/lost/src/reducers/sia.js`). It holds the state of
  the single image annotation view. `SiaReducer.Reduce` is the reducer: a total,
  pure function from a state and an action to the next state. There is one
  `Action` constructor per action kind the reducer handles, and `Unknown` covers
  the `default` branch. JavaScript values are the `Js.Val` datatype. The two
  objects that are shallow-merged, `selectedAnno` and `uiConfig`, are maps from
  property name to value (`Js.Obj`). So "payload keys override, other keys
  survive" is stated directly.
- **The label tree** (`backend/lost/logic/label.py`, class `LabelTree`). The
  class is `LabelTreeModel.LabelTree`, with the fields `root` and `tree` (the
  idx-to-leaf index) that its methods update. The database manager is
  `LabelStore.Store`. It holds the stored leaves by idx, a fresh-id counter that
  `add` followed by `commit` draws from, and a log of deleted ids. A leaf's
  `label_leaves` are the stored leaves whose parent it is, in increasing idx
  order (`LabelStore.Children`). A subtree is defined independently, by following
  parent links (`LabelStore.InSubtree`). A row of an imported DataFrame is
  `LabelRows.Row`. `LabelRows.Plan` says which leaves `import_df` creates, in
  which order and under which parents.
- **The label info box** (`frontend/lost/src/components/SIA/InfoBoxes/LabelInfo.js`).
  `renderDescription`, `renderMeta` and `onDismiss` are pure functions of the
  props (`LabelInfoView`).

Two behaviours of the code are easy to miss; the model keeps both:

- The initial selection has the key `annoId`, not `id`. Deselecting resets the
  selection to `{id: undefined}` (`sia.js:5`, `sia.js:43`).
- An empty `selectedLabelIds` does not always give "No Label". It looks up the id
  `undefined`, so it shows a label whose `id` is `undefined` if there is one
  (`LabelInfo.js:40`, lemma `EmptySelectionMatchesUndefinedId`).

## Model

| member | source | states |
|---|---|---|
| `Js.Spread` | frontend/lost/src/reducers/sia.js:38 | an object spread `{...base, ...patch}` has exactly the keys of both; the patch's values win and every other key of base keeps its value |
| `SiaReducer.Initial` | frontend/lost/src/reducers/sia.js:2-25 | the initial state has no key held down or released and a counter of 0. Its selection has the keys annoId, anno and type, all undefined, and no id. uiConfig is {nodeRadius: 4, strokeWidth: 4}. annos is an object. showSingleAnno, selectedTool, getNextImage and getPrevImage are undefined, and showLabelInput, fullscreenMode, imageLoaded and appliedFullscreen are false |
| `SiaReducer.Reduce` | frontend/lost/src/reducers/sia.js:27-126 | an unknown action returns the state itself. Only a request moves the counter, by exactly 1. Key-down sets keyDown and clears keyUp, key-up the reverse, so the two are never both defined. A truthy selection payload is shallow-merged, a falsy one resets the selection to {id: undefined}. The UI config is shallow-merged. The labels become an element-wise copy of the payload, and each setter stores its payload |
| `SiaReducer.ReduceFrame` | frontend/lost/src/reducers/sia.js:29-122 | every field an action does not name keeps its value (the `...state` spread) |
| `SiaReducer.RunCountsRequests` | frontend/lost/src/reducers/sia.js:113-117 | along any sequence of actions, requestAnnoUpdate grows by exactly the number of update requests, so it never decreases |
| `SiaReducer.NoRequestNoChange` | frontend/lost/src/reducers/sia.js:113-117 | a sequence of actions without an update request leaves the counter unchanged |
| `SiaReducer.RunKeepsKeysExclusive` | frontend/lost/src/reducers/sia.js:51-62 | from a state where keyDown and keyUp are not both defined, no sequence of actions reaches a state where they are |
| `SiaReducer.DeselectForgetsSelection` | frontend/lost/src/reducers/sia.js:40-44 | deselecting gives the same selection whatever the prior selection was |
| `SiaReducer.SelectMergesExample` | frontend/lost/src/reducers/sia.js:34-39 | selecting {type: "box"} over {id: 5, annotation: A, type: "point"} gives {id: 5, annotation: A, type: "box"} |
| `SiaReducer.UiConfigKeepsNodeRadius` | frontend/lost/src/reducers/sia.js:63-67 | setting {strokeWidth: 2} on the initial config keeps nodeRadius 4 |
| `LabelInfoView.FindById` | frontend/lost/src/components/SIA/InfoBoxes/LabelInfo.js:39-41 | `find` returns the first index whose label has the key as id, and nothing exactly when no label has it |
| `LabelInfoView.RenderDescription` | frontend/lost/src/components/SIA/InfoBoxes/LabelInfo.js:37-50 | absent or falsy selected ids give no content at all. Otherwise the first label whose id equals the first selected id gives its name and description. "No Label" appears exactly when ids are given and no label matches |
| `LabelInfoView.OnlyFirstIdMatters` | frontend/lost/src/components/SIA/InfoBoxes/LabelInfo.js:40 | two id lists with the same first id give the same description |
| `LabelInfoView.CatExample` | frontend/lost/src/components/SIA/InfoBoxes/LabelInfo.js:37-48 | with [{1, "Cat", "A cat"}], the ids [1] show Cat / A cat, while [2] and [] show "No Label" |
| `LabelInfoView.EmptySelectionMatchesUndefinedId` | frontend/lost/src/components/SIA/InfoBoxes/LabelInfo.js:39-42 | an empty id list matches a label whose id is undefined |
| `LabelInfoView.RenderMeta` | frontend/lost/src/components/SIA/InfoBoxes/LabelInfo.js:24-30 | the type line is shown exactly when the annotation's id is truthy, and it shows the annotation's type |
| `LabelInfoView.Dismiss` | frontend/lost/src/components/SIA/InfoBoxes/LabelInfo.js:32-36 | the onDismiss callback is called exactly once when it is given, and nothing is called otherwise |
| `LabelStore.Store.GetLabelLeaf` | backend/lost/logic/label.py:32 | the leaf stored under an idx, and nothing when no leaf is stored there |
| `LabelStore.Store.Add` | backend/lost/logic/label.py:94-95 | adding and committing a leaf stores it under the next fresh idx with the given name, parent and root flag. Its other attributes are NULL and the store's invariant is kept |
| `LabelStore.Store.Delete` | backend/lost/logic/label.py:56 | a delete appends the leaf's idx to the deletion log |
| `LabelStore.ChildrenSpec` | backend/lost/logic/label.py:44 | label_leaves lists each leaf whose parent is x exactly once, in increasing idx order, and nothing else |
| `LabelStore.SubtreeDecomposes` | backend/lost/logic/label.py:43-45 | the subtree of a stored leaf is the leaf plus the subtrees of its children |
| `LabelStore.PostOrderCorrect` | backend/lost/logic/label.py:47-56 | the deletion order of delete_subtree holds exactly the proper descendants of the leaf. The leaf itself is not in it, and each leaf comes after every leaf of its own subtree |
| `LabelStore.DescendantsFirstDistinct` | backend/lost/logic/label.py:47-56 | in such an order no leaf is deleted twice |
| `LabelStore.DeleteTreeOrder` | backend/lost/logic/label.py:58-62 | the deletions of delete_tree cover the root's whole subtree, with the root last and each leaf after its own descendants |
| `LabelTreeModel.LabelTree.constructor` | backend/lost/logic/label.py:19-33 | given a root leaf, only that leaf is indexed. Given a root id, the index holds exactly the stored leaves of that leaf's subtree, the root included, each under its own idx. Given neither, there is no root and the index is empty |
| `LabelTreeModel.LabelTree.CollectTree` | backend/lost/logic/label.py:35-45 | the index gains exactly the stored leaves of the subtree of the leaf, each under its idx |
| `LabelTreeModel.LabelTree.DeleteSubtree` | backend/lost/logic/label.py:47-56 | the deletion log grows by the post-order of the leaf's proper descendants (see `LabelStore.PostOrderCorrect`) |
| `LabelTreeModel.LabelTree.DeleteTree` | backend/lost/logic/label.py:58-62 | the deletion log grows by the post-order of the root's descendants and then the root (see `LabelStore.DeleteTreeOrder`) |
| `LabelTreeModel.LabelTree.CreateRoot` | backend/lost/logic/label.py:64-79 | a new root leaf is stored under the next fresh idx. It becomes the tree's root and is indexed under its idx |
| `LabelTreeModel.LabelTree.CreateChild` | backend/lost/logic/label.py:81-97 | a new leaf whose parent is parent_id is stored under the next fresh idx, indexed under it, and returned. Nothing else in the store or the index changes |
| `LabelTreeModel.LabelTree.DfRowToLeaf` | backend/lost/logic/label.py:159-188 | each of abbreviation, description, timestamp, external_id and is_deleted is copied from the row when the row has it, and is left unchanged otherwise |
| `LabelRows.AttrFrom` | backend/lost/logic/label.py:169-172 | an optional column's value comes from the row when the row has it, and is the current value otherwise |
| `LabelTreeModel.GroupByParent` | backend/lost/logic/label.py:226-230 | the child dictionary built row by row is the table's non-root rows grouped by parent id |
| `LabelRows.RowsWithParentSpec` | backend/lost/logic/label.py:226-230 | a group holds exactly the rows of the table with that parent id |
| `LabelRows.GroupedIsGroups` | backend/lost/logic/label.py:226-230 | every group lists rows of the table whose parent id is the group's key |
| `LabelTreeModel.LabelTree.CreateChildsFromDf` | backend/lost/logic/label.py:190-206 | the store gains, at consecutive fresh ids, exactly the leaves that the plan lists, in its order. Each leaf has its row's name and columns and hangs under the planned parent. The index gains exactly the new leaves |
| `LabelTreeModel.LabelTree.ImportRow` | backend/lost/logic/label.py:202-206 | one pass of that loop: the row's leaf is created under the parent, then everything below it |
| `LabelRows.PlanReachable` | backend/lost/logic/label.py:190-206 | every planned leaf comes from a row of the table. It hangs either under the starting leaf, its row naming that row's idx as parent, or under an earlier planned leaf whose row's idx it names. Rows not reachable through idx links are never imported |
| `LabelRows.PlanDirect` | backend/lost/logic/label.py:200-206 | the leaves created directly under a leaf are, in order, one per row listed under its row's idx |
| `LabelRows.PlanAllDirect` | backend/lost/logic/label.py:190-206 | when the depth bound reaches below the deepest chain of rows, the leaves created directly under any planned leaf are, in order, one per row listed under that leaf's row's idx |
| `LabelRows.PlanFuelEnough` | backend/lost/logic/label.py:190-206 | once the depth bound reaches below the deepest chain of rows, a larger bound gives the same leaves |
| `LabelRows.NoCycleBounded` | backend/lost/logic/label.py:190-206 | when no cycle of idx links can be reached from an idx, no chain of rows below that idx is longer than the table |
| `LabelRows.UnreachableLoopExample` | backend/lost/logic/label.py:200-206 | a table whose only cycle is a row listed under its own idx, apart from the root: the cycle is reachable from its own idx but not from the root's, and nothing is created below the root |
| `LabelRows.ImportCompleteHolds` | backend/lost/logic/label.py:190-232 | when no cycle of idx links can be reached from the root row, the leaves created directly under each leaf import_df creates are, in table order, the rows naming that leaf's row's idx as parent; and any larger depth bound gives the same leaves |
| `LabelRows.ImportPlannedHolds` | backend/lost/logic/label.py:190-232 | for every table, only rows reachable from the root row are imported and the root's children are the rows naming it as parent, in table order; the completeness above holds when no cycle of idx links can be reached from the root row |
| `LabelRows.RootPositions` | backend/lost/logic/label.py:214-215 | the positions of exactly the rows with a null parent id, in table order |
| `LabelRows.RootByLabel` | backend/lost/logic/label.py:224 | `root.loc[0]` finds a row exactly when the first root row is at position 0, and then it is that row |
| `LabelRows.FirstRoot` | backend/lost/logic/label.py:223 | the first row with a null parent id, when there is one |
| `LabelRows.RootByLabelMissesLaterRoot` | backend/lost/logic/label.py:223-224 | with a single root row that is not the first row, `root.loc[0]` finds nothing, while the positional lookup finds that row |
| `LabelRows.RootLastExample` | backend/lost/logic/label.py:224 | a concrete two-row table, child first and root second, on which the label lookup fails |
| `LabelTreeModel.LabelTree.ImportTree` | backend/lost/logic/label.py:223-232 | the root leaf is created from the root row with that row's columns. Then the planned children of the grouped table follow, and the index gains exactly the new leaves |
| `LabelTreeModel.LabelTree.ImportDfAsWritten` | backend/lost/logic/label.py:208-232 | a ValueError, with nothing created, exactly when the number of null-parent rows is not one. A KeyError exactly when the only root row is not the first row; the root leaf is then already stored, with the root row's name, no parent and NULL attributes. Otherwise the whole tree is imported as `ImportDf` states |
| `LabelTreeModel.LabelTree.ImportDf` | backend/lost/logic/label.py:208-232 | a ValueError, with nothing created, exactly when the number of null-parent rows is not one. Otherwise the tree is imported below its one root row (`LabelRows.ImportPlanned`): only rows reachable from it are imported, and the root's children are the rows naming it as parent, in table order. When no cycle of idx links can be reached from the root row, the same holds under every created leaf, and the depth bound cuts nothing |
| `LabelTreeModel.LabelTree.CollectDictTree` | backend/lost/logic/label.py:147-152 | the dictionary mirrors the leaf's subtree: its children lists follow label_leaves order at every level |
| `LabelTreeModel.LabelTree.ToHierarchicalDict` | backend/lost/logic/label.py:154-157 | the dictionary mirrors the root's subtree, and its nodes are exactly the stored leaves of that subtree |
| `LabelTreeModel.MirrorsLeaf` | backend/lost/logic/label.py:148-149 | a leaf without children gets an empty children list |
| `LabelTreeModel.MirrorsUnique` | backend/lost/logic/label.py:147-157 | the dictionary of a subtree is determined by the store: two mirrors of one leaf are equal |
| `LabelTreeModel.MirrorsIds` | backend/lost/logic/label.py:147-157 | the nodes of a stored leaf's dictionary are exactly the leaves of its subtree |

## Findings

| source | as written | input that shows it | evidently intended | confidence | as-written member | corrected member |
|---|---|---|---|---|---|---|
| backend/lost/logic/label.py:224,232 | the root row is read with `root.loc[0]`, a lookup by index label 0 | a table whose only root row is not its first row, e.g. a child row (idx 2, parent 1) followed by the root row (idx 1). The root leaf is created at line 223, and then the lookup raises KeyError | the first (only) root row, read by position as on line 223 (`root.iloc[0]`) | likely; not executed | `LabelTreeModel.LabelTree.ImportDfAsWritten` with `LabelRows.RootByLabelMissesLaterRoot` | `LabelTreeModel.LabelTree.ImportDf` |

## Left out

- The pipeline viewer (`ShowRunningPipeline.js`) is UI scaffolding with mock data and is not part of this model.
- `LabelTree.to_df` and `get_child_vec` are not modelled. They are pandas wrappers over `LabelLeaf.to_df`, which is not part of this model.
- The database is abstract. `commit` does nothing, `delete` is only logged (the leaf stays stored), and `add` takes the next value of a counter as idx. The order of `label_leaves` is taken to be increasing idx.
- Logging in `_df_row_to_leaf` and in the constructor is left out.
- `LabelTreeModel.LabelTree.constructor`: requires a given root id to name a stored leaf. The source fails with an AttributeError on a missing one.
- `LabelTreeModel.LabelTree.CreateChild`: requires the parent to be stored. The database would reject the foreign key at commit.
- `LabelTreeModel.LabelTree.CreateChildsFromDf`: the recursion is bounded by a depth (`fuel`). When a cycle of idx links can be reached from the parent row, the source recurses until Python raises RecursionError; the model stops at that depth instead. Cycles that cannot be reached are never visited, by the source or the model. `LabelRows.PlanFuelEnough` and `LabelRows.NoCycleBounded` show the bound cuts nothing when no cycle is reachable.
- `LabelTreeModel.LabelTree.ImportRow`: carries the same depth bound as `CreateChildsFromDf`, with the same consequence when a cycle is reachable from the row.
- `LabelTreeModel.LabelTree.ImportTree`: imports with the depth bound set to the table's length. When a cycle can be reached from the root row, it stops where the source raises RecursionError.
- `LabelTreeModel.LabelTree.ImportDfAsWritten`: when a cycle can be reached from the root row, its `Done` outcome stands where the source raises RecursionError after creating leaves; otherwise `LabelRows.ImportCompleteHolds` shows nothing is cut.
- `LabelTreeModel.LabelTree.ImportDf`: the same as `ImportDfAsWritten` when a cycle can be reached from the root row; completeness below the root's own children is stated only when none can.
- `LabelTreeModel.LabelTree.DeleteTree`: requires the tree to have a root. Without one the source fails with an AttributeError in `delete_subtree` (label.py:60 calling label.py:54).
- `LabelTreeModel.LabelTree.ToHierarchicalDict`: requires the tree to have a root. Without one the source fails with an AttributeError at label.py:155.
- `LabelStore.WellFormed`: the store invariant takes every stored leaf's parent to have a smaller idx than the leaf, as holds for leaves created through this class (a parent is stored before its children). Leaves re-parented to a later leaf and cyclic parent links are outside the model; on a cycle `__collect_tree`, `delete_subtree` and `__collect_dict_tree` would recurse without end. The termination of every recursive operation of the model rests on this order.
- `LabelTreeModel.LabelTree.CreateChild`: ensures the new leaf is not a root. The source does not set `is_root` and leaves it to the database column's default, taken here to be false.
- Leaf dictionaries (`LabelLeaf.to_dict`) are represented by the leaf's idx. `CollectDictTree` builds each child's dictionary before appending it; because of Python's aliasing, the source gives the same result.
- pandas details are left out: NaN parent ids are `None`, float and int ids compare equal, and a row's index label is its position (the default index).
- JavaScript numbers are integers (no NaN or fractions), and objects are maps, so property order is not modelled.
- A truthy selection payload that is not an object (a string spreads its characters) is not modelled. The selection payload is `None` (falsy) or its own properties.
- The reducer's default parameter (an undefined state means `INITIAL_STATE`) is left to the caller, who passes `SiaReducer.Initial()`.
- Exceptions from malformed payloads (`action.payload.key` of an undefined payload, a missing `possibleLabels`) are not modelled. Actions carry the values they need.
- React rendering, `InfoBox`, semantic-ui, Redux `connect` and the `TYPES` constant values are left out. Action kinds are an opaque enumeration.
