# Family tree core, modelled in Dafny

The project models the logic at the heart of a genealogy ("zupu") web application.
People are stored as a flat list of records, each pointing at its parent through
`parentId`. On top of that list the application:

- names the relationship between any two people. It traces both ancestry paths up
  to the lowest common ancestor and reads a Chinese kinship term off the pair
  (generations up, generations down). Sibling ranks come from birth order.
- prepares the list for a tree layout. It finds the roots, joins several roots
  under a synthetic root, orders each parent's children (daughters split around
  the sons, each group by birth date) and gives every shown node its depth.
- fits the laid-out nodes into the viewport with a clamped zoom.
- lets a person's card be dragged. A 3-pixel threshold tells a drag from a click.
- edits the list. It collects a person's live descendants, soft-deletes a whole
  branch, restores one record, adds a child or an ancestor and saves an edited
  record. Around these sit selection and the delete dialog.

Modules, one per file:

| file | module | what it holds |
|---|---|---|
| family_types.dfy | FamilyTypes | the person record, id lookups (`Map` and `find`), `map` and `filter` over lists |
| ancestry.dfy | Ancestry | the ancestry walk and its guarantees |
| birth_order.dfy | BirthOrder | comparing birth dates, the sort by birth date (as a function and in place on an array) |
| kin_terms.dfy | KinTerms | rank words, decimal numbers, the table of kinship terms |
| kinship.dfy | Kinship | sibling rank, lowest common ancestor, the relationship label and its worked examples |
| layout.dfy | Layout | roots, the synthetic root, when the hierarchy builder accepts the list, node depths |
| child_order.dfy | ChildOrdering | the order of each parent's children |
| viewport.dfy | Viewport | bounding box, fit scale, centring transform |
| interaction.dfy | Interaction | the drag session of a card, moving a node |
| records.dfy | Records | descendants, the active/deleted split, the list edits |
| app_state.dfy | AppState | the application state as a class whose handlers update it |

Conventions:

- Birth dates are `Option<int>` day numbers. `None` stands for an empty or
  unparseable date. JavaScript turns such a date into NaN, so every `<`
  involving it is false.
- An empty or unparseable date becomes NaN (components/FamilyGraph.tsx:38,
  :99, :111, :126, :406-407), so every `<` involving it is false and it is not
  treated as the earliest date.
- The canvas coordinates and the zoom are `real`.
- Saving to the server, the AI calls and the clock are not modelled. Fresh ids
  (`generateId()`) come in as a parameter `newId`.

## Model

| member | source | states |
|---|---|---|
| FamilyTypes.MemberMap | components/FamilyGraph.tsx:47 | every record's id is a key of the table, and each key maps to a record carrying that id |
| FamilyTypes.MemberMapValue | components/FamilyGraph.tsx:47 | every value of the table is one of the records |
| FamilyTypes.MemberMapFindsEach | components/FamilyGraph.tsx:47 | with unique ids, the table returns each record under its own id |
| FamilyTypes.Find | App.tsx:325 | the result, when present, is a listed record with that id; it is absent exactly when no record has the id |
| FamilyTypes.Filter | App.tsx:114 | the result keeps exactly the elements that pass, and is no longer than the input |
| FamilyTypes.FilterConcat | App.tsx:114 | filtering distributes over concatenation, so it keeps the original order |
| Ancestry.AncestryPathProperties | components/FamilyGraph.tsx:49-57 | on acyclic data with unique ids the path starts with the person and follows `parentId` id by id. It stops exactly at a record whose parent id is falsy or unknown, never repeats an id and is at most as long as the list |
| Ancestry.PathShape | components/FamilyGraph.tsx:52-54 | each later id is in the table and is the parent id of the record before it; a walk that ends by itself ends at a record without a known parent |
| Ancestry.FuelIndependent | components/FamilyGraph.tsx:52 | once the walk stops by itself, a larger step bound gives the same path |
| Ancestry.PathNoRepeats | components/FamilyGraph.tsx:49-57 | a walk that ends by itself never repeats an id |
| Ancestry.GetAncestryPath | components/FamilyGraph.tsx:49-57 | the `while` loop pushing parent ids computes exactly the ancestry path |
| BirthOrder.SortByBirthPermutes | components/FamilyGraph.tsx:38 | the sort by birth date only reorders: the result is a permutation of its input |
| BirthOrder.SortByBirthAscending | components/FamilyGraph.tsx:38 | with every date valid, the sorted list is in ascending birth order |
| BirthOrder.SortInPlace | components/FamilyGraph.tsx:38 | sorting an array in place leaves it holding the sorted list of its old contents |
| KinTerms.DecimalRoundTrip | components/FamilyGraph.tsx:31 | the decimal string of a number reads back as that number |
| KinTerms.ToChineseNumInjective | components/FamilyGraph.tsx:27-32 | different ranks always get different rank words |
| KinTerms.ToChineseNumForms | components/FamilyGraph.tsx:27-32 | ranks below 10 get one non-digit character; from 10 on, the decimal digits of the rank |
| KinTerms.AncestorTermInjective | components/FamilyGraph.tsx:76-82 | the ancestor terms tell every generation apart |
| KinTerms.KinTermFallback | components/FamilyGraph.tsx:95-133 | every (up, down) pair outside the six handled shapes gets the generic term 族亲 |
| Kinship.SiblingGroup | components/FamilyGraph.tsx:37 | holds exactly the listed records with that parent id and gender |
| Kinship.Siblings | components/FamilyGraph.tsx:37 | holds exactly the listed records with the person's parent id (null matching null) and gender |
| Kinship.IndexOfId | components/FamilyGraph.tsx:39 | the first position holding the id, or -1 exactly when no position does |
| Kinship.FindIndex | components/FamilyGraph.tsx:39 | the linear search returns what `IndexOfId` specifies |
| Kinship.IndexOfIdIs | components/FamilyGraph.tsx:39 | a position satisfying the first-occurrence conditions is the one `IndexOfId` gives |
| Kinship.GetSiblingRank | components/FamilyGraph.tsx:35-40 | filtering, sorting an array in place and searching computes exactly the specified rank |
| Kinship.SiblingRankBounds | components/FamilyGraph.tsx:35-40 | a listed person's rank lies between 1 and the number of same-gender siblings |
| Kinship.SiblingRankEldest | components/FamilyGraph.tsx:35-40 | a dated person born strictly before every other sibling ranks 1 |
| Kinship.RankPosition | components/FamilyGraph.tsx:38-39 | the rank minus one is the person's position in the sorted siblings |
| Kinship.SiblingRankOrder | components/FamilyGraph.tsx:35-40 | among dated siblings with distinct dates, a smaller rank means born earlier (both directions), and different people get different ranks |
| Kinship.RankInjective | components/FamilyGraph.tsx:35-40 | two different same-gender siblings never share a rank, whatever their dates (missing and equal ones included) |
| Kinship.AscendingStrict | components/FamilyGraph.tsx:38 | in a sorted dated list, position order and date order agree for different dates |
| Kinship.FirstCommon | components/FamilyGraph.tsx:62-68 | absent exactly when no id of the center path lies on the target path; otherwise an id on both paths |
| Kinship.IndexOf | components/FamilyGraph.tsx:72-73 | the first position of the id |
| Kinship.FirstCommonAt | components/FamilyGraph.tsx:62-68 | the lowest common ancestor is the id at the first center-path position found on the target path |
| Kinship.LcaIsFirst | components/FamilyGraph.tsx:62-73 | no center-path id before `up` lies on the target path |
| Kinship.Generations | components/FamilyGraph.tsx:59-73 | `up` and `down` index the same id on the two paths, and no lower ancestor of the center lies on the target path; there is no result exactly when the first center-path id found on the target path is missing or empty |
| Kinship.FatherOf | components/FamilyGraph.tsx:108-109 | the father, when found, is a listed record whose id is the center's parent id |
| Kinship.RelationshipLabel | components/FamilyGraph.tsx:44-134 | 本尊 for the same id; otherwise no label exactly when the two paths share no truthy id |
| Kinship.CalculateRelationshipLabel | components/FamilyGraph.tsx:44-134 | both walks, the `for`/`break` search and the classification compute exactly the specified label |
| Kinship.AncestorPathIsSuffix | components/FamilyGraph.tsx:49-57 | the path from any ancestor on a person's path is the rest of that path |
| Kinship.LabelDefinedIffPathsMeet | components/FamilyGraph.tsx:62-70 | on a well-formed tree, two different listed people get a label exactly when their ancestry paths meet |
| Kinship.DirectAncestorLabel | components/FamilyGraph.tsx:76-82 | an ancestor u generations up is named 父亲, 祖父, 曾祖, 高祖 or "u世祖" |
| Kinship.DirectDescendantLabel | components/FamilyGraph.tsx:85-93 | a descendant d generations down is named by rank for a child, 孙子/孙女 for d = 2, "d世孙" beyond |
| Kinship.SiblingLabel | components/FamilyGraph.tsx:96-102 | two people with the same known parent are named by rank word plus elder/younger brother or sister |
| Kinship.UncleLabel | components/FamilyGraph.tsx:105-117 | a different child of the center's grandparent than the center's father is named by rank word plus 伯 (male, born before the father), 叔 (other males) or 姑 |
| Kinship.NephewLabel | components/FamilyGraph.tsx:120-122 | a child of a different sibling of the center is 侄子 (male) or 侄女 |
| Kinship.CousinLabel | components/FamilyGraph.tsx:125-131 | a child of a different sibling of the center's father is 堂 plus elder/younger brother or sister |
| Kinship.PathStep | components/FamilyGraph.tsx:49-57 | a listed person with a parent in the table walks to that listed parent and continues along the parent's own path |
| Kinship.JoinAt | components/FamilyGraph.tsx:62-73 | two paths that share only their upper part meet first at its bottom, at the lengths of the two lower parts |
| Kinship.EldestSonLabel | components/FamilyGraph.tsx:86-89 | a first-ranked son is named 长子 by his father |
| Kinship.ElderBrotherLabel | components/FamilyGraph.tsx:96-100 | a first-ranked, earlier-born brother is named 大兄 |
| Kinship.ExampleWellFormed | tests/frontend/Logic.test.ts:6-12 | the test family is a well-formed tree |
| Kinship.ExamplePaths | tests/frontend/Logic.test.ts:6-12 | the ancestry paths of the test family |
| Kinship.ExampleAncestorLabels | tests/frontend/Logic.test.ts:14-49 | the test family's root is 父亲, 祖父 and 曾祖 of the son, grandson and great-grandson |
| Kinship.ExampleDescendantLabels | tests/frontend/Logic.test.ts:19-43 | seen from the root, the first son is 长子 and the grandson 孙子 |
| Kinship.ExampleSiblingLabel | tests/frontend/Logic.test.ts:25-33 | seen from the second son, the first son is 大兄 |
| Kinship.ExampleEldestSon | tests/frontend/Logic.test.ts:19-23 | the first son ranks first among the root's sons |
| Layout.Roots | components/FamilyGraph.tsx:377 | holds exactly the listed records whose parent id is falsy or names no record |
| Layout.FindInRoots | components/FamilyGraph.tsx:391 | with unique ids, a record's id is among the roots' ids exactly when the record is a root |
| Layout.JoinedShape | components/FamilyGraph.tsx:380-393 | joining appends the synthetic root, re-parents exactly the roots to it and leaves every other record as it was |
| Layout.JoinedStratifies | components/FamilyGraph.tsx:380-400 | with several roots, the joined list is accepted by the hierarchy builder |
| Layout.ClearedStratifies | components/FamilyGraph.tsx:399-400 | with one root, the corrected list is accepted by the hierarchy builder |
| Layout.SomeRoot | components/FamilyGraph.tsx:394-396 | a non-empty acyclic list always has a root, so the early return needs a cycle |
| Layout.NodesOf | components/FamilyGraph.tsx:416-429 | no node is the synthetic root, and each node carries its record's id |
| Layout.LayoutOf | components/FamilyGraph.tsx:398-431 | nodes are produced only for non-empty data with a root that the hierarchy builder accepts, and never include the synthetic root |
| Layout.CalculateLayoutAsWritten | components/FamilyGraph.tsx:372-396 | non-empty data without a root skips the layout |
| Layout.CalculateLayout | components/FamilyGraph.tsx:372-396 | non-empty data without a root skips the layout |
| Layout.LayoutMatchesData | components/FamilyGraph.tsx:416-429 | on valid data the layout lists one node per record in record order. The synthetic root is never shown, and each depth is the number of ancestors above the record, so the shift undoes the synthetic level |
| Layout.AsWrittenDanglingRootSkips | components/FamilyGraph.tsx:377-400 | as written, a single root whose truthy parent id names no record skips the layout |
| Layout.AsWrittenAgrees | components/FamilyGraph.tsx:377-400 | outside that case the code as written and the corrected layout agree |
| Layout.DanglingRootExample | components/FamilyGraph.tsx:377-400 | a one-record list whose parent id is dangling is laid out by nothing |
| Layout.DanglingRootCorrected | components/FamilyGraph.tsx:377-400 | the corrected layout shows that record alone at depth 0 |
| ChildOrdering.ChildOrderPermutes | components/FamilyGraph.tsx:402-411 | the new child order is a permutation of the children, of length males plus non-males |
| ChildOrdering.ChildOrderGroups | components/FamilyGraph.tsx:404-409 | position i holds a male exactly when floor(F/2) <= i < floor(F/2) + M |
| ChildOrdering.ChildOrderAscending | components/FamilyGraph.tsx:406-409 | with valid dates, the males are in birth order and so are the females across both halves |
| ChildOrdering.OrderChildren | components/FamilyGraph.tsx:403-410 | filtering, sorting both arrays in place and splicing gives exactly the specified order |
| ChildOrdering.ReorderAll | components/FamilyGraph.tsx:402-411 | every node's child list is replaced by its reordering |
| Viewport.MinOf | components/FamilyGraph.tsx:438 | the least of the values, and one of them |
| Viewport.MaxOf | components/FamilyGraph.tsx:439 | the greatest of the values, and one of them |
| Viewport.BoundingBox | components/FamilyGraph.tsx:438-441 | the box contains every node |
| Viewport.FitScale | components/FamilyGraph.tsx:449 | the scale lies in [0.1, 0.8] and equals the fitting ratio whenever that ratio is in range |
| Viewport.FitTransform | components/FamilyGraph.tsx:452-458 | the composed transform has its scale in [0.1, 0.8] |
| Viewport.AutoFit | components/FamilyGraph.tsx:433-458 | a transform exists exactly when there are nodes, with its scale in [0.1, 0.8] |
| Viewport.FitTransformCentres | components/FamilyGraph.tsx:452-458 | the box centre is shown at the container centre |
| Viewport.FitTransformShowsBox | components/FamilyGraph.tsx:443-458 | unless the lower clamp took over, every point of the box is shown inside the container |
| Viewport.AutoFitShowsAll | components/FamilyGraph.tsx:438-458 | the auto-fit view centres the nodes' box and, unless clamped from below, shows every node |
| Interaction.MoveNode | components/FamilyGraph.tsx:488-490 | only nodes with the given id change, and only their x and y; length, order, ids, data and depth are kept |
| Interaction.MoveNodeTwice | components/FamilyGraph.tsx:488-490 | moving a node twice leaves it where the second move put it |
| Interaction.MoveNodeCommutes | components/FamilyGraph.tsx:488-490 | moves of different nodes commute |
| Interaction.MoveNodeAbsent | components/FamilyGraph.tsx:488-490 | moving an id no node carries changes nothing |
| Interaction.LastBeyondNone | components/FamilyGraph.tsx:198-201 | a gesture reports no position exactly when no position crosses the threshold |
| Interaction.DragSession.constructor | components/FamilyGraph.tsx:179-181 | the session starts at (0, 0) with nothing moved |
| Interaction.DragSession.Start | components/FamilyGraph.tsx:189-191 | press records the start and clears the moved mark |
| Interaction.DragSession.Drag | components/FamilyGraph.tsx:198-201 | a position is reported exactly when it is more than 3 pixels from the start on some axis; the moved mark is set then and stays set |
| Interaction.DragSession.End | components/FamilyGraph.tsx:210-212 | release selects exactly when nothing moved |
| Interaction.RunGesture | components/FamilyGraph.tsx:186-212 | a whole gesture leaves the node at the last position beyond the threshold, and selects exactly when no position crossed it |
| Records.LiveChildren | App.tsx:15 | holds exactly the listed live records whose parent id is the given id |
| Records.DescendantsSound | App.tsx:14-21 | every collected id belongs to a listed record hanging below the start through live records |
| Records.DescendantsComplete | App.tsx:14-21 | every listed record hanging below the start through live records is collected |
| Records.GetDescendantsExact | App.tsx:14-21 | on a well-formed tree, a record is collected exactly when it descends from the start through live records |
| Records.GetDescendantsListed | App.tsx:14-21 | every collected id names a listed live descendant |
| Records.GetDescendantsExcludesSelf | App.tsx:14-21 | a person is never among their own collected descendants |
| Records.DeletedChildBlocks | App.tsx:15 | the children of a deleted record are not collected from any other start |
| Records.ActiveDeletedPartition | App.tsx:114-115 | the active and deleted lists split the records by the flag without loss or overlap |
| Records.ActiveDeletedKeepOrder | App.tsx:114-115 | both lists keep list order: splitting the list splits them |
| Records.DeleteCascadeMarks | App.tsx:303-309 | after the cascade a record is deleted exactly when it already was, is the target or descends from it through live records. Only the flag changes, and length and order are kept |
| Records.DeleteCascadeActive | App.tsx:303-309 | the target and its live descendants leave the active list and every other active record stays |
| Records.ReplaceByIdLookup | App.tsx:428-430 | saving a record keeps ids, order and uniqueness; looking up its id gives the new record, any other id what it gave before |
| Records.FindReplaced | App.tsx:430 | lookups after a replacement, for every id |
| Records.ReplaceByIdIdempotent | App.tsx:430 | saving the same record twice changes nothing more |
| Records.RestoreOnlyTarget | App.tsx:324-330 | restoring clears the flag of that one record and leaves every other record, its descendants included, as it was |
| Records.DeleteThenRestore | App.tsx:301-331 | deleting a live person and restoring them brings back only that person; their live descendants stay deleted |
| Records.AddChildAppends | App.tsx:333-342 | one live male record is appended under the parent, with the parent's address or "" |
| Records.AddChildCollected | App.tsx:333-342 | the new child is the parent's last live child and is collected among the parent's descendants |
| Records.AddParentRewires | App.tsx:348-359 | the new ancestor is appended with the child's old parent id, the child points at it, and every other record stays |
| AppState.FamilyApp.constructor | App.tsx:68-109 | the initial state: nothing selected, all panels closed, dialog closed, empty form |
| AppState.FamilyApp.OnSelect | App.tsx:282-293 | on the selected person only the details open; on another person it selects them, closes details, leaves edit mode and clears the answers and comparison |
| AppState.FamilyApp.OnDeselect | App.tsx:295-299 | nothing changes when nothing is selected; otherwise the selection is cleared and the details closed |
| AppState.FamilyApp.HandleDeleteNode | App.tsx:366-369 | the dialog opens for a listed person with their name; nothing changes otherwise |
| AppState.FamilyApp.ExecuteDelete | App.tsx:301-322 | no-op without a target. Otherwise the cascade is applied and the dialog closed, and the selection is cleared with details closed exactly when the selected id was removed |
| AppState.FamilyApp.HandleRestore | App.tsx:324-331 | the list becomes the restored list and nothing else changes |
| AppState.FamilyApp.HandleAddChildNode | App.tsx:333-346 | the child is appended, selected, loaded into the form and opened for editing |
| AppState.FamilyApp.HandleAddParentNode | App.tsx:348-364 | nothing for an unlisted child; otherwise the ancestor is inserted, selected, loaded into the form and opened for editing |
| AppState.FamilyApp.SaveEditForm | App.tsx:427-432 | the merged record replaces the record with its id and edit mode ends |

## Left out

- Coordinates from the tidy-tree layout (`d3.tree().nodeSize(...)`, components/FamilyGraph.tsx:413-414) are a library computation. Nodes are produced in record order, not in the hierarchy's breadth-first order, and carry no x/y.
- The hierarchy builder (`d3.stratify`) is modelled only by the conditions under which it succeeds: parents resolve uniquely, there is one root, and there are no cycles.
- Floating point: coordinates, the zoom and the 3-pixel test use exact reals.
- The `|| 0` fallbacks of the bounding box (components/FamilyGraph.tsx:438-441) only matter for an empty or NaN list, which the model does not produce.
- The zoom `scaleExtent`, the animated transition and the React, resize and event-propagation machinery.
- Server saves, the local backup, import/export, notifications and the AI calls. Saves leave the in-memory state as the handlers set it.
- `generateId()` is a parameter `newId`, and its freshness is not assumed.
- `calculateAge` reads the wall clock.
- JavaScript `Date` parsing: dates are day numbers or `None`.
- Ancestry.AncestryPath: the walk has a step bound of the list length. The code loops forever on a parent cycle, and the lemmas assume acyclic data.
- Records.GetDescendants: explores at most list-length generations. The code recurses without bound on a cycle, and the exactness lemma assumes a well-formed tree.
- AppState.Merged: the edit form is a whole record (`None` for the empty form `{}`), not a partial record merged field by field.
- AppState.FamilyApp.SaveEditForm: requires a listed selected person, because the save button exists only while one is shown.
- Kinship.SiblingRankOrder: the rank order is proved only for siblings whose dates are all valid and distinct (that different siblings get different ranks holds for all dates, see `Kinship.RankInjective`). With NaN dates the JavaScript sort order depends on the engine's algorithm; the model uses a stable insertion sort.

## Findings

| source | as written | input that shows it | evidently intended | confidence | as-written member | corrected member |
|---|---|---|---|---|---|---|
| components/FamilyGraph.tsx:377-400 | a record whose parent id is truthy but names no record counts as a root; with exactly one such root no synthetic root is added, so the hierarchy builder sees a dangling parent id and throws, and the layout is skipped | a branch is deleted and then one child of it is restored, so the active list is `[{id: "c", parentId: "p"}]` with `p` deleted | the single root is shown as the root of the tree at depth 0 | not executed | Layout.DanglingRootExample | Layout.DanglingRootCorrected |
