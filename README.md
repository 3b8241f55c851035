# qt_test_app tree editor: a verified model

qt_test_app is a PyQt desktop editor for a tree of integers. A `TreeViewModel` (a
`QStandardItemModel`) holds the tree. Every item's text is an integer. An item with rows
(a "node") shows the sum of its rows' values. An item without rows (a "leaf") holds its
own integer. The main window adds and deletes items, loads and saves nested lists,
colours the second level, and draws a per-level graph. A small generator produces random
nested lists.

This Dafny project models the logic under that GUI:

- `items.dfy` (module `Items`): the item tree as a value.
  - `Item(value, children, editable, background)`.
  - An item is addressed by its row path from the invisible root item. The empty path
    names the root itself, which is also what "no index" means to `add_item`.
  - Path lookup and replacement, and sums of rows.
- `models.dfy` (module `Models`): the operations of `TreeViewModel` (src/models.py).
  - Each operation is first a function on the tree, the reference definition. Lemmas say
    what it does: the sum rule it restores, the rows it adds or removes, what it leaves
    untouched.
  - The class `TreeViewModel` holds the tree in a field `root`. Its methods change that
    field as the source's methods change the item model, and each method is proved equal
    to its reference definition.
  - The load/save round trip is proved.
- `views.dfy` (module `Views`), the rules of `MainView` (src/views.py):
  - the graph pairs of `prepare_arr_for_graph`;
  - the index levels, the sort key and the deletion order of `delete_tree_item`, and why
    that order is safe;
  - the double-click editability rule;
  - the second-level colouring.

  The class `MainView` holds the model and runs the double-click, colouring and deletion
  methods.
- `tools.dfy` (module `Tools`): `gen_random_tree` (src/tools.py).
  - Each `random.randint(lo, hi)` is a nondeterministic choice in `[lo, hi]`.
  - The shape bounds are proved for every outcome.

Where the code and its design description differ, the model follows the code:

- Adding a first row does not make the item non-editable.
- Deleting the last row does not make the item editable again.
- In both cases the item keeps its flags until the next double click.
- Sums are propagated up to the top-level items. The invisible root item is never resummed.
- `load_data` does not establish the sum rule (see Findings). The class `TreeViewModel`
  loads as the code does. The corrected loader is proved beside it.

## Model

| member | source | states |
|---|---|---|
| Models.Resummed | src/models.py:27-32 | update_node_data: the item now obeys the sum rule. It keeps its rows, flags and brush, and the same path names it. |
| Models.ParentsResummed | src/models.py:15-24 | update_item_parents_data never changes the invisible root item's own attributes. |
| Models.ResummedAt | src/models.py:27-32 | update_node_data: the item takes the sum of its rows' values. The same paths exist, and every other item keeps its own attributes. Only the item's ancestors see a different subtree. |
| Models.ParentsResummedAt | src/models.py:15-24 | update_item_parents_data: every proper ancestor below the invisible root ends up showing the sum of its rows. The invisible root and every non-ancestor keep their attributes. Nothing outside the ancestor chain changes. |
| Models.ParentsResummedDelta | src/models.py:15-24 | When every ancestor obeyed the sum rule, a change of d in the item's value changes each ancestor by exactly d. |
| Models.Added | src/models.py:35-58 | add_item with no index appends one new leaf at the end of the top-level rows and changes nothing else. |
| Models.AddedRows | src/models.py:44-52 | The target's rows end with the new leaf. |
| Models.AddItemPromotes | src/models.py:44-55 | add_item on a childless item: its rows become exactly [old value, new value], in that order. It shows old + new, and keeps its flags and brush. |
| Models.AddItemExtends | src/models.py:50-55 | add_item on a node appends the new leaf after its rows. The node shows their sum, which grows by exactly the new value when it was summed before. |
| Models.AddItemAncestors | src/models.py:54-55 | Every ancestor of the target below the root shows the sum of its rows afterwards. It keeps its flags and brush; only its value changes. When the target and its ancestors obeyed the sum rule, each grows by exactly the new value. |
| Models.AddItemElsewhere | src/models.py:35-58 | add_item leaves the root's own attributes unchanged. Every item that is neither an ancestor nor a descendant of the target is also unchanged. |
| Models.AddItemKeepsSums | src/models.py:35-58 | A tree obeying the sum rule everywhere still obeys it after add_item. |
| Models.Without | src/models.py:68 | removeRow: the rows before i are kept, and those after i move up by one. |
| Models.Deleted | src/models.py:61-78 | Deleting a top-level row removes just that row and updates no other item. Any deletion leaves the invisible root item's own attributes unchanged. |
| Models.DeleteItemRemovesRow | src/models.py:64-75 | Exactly the indexed row leaves its parent's rows. A parent item then shows the sum of the rows left. One left without rows stays in the tree with value 0. The parent keeps its flags. |
| Models.DeleteItemAncestors | src/models.py:70-75 | Every ancestor of the removed row below the root shows the sum of its rows afterwards. It keeps its flags and brush; only its value changes. |
| Models.DeleteItemAncestorsLose | src/models.py:70-75 | When those ancestors obeyed the sum rule, each loses exactly the removed row's value. |
| Models.DeleteItemElsewhere | src/models.py:61-78 | delete_item leaves the root's own attributes unchanged. Every item that is neither an ancestor nor a descendant of the parent is also unchanged. |
| Models.DeleteItemKeepsSums | src/models.py:61-78 | A tree obeying the sum rule everywhere still obeys it after delete_item. |
| Models.DeleteItemKeepsPath | src/models.py:64-75 | Some rows are not disturbed by the removal: the removed row itself, any row inside it, and any row reached through a later sibling are disturbed. Every other row keeps its path, and the path still names the same item. Off the parent's chain of ancestors the item is unchanged. On that chain it keeps its flags and brush, and only its value is resummed. |
| Models.ItemData | src/models.py:119-132 | get_item_data returns one element per row, in order. A childless row gives its integer. A row with rows gives a list with one element per row of its own. |
| Models.GetItemData | src/models.py:119-132 | The loop of get_item_data returns the elements defined by ItemData. |
| Models.Loaded | src/models.py:90-102 | update_item_data on a fresh item: the item is editable with the default brush. It has no rows exactly when its data is an integer or an empty list. An integer becomes its value. A list gives one row per element. |
| Models.LoadedAll | src/models.py:106-111 | The top-level rows load_data appends: one per element, in order. Each has no rows exactly when its element is an integer or an empty list. An integer element becomes its row's value. |
| Models.UpdateItemData | src/models.py:90-104 | The nested update_item_data, starting from QStandardItem('0'), builds exactly the item Loaded describes. |
| Models.ItemDataOfLoaded | src/models.py:81-134 | get_data after load_data(ds) returns ds with every empty nested list turned into 0. Node values, which get_data never reads, play no part. |
| Models.NormalizedNoEmptyList | src/models.py:97-104 | Without empty nested lists, the round trip returns the data unchanged. |
| Models.LoadedNodeSum | src/models.py:97-102 | A loaded node shows the sum of all its rows but the last. It obeys the sum rule exactly when its last row shows 0. |
| Models.LoadQuirkExample | src/models.py:97-102 | [[1, 2]] loads as a node showing 1 over rows 1 and 2. |
| Models.LoadedSummed | src/models.py:97-102 | Corrected loading: a childless item holds its integer, or 0 for an empty list. |
| Models.LoadedSummedTree | src/models.py:97-102 | With the correction, every item of a loaded subtree obeys the sum rule. |
| Models.LoadedSummedAllSummed | src/models.py:106-111 | With the correction, every item of the loaded tree obeys the sum rule. |
| Models.ItemDataOfLoadedSummed | src/models.py:116-134 | The correction keeps the get_data round trip. |
| Models.TreeViewModel.constructor | src/models.py:8-12 | The new model has no rows. |
| Models.TreeViewModel.UpdateNodeData | src/models.py:27-32 | The item at p is set to the sum of its old rows, or 0 when it has none. The new tree is Resummed. |
| Models.TreeViewModel.UpdateItemParentsData | src/models.py:15-24 | Recursing while the item has a parent gives exactly ParentsResummed. |
| Models.TreeViewModel.AddItem | src/models.py:35-58 | Promotion, appendRow and the ancestor update give exactly Added. |
| Models.TreeViewModel.DeleteItem | src/models.py:61-78 | removeRow, then resumming a parent item and its ancestors, gives exactly Deleted. |
| Models.TreeViewModel.LoadData | src/models.py:81-113 | clear plus the append loop builds the root with the loaded rows. get_data then returns the normalized input. |
| Models.TreeViewModel.GetData | src/models.py:116-134 | get_data returns ItemData of the root. |
| Views.GraphPoints | src/views.py:205-226 | prepare_arr_for_graph emits one pair per element at every depth, and no pair below the starting level. |
| Views.ElementPoints | src/views.py:213-224 | An element's pairs start with its own pair at the current level, one pair per nested element. |
| Views.GraphPointsTopLevel | src/views.py:215-224 | The pairs at the starting level are the direct elements, in order, each with its nested total. They sum to the list's total. |
| Views.ElementPointsTopLevel | src/views.py:215-224 | An integer gives (level, itself). A sublist's pair carries the sum of every integer nested inside it, and it is the only pair at its level. |
| Views.GraphPointsAppend | src/views.py:213-224 | The pairs of a concatenation of lists are the pairs of the first list followed by those of the second. |
| Views.GraphPointsPreOrder | src/views.py:213-224 | Pre-order: element i's pairs come right after those of the elements before it. |
| Views.GraphPointsHead | src/views.py:215-224 | Each element's pairs start with its own pair at the current level, carrying its nested total. |
| Views.PrepareArrForGraph | src/views.py:205-226 | The loop with its recursive calls and level sums returns GraphPoints. |
| Views.GetIndexLevel | src/views.py:138-150 | get_index_level gives one decimal row per depth, from the top-level ancestor down to the index. A top-level index gives just its row. |
| Views.SortKey | src/views.py:152 | The key of an index is a non-negative integer. |
| Views.KeyAppend | src/views.py:146-152 | Going one level deeper appends the row's digits to the key. |
| Views.KeySingle | src/views.py:150-152 | A top-level index's key is its row. |
| Views.KeyZero | src/views.py:138-152 | An index has key 0 if and only if all its rows are 0. |
| Views.KeyExtend | src/views.py:138-152 | A descendant's key is at least its ancestor's. They are equal only when both paths are all zeros. |
| Views.KeySibling | src/views.py:138-152 | A later sibling has a larger key. |
| Views.DisturbsKey | src/views.py:135-152 | When deleting p disturbs r, r has the larger key, except when p is an all-zero ancestor of an all-zero r. |
| Views.SortDesc | src/views.py:136 | sorted(..., reverse=True) returns a permutation of its input. |
| Views.SortDescStable | src/views.py:136-153 | Sorting by a key a list already in another order orders it by the key, then by that order: the sort is stable. |
| Views.DeletionOrder | src/views.py:136-153 | The two sorts of delete_tree_item reorder the selection: the order holds the same indexes, each as often as selected. |
| Views.DeletedInTurn | src/views.py:155-157 | Deleting the indexes in turn never changes the invisible root item's own attributes. |
| Views.DeletionOrderSorted | src/views.py:136-153 | The deletion order is a permutation of the selection, in descending key order. Equal keys are in descending row order. |
| Views.DeletionOrderSafe | src/views.py:135-157 | With distinct selected items and at most one all-zero path among them, no deletion disturbs an item still to be deleted. |
| Views.DeletionOrderDeletable | src/views.py:135-157 | With distinct selected items, at most one of them an all-zero path, every index still names an item when its turn to be deleted comes. DeleteItemKeepsPath shows that it names the same item. |
| Views.SafeDeletable | src/views.py:155-157 | In a safe order, each path still names an item when its turn comes. |
| Views.DeletedInTurnKeepsSums | src/views.py:155-157 | Deleting a whole selection keeps the sum rule of a tree that obeyed it. |
| Views.DeletionOrderZeroExample | src/views.py:136-157 | Selecting [0], then [0, 0], deletes [0] first. Afterwards [0, 0] no longer names an item. |
| Views.FixedDeletionOrderSorted | src/views.py:136-153 | Corrected order: by key, then row, then depth, each largest first. |
| Views.FixedDeletionOrderSafe | src/views.py:135-157 | With the correction, any selection of distinct items is deleted safely. |
| Views.DoubleClicked | src/views.py:78-81 | The double-clicked item is editable if and only if it has no rows. Its value, rows and brush stay, and the root's own attributes stay unless the root was clicked. |
| Views.DoubleClickEditable | src/views.py:78-81 | A double click makes the item editable if and only if it has no rows. It changes nothing else. |
| Views.SecondLevelBrush | src/views.py:96-107 | Green if and only if the item has rows and value >= 0. Red if and only if it has rows and value < 0. The default brush if and only if it has no rows. |
| Views.Painted | src/views.py:96-107 | Painting changes only the brush. The brush is the default one exactly when the item has no rows. |
| Views.RecolouredTop | src/views.py:93-107 | Painting the rows of a top-level item keeps that item's own attributes and its number of rows. Each row changes only its brush. |
| Views.Recoloured | src/views.py:85-107 | Colouring keeps the root's and every top-level item's own attributes and the number of top-level rows. |
| Views.RecolouredAt | src/views.py:85-107 | Colouring sets the brush of the second-level items only. The root and top-level items keep their attributes, and everything deeper is unchanged. |
| Views.RecolouredIdempotent | src/views.py:85-107 | Colouring twice is colouring once. |
| Views.MainView.constructor | src/views.py:46 | The view holds the given model. |
| Views.MainView.HandleDoubleClickOnTreeItem | src/views.py:70-81 | The new tree is DoubleClicked. |
| Views.MainView.UpdateBgColorSecondLvlElements | src/views.py:85-107 | The nested loops give exactly Recoloured. |
| Views.MainView.DeleteTreeItem | src/views.py:129-157 | Sorting by row then key, then deleting each index in turn, is possible and gives the selection deleted in DeletionOrder. |
| Tools.GenRandomTree | src/tools.py:4-18 | Every list has between max(emin, 0) and max(emax, 0) elements, at every depth. Every integer v has v or -v in [vmin, vmax]. Lists appear only while sublevels remain. With max_sublevel <= 0 the result is flat. |
| Tools.GeneratedDepth | src/tools.py:11-12 | The nesting depth is at most max(max_sublevel, 0), and 0 when max_sublevel <= 0. |

## Left out

- Widgets, `setupUi`, the item delegate's editor, `QIntValidator`, tooltips, file dialogs and pyqtgraph plotting: GUI toolkit surface.
- `add_tree_item` (src/views.py:110-126) and `CustomDelegate.setModelData` (src/views.py:27-31): GUI glue. They read a value or an edit from a widget and call `add_item` or `update_item_parents_data`, both of which are modelled.
- JSON and HDF5 loading and saving (src/views.py:161-191). `hdf5_read_recursive` and `hdf5_write_recursive` are not part of this model.
- The numpy per-level averaging of the graph pairs (src/views.py:239-251): floating point. The model stops at the integer (level, value) pairs.
- The `dataUpdated` signal. `add_item`, `delete_item` and `load_data` emit it at their end (src/models.py:58, 78, 113). `update_node_data` and `update_item_parents_data` emit nothing. `CustomDelegate.setModelData` emits it after calling `update_item_parents_data` (src/views.py:30-31). The signal and its connections are not modelled.
- Item text and its parsing: values are integers throughout. The empty text of the invisible root item is shown as 0, and no operation changes it.
- Header labels set by the constructor and by `load_data`.
- Items are values addressed by row paths.
  - QStandardItem identity, aliasing between items and indexes, and stale QModelIndex objects after a removal are not modelled.
  - A stale index is represented by the path it had. DeletableInTurn says when such a path still names an item.
- Models.TreeViewModel.LoadData: data holds only integers and lists. Other JSON values (floats, strings, objects) are not modelled.
- Views.MainView.DeleteTreeItem: requires the selected paths to be distinct and to name items.
  - It also requires at most one all-zero path among them.
  - When two all-zero paths are selected, the code can delete through a stale index (see Findings). There the behaviour is Qt's and is not modelled.
- Views.SortDesc: Python's `sorted` is modelled by a stable insertion sort. Only its result is stated.
- Tools.GenRandomTree: requires emin <= emax and vmin <= vmax. `random.randint` raises ValueError otherwise; the value bounds matter only when an integer is drawn. The 1-in-4 chances are not modelled, only which outcomes are possible.

## Findings

| source | as written | input that shows it | evidently intended | confidence | as-written member | corrected member |
|---|---|---|---|---|---|---|
| src/models.py:97-102 | `update_node_data(item)` runs before `item.appendRow(child_item)`, so a loaded node shows the sum of its rows without the last | `load_data([[1, 2]])`: the node shows 1 over rows 1 and 2 | every loaded node shows the sum of its rows, as after any edit | high, not executed | Models.LoadQuirkExample | Models.LoadedSummedAllSummed |
| src/views.py:136, 152-157 | a path of zeros has key 0 at every depth and row 0, so an all-zero item and its all-zero descendant tie in both sorts and keep selection order | select [0], then [0, 0]: [0] is deleted first, and [0, 0] is then a stale index | descendants are deleted before their ancestors | medium, not executed | Views.DeletionOrderZeroExample | Views.FixedDeletionOrderSafe |
