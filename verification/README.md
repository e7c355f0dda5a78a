# Asset management tree — a Dafny model

The asset management system keeps an ordered forest of typed nodes. A node is
a folder, an asset or a datapoint, and carries an id, a name, key/value
labels and an optional list of children. Users edit the forest through a tree
widget and a details panel:

- drag and drop nodes between parents;
- delete nodes;
- create folders and assets;
- rename nodes;
- edit a node's labels;
- manage an asset's datapoints;
- search by name or label.

The panel also shows the breadcrumb path of the selected node and the labels
it inherits from its ancestors.

This project models that engine as pure functions over an immutable forest:

- `wrappers.dfy`: `Option`.
- `seqs.dfy`: `Select`, the order-keeping filter the editors and the upsert
  share, and `Merge`, which says one sequence is an order-preserving
  interleaving of two others. Conservation and order are stated with it.
- `text.dfy`: the string helpers the source uses:
  - `trim`;
  - ASCII `toLowerCase`;
  - `includes`;
  - `join`.
- `tree.dfy`: the node type and the vocabulary the contracts speak in.
  - An *address* is the list of child indexes leading from the root list to
    a node.
  - `At` and `Replace` read and rewrite the node at an address.
  - Lexicographic order on addresses is pre-order.
  - `FirstAddr(f, id)` is the first node in pre-order carrying `id`.
  - `Preorder` lists every node's head (a node without its children) in
    pre-order.
  - `UniqueIds` says no id occurs twice.
- `tree_ops.dfy`: the tree library (`treeOperationsHelper.ts`).
- `tree_manager.dfy`: the session commands of the tree manager hook. The
  state is `(forest, selectedId)`.
- `label_editor.dfy`: the label editor's add, delete, edit and save
  operations on its local label list.
- `datapoint_manager.dfy`: the datapoint manager hook's name validation and
  its add, remove and rename operations.
- `parent_labels.dfy`: the inherited-labels panel.
- `breadcrumbs.dfy`: the breadcrumb path and the text its copy button copies.

The source mutates nodes in place, but never a forest anyone else still holds:
- `removeNodesById`, `insertNodes`, `deleteNodesById` and `addNodeToParent`
  deep-copy their input first;
- `filterTree` builds new node objects, and returns its input itself only for
  a blank query;
- `traverseTree` does mutate the array it is given. Every command that calls
  it does so on the deep copy that `updateTreeData` makes
  (`src/hooks/useTreeManager.ts:84`) and writes that copy back.

So value semantics, with `Replace` at the first pre-order match, is the same
behaviour.

Absent and empty `children` are both the empty sequence.

Fresh ids are a fixed prefix followed by a suffix. Folder and asset ids end
in the clock value (`folder-` and `asset-`). Datapoint ids end in the clock
value, a dash and a random base-36 string (`datapoint-`). Either way the
part after the prefix is the parameter `stamp`.

Where the code and its comments disagree, the model follows the code.
`findPathToNode`'s comment says the path excludes the target node, but the
code appends it. `FindPathToNode` therefore ends at the target, and the
breadcrumbs and inherited labels rely on that.

## Model

| member | source | states |
|---|---|---|
| TreeOps.FilterTree | src/utils/treeOperationsHelper.ts:6-36 | A blank query returns the forest itself. Otherwise the result is the forest with nodes left out: kept siblings keep their order and their id, name, type and labels. Every kept node matches the lower-cased, untrimmed query or still has a kept child. |
| TreeOps.FilterNodes | src/utils/treeOperationsHelper.ts:10-33 | The recursive filter keeps heads and order (`Pruned`), keeps only matches or ancestors of matches (`Justified`), and never grows a list. |
| TreeOps.FilterKeepsMatches | src/utils/treeOperationsHelper.ts:13-24 | Completeness: every matching node survives, with the same heads along its whole root path, so all its ancestors survive too. |
| TreeOps.FilterTreeKeepsMatches | src/utils/treeOperationsHelper.ts:6-36 | Completeness of `filterTree` for a node matching the lower-cased query. |
| TreeOps.FilterIdempotent | src/utils/treeOperationsHelper.ts:10-33 | Filtering an already filtered forest with the same query changes nothing. |
| TreeOps.TraverseTree | src/utils/treeOperationsHelper.ts:45-62 | Reports found exactly when the id occurs. It then applies the edit to the first pre-order node with that id and to no other node. Otherwise the forest is unchanged. |
| TreeOps.Search | src/utils/treeOperationsHelper.ts:104-131 | The scan from position `i` finds the first pre-order match in the rest of the list, with its index in its own list and its immediate container, or the given parent for a match in the list itself. With no match it gives `{null, null, -1}`. |
| TreeOps.FindNodeWithParent | src/utils/treeOperationsHelper.ts:100-134 | An absent id gives `{null, null, -1}`. Otherwise the node is the first pre-order match, `index` is its position among its siblings, and `parent` is its immediate container, or null for a root. |
| TreeOps.FindNodeById | src/utils/treeOperationsHelper.ts:294-298 | Some exactly when the id occurs, and then the first pre-order node with it. |
| TreeOps.FindPath | src/utils/treeOperationsHelper.ts:247-282 | Fails exactly when the id is absent. Otherwise it returns the path walked so far followed by the `{id, name}` of every node from a root down to the first match. |
| TreeOps.FindPathToNode | src/utils/treeOperationsHelper.ts:241-286 | Empty exactly when the id is absent. Otherwise it is the `{id, name}` chain from a root down to the first match, the match included. |
| TreeOps.PathAlongShape | src/utils/treeOperationsHelper.ts:252-278 | Entry k of a path is the node at the first k+1 steps of the address, and each entry is the immediate container of the next. |
| TreeOps.PathAlongSnoc | src/utils/treeOperationsHelper.ts:260-261 | A nested node's path is its parent's path with the node appended. |
| TreeOps.PathToNodeShape | src/utils/treeOperationsHelper.ts:241-286 | The path has one entry per level. It starts at the match's root, ends at an entry with the requested id, and each entry is the container of the next. |
| TreeOps.RemoveNodesById | src/utils/treeOperationsHelper.ts:67-92 | No listed id remains in the updated forest, no id appears that was not there before, and every removed node has a listed id. The updated forest is the input with nodes left out (`Pruned`): survivors keep their order, their heads and their parents. |
| TreeOps.RemoveKeepsUnlisted | src/utils/treeOperationsHelper.ts:73-88 | Every node with no listed id on its root path survives, under ancestors with the same heads as in the input. |
| TreeOps.RemoveConserves | src/utils/treeOperationsHelper.ts:73-88 | Removal only partitions the pre-order sequence: the input's heads are an order-preserving interleaving of the kept heads and the removed subtrees' heads. |
| TreeOps.RemoveIds | src/utils/treeOperationsHelper.ts:73-88 | The ids of the updated forest and of the removed subtrees together are exactly the input's ids. |
| TreeOps.RemoveDisjoint | src/utils/treeOperationsHelper.ts:73-88 | With unique ids, no id is both kept and removed. |
| TreeOps.RemovedAreOutermost | src/utils/treeOperationsHelper.ts:74-79 | Every removed node is a listed node none of whose ancestors is listed. Nodes inside a removed subtree are not reported separately. |
| TreeOps.OutermostAreRemoved | src/utils/treeOperationsHelper.ts:74-79 | Every listed node with no listed ancestor is among the removed nodes, with its whole subtree. |
| TreeOps.DeleteNodesById | src/utils/treeOperationsHelper.ts:169-193 | No listed id remains, no new id appears, and the result is the input with nodes left out (`Pruned`). |
| TreeOps.DeleteIsRemove | src/utils/treeOperationsHelper.ts:169-193 | `deleteNodesById` gives exactly the updated forest of `removeNodesById` for the same ids. |
| TreeOps.DeleteKeepsUnlisted | src/utils/treeOperationsHelper.ts:175-189 | Every node with no listed id on its root path survives the delete, under ancestors with the same heads. |
| TreeOps.SpliceIndex | src/utils/treeOperationsHelper.ts:149 | The insertion point of JS `splice`: an index past the end appends, a negative index counts from the end, and the result is clamped to 0. |
| TreeOps.Splice | src/utils/treeOperationsHelper.ts:149 | The inserted block sits at the clamped index, and the old elements keep their order before and after it. |
| TreeOps.SpliceMultiset | src/utils/treeOperationsHelper.ts:149 | A splice loses and duplicates nothing. |
| TreeOps.InsertNodes | src/utils/treeOperationsHelper.ts:139-164 | Null parent: the nodes are spliced into the roots at the clamped index. Unknown parent: unchanged. Known parent: the node `findNodeWithParent` returns gets the nodes spliced into its children and nothing else changes. |
| TreeOps.InsertPlacesBlock | src/utils/treeOperationsHelper.ts:154-161 | Under a known parent, the inserted nodes form one contiguous block at the clamped index, and the parent's own fields are kept. |
| TreeOps.InsertConserves | src/utils/treeOperationsHelper.ts:139-164 | The resulting heads are the old heads plus the inserted subtrees' heads, or just the old heads when the parent is unknown. |
| TreeOps.CreateFolderNode | src/utils/treeOperationsHelper.ts:198-206 | An empty folder with no labels and the given name, whose id is `folder-` followed by the stamp. |
| TreeOps.AddNodeToParent | src/utils/treeOperationsHelper.ts:211-235 | Succeeds exactly when the parent id is falsy or present. A falsy parent prepends the node to the roots. A present parent gets it prepended to its children. On failure the tree is unchanged. |
| TreeOps.AddConserves | src/utils/treeOperationsHelper.ts:211-235 | A successful add keeps every old head and adds exactly the new node's subtree. |
| TreeManager.SelectedNode | src/hooks/useTreeManager.ts:77-80 | The selected node exists exactly when a non-empty selected id names a node, and it is the first pre-order node with that id. |
| TreeManager.InitialSelection | src/hooks/useTreeManager.ts:41-48 | Nothing happens after the first run or on an empty forest. On the first non-empty forest the stored id is kept if it names a node, otherwise the first root is selected, and the result always names a node. |
| TreeManager.Move | src/hooks/useTreeManager.ts:89-112 | A guarded move (into an asset, or an asset to the root) changes nothing. Otherwise the first dragged id becomes the selection and no new id appears. |
| TreeManager.MoveConserves | src/hooks/useTreeManager.ts:99-102 | When the destination survives the removal, a move only rearranges nodes: the heads are the same multiset before and after. |
| TreeManager.MoveToRootBlock | src/hooks/useTreeManager.ts:99-102 | A move to the root puts the removed subtrees, in pre-order encounter order, as one block at the clamped index among the remaining roots. |
| TreeManager.MoveToRootNoAsset | src/hooks/useTreeManager.ts:91-97 | With unique ids, a permitted move to the root carries no asset. |
| TreeManager.MoveIntoParent | src/hooks/useTreeManager.ts:99-102 | A move into a surviving parent splices the removed subtrees as one block into that parent's children at the clamped index. The parent keeps its head, its other children keep their order around the block, and everything else is the forest the removal left. |
| TreeManager.MoveDrops | src/hooks/useTreeManager.ts:99-102 | When the destination parent is gone after the removal, the result is the forest without the dragged subtrees. |
| TreeManager.MoveIntoOwnDescendant | src/hooks/useTreeManager.ts:99-102 | With unique ids, dropping nodes into one of their own descendants drops them. |
| TreeManager.MoveIntoChildExample | src/hooks/useTreeManager.ts:99-109 | An illustration of `MoveIntoOwnDescendant` on one small forest: moving a root folder into its own child empties the forest and still selects the moved id. |
| TreeManager.Delete | src/hooks/useTreeManager.ts:114-118 | No ids changes nothing. Otherwise no listed id remains, no id is new, and the selection is untouched. Either way the forest is the old one with nodes left out (`Pruned`). |
| TreeManager.DeleteConserves | src/hooks/useTreeManager.ts:114-118 | The heads before a delete are an order-preserving interleaving of the heads kept and the heads of the removed subtrees. |
| TreeManager.CreateFolder | src/hooks/useTreeManager.ts:125-133 | Unless the selected node is a folder, nothing changes and no id is returned. Otherwise a `New Node` folder is prepended to that folder's children and its id is returned. |
| TreeManager.CreateFolderAddsOne | src/hooks/useTreeManager.ts:125-133 | Creating a folder adds exactly one head to the forest. |
| TreeManager.Rename | src/hooks/useTreeManager.ts:135-142 | An unknown id changes nothing. Otherwise only the first pre-order node with the id gets the new name. |
| TreeManager.RenameOnlyThatNode | src/hooks/useTreeManager.ts:135-142 | The shape of the forest is unchanged. The renamed node keeps its other fields and children, and every other node keeps its id, name, type and labels. |
| TreeManager.UpdateLabels | src/hooks/useTreeManager.ts:217-224 | An unknown id changes nothing. Otherwise only the first pre-order node with the id gets the new labels. |
| TreeManager.UpdateLabelsOnlyThatNode | src/hooks/useTreeManager.ts:217-224 | The shape of the forest is unchanged. The relabelled node keeps its other fields and children, and every other node keeps its id, name, type and labels. |
| TreeManager.NewAsset | src/hooks/useTreeManager.ts:150-161 | An asset with the given name and no labels, whose id is `asset-` followed by the stamp, with one label-free datapoint child per input, in input order. |
| TreeManager.CreateAsset | src/hooks/useTreeManager.ts:144-171 | An unknown parent changes nothing. Otherwise the new asset is prepended to the first pre-order node with the parent id. |
| TreeManager.CreateAssetAdds | src/hooks/useTreeManager.ts:144-171 | Creating an asset adds exactly the asset's subtree to the forest's heads. |
| TreeManager.MapValues | src/hooks/useTreeManager.ts:195-197 | `new Map(...).values()`: one child per distinct id, drawn from the children, covering every id. |
| TreeManager.MapValuesOfDistinct | src/hooks/useTreeManager.ts:195-197 | For children with distinct ids, the map's values are the children themselves, in order. |
| TreeManager.UntouchedInOrder | src/hooks/useTreeManager.ts:205-207 | The children are an order-preserving interleaving of those no update names and those some update names. |
| Seqs.SelectInOrder | src/components/labels/LabelEditor.tsx:67 | An `Array.prototype.filter` keeps order: the kept and the dropped elements interleave to the whole list. |
| TreeManager.Upsert | src/hooks/useTreeManager.ts:194-208 | The asset keeps its own fields. Its children are the updates first, as label-free datapoints in the given order, then the old children no update names. |
| TreeManager.ManageDatapoints | src/hooks/useTreeManager.ts:186-215 | An unknown or non-asset target changes nothing. An asset target is rebuilt by the upsert, and a single datapoint counts as a one-element list. |
| TreeManager.ManageDatapointsUnique | src/hooks/useTreeManager.ts:186-215 | With unique ids, the asset's new children are the updates followed by exactly the old children no update names, in their old order. |
| LabelEditor.AddLabel | src/components/labels/LabelEditor.tsx:48-65 | The error is `Key cannot be empty` exactly when the trimmed key is empty, and `Key already exists` exactly when the trimmed key is taken. On error only the error changes. Otherwise (a non-blank, unused trimmed key) the error is always cleared, the trimmed pair is appended and the inputs are cleared. |
| LabelEditor.AddKeepsUnique | src/components/labels/LabelEditor.tsx:48-65 | Adding keeps the keys unique. |
| LabelEditor.DeleteLabel | src/components/labels/LabelEditor.tsx:66-68 | Exactly the labels with another key remain, as the order-keeping `WithoutKey` list (see `DeleteInOrder`), and nothing else in the form changes. |
| LabelEditor.DeleteInOrder | src/components/labels/LabelEditor.tsx:66-68 | The kept labels keep their order: the old list is an order-preserving interleaving of the kept labels and those carrying the deleted key. |
| LabelEditor.DeleteKeepsUnique | src/components/labels/LabelEditor.tsx:66-68 | Deleting keeps the keys unique. |
| LabelEditor.EditLabel | src/components/labels/LabelEditor.tsx:70-91 | A key edit to a different trimmed key that is already in use is refused with `Key already exists`, and the list is unchanged. Every other edit is applied with the error cleared: only the chosen field at the index changes, to its trimmed value. |
| LabelEditor.EditKeepsUnique | src/components/labels/LabelEditor.tsx:70-91 | Editing keeps the keys unique. |
| LabelEditor.SaveLabels | src/components/labels/LabelEditor.tsx:44-46 | Saving replaces, in place, the labels of the first pre-order node with the id and nothing else, or changes nothing for an unknown id. |
| LabelEditor.SaveOnlyThatNode | src/components/labels/LabelEditor.tsx:44-46 | The forest keeps its shape, the saved node keeps its other fields and children, and every other node keeps its id, name, type and labels. |
| DatapointManager.ValidateName | src/hooks/useDatapointManager.ts:92-108 | `Datapoint name cannot be empty` exactly when the name is blank, `Datapoint name must be unique` exactly when the trimmed name equals an existing name ignoring case, and no error otherwise. |
| DatapointManager.NameChange | src/hooks/useDatapointManager.ts:92-108 | The field takes the untrimmed input, and the error clears exactly when the name is neither blank nor taken. |
| DatapointManager.AddDatapoint | src/hooks/useDatapointManager.ts:28-61 | The new datapoint, with id `datapoint-` and the stamp, is appended to the local list, that list is reported, the datapoint alone is upserted onto the asset, and the add form closes. |
| DatapointManager.ConfirmAdd | src/hooks/useDatapointManager.ts:110-119 | A blank name sets the empty-name error and does nothing else. A shown error blocks the add. Otherwise the trimmed name is added and the input and error are cleared. |
| DatapointManager.ConfirmKeepsNamesUnique | src/hooks/useDatapointManager.ts:92-119 | While the shown error is the one the current name produces, a confirmed add keeps the names unique ignoring case. |
| DatapointManager.WithoutIdInOrder | src/hooks/useDatapointManager.ts:69 | The kept datapoints keep their order: the old list is an order-preserving interleaving of them and the datapoints carrying the removed id. |
| DatapointManager.RemoveDatapoint | src/hooks/useDatapointManager.ts:67-75 | Exactly the entries with another id remain, as the order-keeping `WithoutId` list (see `WithoutIdInOrder`). That list is reported and upserted onto the asset. |
| DatapointManager.RemovedDatapointStays | src/hooks/useDatapointManager.ts:67-75 | With unique ids, the upsert keeps every child no update names, so the removed datapoint stays among the asset's children. |
| DatapointManager.EditDatapoint | src/hooks/useDatapointManager.ts:77-87 | Length, ids and order are kept, and exactly the entries with the id get the new name. The single renamed datapoint is upserted onto the asset. |
| DatapointManager.EditedDatapointFirst | src/hooks/useDatapointManager.ts:77-87 | With unique ids, the edited datapoint becomes the asset's first child, with the new name and no labels, followed by old children with other ids. |
| ParentLabels.Collect | src/components/labels/ParentLabels.tsx:18-30 | An ancestor is listed exactly when the node its id names carries labels. Each entry has the ancestor's path id and name and that node's labels. |
| ParentLabels.CollectInOrder | src/components/labels/ParentLabels.tsx:18-30 | Listed entries keep the root-to-parent order of the ancestors. |
| ParentLabels.ParentLabelsOf | src/components/labels/ParentLabels.tsx:13-31 | A node not in the forest inherits nothing. There are fewer entries than path levels, so a root inherits nothing. Every entry's labels are non-empty. |
| ParentLabels.ListedAreAncestors | src/components/labels/ParentLabels.tsx:14-30 | With unique ids, every entry is a proper ancestor of the node with its own name and labels. |
| ParentLabels.AncestorsAreListed | src/components/labels/ParentLabels.tsx:14-30 | With unique ids, a proper ancestor is listed exactly when it carries labels. |
| Breadcrumbs.CrumbPath | src/components/navigation/PathBreadcrumbs.tsx:31-34 | Empty exactly when there is no node or the node's id is not in the forest. Otherwise it is the root-to-node path. |
| Breadcrumbs.CopyText | src/components/navigation/PathBreadcrumbs.tsx:36-40 | No node gives the empty text. A node not in the forest gives its own name. A node in the forest gives the names from a root down to the first node with its id, joined with "/". |
| Breadcrumbs.RootText | src/components/navigation/PathBreadcrumbs.tsx:36-40 | A root's text is its name. |
| Breadcrumbs.NestedText | src/components/navigation/PathBreadcrumbs.tsx:36-40 | With unique ids, a nested node's text is its parent's text, a slash, and its own name. |

## Left out

- Persistence in local storage, JSON (de)serialisation and the storage-event listeners: the state simply becomes the new forest.
- The React state, effects and memoisation, and all tree-widget calls (select, open, scroll, the delayed open after adding a datapoint).
  - In the initial selection, the widget lookup of the stored id is replaced by `FindNodeById`.
  - `handleSelect` only stores the id of the first node the widget reports as selected, or null when there is none. `handleNavigate` sets it only when the widget knows the node, then selects it, opens its ancestors and scrolls to it in the widget. Neither is modelled, since what the widget reports or knows is outside the model.
- Id generation from `Date.now()`, and for datapoints also `Math.random()`: the part of each id after its fixed prefix is the parameter `stamp`.
- Case folding beyond ASCII: `Text.Lower` lowers `A`-`Z` only.
- The datapoint hook's own separate tree-manager instance: its upsert calls act on the one modelled session.
- The `onUpdateDatapoints` callback is caller code: each datapoint handler returns the list it would pass.
- The cancel/open toggles and the asset- and rename-form one-liners, which only trim and test for emptiness.
- The clipboard write behind the copy button, and the snackbar.
- Move does not promise that the folder/asset/datapoint containment rules hold afterwards. The guard does not cover datapoint destinations or datapoints moved to the root, so only what the guard checks is stated.
- LabelEditor.EditLabel: requires the index to be within the list. The editor only calls it for rendered labels. Out of range, a key edit throws, and a value edit writes a new sparse entry past the end of the list.
- Move and insertion indexes are integers (`int`): a fractional JS index, which `splice` would truncate, is not modelled, since the drag widget always passes an integer.
- TreeManager.MapValues: does not state which of several children with the same id the map keeps (the last one). That is stated only through `MapValuesOfDistinct` for distinct ids.
- ParentLabels.ParentLabelsOf: names the entries' labels through the first pre-order node with the entry's id. It is tied to the node's own ancestors only under unique ids, in `ListedAreAncestors` and `AncestorsAreListed`.
