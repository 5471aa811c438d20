# shiny-treeview core in Dafny

A model of the data side of shiny-treeview, a tree-view input for Shiny
applications. The Python package defines a tree item (`TreeItem`) that
validates its own fields and serialises itself to a JSON-ready dict. It
offers three tree algorithms:

- `get_tree_path`: the root-to-node path of an id;
- `duplicate_ids`: the ids that occur more than once anywhere in a forest;
- `stratify`: rebuild a forest from a flat item list and a parallel list of
  parent ids.

`input_treeview` turns a forest and the `multiple`/`selected`/`expanded`
arguments into the JSON payload embedded in the page. The browser side
(`srcts/index.ts`) parses that payload and keeps only well-formed items
and string ids.

The model, one module per file:

| module | file | models |
|---|---|---|
| `Wrappers` | wrappers.dfy | Option and Result |
| `JsonValue` | json.dfy | JSON values, property lookup, arrays of strings |
| `Tree` | tree.dfy | the node type and its construction checks; `_to_dict` of tree.py (caption included) |
| `Data` | data.dfy | the older caption-less item of data.py and its `to_dict` |
| `Forest` | forest.dfy | pre-order ids, root-to-node paths, what a path through a forest is |
| `TreePath` | tree_path.dfy | `get_tree_path` and `_search_recursive` |
| `StringOrder` | string_order.dfy | the ordering of `sorted` on strings; sorted insertion |
| `Duplicates` | duplicates.dfy | `duplicate_ids` with `_collect_all_ids`, as loops |
| `StratifySpec` | stratify_spec.dfy | the parent map, parent walks, children in input order, the described forest |
| `StratifyShape` | stratify_shape.dfy | the described forest lists every item once and rebuilds each from the input |
| `Stratify` | stratify.dfy | `stratify` and `_has_circular_reference`, as loops over an index arena |
| `Stretch` | stretch.dfy | a list found inside a longer one at a position, and how a concatenation found there splits |
| `StratifyRoundTrip` | stratify_round_trip.dfy | flattening a forest into the two lists `stratify` takes, and stratifying them back |
| `Client` | client.dfy | `parseStringArray`, `validateItem`/`validateTreeItems`, the config record |
| `Ui` | ui.dfy | normalisation, auto-expansion, the payload and `input_treeview` |
| `Treeview` | treeview.dfy | the older `input_treeview` of treeview.py |

One `Node(id, labelText, caption, children, disabled)` datatype serves both
item classes. `labelText` is the source's `label` field. data.py's item is a
node with an empty caption, and each class keeps its own serialiser.

`stratify` creates new nodes and links them by mutating shared
references. It checks for cycles only after linking. The model builds the
same structures as loops over an arena:

- a sequence of copied nodes;
- a map from parent id to child positions;
- the root positions;
- each item's list of child positions.

The cycle check runs afterwards, in the same order as the source. Only a
successful call reads the arena out into nested nodes. That read-out is
proved equal to `SpecForest`, a pure definition of the forest that the
parent ids describe. `SpecForest` is proved to list every item exactly
once, and to rebuild every node from its item with its children in input
order.

The other direction holds too. List a forest with unique ids in pre-order,
as childless items with their parents' ids, and `stratify` gives that
forest back.

## Model

| member | source | states |
|---|---|---|
| `JsonValue.Lookup` | srcts/index.ts:33 | the value found is stored under the key; nothing is found exactly when no pair has the key |
| `JsonValue.Property` | srcts/index.ts:33 | a property found on a value means the value is an object holding that pair |
| `JsonValue.StringArray` | shiny_treeview/ui.py:91-92 | a list of ids becomes an array of the same length holding each id as a JSON string, in order |
| `Tree.StripEmptyIffAllSpace` | shiny_treeview/tree.py:62-63 | `label.strip()` is empty exactly when every character of the label is a space character (the empty label included) |
| `Tree.NewItem` | shiny_treeview/tree.py:50-63 | the id error exactly when the id is empty or holds a `string.whitespace` character; otherwise the blank-label error exactly when the label is all space characters; success exactly when both checks pass, with the given fields |
| `Tree.NewItemValid` | shiny_treeview/tree.py:50-79 | an item constructed from valid children is a tree every node of which passes the checks |
| `Tree.NewItemAcceptsRepeatedIds` | shiny_treeview/tree.py:73-79 | construction checks only the node itself: a child carrying its parent's id is accepted |
| `Tree.ToDictWithCaption` | shiny_treeview/tree.py:92 | the dict starts with `id` and `label`, equal to the node's fields |
| `Tree.ToDictsWithCaption` | shiny_treeview/ui.py:89 | one dict per root, in order |
| `Tree.ToDictWithCaptionKeys` | shiny_treeview/tree.py:92-103 | `caption` present exactly when non-empty; `disabled: true` exactly when disabled; `children` exactly when there are children, holding their dicts in order |
| `Tree.ToDictWithCaptionOnlyKnownKeys` | shiny_treeview/tree.py:92-103 | no key besides id, label, caption, disabled and children |
| `Data.NewLegacyItem` | shiny_treeview/data.py:47-60 | the same error cases, in the same order, as tree.py; success yields a node without caption |
| `Data.ToDict` | shiny_treeview/data.py:83 | the dict starts with `id` and `label`, equal to the node's fields |
| `Data.ToDicts` | shiny_treeview/treeview.py:90 | one dict per root, in order |
| `Data.ToDictKeys` | shiny_treeview/data.py:83-91 | never a `caption` key; `disabled: true` exactly when disabled; `children` exactly when there are children, holding their dicts in order |
| `Data.NewLegacyItemCaptionFree` | shiny_treeview/data.py:42-45 | items built by data.py's constructor from caption-free children carry no caption anywhere |
| `Data.ToDictAgreesWithoutCaptions` | shiny_treeview/data.py:83-91 | on caption-free trees `to_dict` and tree.py's `_to_dict` produce the same dict |
| `Data.NewItemWithoutCaption` | shiny_treeview/data.py:47-72 | with an empty caption, data.py's constructor passes and fails the id and label checks exactly as tree.py's does (the class checks on children are not modelled) |
| `Forest.PreorderPathIsChain` | shiny_treeview/utils.py:38-49 | each pre-order path extends the prefix by a root-to-node chain ending at the node listed at the same pre-order position |
| `TreePath.SearchIsFirstPreorderMatch` | shiny_treeview/utils.py:34-51 | the search returns the path of the first node in pre-order carrying the target id, and nothing exactly when no node at any depth carries it |
| `TreePath.GetTreePath` | shiny_treeview/utils.py:9-53 | a path exists exactly when the id occurs at some depth; the path is non-empty, starts at a root, goes parent to child and ends at the id |
| `TreePath.EmptyForestHasNoPath` | shiny_treeview/utils.py:38-53 | an empty forest has no path to any id |
| `TreePath.RootPath` | shiny_treeview/utils.py:38-43 | with unique ids, the path to a root is that root alone |
| `StringOrder.InsertSorted` | shiny_treeview/utils.py:90 | inserting a new string into an ascending list keeps it ascending and adds exactly that string |
| `StringOrder.AscendingUnique` | shiny_treeview/utils.py:90 | two strictly ascending lists with the same members are equal: the sorted result is determined by its members |
| `Duplicates.RepeatedEmptyIffDistinct` | shiny_treeview/utils.py:84-90 | no id occurs twice exactly when all ids are distinct |
| `Duplicates.CollectAllIds` | shiny_treeview/utils.py:71-78 | the collected ids are the forest's ids in pre-order, at every depth |
| `Duplicates.SortedIds` | shiny_treeview/utils.py:90 | `sorted` of a set: strictly ascending, with exactly the set's members |
| `Duplicates.DuplicateIds` | shiny_treeview/utils.py:56-90 | strictly ascending; an id is listed exactly when it occurs at least twice in the forest; empty exactly when all ids are unique |
| `StratifySpec.ParentMapAt` | shiny_treeview/utils.py:190 | with unique ids, the parent map sends each item's id to its own parent id |
| `StratifySpec.ChildrenSpec` | shiny_treeview/utils.py:166-177 | the children of a parent are exactly the positions naming it, each once and in input order (roots for no parent) |
| `StratifySpec.RepeatNeverEnds` | shiny_treeview/utils.py:198-200 | a parent walk that revisits an id never reaches "no parent" |
| `StratifySpec.NoRepeatBeforeRoot` | shiny_treeview/utils.py:198-202 | a walk that reaches "no parent" never revisits an id |
| `StratifyShape.WellFormedDescribed` | shiny_treeview/utils.py:145-207 | input passing every check is described by its parent map: keys are the item ids, each with its own parent, and every chain closes |
| `StratifyShape.ParentMapClosed` | shiny_treeview/utils.py:156-160 | with unique ids, known parents and no cycle, every parent named is a key and every key reaches a root |
| `StratifyShape.HopsBound` | shiny_treeview/utils.py:198-202 | a chain from an item ends in fewer steps than there are items |
| `StratifyShape.SpecForestListsEachItemOnce` | shiny_treeview/utils.py:163-185 | the forest built from well-formed input lists every input id exactly once, at some depth |
| `StratifyShape.SpecForestRebuilt` | shiny_treeview/utils.py:166-185 | the roots are the items without parent, in input order; every node copies its item's fields, and its children are exactly the items naming it as parent, in input order |
| `Stratify.HasCircularReference` | shiny_treeview/utils.py:187-204 | true exactly when some item's parent chain never reaches "no parent" |
| `Stratify.BuildItemMap` | shiny_treeview/utils.py:149 | the keys are the item ids; each maps to a position holding that id |
| `Stratify.IdCount` | shiny_treeview/utils.py:152-153 | there are as many distinct ids as items exactly when the ids are unique |
| `Stratify.BuildArena` | shiny_treeview/utils.py:163-180 | one childless copy per item; the root positions and each parent's child positions are exactly those naming it, in input order |
| `Stratify.LinkChildren` | shiny_treeview/utils.py:183-185 | each item's child list is its entry of the children map, or empty |
| `Stratify.BuildLinkedArena` | shiny_treeview/utils.py:163-185 | the linked arena reads out, from the root positions, as the forest the parent ids describe |
| `Stratify.MaterializeIsGrow` | shiny_treeview/utils.py:183-185 | reading an arena node out to a given depth gives the described subtree to that depth |
| `Stratify.ReadOutIsSpecForest` | shiny_treeview/utils.py:163-209 | positions stay in range and the read-out of the roots is the described forest |
| `Stratify.FirstUnknownParent` | shiny_treeview/utils.py:156-160 | the first position naming a parent that is not an item, or the length when there is none |
| `Stratify.OutcomeMeaning` | shiny_treeview/utils.py:145-207 | the length error exactly for mismatched lengths; then the duplicate-id error exactly when ids repeat; then the unknown-parent error at the first such position with its parent id; then the cycle error exactly when a chain never ends; success exactly on well-formed input, returning the described forest |
| `Stratify.Stratify` | shiny_treeview/utils.py:93-209 | the result is the outcome OutcomeMeaning characterises, with the checks in the source's order and the cycle check after the build |
| `Stratify.MismatchedLengthsExample` | tests/test_utils.py:257-265 | one item with two parent ids fails with the length error |
| `Stratify.DuplicateIdsExample` | tests/test_utils.py:267-276 | two items both named "duplicate" fail with the duplicate-id error |
| `Stratify.UnknownParentExample` | tests/test_utils.py:278-287 | an item whose parent is "nonexistent" fails with the unknown-parent error naming that id at index 0 |
| `Stratify.CircularReferenceExample` | tests/test_utils.py:289-299 | a -> b -> c -> a fails with the cycle error |
| `Stratify.SelfParentExample` | shiny_treeview/utils.py:196-200 | an item that is its own parent revisits its id at once and fails with the cycle error |
| `StratifyRoundTrip.FlattenWellFormed` | shiny_treeview/utils.py:145-207 | a forest with unique ids, listed in pre-order as childless items with their parents' ids, passes every check of `stratify` |
| `StratifyRoundTrip.TopRoots` | shiny_treeview/utils.py:166-172 | the items of such a listing without a parent are exactly the forest's roots, in order |
| `StratifyRoundTrip.StratifyFlattenRoundTrip` | shiny_treeview/utils.py:93-209 | stratifying the pre-order listing of a forest with unique ids gives back that forest: the same nodes, with children in the same order, at every depth |
| `Client.StringsOf` | srcts/index.ts:20 | the kept strings are exactly the string elements, and no more elements than the input |
| `Client.StringsOfAppend` | srcts/index.ts:20 | the filter keeps order: filtering a concatenation concatenates the filtered parts |
| `Client.ParseStringArray` | srcts/index.ts:18-23 | a non-array gives the fallback; an array gives exactly its string elements |
| `Client.ParseStringArrayRoundTrip` | srcts/index.ts:75-76 | a list of ids sent as a JSON array parses back unchanged |
| `Client.ValidateItem` | srcts/index.ts:31-54 | null exactly when the value is not an object with string `id` and `label`; otherwise the item carries that id and label |
| `Client.ValidatedFields` | srcts/index.ts:40-51 | `disabled` is kept only when boolean; `children` is set exactly when the input's children are an array with at least one valid child |
| `Client.ValidateAll` | srcts/index.ts:56-58 | the kept items are exactly the validations of input items that succeeded |
| `Client.ValidateAllAppend` | srcts/index.ts:56-58 | the filter keeps order: validating a concatenation concatenates the validated parts |
| `Client.ValidateTreeItems` | srcts/index.ts:26-29 | a non-array gives no items; an array gives exactly its valid items |
| `Client.OrEmpty` | srcts/index.ts:73-76 | an absent or null property becomes the empty array; any other value is kept |
| `Client.ReadConfig` | srcts/index.ts:68-92 | a parse failure gives the all-empty, single-selection fallback; every selected and expanded id is a string of the raw array |
| `Client.Shown` | srcts/index.ts:35-51 | the browser-side item has the node's id and label, `disabled` only when set, and one entry per child |
| `Client.ValidateNodeFields` | srcts/index.ts:31-54 | serialised node fields validate to the node's id, label, disabled flag and validated children; the caption is dropped |
| `Client.ValidateToDictWithCaption` | srcts/index.ts:31-54 | every node serialised by tree.py validates, and comes back complete but for the caption |
| `Client.ValidateToDictsWithCaption` | srcts/index.ts:56-58 | a serialised forest from tree.py validates back to the shown forest, nothing dropped |
| `Client.ValidateToDict` | srcts/index.ts:31-54 | the same for nodes serialised by data.py |
| `Client.ValidateToDicts` | srcts/index.ts:56-58 | the same for forests serialised by data.py |
| `Ui.NormalizeIds` | shiny_treeview/ui.py:66-71 | a list passes through unchanged; None and `""` give no id; another string gives itself alone |
| `Ui.Dedup` | shiny_treeview/ui.py:82 | no repeats, and exactly the members of the input |
| `Ui.DedupKeepsFirstOrder` | shiny_treeview/ui.py:82 | two ids keep the relative order of their first occurrences |
| `Ui.DedupOfDistinct` | shiny_treeview/ui.py:82 | a list without repeats comes through unchanged |
| `Ui.StrictAncestors` | shiny_treeview/ui.py:78-80 | nothing for an id not in the tree; otherwise the ids from a root down to just above the id, which with it form a parent-to-child chain |
| `Ui.RootHasNoAncestors` | shiny_treeview/ui.py:78-80 | with unique ids, a root contributes nothing |
| `Ui.Ancestors` | shiny_treeview/ui.py:76-80 | the collected ids are exactly the strict ancestors of the selected ids |
| `Ui.AncestorsAppend` | shiny_treeview/ui.py:77-80 | the collection follows the order of the selection: a concatenated selection collects the concatenation |
| `Ui.AutoExpanded` | shiny_treeview/ui.py:74-82 | no repeats; an id is expanded exactly when it is a strict ancestor of some selected id |
| `Ui.AutoExpandedAreAncestors` | shiny_treeview/ui.py:74-82 | every expanded id lies above some selected id on a root-to-node chain |
| `Ui.RootsAndStrangersExpandNothing` | shiny_treeview/ui.py:77-82 | selected ids that are roots or absent from the tree expand nothing |
| `Ui.AutoExpand` | shiny_treeview/ui.py:74-82 | the loop's result is the automatic expansion of the selection |
| `Ui.SelectingFile1ExpandsFolder1` | tests/playwright/test_ui.py:34-35 | selecting "file1" under "folder1" expands ["folder1"] |
| `Ui.SelectingFile1AndFile3ExpandsBothFolders` | tests/playwright/test_ui.py:42-43 | selecting ["file1", "file3"] expands ["folder1", "folder2"] |
| `Ui.ExpandedIds` | shiny_treeview/ui.py:74-86 | an omitted `expanded` gives the automatic expansion of the normalised selection; a given one gives its normalised list |
| `Ui.PayloadJson` | shiny_treeview/ui.py:88-93 | the payload object has the four keys in order with the serialised items, the flag and both id lists |
| `Ui.PayloadKeys` | shiny_treeview/ui.py:88-93 | each payload key holds its field |
| `Ui.BrowserReadsPayload` | srcts/index.ts:72-77 | the browser reads a tree.py payload back as sent: the items shown without captions, `multiple`, and both id lists unchanged |
| `Ui.InputTreeview` | shiny_treeview/ui.py:59-93 | an error exactly when some id repeats at any depth, naming the repeated ids in ascending order; otherwise the payload of the roots' dicts, `multiple` as given, the normalised selection and the expanded ids |
| `Treeview.InputTreeview` | shiny_treeview/treeview.py:60-94 | the same as ui.py's, with items serialised by data.py |
| `Treeview.BrowserReadsPayload` | srcts/index.ts:72-77 | the browser reads a treeview.py payload back as sent |

## Left out

- HTML and dependency construction: the `tags.div`/`tags.script` element, `HTMLDependency` and `resolve_id`. The model stops at the payload record.
- `json.dumps` and `JSON.parse`: the model uses a JSON datatype on both sides. A parse failure is the input `None` to `Client.ReadConfig`.
- DOM lookup, React rendering, Playwright controllers and console logging: this is I/O, including the warning when every item fails validation.
- Python's `isinstance` checks on the types of id, label, caption, disabled and children: the fields have those types in the model, so the type errors cannot arise. The content checks on id and label are modelled.
- `Data.NewLegacyItem`, `Data.NewItemWithoutCaption`, `Ui.InputTreeview`, `Treeview.InputTreeview`: one `Node` type stands for both item classes, so the model cannot tell a tree.py item from a data.py one. In the source, mixing them raises, and the model does not show this. A tree.py child under a data.py item fails data.py's children check (data.py:70-72), and the reverse fails tree.py's (tree.py:77-79). tree.py items given to treeview.py raise AttributeError, because they have no `to_dict` (treeview.py:90). data.py items given to ui.py raise likewise, because they have no `_to_dict` (ui.py:89). In the model these calls succeed.
- The `dataclasses.replace` promise to keep future or custom fields: only the five known fields exist.
- Object identity: `stratify` links shared node objects. The model uses an index arena and reads it out as values, so aliasing between nodes is not modelled. Inputs are values, so the guarantee that inputs are not mutated holds by construction.
- `Stratify.Materialize`: reads the arena out to a depth bound. The bound `|items|` is proved sufficient for well-formed input, so it cuts nothing off there.
- Dict iteration order in `stratify`'s linking loop: each item has at most one children-map entry, so the order does not change the result, and the model links them in any order.
- JSON numbers are reals: NaN and infinities are not modelled. They only matter to JavaScript truthiness, and the Python side never sends numbers.
- `Client.ClientItem` has no `children` field when absent: the empty sequence stands for it, and `ValidatedFields` states when it is set.
- `Client.ReadConfig`: its contract states the fallback and where the id lists come from. For payloads the Python side builds, the items and `multiple` fields are stated by `Ui.BrowserReadsPayload` and `Treeview.BrowserReadsPayload`, not for arbitrary input.
- `Ui.SampleForest`: the test app's own data is not part of this model. The examples use a forest with the ids the UI tests select and expect.
- Python's `str.strip()` follows Unicode `isspace`: `Tree.IsSpace` spells out that set, assuming the label is a sequence of code points.
