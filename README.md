# DarwinBox directory tree, modelled in Dafny

DarwinBox shows a hierarchy of directories in the browser and keeps it in step
with a server. This project models two parts of it.

- **The front-end state machine.** These are the reducers under
  `services/front/src/reducers/`. The main reducer resets the state on the
  two initial-fetch outcomes. It then runs the directory-creator reducer, the
  directory-hierarchy reducer and the max-id reducer, in that order.
  - The hierarchy is a tree whose children are kept sorted by name.
  - Each node carries an editing status: regular, being renamed, or being
    deleted.
  - The creator holds the draft of a new directory and the list of parents
    it can be placed under.
  - `maxId` is the largest id seen. It lets the reducers ignore a creation
    they have already applied, for example when the server's push message
    arrives after the client's own success.
- **The server-side tree builder.** This is
  `services/back/src/business_logic/directory_tree_builder.rs`. It turns the
  flat `(id, name, parent_id)` rows of the database into a nested
  `DirectoryNode`, through a map from ids to entries that the build consumes.

Modules:

| file | module | models |
|---|---|---|
| wrappers.dfy | `Wrappers` | `null \| T` and `Option` as `Option`, `anyhow::Result` as `Result` |
| sorting.dfy | `Sorting` | `Array.prototype.sort` with `localeCompare`, as a stable insertion sort under an abstract collation |
| types.dfy | `Types` | `services/front/src/reducers/types.ts` and the `ApiDirectoryNode` shape of `services/front/src/api.ts` |
| tree.dfy | `Tree` | counting, search and ordering facts about the state tree |
| api_tree.dfy | `ApiTree` | counting ids in the fetched tree |
| directory_node_utils.dfy | `DirectoryNodeUtils` | `insertDirectoryNodeById`, `updateDirectoryNodeById`, `deleteDirectoryNodeById` |
| directory_node_utils_examples.dfy | `DirectoryNodeUtilsExamples` | the three cases of `directoryNodeUtils.test.ts` |
| directory_hierarchy.dfy | `DirectoryHierarchy` | `directoryHierarchy.ts` |
| directory_creator.dfy | `DirectoryCreator` | `directoryCreator.ts` |
| max_id.dfy | `MaxId` | `maxId.ts` |
| main.dfy | `Main` | `main.ts`, and the invariant its composition keeps |
| directory_node.dfy | `DirectoryNode` | `DirectoryNode` of `directory_node.rs` |
| directory_tree_builder.dfy | `DirectoryTreeBuilder` | `DirectoryTreeBuilder` with its map and root ids, as a class |
| directory_tree_builder_examples.dfy | `DirectoryTreeBuilderExamples` | the three Rust unit tests |

## How the source is rendered

- **NaN id.** The root of the state tree has id `NaN`, which equals no
  number. Node ids are therefore `Option<int>`, with `None` for the root.
  The `map(sub => sub.id === nextSub.id ? … )` steps replace nothing when
  the key is `None` (`ReplaceWhere`).
- **Object identity.** The recursion tests `nextSub !== sub`, that is, whether
  the call below changed anything. The model replaces that test with a
  predicate on the subtree:
  - for an insert, the subtree holds the parent id (`Has`);
  - for an update or a delete, the id occurs strictly below the subtree's
    root (`Below`).

  These predicates are exactly when the source's recursive call builds a new
  object. "Unchanged" is stated as equality.
- **Collation.** `localeCompare` becomes a `Collation` parameter: an
  arbitrary comparison whose "comes no later" relation is total and
  transitive. The JavaScript sort is stable, and so is `SortBy`
  (`Sorting.SortStable`).
- **Recursive helpers of `succeedInitialFetch`.** Both reducers' helpers loop
  over the children and push, so they are methods with loops:
  `DirectoryHierarchy.FillSubs`, `DirectoryCreator.Collect` and
  `DirectoryCreator.FetchOptions`. Each is proved equal to a function, and
  the properties are proved about that function.
- **`let parentValue` in `directoryCreator.ts`.** In `renameDirectory` and
  `deleteDirectory` the variable is assigned at most once more. The model
  writes it as a local `var` bound to the conditional value.
- **Rust builder.**
  - `DirectoryTreeBuilder` is a class whose map is a `map<int, Entry>` field
    and whose root ids are a `seq<int>` field.
  - `from_list` is its constructor, with the source's loop.
  - `recursively_build_tree` is a recursive method that removes the entry
    from the map. Its `children.into_iter().map(…).collect()` is the loop
    of the helper method `BuildChildren`, which `into_root` also uses for
    its loop over the root ids.
  - The source's `expect("is impossible")` panic becomes the `None` of the
    specification functions `BuildNode` and `BuildList`, and is a
    precondition of the methods.
  - The recursion ends because the map shrinks: its key count is the
    termination measure.
  - `i32` ids are only compared, never computed with, so they are `int`.
- **Neither fetch outcome is final.** In `main.ts` both fetch actions
  replace whatever state there is, so a later success leaves the error
  state and a later failure leaves a success state (`Main.FetchOutcome`,
  `Main.FailedFetchOutcome`).

## Model

| member | source | states |
|---|---|---|
| Sorting.SortBy | services/front/src/reducers/directoryHierarchy.ts:95 | the result is a permutation (same multiset) of the input and is sorted under the collation |
| Sorting.SortStable | services/front/src/reducers/directoryHierarchy.ts:95 | the sort is stable: for any key, the elements whose keys collate equal to it come out in their input order |
| Sorting.SortSorted | services/front/src/reducers/directoryNodeUtils.ts:58 | sorting an already sorted list changes nothing, so re-sorting after a name-preserving update is the identity |
| DirectoryNodeUtils.InsertById | services/front/src/reducers/directoryNodeUtils.ts:6-41 | keeps the node's own id, name and status; for a null parent id or the node's own id, the new children are the old ones plus the new node, as a multiset, sorted by name |
| DirectoryNodeUtils.InsertAbsent | services/front/src/reducers/directoryNodeUtils.ts:20-40 | when no node of the tree has the parent id, the tree comes back unchanged |
| DirectoryNodeUtils.InsertStep | services/front/src/reducers/directoryNodeUtils.ts:20-37 | under unique ids, when the parent is strictly below, exactly the child holding it is replaced by the insert into that child |
| DirectoryNodeUtils.InsertCount | services/front/src/reducers/directoryNodeUtils.ts:6-41 | when the parent exists (or is null), every id's count grows by its count in the new node: no node is lost or duplicated |
| DirectoryNodeUtils.InsertKeepsSorted | services/front/src/reducers/directoryNodeUtils.ts:6-41 | every child list of the result is sorted by name when those of both inputs are |
| DirectoryNodeUtils.InsertKeepsProper | services/front/src/reducers/directoryNodeUtils.ts:6-41 | every node below the root of the result has a numeric id |
| DirectoryNodeUtils.InsertPlaces | services/front/src/reducers/directoryNodeUtils.ts:6-41 | the node found under the parent id keeps its id, name and status and gains exactly the new node among its children, sorted by name |
| DirectoryNodeUtils.UpdateById | services/front/src/reducers/directoryNodeUtils.ts:43-85 | keeps the root's id, name and status |
| DirectoryNodeUtils.UpdateAbsent | services/front/src/reducers/directoryNodeUtils.ts:48-84 | when the id is not strictly below the node, the tree comes back unchanged |
| DirectoryNodeUtils.UpdateStep | services/front/src/reducers/directoryNodeUtils.ts:48-81 | when the child holding the id has it itself, that child is replaced by the updater's result and the children are re-sorted; otherwise only that child is updated recursively |
| DirectoryNodeUtils.UpdateApplies | services/front/src/reducers/directoryNodeUtils.ts:49-62 | under unique ids, the node found under the id afterwards is the updater applied to the node found before |
| DirectoryNodeUtils.UpdateOthers | services/front/src/reducers/directoryNodeUtils.ts:43-85 | the name and status found under every other id are unchanged |
| DirectoryNodeUtils.UpdateCount | services/front/src/reducers/directoryNodeUtils.ts:43-85 | an updater that keeps id and children keeps every id's count |
| DirectoryNodeUtils.UpdateKeepsSorted | services/front/src/reducers/directoryNodeUtils.ts:58 | every child list stays sorted by name, including after a rename |
| DirectoryNodeUtils.UpdateKeepsProper | services/front/src/reducers/directoryNodeUtils.ts:43-85 | every node below the root keeps a numeric id |
| DirectoryNodeUtils.DeleteById | services/front/src/reducers/directoryNodeUtils.ts:87-117 | keeps the root's id, name and status |
| DirectoryNodeUtils.DeleteAbsent | services/front/src/reducers/directoryNodeUtils.ts:91-116 | when the id is not strictly below the node, the tree comes back unchanged |
| DirectoryNodeUtils.DeleteStep | services/front/src/reducers/directoryNodeUtils.ts:91-113 | a child with the id is cut out, the others keeping their order; otherwise only the child holding the id is changed |
| DirectoryNodeUtils.RemoveIdOnly | services/front/src/reducers/directoryNodeUtils.ts:95-97 | filtering out the one child with the id removes exactly that position |
| DirectoryNodeUtils.DeleteRemovesSubtree | services/front/src/reducers/directoryNodeUtils.ts:87-117 | the deleted node's whole subtree goes: each id's count falls by its count in that subtree, and the id is no longer below the root |
| DirectoryNodeUtils.DeleteCount | services/front/src/reducers/directoryNodeUtils.ts:87-117 | for one id: its count after the delete plus its count in the deleted subtree is its count before |
| DirectoryNodeUtils.DeleteOthers | services/front/src/reducers/directoryNodeUtils.ts:87-117 | an id inside the deleted subtree is no longer found; every other id keeps its name and status |
| DirectoryNodeUtils.DeleteKeepsSorted | services/front/src/reducers/directoryNodeUtils.ts:95-97 | child lists stay sorted by name |
| DirectoryNodeUtils.DeleteKeepsProper | services/front/src/reducers/directoryNodeUtils.ts:87-117 | every node below the root keeps a numeric id |
| DirectoryNodeUtils.DeleteIdempotent | services/front/src/reducers/directoryNodeUtils.ts:87-117 | deleting the same id twice is deleting it once |
| DirectoryNodeUtilsExamples.InsertExample | services/front/src/reducers/directoryNodeUtils.test.ts:11-62 | inserting `state.conf` under `docker` yields the tree the test expects |
| DirectoryNodeUtilsExamples.UpdateExample | services/front/src/reducers/directoryNodeUtils.test.ts:65-112 | renaming `docker` to `podman` moves it after `caddy` and before `systemd`, under any collation that orders those names so |
| DirectoryNodeUtilsExamples.DeleteExample | services/front/src/reducers/directoryNodeUtils.test.ts:115-150 | deleting `etc` removes it with its children |
| DirectoryHierarchy.FillSubs | services/front/src/reducers/directoryHierarchy.ts:84-96 | the loop that pushes a regular copy of each child, fills it recursively, then sorts, computes exactly the converted children `ConvertSubs` |
| DirectoryHierarchy.ConvertShape | services/front/src/reducers/directoryHierarchy.ts:84-96 | the converted tree is sorted by name at every level, all regular, with numeric ids |
| DirectoryHierarchy.ConvertCount | services/front/src/reducers/directoryHierarchy.ts:84-96 | the converted tree holds each id as often as the fetched tree |
| DirectoryHierarchy.FetchedRoot | services/front/src/reducers/directoryHierarchy.ts:77-98 | the new root has no id and an empty name, is regular, and its children are the converted fetched children sorted by name (see FetchedRootShape) |
| DirectoryHierarchy.FetchedRootShape | services/front/src/reducers/directoryHierarchy.ts:77-98 | the new root has no id and an empty name, is regular and sorted, holds the fetched ids as often as the fetched tree, and is well-formed when those ids are distinct |
| DirectoryHierarchy.SucceedInitialFetch | services/front/src/reducers/directoryHierarchy.ts:69-104 | does nothing outside the success state; keeps `maxId` and the creator |
| DirectoryHierarchy.Apply | services/front/src/reducers/directoryHierarchy.ts:148-320 | every status updater keeps id and children; the rename-status ones leave a node that is not being renamed untouched, the delete-status ones one that is not being deleted; only a committed rename changes the name, to the committed one |
| DirectoryHierarchy.UpdaterKeeps | services/front/src/reducers/directoryHierarchy.ts:148-460 | every updater passed to `updateDirectoryNodeById` keeps the node's id and children |
| DirectoryHierarchy.RenameWorkflow | services/front/src/reducers/directoryHierarchy.ts:148-320 | start, type, submit, fail leaves the draft with the error flag and the old name; starting again reloads the current name |
| DirectoryHierarchy.CreateDirectory | services/front/src/reducers/directoryHierarchy.ts:106-146 | ignores an id at most `maxId` and any non-success state; keeps `maxId` and the creator |
| DirectoryHierarchy.CreateEffect | services/front/src/reducers/directoryHierarchy.ts:130-145 | for an id above every id of the tree: the tree stays well-formed with ids at most the new one; a missing parent changes nothing; otherwise exactly one node, with the new id, is added |
| DirectoryHierarchy.EditDirectory | services/front/src/reducers/directoryHierarchy.ts:148-320 | does nothing outside the success state; keeps `maxId` and the creator |
| DirectoryHierarchy.EditEffect | services/front/src/reducers/directoryHierarchy.ts:148-320 | keeps the tree well-formed and its ids; a missing id changes nothing; the node with the id becomes the edited node; every other id keeps its name and status |
| DirectoryHierarchy.DeleteDirectory | services/front/src/reducers/directoryHierarchy.ts:403-429 | does nothing outside the success state; keeps `maxId` and the creator |
| DirectoryHierarchy.DeleteEffect | services/front/src/reducers/directoryHierarchy.ts:403-429 | keeps the tree well-formed; the id is gone; no count grows; a missing id changes nothing; exactly the ids of the deleted subtree disappear, the others keeping name and status |
| DirectoryHierarchy.Reducer | services/front/src/reducers/directoryHierarchy.ts:9-67 | actions it does not handle, and all actions outside the success state, leave the state as it is; it never touches `maxId` or the creator |
| DirectoryHierarchy.ReducerKeepsWellFormed | services/front/src/reducers/directoryHierarchy.ts:9-67 | every action keeps the tree rooted at the NaN node with unique numeric ids and sorted children, given ids at most `maxId` and a fetched tree with distinct ids |
| DirectoryCreator.Collect | services/front/src/reducers/directoryCreator.ts:63-70 | the push loop appends the nodes below the fetched root, each before its own subtree |
| DirectoryCreator.FetchOptions | services/front/src/reducers/directoryCreator.ts:61-72 | the options are the collected nodes sorted by label |
| DirectoryCreator.FlattenCount | services/front/src/reducers/directoryCreator.ts:63-70 | the collected list holds each id as often as the fetched tree below its root |
| DirectoryCreator.FetchedOptionsShape | services/front/src/reducers/directoryCreator.ts:61-72 | the options are sorted by label, are a permutation of the collected nodes, and hold each id as often as the fetched tree |
| DirectoryCreator.SucceedInitialFetch | services/front/src/reducers/directoryCreator.ts:53-85 | in the success state the creator is reset, holding the fetched options; elsewhere nothing changes |
| DirectoryCreator.UpdateName | services/front/src/reducers/directoryCreator.ts:87-104 | sets the draft name and clears the error flag; nothing else changes |
| DirectoryCreator.UpdateParentInput | services/front/src/reducers/directoryCreator.ts:105-122 | sets the parent input text and clears the error flag; nothing else changes |
| DirectoryCreator.UpdateParentValue | services/front/src/reducers/directoryCreator.ts:123-140 | sets the selected parent and clears the error flag; nothing else changes |
| DirectoryCreator.TryToPost | services/front/src/reducers/directoryCreator.ts:141-154 | marks the creator waiting and clears the error flag; nothing else changes |
| DirectoryCreator.FailedPost | services/front/src/reducers/directoryCreator.ts:199-212 | stops waiting and raises the error flag; nothing else changes |
| DirectoryCreator.CreateDirectory | services/front/src/reducers/directoryCreator.ts:156-197 | ignores an id at most `maxId`; otherwise clears the draft and appends exactly the new option after the old ones |
| DirectoryCreator.RenameDirectory | services/front/src/reducers/directoryCreator.ts:214-258 | relabels the options with the id, and the selected parent when it has that id; nothing else changes |
| DirectoryCreator.Relabel | services/front/src/reducers/directoryCreator.ts:244-250 | same length and ids, position by position; exactly the options with the id take the new name |
| DirectoryCreator.RelabelIds | services/front/src/reducers/directoryCreator.ts:244-250 | relabelling keeps every id's count and is idempotent |
| DirectoryCreator.DeleteDirectory | services/front/src/reducers/directoryCreator.ts:260-303 | removes the options with the id; the selected parent no longer has that id, and a selected parent with another id stays; nothing else changes |
| DirectoryCreator.RemoveOption | services/front/src/reducers/directoryCreator.ts:293-295 | never longer than before, and no surviving option has the id (membership in RemoveOptionMember, counts in RemoveOptionIds) |
| DirectoryCreator.RemoveOptionMember | services/front/src/reducers/directoryCreator.ts:293-295 | an option survives exactly when it was there and has another id |
| DirectoryCreator.RemoveOptionIds | services/front/src/reducers/directoryCreator.ts:293-295 | the removed id's count drops to zero, every other id keeps its count, and removing twice is removing once |
| DirectoryCreator.RenameKeepsSelected | services/front/src/reducers/directoryCreator.ts:236-251 | a selected parent that is among the options stays among them after a rename |
| DirectoryCreator.DeleteKeepsSelected | services/front/src/reducers/directoryCreator.ts:285-296 | a selected parent that is among the options stays among them after a delete, or is cleared |
| DirectoryCreator.Reducer | services/front/src/reducers/directoryCreator.ts:4-51 | outside the success state nothing changes; it never touches `maxId` or the tree |
| DirectoryCreator.ReducerKeepsSelected | services/front/src/reducers/directoryCreator.ts:4-51 | every action keeps the selected parent among the options, given that a picked parent is picked from them |
| MaxId.MaxOf | services/front/src/reducers/maxId.ts:9-16 | the fetched mark is at least 0 and at least every option id |
| MaxId.MaxFromBounds | services/front/src/reducers/maxId.ts:9-16 | the fold is at least the start value and every option id, and equals one of them |
| MaxId.MaxOfBounds | services/front/src/reducers/maxId.ts:9-16 | the fetched mark is at least 0 and every option id, and is 0 or one of them |
| MaxId.ListedAtMost | services/front/src/reducers/maxId.ts:9-16 | any id offered as an option is at most the fold |
| MaxId.Reducer | services/front/src/reducers/maxId.ts:3-27 | outside success nothing changes; a fetch sets the largest option id (0 when none); a create raises the mark to the larger of it and the new id; other actions change nothing |
| Main.Reset | services/front/src/reducers/main.ts:14-21 | a successful fetch discards the previous state for the fresh success state, a failed fetch for the error state; every other action passes the state through |
| Main.FreshSuccess | services/front/src/reducers/main.ts:30-51 | the success state with mark 0, an empty tree under the NaN root, no parent options and no selected parent |
| Main.Reducer | services/front/src/reducers/main.ts:12-28 | a successful fetch always yields a success state and a failed one the error state; outside success every other action leaves the state alone; in success the mark never drops (FetchOutcome, Inert, CreateTwice and ReducerKeepsInv are about it) |
| Main.InitialState | services/front/src/reducers/main.ts:6-10 | the application starts loading |
| Main.FetchOutcome | services/front/src/reducers/main.ts:12-51 | a successful fetch from any state yields the fetched tree, the fetched options with a cleared draft, and the largest option id |
| Main.FailedFetchOutcome | services/front/src/reducers/main.ts:53-57 | a failed fetch from any state yields the error state |
| Main.Inert | services/front/src/reducers/main.ts:12-28 | outside the success state every action other than the fetch outcomes changes nothing |
| Main.CreateTwice | services/front/src/reducers/main.ts:12-28 | applying a creation twice (client success and server push) is applying it once |
| Main.MaxIdMonotone | services/front/src/reducers/main.ts:12-28 | outside the fetches the mark never decreases and success is kept |
| Main.InitialInv | services/front/src/reducers/main.ts:6-10 | the initial state satisfies the invariant |
| Main.ReducerKeepsInv | services/front/src/reducers/main.ts:12-28 | every action keeps the tree well-formed, its ids at most the mark, and each of them offered as a parent, given a fetched tree with distinct ids |
| DirectoryTreeBuilder.DirectoryTreeBuilder.FromList | services/back/src/business_logic/directory_tree_builder.rs:14-46 | the loop leaves the map and root ids that `Load` describes |
| DirectoryTreeBuilder.LoadKeys | services/back/src/business_logic/directory_tree_builder.rs:18-29 | the keys are exactly the ids of the rows with an id and a name |
| DirectoryTreeBuilder.LoadSkips | services/back/src/business_logic/directory_tree_builder.rs:19-21 | rows missing an id or a name leave no trace |
| DirectoryTreeBuilder.LoadRoots | services/back/src/business_logic/directory_tree_builder.rs:31-35 | the root ids are the ids of the rows without a parent, in input order |
| DirectoryTreeBuilder.RootsMember | services/back/src/business_logic/directory_tree_builder.rs:31-35 | an id is a root id exactly when a kept row has it and no parent |
| DirectoryTreeBuilder.RootsDistinct | services/back/src/business_logic/directory_tree_builder.rs:31-35 | with distinct ids no root id is pushed twice |
| DirectoryTreeBuilder.LoadChildren | services/back/src/business_logic/directory_tree_builder.rs:23-42 | each key holds its last row's name and, as children, the ids of the rows from that row on that name it as parent, in input order |
| DirectoryTreeBuilder.AttachedMember | services/back/src/business_logic/directory_tree_builder.rs:37-42 | an id is attached to a parent exactly when a kept row has that id and names that parent |
| DirectoryTreeBuilder.AttachedDistinct | services/back/src/business_logic/directory_tree_builder.rs:37-42 | with distinct ids no child is attached twice to one parent |
| DirectoryTreeBuilder.ChildLater | services/back/src/business_logic/directory_tree_builder.rs:37-42 | a child entry's row comes after its parent's row and names that parent |
| DirectoryTreeBuilder.ParentAfterIsDropped | services/back/src/business_logic/directory_tree_builder.rs:37-42 | a row read before its parent is neither a root nor anybody's child |
| DirectoryTreeBuilder.LoadForest | services/back/src/business_logic/directory_tree_builder.rs:14-46 | with distinct ids and no self-parent, children are later keys, no id is attached twice, and root ids are distinct and nobody's child |
| DirectoryTreeBuilder.BuildNode | services/back/src/business_logic/directory_tree_builder.rs:48-63 | a missing id panics; otherwise the node has the id, its name and its children in order, the id is removed, and the map only loses keys |
| DirectoryTreeBuilder.BuildList | services/back/src/business_logic/directory_tree_builder.rs:57-61 | one node per id, in order, and the map only loses keys |
| DirectoryTreeBuilder.BuildNodeSucceeds | services/back/src/business_logic/directory_tree_builder.rs:48-63 | the build never reaches the panic from a key that no entry of a closed, single-parent part of the map has as a child; the other such keys stay in the map |
| DirectoryTreeBuilder.BuildListSucceeds | services/back/src/business_logic/directory_tree_builder.rs:57-61 | the same for a list of distinct such keys |
| DirectoryTreeBuilder.BuildNodeCount | services/back/src/business_logic/directory_tree_builder.rs:48-63 | every key of the map ends up either exactly once in the tree or still in the map; no other id appears |
| DirectoryTreeBuilder.BuildListCount | services/back/src/business_logic/directory_tree_builder.rs:57-61 | the same for a list of subtrees |
| DirectoryTreeBuilder.DirectoryTreeBuilder.RecursivelyBuildTree | services/back/src/business_logic/directory_tree_builder.rs:48-63 | removes the entries it builds and returns the node, as `BuildNode` says |
| DirectoryTreeBuilder.DirectoryTreeBuilder.BuildChildren | services/back/src/business_logic/directory_tree_builder.rs:57-61 | builds the ids in order, as `BuildList` says |
| DirectoryTreeBuilder.DirectoryTreeBuilder.IntoNode | services/back/src/business_logic/directory_tree_builder.rs:65-73 | a missing key is the error with that key; otherwise the subtree `BuildNode` describes |
| DirectoryTreeBuilder.DirectoryTreeBuilder.IntoRoot | services/back/src/business_logic/directory_tree_builder.rs:75-88 | a root with id 0 and an empty name over the trees of the root ids, in order |
| DirectoryTreeBuilder.IntoRootSucceeds | services/back/src/business_logic/directory_tree_builder.rs:75-88 | with distinct ids and no self-parent `into_root` never panics; its children are the parentless rows in input order, and no id appears twice or without a row |
| DirectoryTreeBuilder.IntoNodeSucceeds | services/back/src/business_logic/directory_tree_builder.rs:65-73 | with distinct ids and no self-parent `into_node` of any kept id succeeds with that row's name and the later rows naming it, in order, as children; no id appears twice or without a row |
| DirectoryTreeBuilder.IntoNodeMissing | services/back/src/business_logic/directory_tree_builder.rs:66-70 | an id no kept row has gives the missing-key error |
| DirectoryTreeBuilderExamples.EmptyExample | services/back/src/business_logic/directory_tree_builder.rs:101-113 | no rows give a bare root with id 0 and an empty name |
| DirectoryTreeBuilderExamples.LoadExample | services/back/src/business_logic/directory_tree_builder.rs:115-179 | the five rows give the expected map and root ids |
| DirectoryTreeBuilderExamples.IntoRootExample | services/back/src/business_logic/directory_tree_builder.rs:115-179 | the five rows give `util` (holding `bin` with `usr`, and `var`) before `src` |
| DirectoryTreeBuilderExamples.IntoNodeExample | services/back/src/business_logic/directory_tree_builder.rs:181-234 | `into_node(1)` on the same rows gives the `util` subtree |

## Left out

- React components, `services/front/src/api.ts`, and the back end's handlers, database layer, change listener and start-up are not part of this model. They are I/O, rendering and concurrency plumbing. The push-message-to-action mapping of `App.tsx` appears only as the `user*` actions.
- Collation rules: `localeCompare` is an abstract total, transitive comparison. No locale is modelled.
- The `unknown` payload of a failed fetch is an opaque type.
- The SQL queries of `services/back/src/db/directories.rs` that produce the `ListDirectory` rows are not modelled; the rows are an input, with its optional id, name and parent id.
- Rust `HashMap` hashing and iteration order are not modelled; the map is a Dafny `map`. The builder never iterates over the map, so nothing depends on that order.
- `i32` width: ids are unbounded integers, because the builder never computes with them.
- DirectoryHierarchy.FillSubs: the source pushes an empty copy and fills it afterwards through the shared reference. The model pushes the filled copy. The final list is the same, but the aliasing is not modelled.
- DirectoryNodeUtils.UpdateApplies: proved under unique ids. With two siblings sharing an id, the source's `map` gives both the first one's update. The model computes the same thing, but no lemma describes it.
- Main.ReducerKeepsInv: every tree id is offered as a parent, but not the converse. When a directory is deleted, the creator drops only the options with that exact id. The options of its descendants stay, so ids offered as parents need not be in the tree.
- DirectoryTreeBuilder.IntoRootSucceeds: the no-panic guarantee is stated for rows with distinct ids and no row naming itself as parent. The database enforces the first through its primary key; the second is not excluded. A duplicated id or a self-parented row can make the source panic, so those inputs are outside the guarantee.
- DirectoryTreeBuilder.IntoNodeSucceeds: the same distinct ids and no-self-parent conditions as `IntoRootSucceeds`.
