/** The reducer of the directory tree
    (services/front/src/reducers/directoryHierarchy.ts): the tree built from
    the initial fetch, the per-node edit state machine, and create, rename
    and delete, whether confirmed by the server or pushed by another client. */
module DirectoryHierarchy {
  import opened Wrappers
  import opened Sorting
  import opened Types
  import opened Tree
  import opened ApiTree
  import opened DirectoryNodeUtils

  /** What the state tree looks like between actions: an unnamed root
      without id, numbered nodes below it with distinct ids, and every
      children list ordered by name. */
  ghost predicate WellFormed(root: Node, compare: Collation) {
    root.id.None? && Unique(root) && Proper(root) && AllSorted(root, compare)
  }

  /** Every id in the tree is at most `maxId`: the guard of create relies on
      it. */
  ghost predicate IdsAtMost(root: Node, maxId: int) {
    forall k :: Has(root, k) ==> k <= maxId
  }

  /** Nodes as the initial fetch leaves them: all `regular`. */
  ghost predicate AllRegular(node: Node)
    decreases node
  {
    node.status == Regular && forall sub :: sub in node.subs ==> AllRegular(sub)
  }

  // ----- succeedInitialFetch -----

  /** The state node for a fetched node: same id and name, `regular`, its
      children converted and sorted by name. */
  function Convert(api: ApiNode, compare: Collation): Node
    decreases api, 2
  {
    Node(Some(api.id), api.name, Regular, ConvertSubs(api, compare))
  }

  /** The children of a fetched node, converted, in the API's order: what the
      loop pushes before sorting. */
  function Pushed(api: ApiNode, compare: Collation): seq<Node>
    decreases api, 0
  {
    seq(|api.subs|, i requires 0 <= i < |api.subs| => Convert(api.subs[i], compare))
  }

  function ConvertSubs(api: ApiNode, compare: Collation): seq<Node>
    decreases api, 1
  {
    SortByName(Pushed(api, compare), compare)
  }

  /** The root the initial fetch installs: no id, an empty name, whatever the
      API root carries. */
  function FetchedRoot(api: ApiNode, compare: Collation): (r: Node)
    ensures r.id.None? && r.name == "" && r.status == Regular
    ensures multiset(r.subs) == multiset(Pushed(api, compare)) && SortedByName(r.subs, compare)
  {
    Node(None, "", Regular, ConvertSubs(api, compare))
  }

  /** The recursive helper of succeedInitialFetch: push a `regular` copy of
      every child, fill each copy from the child's own children, then sort
      the pushed list by name. The source pushes the copy first and fills it
      through the shared reference; here the filled copy is pushed, which
      ends in the same list. */
  method FillSubs(api: ApiNode, compare: Collation) returns (subs: seq<Node>)
    ensures subs == ConvertSubs(api, compare)
    decreases api
  {
    var pushed: seq<Node> := [];
    var i := 0;
    while i < |api.subs|
      invariant 0 <= i <= |api.subs|
      invariant pushed == Pushed(api, compare)[..i]
    {
      var sub := api.subs[i];
      var grandchildren := FillSubs(sub, compare);
      pushed := pushed + [Node(Some(sub.id), sub.name, Regular, grandchildren)];
      i := i + 1;
    }
    assert pushed == Pushed(api, compare);
    subs := SortByName(pushed, compare);
  }

  /** The fetched tree is ordered, numbered below the root and all
      `regular`. */
  lemma {:induction false} ConvertShape(api: ApiNode, compare: Collation)
    ensures AllSorted(Convert(api, compare), compare)
    ensures Proper(Convert(api, compare))
    ensures AllRegular(Convert(api, compare))
    decreases api
  {
    var subs := ConvertSubs(api, compare);
    forall sub | sub in subs
      ensures sub.id.Some? && AllSorted(sub, compare) && Proper(sub) && AllRegular(sub)
    {
      var i := IndexOf(Pushed(api, compare), sub);
      ConvertShape(api.subs[i], compare);
    }
  }

  /** The fetched tree holds exactly the ids below the API root. */
  lemma {:induction false} ConvertCount(api: ApiNode, compare: Collation, id: int)
    ensures Count(Convert(api, compare), id) == ApiCount(api, id)
    decreases api, 1
  {
    CountPermutation(ConvertSubs(api, compare), Pushed(api, compare), id);
    PushedCount(api, compare, 0, id);
    assert Pushed(api, compare)[0..] == Pushed(api, compare);
    assert api.subs[0..] == api.subs;
  }

  lemma {:induction false} PushedCount(api: ApiNode, compare: Collation, from: nat, id: int)
    requires from <= |api.subs|
    ensures CountIn(Pushed(api, compare)[from..], id) == ApiCountIn(api.subs[from..], id)
    decreases api, 0, |api.subs| - from
  {
    if from < |api.subs| {
      var p := Pushed(api, compare);
      assert p[from..][1..] == p[from + 1..];
      ApiCountSplit(api.subs, from, id);
      ConvertCount(api.subs[from], compare, id);
      PushedCount(api, compare, from + 1, id);
    }
  }

  /** The initial fetch ignores the API root's id and name, marks every node
      `regular`, sorts every children list and keeps exactly the API's ids
      below the root; distinct ids in the API give a well-formed tree. */
  lemma FetchedRootShape(api: ApiNode, compare: Collation)
    ensures var root := FetchedRoot(api, compare);
            && root.id.None? && root.name == "" && AllRegular(root)
            && AllSorted(root, compare) && Proper(root)
            && (forall k :: Count(root, k) == ApiCountIn(api.subs, k))
            && (ApiUnique(api) ==> WellFormed(root, compare))
  {
    var root := FetchedRoot(api, compare);
    ConvertShape(api, compare);
    forall k ensures Count(root, k) == ApiCountIn(api.subs, k) {
      ConvertCount(api, compare, k);
    }
  }

  // ----- the per-node edits -----

  /** The updaters the status handlers pass to updateDirectoryNodeById. */
  datatype Edit =
    | StartRename          // startToEditDirectoryName
    | CancelRename         // cancelDirectioryNameEdition
    | TypeName(draft: string)  // updateTemporaryNewNameOfDirectory
    | SubmitName           // tryToPutNewDirectoryName
    | CommitName(name: string) // renameDirectory (confirmed or pushed)
    | RenameFailed         // failedToPutNewDirectoryName
    | StartDelete          // startToDeleteDirectoryNode
    | CancelDelete         // cancelDirectoryNodeDeletion
    | SubmitDelete         // tryToDeleteDirectoryAndSubdirectories
    | DeleteFailed         // failedToDeleteDirectoryAndSubdirectories

  /** The edits that only act on a node being renamed. */
  predicate RenameOnly(edit: Edit) {
    edit.TypeName? || edit.SubmitName? || edit.RenameFailed?
  }

  /** The edits that only act on a node marked for deletion. */
  predicate DeleteOnly(edit: Edit) {
    edit.CancelDelete? || edit.SubmitDelete? || edit.DeleteFailed?
  }

  /** One updater applied to one node. Every edit keeps the node's id and
      children; the guarded ones leave a node in another state untouched;
      only a committed rename changes the name. */
  function Apply(edit: Edit, node: Node): (r: Node)
    ensures r.id == node.id && r.subs == node.subs
    ensures RenameOnly(edit) && !node.status.Renaming? ==> r == node
    ensures DeleteOnly(edit) && !node.status.Deleting? ==> r == node
    ensures r.name != node.name ==> edit.CommitName? && r.name == edit.name
  {
    match edit
    case StartRename => node.(status := Renaming(node.name, false, false))
    case CancelRename => node.(status := Regular)
    case TypeName(draft) =>
      if node.status.Renaming? then
        node.(status := Renaming(draft, node.status.waitingForServer, node.status.anErrorOccurred))
      else node
    case SubmitName =>
      if node.status.Renaming? then
        node.(status := Renaming(node.status.name, true, node.status.anErrorOccurred))
      else node
    case CommitName(name) => node.(name := name, status := Regular)
    case RenameFailed =>
      if node.status.Renaming? then node.(status := Renaming(node.status.name, false, true)) else node
    case StartDelete => node.(status := Deleting(false, false))
    case CancelDelete =>
      if node.status.Deleting? then node.(status := Regular) else node
    case SubmitDelete =>
      if node.status.Deleting? then node.(status := Deleting(true, node.status.anErrorOccurred)) else node
    case DeleteFailed =>
      if node.status.Deleting? then node.(status := Deleting(false, true)) else node
  }

  function Updater(edit: Edit): Node -> Node {
    (n: Node) => Apply(edit, n)
  }

  lemma UpdaterKeeps(edit: Edit)
    ensures KeepsIdAndSubs(Updater(edit))
  {
    forall n ensures Updater(edit)(n).id == n.id && Updater(edit)(n).subs == n.subs {
      assert Updater(edit)(n) == Apply(edit, n);
    }
  }

  /** A rename round trip through the status machine: start, type a draft,
      submit, fail; the node keeps its name and shows the draft with the
      error flag. Starting again discards the draft. */
  lemma RenameWorkflow(node: Node, draft: string)
    ensures var failed := Apply(RenameFailed, Apply(SubmitName, Apply(TypeName(draft), Apply(StartRename, node))));
            && failed.status == Renaming(draft, false, true) && failed.name == node.name
            && Apply(StartRename, failed).status == Renaming(node.name, false, false)
  {
  }

  // ----- the state-level handlers -----

  /** createDirectory: a create whose id is not above `maxId` is a repeat and
      changes nothing; otherwise a childless `regular` node goes under
      `parentId` (under the root when it is null). */
  function CreateDirectory(state: State, id: int, name: string, parentId: Option<int>, compare: Collation): (r: State)
    ensures !state.Success? || id <= state.maxId ==> r == state
    ensures state.Success? ==> r.Success? && r.maxId == state.maxId && r.directoryCreator == state.directoryCreator
  {
    if !state.Success? then state
    else if id <= state.maxId then state
    else state.(rootDirectory := InsertById(state.rootDirectory, parentId, Node(Some(id), name, Regular, []), compare))
  }

  /** The handlers that run one edit through updateDirectoryNodeById. */
  function EditDirectory(state: State, id: int, edit: Edit, compare: Collation): (r: State)
    ensures !state.Success? ==> r == state
    ensures state.Success? ==> r.Success? && r.maxId == state.maxId && r.directoryCreator == state.directoryCreator
  {
    if !state.Success? then state
    else state.(rootDirectory := UpdateById(state.rootDirectory, id, Updater(edit), compare))
  }

  /** deleteDirectory. */
  function DeleteDirectory(state: State, id: int): (r: State)
    ensures !state.Success? ==> r == state
    ensures state.Success? ==> r.Success? && r.maxId == state.maxId && r.directoryCreator == state.directoryCreator
  {
    if !state.Success? then state
    else state.(rootDirectory := DeleteById(state.rootDirectory, id))
  }

  function SucceedInitialFetch(state: State, api: ApiNode, compare: Collation): (r: State)
    ensures !state.Success? ==> r == state
    ensures state.Success? ==> r.Success? && r.maxId == state.maxId && r.directoryCreator == state.directoryCreator
  {
    if !state.Success? then state
    else state.(rootDirectory := FetchedRoot(api, compare))
  }

  /** The actions this reducer handles; every other one leaves the state as
      it is. */
  predicate Handled(action: Action) {
    !(|| action.FailedInitialFetch?
      || action.UpdateNameOfDirectoryCreator?
      || action.UpdateParentInputValueOfDirectoryCreator?
      || action.UpdateParentValueOfDirectoryCreator?
      || action.TryToPostNewDirectory?
      || action.FailedToPostNewDirectory?)
  }

  function Reducer(state: State, action: Action, compare: Collation): (r: State)
    ensures !state.Success? || !Handled(action) ==> r == state
    ensures state.Success? ==> r.Success? && r.maxId == state.maxId && r.directoryCreator == state.directoryCreator
  {
    match action
    case SucceedInitialFetch(node) => SucceedInitialFetch(state, node, compare)
    case SucceedToPostNewDirectory(id, name, parentId) => CreateDirectory(state, id, name, parentId, compare)
    case UserCreateDirectory(id, name, parentId) => CreateDirectory(state, id, name, parentId, compare)
    case StartToEditDirectoryName(id) => EditDirectory(state, id, StartRename, compare)
    case CancelDirectoryNameEdition(id) => EditDirectory(state, id, CancelRename, compare)
    case UpdateTemporaryNewNameOfDirectory(id, name) => EditDirectory(state, id, TypeName(name), compare)
    case TryToPutNewDirectoryName(id) => EditDirectory(state, id, SubmitName, compare)
    case SucceedToPutNewDirectoryName(id, name) => EditDirectory(state, id, CommitName(name), compare)
    case UserRenameDirectory(id, name) => EditDirectory(state, id, CommitName(name), compare)
    case FailedToPutNewDirectoryName(id) => EditDirectory(state, id, RenameFailed, compare)
    case StartToDeleteDirectoryNode(id) => EditDirectory(state, id, StartDelete, compare)
    case CancelDirectoryNodeDeletion(id) => EditDirectory(state, id, CancelDelete, compare)
    case TryToDeleteDirectoryAndSubdirectories(id) => EditDirectory(state, id, SubmitDelete, compare)
    case SucceedToDeleteDirectoryAndSubdirectories(id) => DeleteDirectory(state, id)
    case UserDeleteDirectory(id) => DeleteDirectory(state, id)
    case FailedToDeleteDirectoryAndSubdirectories(id) => EditDirectory(state, id, DeleteFailed, compare)
    case _ => state
  }

  // ----- what the handlers do to a well-formed tree -----

  /** A create above `maxId` adds exactly the new id, once, to a tree whose
      ids are all at most `maxId`; under an existing parent the parent gains
      the new childless node in its sorted list; under a missing parent
      nothing changes. */
  lemma CreateEffect(state: State, id: int, name: string, parentId: Option<int>, compare: Collation)
    requires state.Success? && WellFormed(state.rootDirectory, compare)
    requires IdsAtMost(state.rootDirectory, state.maxId) && id > state.maxId
    ensures var root := state.rootDirectory;
            var after := CreateDirectory(state, id, name, parentId, compare).rootDirectory;
            && WellFormed(after, compare)
            && IdsAtMost(after, id)
            && (parentId.Some? && !Has(root, parentId.value) ==> after == root)
            && (parentId.None? || Has(root, parentId.value) ==>
                  forall k :: Count(after, k) == Count(root, k) + (if k == id then 1 else 0))
  {
    var root := state.rootDirectory;
    var x := Node(Some(id), name, Regular, []);
    var after := CreateDirectory(state, id, name, parentId, compare).rootDirectory;
    assert after == InsertById(root, parentId, x, compare);
    assert WellFormed(after, compare) by {
      assert AllSorted(x, compare) && Proper(x);
      InsertKeepsSorted(root, parentId, x, compare);
      InsertKeepsProper(root, parentId, x, compare);
      InsertIdsUnique(root, parentId, x, compare);
    }
    if parentId.Some? && !Has(root, parentId.value) {
      InsertAbsent(root, parentId.value, x, compare);
    } else {
      InsertAddsIds(root, parentId, x, compare);
      assert forall k :: Count(x, k) == (if k == id then 1 else 0);
      forall k | Has(after, k) ensures k <= id {
        if k != id {
          assert Has(root, k);
        }
      }
    }
  }

  /** Inserting a node whose id is new keeps the ids unique. */
  lemma InsertIdsUnique(root: Node, parentId: Option<int>, x: Node, compare: Collation)
    requires Unique(root) && Proper(root) && x.id.Some? && x.subs == [] && !Has(root, x.id.value)
    ensures Unique(InsertById(root, parentId, x, compare))
  {
    var after := InsertById(root, parentId, x, compare);
    if parentId.Some? && !Has(root, parentId.value) {
      InsertAbsent(root, parentId.value, x, compare);
    } else {
      InsertAddsIds(root, parentId, x, compare);
      assert forall k :: Count(x, k) == (if k == x.id.value then 1 else 0);
    }
  }

  /** An edit of a node present in the tree applies the updater to that node
      and to no other: every other id keeps its name and status, and the
      tree stays well-formed. An edit of a missing id changes nothing. */
  lemma EditEffect(state: State, id: int, edit: Edit, compare: Collation)
    requires state.Success? && WellFormed(state.rootDirectory, compare)
    ensures var root := state.rootDirectory;
            var after := EditDirectory(state, id, edit, compare).rootDirectory;
            && WellFormed(after, compare)
            && (forall k :: Count(after, k) == Count(root, k))
            && (!Has(root, id) ==> after == root)
            && (Has(root, id) ==> Find(root, id).Some? && Find(after, id) == Some(Apply(edit, Find(root, id).value)))
            && (forall q :: q != id ==> Entry(after, q) == Entry(root, q))
  {
    var root := state.rootDirectory;
    var f := Updater(edit);
    UpdaterKeeps(edit);
    UpdateKeepsIds(root, id, f, compare);
    UpdateKeepsProper(root, id, f, compare);
    UpdateKeepsSorted(root, id, f, compare);
    if !Below(root, id) {
      UpdateAbsent(root, id, f, compare);
    } else {
      UpdateApplies(root, id, f, compare);
    }
    forall q | q != id ensures Entry(EditDirectory(state, id, edit, compare).rootDirectory, q) == Entry(root, q) {
      UpdateOthers(root, id, f, compare, q);
    }
  }

  /** A delete of a node present in the tree takes out its whole subtree and
      nothing else: ids outside it keep their name and status. A delete of a
      missing id changes nothing. */
  lemma DeleteEffect(state: State, id: int, compare: Collation)
    requires state.Success? && WellFormed(state.rootDirectory, compare)
    ensures var root := state.rootDirectory;
            var after := DeleteDirectory(state, id).rootDirectory;
            && WellFormed(after, compare)
            && !Has(after, id)
            && (forall k :: Count(after, k) <= Count(root, k))
            && (!Has(root, id) ==> after == root)
            && (Has(root, id) ==>
                  && Find(root, id).Some?
                  && forall q :: Entry(after, q) == if Has(Find(root, id).value, q) then None else Entry(root, q))
  {
    var root := state.rootDirectory;
    var after := DeleteDirectory(state, id).rootDirectory;
    DeleteKeepsSorted(root, id, compare);
    DeleteKeepsProper(root, id);
    forall k ensures Count(after, k) <= Count(root, k) {
      if Below(root, id) {
        DeleteRemovesSubtree(root, id);
      } else {
        DeleteAbsent(root, id);
      }
    }
    if !Below(root, id) {
      DeleteAbsent(root, id);
    } else {
      DeleteRemovesSubtree(root, id);
      forall q ensures Entry(after, q) == if Has(Find(root, id).value, q) then None else Entry(root, q) {
        DeleteOthers(root, id, q);
      }
    }
  }

  /** Every action keeps a well-formed tree well-formed, given that a fetched
      tree carries distinct ids and the ids in the tree are at most
      `maxId`. */
  lemma ReducerKeepsWellFormed(state: State, action: Action, compare: Collation)
    requires state.Success? && WellFormed(state.rootDirectory, compare)
    requires IdsAtMost(state.rootDirectory, state.maxId)
    requires action.SucceedInitialFetch? ==> ApiUnique(action.node)
    ensures WellFormed(Reducer(state, action, compare).rootDirectory, compare)
  {
    match action
    case SucceedInitialFetch(node) => FetchedRootShape(node, compare);
    case SucceedToPostNewDirectory(id, name, parentId) =>
      if id > state.maxId { CreateKeeps(state, id, name, parentId, compare); }
    case UserCreateDirectory(id, name, parentId) =>
      if id > state.maxId { CreateKeeps(state, id, name, parentId, compare); }
    case SucceedToDeleteDirectoryAndSubdirectories(id) => DeleteKeeps(state, id, compare);
    case UserDeleteDirectory(id) => DeleteKeeps(state, id, compare);
    case StartToEditDirectoryName(id) => EditKeeps(state, id, StartRename, compare);
    case CancelDirectoryNameEdition(id) => EditKeeps(state, id, CancelRename, compare);
    case UpdateTemporaryNewNameOfDirectory(id, name) => EditKeeps(state, id, TypeName(name), compare);
    case TryToPutNewDirectoryName(id) => EditKeeps(state, id, SubmitName, compare);
    case SucceedToPutNewDirectoryName(id, name) => EditKeeps(state, id, CommitName(name), compare);
    case UserRenameDirectory(id, name) => EditKeeps(state, id, CommitName(name), compare);
    case FailedToPutNewDirectoryName(id) => EditKeeps(state, id, RenameFailed, compare);
    case StartToDeleteDirectoryNode(id) => EditKeeps(state, id, StartDelete, compare);
    case CancelDirectoryNodeDeletion(id) => EditKeeps(state, id, CancelDelete, compare);
    case TryToDeleteDirectoryAndSubdirectories(id) => EditKeeps(state, id, SubmitDelete, compare);
    case FailedToDeleteDirectoryAndSubdirectories(id) => EditKeeps(state, id, DeleteFailed, compare);
    case _ =>
  }

  lemma CreateKeeps(state: State, id: int, name: string, parentId: Option<int>, compare: Collation)
    requires state.Success? && WellFormed(state.rootDirectory, compare)
    requires IdsAtMost(state.rootDirectory, state.maxId) && id > state.maxId
    ensures WellFormed(CreateDirectory(state, id, name, parentId, compare).rootDirectory, compare)
  {
    CreateEffect(state, id, name, parentId, compare);
  }

  lemma EditKeeps(state: State, id: int, edit: Edit, compare: Collation)
    requires state.Success? && WellFormed(state.rootDirectory, compare)
    ensures WellFormed(EditDirectory(state, id, edit, compare).rootDirectory, compare)
  {
    EditEffect(state, id, edit, compare);
  }

  lemma DeleteKeeps(state: State, id: int, compare: Collation)
    requires state.Success? && WellFormed(state.rootDirectory, compare)
    ensures WellFormed(DeleteDirectory(state, id).rootDirectory, compare)
  {
    DeleteEffect(state, id, compare);
  }
}
