/** The root reducer (services/front/src/reducers/main.ts): the lifecycle
    loading, then success or error, and the composition of the three
    reducers in the order creator, hierarchy, maxId. */
module Main {
  import opened Wrappers
  import opened Sorting
  import opened Types
  import opened Tree
  import opened ApiTree
  import DirectoryCreator
  import DirectoryHierarchy
  import MaxId

  function InitialState(): (r: State)
    ensures r.Loading?
  {
    Loading
  }

  /** The state succeedInitialFetch starts from, before the sub-reducers
      fill it in. */
  function FreshSuccess(): (r: State)
    ensures r.Success? && r.maxId == 0
    ensures r.rootDirectory.id.None? && r.rootDirectory.subs == []
    ensures r.directoryCreator.parentOptions == [] && r.directoryCreator.parentValue.None?
  {
    Success(0, DirectoryCreator.Cleared([]), Node(None, "", Regular, []))
  }

  /** The two fetch outcomes replace whatever state there was. */
  function Reset(state: State, action: Action): (r: State)
    ensures action.SucceedInitialFetch? ==> r == FreshSuccess()
    ensures action.FailedInitialFetch? ==> r == Error(action.error)
    ensures !action.SucceedInitialFetch? && !action.FailedInitialFetch? ==> r == state
  {
    match action
    case SucceedInitialFetch(_) => FreshSuccess()
    case FailedInitialFetch(error) => Error(error)
    case _ => state
  }

  function Reducer(state: State, action: Action, compare: Collation): (r: State)
    ensures action.SucceedInitialFetch? ==> r.Success?
    ensures action.FailedInitialFetch? ==> r == Error(action.error)
    ensures !state.Success? && !action.SucceedInitialFetch? && !action.FailedInitialFetch? ==> r == state
    ensures state.Success? && !action.SucceedInitialFetch? && !action.FailedInitialFetch? ==>
      r.Success? && r.maxId >= state.maxId
  {
    var s1 := Reset(state, action);
    var s2 := DirectoryCreator.Reducer(s1, action, compare);
    var s3 := DirectoryHierarchy.Reducer(s2, action, compare);
    MaxId.Reducer(s3, action)
  }

  function IsCreate(action: Action): bool {
    action.SucceedToPostNewDirectory? || action.UserCreateDirectory?
  }

  /** A successful fetch, from any state, yields the fetched tree, the
      fetched options with a cleared draft, and the largest option id as the
      mark. */
  lemma FetchOutcome(state: State, api: ApiNode, compare: Collation)
    ensures var options := DirectoryCreator.FetchedOptions(api, compare);
            Reducer(state, SucceedInitialFetch(api), compare)
              == Success(MaxId.MaxOf(options), DirectoryCreator.Cleared(options), DirectoryHierarchy.FetchedRoot(api, compare))
  {
  }

  /** A failed fetch, from any state, yields the error. */
  lemma FailedFetchOutcome(state: State, error: FetchError, compare: Collation)
    ensures Reducer(state, FailedInitialFetch(error), compare) == Error(error)
  {
  }

  /** While loading or after an error only the fetch outcomes do anything. */
  lemma Inert(state: State, action: Action, compare: Collation)
    requires !state.Success? && !action.SucceedInitialFetch? && !action.FailedInitialFetch?
    ensures Reducer(state, action, compare) == state
  {
  }

  /** The same create delivered twice (say, confirmed by the server and
      pushed over the channel) changes the state only the first time: both
      create guards see the mark, which runs last, already raised. */
  lemma CreateTwice(state: State, action: Action, compare: Collation)
    requires IsCreate(action)
    ensures Reducer(Reducer(state, action, compare), action, compare) == Reducer(state, action, compare)
  {
  }

  /** No action but a fetch lowers the mark. */
  lemma MaxIdMonotone(state: State, action: Action, compare: Collation)
    requires state.Success? && !action.SucceedInitialFetch? && !action.FailedInitialFetch?
    ensures Reducer(state, action, compare).Success?
    ensures Reducer(state, action, compare).maxId >= state.maxId
  {
  }

  // ----- the state invariant -----

  /** Every id in the tree has an option in the parent list. */
  ghost predicate Listed(root: Node, options: seq<Parent>) {
    forall k :: Has(root, k) ==> DirectoryCreator.IdCount(options, k) > 0
  }

  /** In the success state the tree is well-formed, its ids are at most the
      mark, and each of them is offered as a parent. */
  ghost predicate Inv(state: State, compare: Collation) {
    state.Success? ==>
      && DirectoryHierarchy.WellFormed(state.rootDirectory, compare)
      && DirectoryHierarchy.IdsAtMost(state.rootDirectory, state.maxId)
      && Listed(state.rootDirectory, state.directoryCreator.parentOptions)
  }

  lemma InitialInv(compare: Collation)
    ensures Inv(InitialState(), compare)
  {
  }

  /** Every action keeps the invariant, given that the server sends a tree
      whose ids are distinct. */
  lemma ReducerKeepsInv(state: State, action: Action, compare: Collation)
    requires Inv(state, compare)
    requires action.SucceedInitialFetch? ==> ApiUnique(action.node)
    ensures Inv(Reducer(state, action, compare), compare)
  {
    if action.SucceedInitialFetch? {
      InvAfterFetch(state, action.node, compare);
    } else if action.FailedInitialFetch? || !state.Success? {
    } else {
      match action
      case SucceedToPostNewDirectory(id, name, parentId) => InvAfterCreate(state, action, compare);
      case UserCreateDirectory(id, name, parentId) => InvAfterCreate(state, action, compare);
      case SucceedToPutNewDirectoryName(id, name) => InvAfterRename(state, action, id, name, compare);
      case UserRenameDirectory(id, name) => InvAfterRename(state, action, id, name, compare);
      case SucceedToDeleteDirectoryAndSubdirectories(id) => InvAfterDelete(state, action, id, compare);
      case UserDeleteDirectory(id) => InvAfterDelete(state, action, id, compare);
      case StartToEditDirectoryName(id) => InvAfterEdit(state, action, id, DirectoryHierarchy.StartRename, compare);
      case CancelDirectoryNameEdition(id) => InvAfterEdit(state, action, id, DirectoryHierarchy.CancelRename, compare);
      case UpdateTemporaryNewNameOfDirectory(id, name) => InvAfterEdit(state, action, id, DirectoryHierarchy.TypeName(name), compare);
      case TryToPutNewDirectoryName(id) => InvAfterEdit(state, action, id, DirectoryHierarchy.SubmitName, compare);
      case FailedToPutNewDirectoryName(id) => InvAfterEdit(state, action, id, DirectoryHierarchy.RenameFailed, compare);
      case StartToDeleteDirectoryNode(id) => InvAfterEdit(state, action, id, DirectoryHierarchy.StartDelete, compare);
      case CancelDirectoryNodeDeletion(id) => InvAfterEdit(state, action, id, DirectoryHierarchy.CancelDelete, compare);
      case TryToDeleteDirectoryAndSubdirectories(id) => InvAfterEdit(state, action, id, DirectoryHierarchy.SubmitDelete, compare);
      case FailedToDeleteDirectoryAndSubdirectories(id) => InvAfterEdit(state, action, id, DirectoryHierarchy.DeleteFailed, compare);
      case _ =>
    }
  }

  lemma InvAfterFetch(state: State, api: ApiNode, compare: Collation)
    requires ApiUnique(api)
    ensures Inv(Reducer(state, SucceedInitialFetch(api), compare), compare)
  {
    var options := DirectoryCreator.FetchedOptions(api, compare);
    var root := DirectoryHierarchy.FetchedRoot(api, compare);
    FetchOutcome(state, api, compare);
    DirectoryHierarchy.FetchedRootShape(api, compare);
    DirectoryCreator.FetchedOptionsShape(api, compare);
    forall k | Has(root, k) ensures k <= MaxId.MaxOf(options) {
      MaxId.ListedAtMost(options, 0, k);
    }
  }

  lemma InvAfterCreate(state: State, action: Action, compare: Collation)
    requires state.Success? && Inv(state, compare) && IsCreate(action)
    ensures Inv(Reducer(state, action, compare), compare)
  {
    var id := action.id;
    if id > state.maxId {
      var root := state.rootDirectory;
      var options := state.directoryCreator.parentOptions;
      var x := Parent(action.name, id);
      var s2 := DirectoryCreator.Reducer(state, action, compare);
      var s3 := DirectoryHierarchy.Reducer(s2, action, compare);
      assert s2.directoryCreator.parentOptions == options + [x];
      assert s2.rootDirectory == root && s2.maxId == state.maxId;
      assert s3 == DirectoryHierarchy.CreateDirectory(s2, id, action.name, action.parentId, compare);
      assert Reducer(state, action, compare) == s3.(maxId := id);
      DirectoryHierarchy.CreateEffect(s2, id, action.name, action.parentId, compare);
      forall k | Has(s3.rootDirectory, k) ensures Has(root, k) || k == id {
      }
      ListedAfterAdd(root, s3.rootDirectory, options, x);
    }
  }

  /** A tree that gains only the id of a new option stays listed. */
  lemma ListedAfterAdd(root: Node, after: Node, options: seq<Parent>, x: Parent)
    requires Listed(root, options)
    requires forall k :: Has(after, k) ==> Has(root, k) || k == x.id
    ensures Listed(after, options + [x])
  {
    forall k | Has(after, k) ensures DirectoryCreator.IdCount(options + [x], k) > 0 {
      DirectoryCreator.IdCountAppend(options, [x], k);
      assert DirectoryCreator.IdCount([x], k) == if k == x.id then 1 else 0;
    }
  }

  lemma InvAfterRename(state: State, action: Action, id: int, name: string, compare: Collation)
    requires state.Success? && Inv(state, compare)
    requires action == SucceedToPutNewDirectoryName(id, name) || action == UserRenameDirectory(id, name)
    ensures Inv(Reducer(state, action, compare), compare)
  {
    var s2 := DirectoryCreator.RenameDirectory(state, id, name);
    assert DirectoryCreator.Reducer(state, action, compare) == s2;
    DirectoryHierarchy.EditEffect(s2, id, DirectoryHierarchy.CommitName(name), compare);
    var options := state.directoryCreator.parentOptions;
    forall k ensures DirectoryCreator.IdCount(s2.directoryCreator.parentOptions, k) == DirectoryCreator.IdCount(options, k) {
      DirectoryCreator.RelabelIds(options, id, name, k);
    }
    var after := Reducer(state, action, compare).rootDirectory;
    forall k | Has(after, k) ensures k <= state.maxId {
      assert Has(state.rootDirectory, k);
    }
  }

  lemma InvAfterEdit(state: State, action: Action, id: int, edit: DirectoryHierarchy.Edit, compare: Collation)
    requires state.Success? && Inv(state, compare)
    requires !DirectoryHierarchy.Handled(action) || DirectoryHierarchy.Reducer(state, action, compare) == DirectoryHierarchy.EditDirectory(state, id, edit, compare)
    requires DirectoryCreator.Reducer(state, action, compare) == state && !IsCreate(action) && !action.SucceedInitialFetch?
    requires !action.FailedInitialFetch?
    ensures Inv(Reducer(state, action, compare), compare)
  {
    DirectoryHierarchy.EditEffect(state, id, edit, compare);
    var after := Reducer(state, action, compare).rootDirectory;
    forall k | Has(after, k) ensures k <= state.maxId {
      assert Has(state.rootDirectory, k);
    }
  }

  lemma InvAfterDelete(state: State, action: Action, id: int, compare: Collation)
    requires state.Success? && Inv(state, compare)
    requires action == SucceedToDeleteDirectoryAndSubdirectories(id) || action == UserDeleteDirectory(id)
    ensures Inv(Reducer(state, action, compare), compare)
  {
    var s2 := DirectoryCreator.DeleteDirectory(state, id);
    assert DirectoryCreator.Reducer(state, action, compare) == s2;
    DirectoryHierarchy.DeleteEffect(s2, id, compare);
    var options := state.directoryCreator.parentOptions;
    var after := Reducer(state, action, compare).rootDirectory;
    forall k | Has(after, k)
      ensures DirectoryCreator.IdCount(s2.directoryCreator.parentOptions, k) > 0 && k <= state.maxId
    {
      DirectoryCreator.RemoveOptionIds(options, id, k);
      assert Has(state.rootDirectory, k);
    }
  }
}
