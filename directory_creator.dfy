/** The reducer of the "new directory" form
    (services/front/src/reducers/directoryCreator.ts): the draft fields, the
    flattened list of parents to choose from, and how create, rename and
    delete keep that list and the selected parent in step. */
module DirectoryCreator {
  import opened Wrappers
  import opened Sorting
  import opened Types
  import opened ApiTree

  function TextOf(p: Parent): string { p.text }

  /** How many options carry `id`. */
  function IdCount(options: seq<Parent>, id: int): nat {
    if options == [] then 0
    else (if options[0].id == id then 1 else 0) + IdCount(options[1..], id)
  }

  /** The selected parent, when there is one, is among the options. */
  ghost predicate Selected(creator: Creator) {
    creator.parentValue.Some? ==> creator.parentValue.value in creator.parentOptions
  }

  // ----- succeedInitialFetch -----

  /** Every node below `api`, in the order the recursive helper visits them:
      a child, then its subtree, then the next child. */
  function Flatten(api: ApiNode): seq<Parent>
    decreases api, 1
  {
    FlattenFrom(api, 0)
  }

  function FlattenFrom(api: ApiNode, from: nat): seq<Parent>
    requires from <= |api.subs|
    decreases api, 0, |api.subs| - from
  {
    if from == |api.subs| then []
    else [Parent(api.subs[from].name, api.subs[from].id)] + Flatten(api.subs[from]) + FlattenFrom(api, from + 1)
  }

  /** The recursive helper: push an option for each child, then recurse into
      it, appending to the list built so far. */
  method Collect(api: ApiNode, options: seq<Parent>) returns (r: seq<Parent>)
    ensures r == options + Flatten(api)
    decreases api
  {
    r := options;
    var i := 0;
    while i < |api.subs|
      invariant 0 <= i <= |api.subs|
      invariant r + FlattenFrom(api, i) == options + Flatten(api)
    {
      var sub := api.subs[i];
      r := r + [Parent(sub.name, sub.id)];
      r := Collect(sub, r);
      i := i + 1;
    }
  }

  /** The option list of the initial fetch: every node but the root, sorted
      by label. */
  function FetchedOptions(api: ApiNode, compare: Collation): seq<Parent> {
    SortBy(Flatten(api), TextOf, compare)
  }

  method FetchOptions(api: ApiNode, compare: Collation) returns (options: seq<Parent>)
    ensures options == FetchedOptions(api, compare)
  {
    options := Collect(api, []);
    assert options == Flatten(api);
    options := SortBy(options, TextOf, compare);
  }

  /** The flattened list names every node below the API root, each as often
      as it occurs there. */
  lemma {:induction false} FlattenCount(api: ApiNode, id: int)
    ensures IdCount(Flatten(api), id) == ApiCountIn(api.subs, id)
    decreases api, 1
  {
    FlattenFromCount(api, 0, id);
    assert api.subs[0..] == api.subs;
  }

  lemma {:induction false} FlattenFromCount(api: ApiNode, from: nat, id: int)
    requires from <= |api.subs|
    ensures IdCount(FlattenFrom(api, from), id) == ApiCountIn(api.subs[from..], id)
    decreases api, 0, |api.subs| - from
  {
    if from < |api.subs| {
      var sub := api.subs[from];
      IdCountAppend([Parent(sub.name, sub.id)] + Flatten(sub), FlattenFrom(api, from + 1), id);
      IdCountAppend([Parent(sub.name, sub.id)], Flatten(sub), id);
      FlattenCount(sub, id);
      FlattenFromCount(api, from + 1, id);
      ApiCountSplit(api.subs, from, id);
    }
  }

  lemma {:induction false} IdCountAppend(a: seq<Parent>, b: seq<Parent>, id: int)
    ensures IdCount(a + b, id) == IdCount(a, id) + IdCount(b, id)
  {
    if a != [] {
      assert (a + b)[0] == a[0];
      assert (a + b)[1..] == a[1..] + b;
      IdCountAppend(a[1..], b, id);
    } else {
      assert a + b == b;
    }
  }

  lemma IdCountRemove(s: seq<Parent>, i: nat, id: int)
    requires i < |s|
    ensures IdCount(s[..i] + s[i + 1..], id) + (if s[i].id == id then 1 else 0) == IdCount(s, id)
  {
    assert s == s[..i] + ([s[i]] + s[i + 1..]);
    IdCountAppend(s[..i], [s[i]] + s[i + 1..], id);
    IdCountAppend(s[..i], s[i + 1..], id);
    assert ([s[i]] + s[i + 1..])[1..] == s[i + 1..];
  }

  lemma {:induction false} IdCountPermutation(s: seq<Parent>, t: seq<Parent>, id: int)
    requires multiset(s) == multiset(t)
    ensures IdCount(s, id) == IdCount(t, id)
    decreases |s|
  {
    if s == [] {
      assert |t| == |multiset(t)| == 0;
    } else {
      assert s[0] in multiset(t);
      var k :| 0 <= k < |t| && t[k] == s[0];
      var rest := t[..k] + t[k + 1..];
      PermutationTail(s, t, k);
      IdCountPermutation(s[1..], rest, id);
      IdCountRemove(t, k, id);
    }
  }

  /** The fetched options are sorted by label and hold exactly the ids below
      the API root. */
  lemma FetchedOptionsShape(api: ApiNode, compare: Collation)
    ensures SortedBy(FetchedOptions(api, compare), TextOf, compare)
    ensures multiset(FetchedOptions(api, compare)) == multiset(Flatten(api))
    ensures forall k :: IdCount(FetchedOptions(api, compare), k) == ApiCountIn(api.subs, k)
  {
    forall k ensures IdCount(FetchedOptions(api, compare), k) == ApiCountIn(api.subs, k) {
      IdCountPermutation(FetchedOptions(api, compare), Flatten(api), k);
      FlattenCount(api, k);
    }
  }

  /** The draft the initial fetch and a create leave behind. */
  function Cleared(options: seq<Parent>): Creator {
    Creator(false, false, "", None, "", options)
  }

  function SucceedInitialFetch(state: State, api: ApiNode, compare: Collation): (r: State)
    ensures !state.Success? ==> r == state
    ensures state.Success? ==> r == state.(directoryCreator := Cleared(FetchedOptions(api, compare)))
  {
    if !state.Success? then state
    else state.(directoryCreator := Cleared(FetchedOptions(api, compare)))
  }

  // ----- the field handlers -----

  /** updateNameOfDirectoryCreator, updateParentInputValueOfDirectoryCreator,
      updateParentValueOfDirectoryCreator, tryToPostNewDirectory and
      failedToPostNewDirectory: each sets its fields and keeps every other
      one. */
  function SetCreator(state: State, creator: Creator): State
    requires state.Success?
  {
    state.(directoryCreator := creator)
  }

  function UpdateName(state: State, name: string): (r: State)
    ensures !state.Success? ==> r == state
    ensures state.Success? ==> r.Success? && r.maxId == state.maxId && r.rootDirectory == state.rootDirectory
    ensures state.Success? ==> r.directoryCreator.name == name && !r.directoryCreator.anErrorOccurred
    ensures state.Success? ==> r.directoryCreator.(name := state.directoryCreator.name, anErrorOccurred := state.directoryCreator.anErrorOccurred) == state.directoryCreator
  {
    if !state.Success? then state
    else SetCreator(state, state.directoryCreator.(name := name, anErrorOccurred := false))
  }

  function UpdateParentInput(state: State, input: string): (r: State)
    ensures !state.Success? ==> r == state
    ensures state.Success? ==> r.Success? && r.maxId == state.maxId && r.rootDirectory == state.rootDirectory
    ensures state.Success? ==> r.directoryCreator.parentInputValue == input && !r.directoryCreator.anErrorOccurred
    ensures state.Success? ==> r.directoryCreator.(parentInputValue := state.directoryCreator.parentInputValue, anErrorOccurred := state.directoryCreator.anErrorOccurred) == state.directoryCreator
  {
    if !state.Success? then state
    else SetCreator(state, state.directoryCreator.(parentInputValue := input, anErrorOccurred := false))
  }

  function UpdateParentValue(state: State, parentValue: Option<Parent>): (r: State)
    ensures !state.Success? ==> r == state
    ensures state.Success? ==> r.Success? && r.maxId == state.maxId && r.rootDirectory == state.rootDirectory
    ensures state.Success? ==> r.directoryCreator.parentValue == parentValue && !r.directoryCreator.anErrorOccurred
    ensures state.Success? ==> r.directoryCreator.(parentValue := state.directoryCreator.parentValue, anErrorOccurred := state.directoryCreator.anErrorOccurred) == state.directoryCreator
  {
    if !state.Success? then state
    else SetCreator(state, state.directoryCreator.(parentValue := parentValue, anErrorOccurred := false))
  }

  function TryToPost(state: State): (r: State)
    ensures !state.Success? ==> r == state
    ensures state.Success? ==> r.Success? && r.maxId == state.maxId && r.rootDirectory == state.rootDirectory
    ensures state.Success? ==> r.directoryCreator.waitingForServer && !r.directoryCreator.anErrorOccurred
    ensures state.Success? ==> r.directoryCreator.(waitingForServer := state.directoryCreator.waitingForServer, anErrorOccurred := state.directoryCreator.anErrorOccurred) == state.directoryCreator
  {
    if !state.Success? then state
    else SetCreator(state, state.directoryCreator.(waitingForServer := true, anErrorOccurred := false))
  }

  function FailedPost(state: State): (r: State)
    ensures !state.Success? ==> r == state
    ensures state.Success? ==> r.Success? && r.maxId == state.maxId && r.rootDirectory == state.rootDirectory
    ensures state.Success? ==> !r.directoryCreator.waitingForServer && r.directoryCreator.anErrorOccurred
    ensures state.Success? ==> r.directoryCreator.(waitingForServer := state.directoryCreator.waitingForServer, anErrorOccurred := state.directoryCreator.anErrorOccurred) == state.directoryCreator
  {
    if !state.Success? then state
    else SetCreator(state, state.directoryCreator.(waitingForServer := false, anErrorOccurred := true))
  }

  // ----- create, rename, delete -----

  /** createDirectory: a repeat (id not above `maxId`) changes nothing;
      otherwise the new option goes at the end of the list, unsorted, and the
      draft is cleared. */
  function CreateDirectory(state: State, id: int, name: string): (r: State)
    ensures !state.Success? || id <= state.maxId ==> r == state
    ensures state.Success? ==> r.Success? && r.maxId == state.maxId && r.rootDirectory == state.rootDirectory
    ensures state.Success? && id > state.maxId ==>
      var options := state.directoryCreator.parentOptions;
      && r.directoryCreator == Cleared(r.directoryCreator.parentOptions)
      && |r.directoryCreator.parentOptions| == |options| + 1
      && r.directoryCreator.parentOptions[..|options|] == options
      && r.directoryCreator.parentOptions[|options|] == Parent(name, id)
  {
    if !state.Success? then state
    else if id <= state.maxId then state
    else state.(directoryCreator := Cleared(state.directoryCreator.parentOptions + [Parent(name, id)]))
  }

  /** `parentOptions.map(...)` of renameDirectory. */
  function Relabel(options: seq<Parent>, id: int, name: string): (r: seq<Parent>)
    ensures |r| == |options|
    ensures forall i :: 0 <= i < |r| ==> r[i].id == options[i].id
    ensures forall i :: 0 <= i < |r| ==> r[i].text == if options[i].id == id then name else options[i].text
  {
    seq(|options|, i requires 0 <= i < |options| =>
      if options[i].id == id then options[i].(text := name) else options[i])
  }

  /** `parentOptions.filter(...)` of deleteDirectory. */
  function RemoveOption(options: seq<Parent>, id: int): (r: seq<Parent>)
    ensures |r| <= |options|
    ensures forall i :: 0 <= i < |r| ==> r[i].id != id
  {
    if options == [] then []
    else (if options[0].id == id then [] else [options[0]]) + RemoveOption(options[1..], id)
  }

  /** renameDirectory: the option(s) with that id, and the selected parent
      when it has that id, take the new label. */
  function RenameDirectory(state: State, id: int, name: string): (r: State)
    ensures !state.Success? ==> r == state
    ensures state.Success? ==> r.Success? && r.maxId == state.maxId && r.rootDirectory == state.rootDirectory
    ensures state.Success? ==>
      var before := state.directoryCreator;
      var after := r.directoryCreator;
      && after.parentOptions == Relabel(before.parentOptions, id, name)
      && (before.parentValue.Some? && before.parentValue.value.id == id ==> after.parentValue == Some(Parent(name, id)))
      && (before.parentValue.None? || before.parentValue.value.id != id ==> after.parentValue == before.parentValue)
      && after.(parentOptions := before.parentOptions, parentValue := before.parentValue) == before
  {
    if !state.Success? then state
    else
      var creator := state.directoryCreator;
      var parentValue :=
        if creator.parentValue.Some? && creator.parentValue.value.id == id
        then Some(creator.parentValue.value.(text := name))
        else creator.parentValue;
      state.(directoryCreator := creator.(parentOptions := Relabel(creator.parentOptions, id, name), parentValue := parentValue))
  }

  /** deleteDirectory: the options with that id go, and the selected parent
      is cleared when it has that id. */
  function DeleteDirectory(state: State, id: int): (r: State)
    ensures !state.Success? ==> r == state
    ensures state.Success? ==> r.Success? && r.maxId == state.maxId && r.rootDirectory == state.rootDirectory
    ensures state.Success? ==>
      var before := state.directoryCreator;
      var after := r.directoryCreator;
      && after.parentOptions == RemoveOption(before.parentOptions, id)
      && (after.parentValue.Some? ==> after.parentValue.value.id != id)
      && (before.parentValue.None? || before.parentValue.value.id != id ==> after.parentValue == before.parentValue)
      && after.(parentOptions := before.parentOptions, parentValue := before.parentValue) == before
  {
    if !state.Success? then state
    else
      var creator := state.directoryCreator;
      var parentValue :=
        if creator.parentValue.Some? && creator.parentValue.value.id == id then None else creator.parentValue;
      state.(directoryCreator := creator.(parentOptions := RemoveOption(creator.parentOptions, id), parentValue := parentValue))
  }

  /** Relabelling keeps the ids, relabels only the options with that id, and
      relabelling twice is relabelling once. */
  lemma RelabelIds(options: seq<Parent>, id: int, name: string, k: int)
    ensures IdCount(Relabel(options, id, name), k) == IdCount(options, k)
    ensures Relabel(Relabel(options, id, name), id, name) == Relabel(options, id, name)
    decreases |options|
  {
    if options != [] {
      assert Relabel(options, id, name)[1..] == Relabel(options[1..], id, name);
      RelabelIds(options[1..], id, name, k);
    }
  }

  /** Removing takes out exactly the options with that id, keeps the others
      in their order, and is idempotent. */
  lemma {:induction false} RemoveOptionIds(options: seq<Parent>, id: int, k: int)
    ensures IdCount(RemoveOption(options, id), k) == if k == id then 0 else IdCount(options, k)
    ensures RemoveOption(RemoveOption(options, id), id) == RemoveOption(options, id)
  {
    if options != [] {
      var head := if options[0].id == id then [] else [options[0]];
      IdCountAppend(head, RemoveOption(options[1..], id), k);
      RemoveOptionIds(options[1..], id, k);
      RemoveOptionAppend(head, RemoveOption(options[1..], id), id);
      if head != [] {
        assert head[1..] == [];
      }
    }
  }

  /** An option survives the filter exactly when it was there with another id. */
  lemma {:induction false} RemoveOptionMember(options: seq<Parent>, id: int)
    ensures forall p :: p in RemoveOption(options, id) <==> p in options && p.id != id
  {
    if options != [] {
      RemoveOptionMember(options[1..], id);
      assert options == [options[0]] + options[1..];
    }
  }

  lemma {:induction false} RemoveOptionAppend(a: seq<Parent>, b: seq<Parent>, id: int)
    ensures RemoveOption(a + b, id) == RemoveOption(a, id) + RemoveOption(b, id)
  {
    if a != [] {
      var ab := a + b;
      assert ab[0] == a[0] && ab[1..] == a[1..] + b;
      RemoveOptionAppend(a[1..], b, id);
      var tail, later := RemoveOption(a[1..], id), RemoveOption(b, id);
      if a[0].id == id {
        assert RemoveOption(a + b, id) == [] + (tail + later);
        assert RemoveOption(a, id) == [] + tail;
      } else {
        assert RemoveOption(a + b, id) == [a[0]] + (tail + later);
        assert RemoveOption(a, id) == [a[0]] + tail;
        assert [a[0]] + (tail + later) == ([a[0]] + tail) + later;
      }
    } else {
      assert a + b == b;
    }
  }

  /** Rename and delete keep the selected parent among the options. */
  lemma RenameKeepsSelected(state: State, id: int, name: string)
    requires state.Success? && Selected(state.directoryCreator)
    ensures Selected(RenameDirectory(state, id, name).directoryCreator)
  {
    var c := state.directoryCreator;
    if c.parentValue.Some? {
      var i :| 0 <= i < |c.parentOptions| && c.parentOptions[i] == c.parentValue.value;
      assert Relabel(c.parentOptions, id, name)[i] == RenameDirectory(state, id, name).directoryCreator.parentValue.value;
    }
  }

  lemma DeleteKeepsSelected(state: State, id: int)
    requires state.Success? && Selected(state.directoryCreator)
    ensures Selected(DeleteDirectory(state, id).directoryCreator)
  {
    RemoveOptionMember(state.directoryCreator.parentOptions, id);
  }

  // ----- the reducer -----

  function Reducer(state: State, action: Action, compare: Collation): (r: State)
    ensures !state.Success? ==> r == state
    ensures state.Success? ==> r.Success? && r.maxId == state.maxId && r.rootDirectory == state.rootDirectory
  {
    match action
    case SucceedInitialFetch(node) => SucceedInitialFetch(state, node, compare)
    case UpdateNameOfDirectoryCreator(name) => UpdateName(state, name)
    case UpdateParentInputValueOfDirectoryCreator(input) => UpdateParentInput(state, input)
    case UpdateParentValueOfDirectoryCreator(parentValue) => UpdateParentValue(state, parentValue)
    case TryToPostNewDirectory => TryToPost(state)
    case SucceedToPostNewDirectory(id, name, _) => CreateDirectory(state, id, name)
    case UserCreateDirectory(id, name, _) => CreateDirectory(state, id, name)
    case FailedToPostNewDirectory => FailedPost(state)
    case SucceedToPutNewDirectoryName(id, name) => RenameDirectory(state, id, name)
    case UserRenameDirectory(id, name) => RenameDirectory(state, id, name)
    case SucceedToDeleteDirectoryAndSubdirectories(id) => DeleteDirectory(state, id)
    case UserDeleteDirectory(id) => DeleteDirectory(state, id)
    case _ => state
  }

  /** Every action keeps the selected parent among the options, given that a
      parent picked in the form is one of them. */
  lemma ReducerKeepsSelected(state: State, action: Action, compare: Collation)
    requires state.Success? && Selected(state.directoryCreator)
    requires action.UpdateParentValueOfDirectoryCreator? && action.parentValue.Some? ==>
      action.parentValue.value in state.directoryCreator.parentOptions
    ensures Selected(Reducer(state, action, compare).directoryCreator)
  {
    match action
    case SucceedToPutNewDirectoryName(id, name) => RenameKeepsSelected(state, id, name);
    case UserRenameDirectory(id, name) => RenameKeepsSelected(state, id, name);
    case SucceedToDeleteDirectoryAndSubdirectories(id) => DeleteKeepsSelected(state, id);
    case UserDeleteDirectory(id) => DeleteKeepsSelected(state, id);
    case _ =>
  }
}
