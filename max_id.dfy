/** The high-water mark of directory ids
    (services/front/src/reducers/maxId.ts), which lets the create handlers
    recognise a directory they have already seen. */
module MaxId {
  import opened Types
  import DirectoryCreator

  /** `Math.max` on the integers the ids are. */
  function Max(a: int, b: int): int {
    if a >= b then a else b
  }

  /** `options.reduce((acc, val) => Math.max(acc, val.id), acc)`. */
  function MaxFrom(acc: int, options: seq<Parent>): int
    decreases options
  {
    if options == [] then acc else MaxFrom(Max(acc, options[0].id), options[1..])
  }

  /** The mark the initial fetch sets: the largest option id, 0 when none. */
  function MaxOf(options: seq<Parent>): (r: int)
    ensures r >= 0
    ensures forall i :: 0 <= i < |options| ==> options[i].id <= r
  {
    MaxFromBounds(0, options);
    MaxFrom(0, options)
  }

  /** The fold is the largest of `acc` and the option ids: at least each of
      them, and equal to one of them. */
  lemma {:induction false} MaxFromBounds(acc: int, options: seq<Parent>)
    decreases options
    ensures MaxFrom(acc, options) >= acc
    ensures forall i :: 0 <= i < |options| ==> options[i].id <= MaxFrom(acc, options)
    ensures MaxFrom(acc, options) == acc || exists i :: 0 <= i < |options| && options[i].id == MaxFrom(acc, options)
  {
    if options != [] {
      var next := Max(acc, options[0].id);
      MaxFromBounds(next, options[1..]);
      forall i | 0 <= i < |options| ensures options[i].id <= MaxFrom(acc, options) {
        if i > 0 {
          assert options[i] == options[1..][i - 1];
        }
      }
      if MaxFrom(acc, options) != acc && MaxFrom(acc, options) != options[0].id {
        var j :| 0 <= j < |options[1..]| && options[1..][j].id == MaxFrom(next, options[1..]);
        assert options[j + 1].id == MaxFrom(acc, options);
      }
    }
  }

  /** The mark after the initial fetch is at least 0 and at least every
      option id; it is 0 or one of them. */
  lemma MaxOfBounds(options: seq<Parent>)
    ensures MaxOf(options) >= 0
    ensures forall i :: 0 <= i < |options| ==> options[i].id <= MaxOf(options)
    ensures MaxOf(options) == 0 || exists i :: 0 <= i < |options| && options[i].id == MaxOf(options)
  {
    MaxFromBounds(0, options);
  }

  /** Any id some option carries is at most the mark. */
  lemma {:induction false} ListedAtMost(options: seq<Parent>, acc: int, k: int)
    decreases options
    requires DirectoryCreator.IdCount(options, k) > 0
    ensures k <= MaxFrom(acc, options)
  {
    MaxFromBounds(acc, options);
    if options[0].id != k {
      ListedAtMost(options[1..], Max(acc, options[0].id), k);
    }
  }

  function Reducer(state: State, action: Action): (r: State)
    ensures !state.Success? ==> r == state
    ensures state.Success? ==> r.Success? && r.directoryCreator == state.directoryCreator && r.rootDirectory == state.rootDirectory
    ensures state.Success? && action.SucceedInitialFetch? ==> r.maxId == MaxOf(state.directoryCreator.parentOptions)
    ensures state.Success? && (action.SucceedToPostNewDirectory? || action.UserCreateDirectory?) ==>
      r.maxId == Max(state.maxId, action.id) && r.maxId >= state.maxId && r.maxId >= action.id
    ensures !(action.SucceedInitialFetch? || action.SucceedToPostNewDirectory? || action.UserCreateDirectory?) ==> r == state
  {
    if !state.Success? then state
    else
      match action
      case SucceedInitialFetch(_) => state.(maxId := MaxOf(state.directoryCreator.parentOptions))
      case SucceedToPostNewDirectory(id, _, _) => state.(maxId := Max(state.maxId, id))
      case UserCreateDirectory(id, _, _) => state.(maxId := Max(state.maxId, id))
      case _ => state
  }
}
