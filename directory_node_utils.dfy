/** The three persistent tree primitives of the front end
    (services/front/src/reducers/directoryNodeUtils.ts): insert under a
    parent, update by id, delete by id.

    The source compares the recursive result with the child it came from by
    reference (`nextSub !== sub`) to learn whether the target was found in
    that child. A child yields a new object exactly when the target sits in
    it, so the model asks that question directly: for insert, whether the
    parent id is the child's or one of its descendants' (`Has(sub, p)`);
    for update and delete, whether the id is strictly below the child
    (`Below(sub, id)`). */
module DirectoryNodeUtils {
  import opened Wrappers
  import opened Sorting
  import opened Types
  import opened Tree

  /** `subs.map(sub => sub.id === key ? next : sub)`; NaN equals nothing. */
  function ReplaceWhere(subs: seq<Node>, key: Option<int>, next: Node): seq<Node> {
    seq(|subs|, k requires 0 <= k < |subs| =>
      if key.Some? && subs[k].id == key then next else subs[k])
  }

  /** `subs.filter(sub => sub.id !== id)`. */
  function RemoveId(subs: seq<Node>, id: int): seq<Node> {
    if subs == [] then []
    else (if subs[0].id == Some(id) then [] else [subs[0]]) + RemoveId(subs[1..], id)
  }

  // ----- insertDirectoryNodeById -----

  function InsertById(node: Node, parentId: Option<int>, newNode: Node, compare: Collation): (r: Node)
    decreases node, 1
    ensures r.id == node.id && r.name == node.name && r.status == node.status
    ensures parentId.None? || parentId == node.id ==>
      multiset(r.subs) == multiset(node.subs) + multiset{newNode} && SortedByName(r.subs, compare)
  {
    if parentId.None? || parentId == node.id then
      node.(subs := SortByName(node.subs + [newNode], compare))
    else
      InsertFrom(node, 0, parentId.value, newNode, compare)
  }

  /** The loop over `node.subs` from position `from` on. */
  function InsertFrom(node: Node, from: nat, parentId: int, newNode: Node, compare: Collation): (r: Node)
    requires from <= |node.subs|
    decreases node, 0, |node.subs| - from
    ensures r.id == node.id && r.name == node.name && r.status == node.status
  {
    if from == |node.subs| then node
    else if Has(node.subs[from], parentId) then
      var nextSub := InsertById(node.subs[from], Some(parentId), newNode, compare);
      node.(subs := ReplaceWhere(node.subs, nextSub.id, nextSub))
    else
      InsertFrom(node, from + 1, parentId, newNode, compare)
  }

  // ----- updateDirectoryNodeById -----

  function UpdateById(node: Node, id: int, updater: Node -> Node, compare: Collation): (r: Node)
    decreases node, 1
    ensures r.id == node.id && r.name == node.name && r.status == node.status
  {
    UpdateFrom(node, 0, id, updater, compare)
  }

  function UpdateFrom(node: Node, from: nat, id: int, updater: Node -> Node, compare: Collation): (r: Node)
    requires from <= |node.subs|
    decreases node, 0, |node.subs| - from
    ensures r.id == node.id && r.name == node.name && r.status == node.status
  {
    if from == |node.subs| then node
    else if node.subs[from].id == Some(id) then
      var nextSub := updater(node.subs[from]);
      node.(subs := SortByName(ReplaceWhere(node.subs, Some(id), nextSub), compare))
    else if Below(node.subs[from], id) then
      var nextSub := UpdateById(node.subs[from], id, updater, compare);
      node.(subs := ReplaceWhere(node.subs, nextSub.id, nextSub))
    else
      UpdateFrom(node, from + 1, id, updater, compare)
  }

  // ----- deleteDirectoryNodeById -----

  function DeleteById(node: Node, id: int): (r: Node)
    decreases node, 1
    ensures r.id == node.id && r.name == node.name && r.status == node.status
  {
    DeleteFrom(node, 0, id)
  }

  function DeleteFrom(node: Node, from: nat, id: int): (r: Node)
    requires from <= |node.subs|
    decreases node, 0, |node.subs| - from
    ensures r.id == node.id && r.name == node.name && r.status == node.status
  {
    if from == |node.subs| then node
    else if node.subs[from].id == Some(id) then
      node.(subs := RemoveId(node.subs, id))
    else if Below(node.subs[from], id) then
      var nextSub := DeleteById(node.subs[from], id);
      node.(subs := ReplaceWhere(node.subs, nextSub.id, nextSub))
    else
      DeleteFrom(node, from + 1, id)
  }

  // ----- the lists the primitives build -----

  /** Without repeated ids, the `map` replaces exactly the holder's slot. */
  lemma ReplaceHolder(node: Node, j: nat, next: Node)
    requires Unique(node) && j < |node.subs| && node.subs[j].id.Some?
    requires next.id == node.subs[j].id
    ensures ReplaceWhere(node.subs, next.id, next) == node.subs[j := next]
  {
    var q := node.subs[j].id.value;
    forall k | 0 <= k < |node.subs| && k != j ensures node.subs[k].id != Some(q) {
      UniqueApart(node, j, k, q);
    }
  }

  lemma {:induction false} RemoveIdAbsent(s: seq<Node>, id: int)
    requires forall k :: 0 <= k < |s| ==> s[k].id != Some(id)
    ensures RemoveId(s, id) == s
  {
    if s != [] {
      RemoveIdAbsent(s[1..], id);
    }
  }

  lemma {:induction false} RemoveIdOnly(s: seq<Node>, id: int, j: nat)
    requires j < |s| && s[j].id == Some(id)
    requires forall k :: 0 <= k < |s| && k != j ==> s[k].id != Some(id)
    ensures RemoveId(s, id) == s[..j] + s[j + 1..]
  {
    if j == 0 {
      RemoveIdAbsent(s[1..], id);
    } else {
      RemoveIdOnly(s[1..], id, j - 1);
      assert s[..j] == [s[0]] + s[1..][..j - 1];
      assert s[1..][j - 1 + 1..] == s[j + 1..];
    }
  }

  // ----- how the scans proceed -----

  lemma OwnIdIn(node: Node, id: int)
    ensures node.id == Some(id) ==> Has(node, id)
    ensures Below(node, id) ==> Has(node, id)
  {
  }

  lemma ChildOf(node: Node, j: nat)
    requires j < |node.subs|
    ensures Proper(node) ==> Proper(node.subs[j]) && node.subs[j].id.Some?
  {
    assert node.subs[j] in node.subs;
  }

  /** Children that do not hold the parent id are passed over. */
  lemma {:induction false} InsertSkip(node: Node, from: nat, stop: nat, parentId: int, newNode: Node, compare: Collation)
    requires from <= stop <= |node.subs|
    requires forall k :: from <= k < stop ==> !Has(node.subs[k], parentId)
    ensures InsertFrom(node, from, parentId, newNode, compare) == InsertFrom(node, stop, parentId, newNode, compare)
    decreases stop - from
  {
    if from < stop {
      assert InsertFrom(node, from, parentId, newNode, compare) == InsertFrom(node, stop - 1, parentId, newNode, compare) by {
        InsertSkip(node, from, stop - 1, parentId, newNode, compare);
      }
      assert InsertFrom(node, stop - 1, parentId, newNode, compare) == InsertFrom(node, stop, parentId, newNode, compare) by {
        InsertSkipOne(node, stop - 1, parentId, newNode, compare);
      }
    }
  }

  lemma InsertSkipOne(node: Node, from: nat, parentId: int, newNode: Node, compare: Collation)
    requires from < |node.subs| && !Has(node.subs[from], parentId)
    ensures InsertFrom(node, from, parentId, newNode, compare) == InsertFrom(node, from + 1, parentId, newNode, compare)
  {
  }

  /** Children that neither carry nor hold the id are passed over. */
  lemma {:induction false} UpdateSkip(node: Node, from: nat, stop: nat, id: int, updater: Node -> Node, compare: Collation)
    requires from <= stop <= |node.subs|
    requires forall k :: from <= k < stop ==> !Has(node.subs[k], id)
    ensures UpdateFrom(node, from, id, updater, compare) == UpdateFrom(node, stop, id, updater, compare)
    decreases stop - from
  {
    if from < stop {
      assert UpdateFrom(node, from, id, updater, compare) == UpdateFrom(node, stop - 1, id, updater, compare) by {
        UpdateSkip(node, from, stop - 1, id, updater, compare);
      }
      assert UpdateFrom(node, stop - 1, id, updater, compare) == UpdateFrom(node, stop, id, updater, compare) by {
        UpdateSkipOne(node, stop - 1, id, updater, compare);
      }
    }
  }

  lemma UpdateSkipOne(node: Node, from: nat, id: int, updater: Node -> Node, compare: Collation)
    requires from < |node.subs| && !Has(node.subs[from], id)
    ensures UpdateFrom(node, from, id, updater, compare) == UpdateFrom(node, from + 1, id, updater, compare)
  {
    OwnIdIn(node.subs[from], id);
  }

  lemma {:induction false} DeleteSkip(node: Node, from: nat, stop: nat, id: int)
    requires from <= stop <= |node.subs|
    requires forall k :: from <= k < stop ==> !Has(node.subs[k], id)
    ensures DeleteFrom(node, from, id) == DeleteFrom(node, stop, id)
    decreases stop - from
  {
    if from < stop {
      assert DeleteFrom(node, from, id) == DeleteFrom(node, stop - 1, id) by {
        DeleteSkip(node, from, stop - 1, id);
      }
      assert DeleteFrom(node, stop - 1, id) == DeleteFrom(node, stop, id) by {
        DeleteSkipOne(node, stop - 1, id);
      }
    }
  }

  lemma DeleteSkipOne(node: Node, from: nat, id: int)
    requires from < |node.subs| && !Has(node.subs[from], id)
    ensures DeleteFrom(node, from, id) == DeleteFrom(node, from + 1, id)
  {
    OwnIdIn(node.subs[from], id);
  }

  lemma AbsentFromChildren(node: Node, id: int)
    requires !Below(node, id)
    ensures forall k :: 0 <= k < |node.subs| ==> !Has(node.subs[k], id)
  {
    forall k | 0 <= k < |node.subs| ensures !Has(node.subs[k], id) {
      CountSplit(node.subs, k, id);
    }
  }

  // ----- absent targets -----

  /** An insert whose parent id is nowhere in the tree returns it unchanged
      (the final `return node`). */
  lemma InsertAbsent(node: Node, parentId: int, newNode: Node, compare: Collation)
    requires !Has(node, parentId)
    ensures InsertById(node, Some(parentId), newNode, compare) == node
  {
    OwnIdIn(node, parentId);
    AbsentFromChildren(node, parentId);
    InsertSkip(node, 0, |node.subs|, parentId, newNode, compare);
  }

  /** An update whose id is nowhere below the node returns it unchanged. */
  lemma UpdateAbsent(node: Node, id: int, updater: Node -> Node, compare: Collation)
    requires !Below(node, id)
    ensures UpdateById(node, id, updater, compare) == node
  {
    AbsentFromChildren(node, id);
    UpdateSkip(node, 0, |node.subs|, id, updater, compare);
  }

  /** A delete whose id is nowhere below the node returns it unchanged. */
  lemma DeleteAbsent(node: Node, id: int)
    requires !Below(node, id)
    ensures DeleteById(node, id) == node
  {
    AbsentFromChildren(node, id);
    DeleteSkip(node, 0, |node.subs|, id);
  }

  // ----- one level of a successful search -----

  /** At a level that is not the parent's own, insert rebuilds the one child
      holding the parent and leaves that list in its order: only the
      parent's list is sorted. */
  lemma InsertStep(node: Node, parentId: int, newNode: Node, compare: Collation) returns (j: nat)
    requires Unique(node) && Proper(node)
    requires node.id != Some(parentId) && Below(node, parentId)
    ensures j < |node.subs| && Has(node.subs[j], parentId)
    ensures InsertById(node, Some(parentId), newNode, compare)
         == node.(subs := node.subs[j := InsertById(node.subs[j], Some(parentId), newNode, compare)])
  {
    j := UniqueHolder(node, parentId);
    assert InsertById(node, Some(parentId), newNode, compare) == InsertFrom(node, j, parentId, newNode, compare) by {
      InsertSkip(node, 0, j, parentId, newNode, compare);
    }
    ChildOf(node, j);
    var nextSub := InsertById(node.subs[j], Some(parentId), newNode, compare);
    ReplaceHolder(node, j, nextSub);
  }

  /** Update reaches the child carrying the id, applies the updater to it and
      sorts that list; or it rebuilds the one child holding the id and keeps
      the list's order. */
  lemma UpdateStep(node: Node, id: int, updater: Node -> Node, compare: Collation) returns (j: nat)
    requires Unique(node) && Proper(node) && Below(node, id)
    ensures j < |node.subs| && Has(node.subs[j], id)
    ensures node.subs[j].id == Some(id) ==>
      UpdateById(node, id, updater, compare)
        == node.(subs := SortByName(node.subs[j := updater(node.subs[j])], compare))
    ensures node.subs[j].id != Some(id) ==>
      UpdateById(node, id, updater, compare)
        == node.(subs := node.subs[j := UpdateById(node.subs[j], id, updater, compare)])
  {
    j := UniqueHolder(node, id);
    assert UpdateById(node, id, updater, compare) == UpdateFrom(node, j, id, updater, compare) by {
      UpdateSkip(node, 0, j, id, updater, compare);
    }
    if node.subs[j].id == Some(id) {
      UpdateHere(node, j, id, updater, compare);
    } else {
      UpdateThere(node, j, id, updater, compare);
    }
  }

  lemma UpdateHere(node: Node, j: nat, id: int, updater: Node -> Node, compare: Collation)
    requires j < |node.subs| && node.subs[j].id == Some(id)
    requires forall k :: 0 <= k < |node.subs| && k != j ==> !Has(node.subs[k], id)
    ensures UpdateFrom(node, j, id, updater, compare)
         == node.(subs := SortByName(node.subs[j := updater(node.subs[j])], compare))
  {
    forall k | 0 <= k < |node.subs| && k != j ensures node.subs[k].id != Some(id) {
      OwnIdIn(node.subs[k], id);
    }
    assert ReplaceWhere(node.subs, Some(id), updater(node.subs[j])) == node.subs[j := updater(node.subs[j])];
  }

  lemma UpdateThere(node: Node, j: nat, id: int, updater: Node -> Node, compare: Collation)
    requires Unique(node) && Proper(node)
    requires j < |node.subs| && node.subs[j].id != Some(id) && Has(node.subs[j], id)
    ensures UpdateFrom(node, j, id, updater, compare)
         == node.(subs := node.subs[j := UpdateById(node.subs[j], id, updater, compare)])
  {
    assert Below(node.subs[j], id);
    ChildOf(node, j);
    var nextSub := UpdateById(node.subs[j], id, updater, compare);
    ReplaceHolder(node, j, nextSub);
  }

  /** Delete drops the child carrying the id, keeping the order of the rest;
      or it rebuilds the one child holding the id. */
  lemma DeleteStep(node: Node, id: int) returns (j: nat)
    requires Unique(node) && Proper(node) && Below(node, id)
    ensures j < |node.subs| && Has(node.subs[j], id)
    ensures node.subs[j].id == Some(id) ==>
      DeleteById(node, id) == node.(subs := node.subs[..j] + node.subs[j + 1..])
    ensures node.subs[j].id != Some(id) ==>
      DeleteById(node, id) == node.(subs := node.subs[j := DeleteById(node.subs[j], id)])
  {
    j := UniqueHolder(node, id);
    assert DeleteById(node, id) == DeleteFrom(node, j, id) by {
      DeleteSkip(node, 0, j, id);
    }
    if node.subs[j].id == Some(id) {
      forall k | 0 <= k < |node.subs| && k != j ensures node.subs[k].id != Some(id) {
        OwnIdIn(node.subs[k], id);
      }
      RemoveIdOnly(node.subs, id, j);
    } else {
      assert Below(node.subs[j], id);
      ChildOf(node, j);
      var nextSub := DeleteById(node.subs[j], id);
      ReplaceHolder(node, j, nextSub);
    }
  }

  // ----- what insert does -----

  /** When the parent exists (or no parent is given), insert adds exactly the
      new node's ids to the tree. */
  lemma InsertAddsIds(node: Node, parentId: Option<int>, newNode: Node, compare: Collation)
    requires Unique(node) && Proper(node)
    requires parentId.None? || Has(node, parentId.value)
    ensures forall id :: Count(InsertById(node, parentId, newNode, compare), id) == Count(node, id) + Count(newNode, id)
  {
    forall id ensures Count(InsertById(node, parentId, newNode, compare), id) == Count(node, id) + Count(newNode, id) {
      InsertCount(node, parentId, newNode, compare, id);
    }
  }

  lemma {:induction false} InsertCount(node: Node, parentId: Option<int>, newNode: Node, compare: Collation, id: int)
    requires Unique(node) && Proper(node)
    requires parentId.None? || Has(node, parentId.value)
    ensures Count(InsertById(node, parentId, newNode, compare), id) == Count(node, id) + Count(newNode, id)
    decreases node
  {
    if parentId.None? || parentId == node.id {
      InsertHereCount(node, parentId, newNode, compare, id);
    } else {
      var j := InsertStep(node, parentId.value, newNode, compare);
      ChildOf(node, j);
      UniqueChild(node, j);
      InsertCount(node.subs[j], parentId, newNode, compare, id);
      CountAfterReplace(node, j, InsertById(node.subs[j], parentId, newNode, compare), id);
    }
  }

  lemma InsertHereCount(node: Node, parentId: Option<int>, newNode: Node, compare: Collation, id: int)
    requires parentId.None? || parentId == node.id
    ensures Count(InsertById(node, parentId, newNode, compare), id) == Count(node, id) + Count(newNode, id)
  {
    var r := InsertById(node, parentId, newNode, compare);
    CountPermutation(r.subs, node.subs + [newNode], id);
    CountAppend(node.subs, [newNode], id);
    CountSingleton(newNode, id);
  }

  /** Insert keeps every children list ordered by name. */
  lemma {:induction false} InsertKeepsSorted(node: Node, parentId: Option<int>, newNode: Node, compare: Collation)
    requires Unique(node) && Proper(node)
    requires AllSorted(node, compare) && AllSorted(newNode, compare)
    ensures AllSorted(InsertById(node, parentId, newNode, compare), compare)
    decreases node
  {
    if parentId.None? || parentId == node.id {
      var r := InsertById(node, parentId, newNode, compare);
      SortedAfterRebuild(node, r.subs, [newNode], compare);
    } else if !Has(node, parentId.value) {
      InsertAbsent(node, parentId.value, newNode, compare);
    } else {
      var j := InsertStep(node, parentId.value, newNode, compare);
      ChildOf(node, j);
      UniqueChild(node, j);
      InsertKeepsSorted(node.subs[j], parentId, newNode, compare);
      SortedAfterReplace(node, j, InsertById(node.subs[j], parentId, newNode, compare), compare);
    }
  }

  /** Insert of a node with a numeric id keeps every node below the root
      numbered. */
  lemma {:induction false} InsertKeepsProper(node: Node, parentId: Option<int>, newNode: Node, compare: Collation)
    requires Unique(node) && Proper(node)
    requires Proper(newNode) && newNode.id.Some?
    ensures Proper(InsertById(node, parentId, newNode, compare))
    decreases node
  {
    if parentId.None? || parentId == node.id {
      var r := InsertById(node, parentId, newNode, compare);
      ProperAfterRebuild(node, r.subs, [newNode]);
    } else if !Has(node, parentId.value) {
      InsertAbsent(node, parentId.value, newNode, compare);
    } else {
      var j := InsertStep(node, parentId.value, newNode, compare);
      ChildOf(node, j);
      UniqueChild(node, j);
      InsertKeepsProper(node.subs[j], parentId, newNode, compare);
      ProperAfterReplace(node, j, InsertById(node.subs[j], parentId, newNode, compare));
    }
  }

  /** Insert under a parent below the root gives that parent one more child,
      the new node, and sorts that one list; the parent keeps its id, name and
      status. */
  lemma {:induction false} InsertPlaces(node: Node, parentId: int, newNode: Node, compare: Collation)
    requires Unique(node) && Proper(node) && Below(node, parentId)
    ensures Find(node, parentId).Some?
    ensures var before := Find(node, parentId).value;
            var after := Find(InsertById(node, Some(parentId), newNode, compare), parentId);
            && after.Some?
            && after.value.id == before.id && after.value.name == before.name
            && after.value.status == before.status
            && multiset(after.value.subs) == multiset(before.subs) + multiset{newNode}
            && SortedByName(after.value.subs, compare)
    decreases node
  {
    var r := InsertById(node, Some(parentId), newNode, compare);
    OwnIdIn(node, parentId);
    assert node.id != Some(parentId) by {
      assert Count(node, parentId) <= 1;
    }
    var j := InsertStep(node, parentId, newNode, compare);
    ChildOf(node, j);
    UniqueChild(node, j);
    var y := InsertById(node.subs[j], Some(parentId), newNode, compare);
    FindUnique(node, parentId, j);
    InsertCount(node.subs[j], Some(parentId), newNode, compare, parentId);
    forall k | 0 <= k < j ensures !Has(r.subs[k], parentId) {
      UniqueApart(node, j, k, parentId);
    }
    FindAt(r, parentId, j);
    if node.subs[j].id != Some(parentId) {
      InsertPlaces(node.subs[j], parentId, newNode, compare);
    }
  }

  // ----- what update does -----

  /** The updaters the reducers pass change a node's name and status only. */
  ghost predicate KeepsIdAndSubs(updater: Node -> Node) {
    forall n :: updater(n).id == n.id && updater(n).subs == n.subs
  }

  /** An update that keeps ids keeps every id's count. */
  lemma UpdateKeepsIds(node: Node, id: int, updater: Node -> Node, compare: Collation)
    requires Unique(node) && Proper(node) && KeepsIdAndSubs(updater)
    ensures forall k :: Count(UpdateById(node, id, updater, compare), k) == Count(node, k)
  {
    forall k ensures Count(UpdateById(node, id, updater, compare), k) == Count(node, k) {
      UpdateCount(node, id, updater, compare, k);
    }
  }

  lemma {:induction false} UpdateCount(node: Node, id: int, updater: Node -> Node, compare: Collation, k: int)
    requires Unique(node) && Proper(node) && KeepsIdAndSubs(updater)
    ensures Count(UpdateById(node, id, updater, compare), k) == Count(node, k)
    decreases node
  {
    if !Below(node, id) {
      UpdateAbsent(node, id, updater, compare);
    } else {
      var j := UpdateStep(node, id, updater, compare);
      var sub := node.subs[j];
      if sub.id == Some(id) {
        CountAfterUpdateHere(node, j, updater(sub), compare, k);
        assert Count(updater(sub), k) == Count(sub, k);
      } else {
        ChildOf(node, j);
        UniqueChild(node, j);
        UpdateCount(sub, id, updater, compare, k);
        CountAfterReplace(node, j, UpdateById(sub, id, updater, compare), k);
      }
    }
  }

  lemma {:induction false} UpdateKeepsProper(node: Node, id: int, updater: Node -> Node, compare: Collation)
    requires Unique(node) && Proper(node) && KeepsIdAndSubs(updater)
    ensures Proper(UpdateById(node, id, updater, compare))
    decreases node
  {
    if !Below(node, id) {
      UpdateAbsent(node, id, updater, compare);
    } else {
      var j := UpdateStep(node, id, updater, compare);
      var sub := node.subs[j];
      ChildOf(node, j);
      if sub.id == Some(id) {
        assert Proper(updater(sub)) by {
          assert updater(sub).subs == sub.subs;
        }
        ProperAfterUpdateHere(node, j, updater(sub), compare);
      } else {
        UniqueChild(node, j);
        UpdateKeepsProper(sub, id, updater, compare);
        ProperAfterReplace(node, j, UpdateById(sub, id, updater, compare));
      }
    }
  }

  /** An update that keeps children keeps every children list ordered by
      name: the list it re-sorts and every other one. */
  lemma {:induction false} UpdateKeepsSorted(node: Node, id: int, updater: Node -> Node, compare: Collation)
    requires Unique(node) && Proper(node) && KeepsIdAndSubs(updater)
    requires AllSorted(node, compare)
    ensures AllSorted(UpdateById(node, id, updater, compare), compare)
    decreases node
  {
    if !Below(node, id) {
      UpdateAbsent(node, id, updater, compare);
    } else {
      var j := UpdateStep(node, id, updater, compare);
      var sub := node.subs[j];
      ChildOf(node, j);
      assert sub in node.subs;
      if sub.id == Some(id) {
        assert AllSorted(updater(sub), compare) by {
          assert updater(sub).subs == sub.subs;
        }
        SortedAfterUpdateHere(node, j, updater(sub), compare);
      } else {
        UniqueChild(node, j);
        UpdateKeepsSorted(sub, id, updater, compare);
        SortedAfterReplace(node, j, UpdateById(sub, id, updater, compare), compare);
      }
    }
  }

  /** The node found under the id afterwards is the updater's result on the
      node found there before. */
  lemma {:induction false} UpdateApplies(node: Node, id: int, updater: Node -> Node, compare: Collation)
    requires Unique(node) && Proper(node) && KeepsIdAndSubs(updater) && Below(node, id)
    ensures Find(node, id).Some?
    ensures Find(UpdateById(node, id, updater, compare), id) == Some(updater(Find(node, id).value))
    decreases node
  {
    var j := UpdateStep(node, id, updater, compare);
    var sub := node.subs[j];
    ChildOf(node, j);
    FindUnique(node, id, j);
    if sub.id == Some(id) {
      FindAfterUpdateHere(node, j, updater(sub), compare);
    } else {
      UniqueChild(node, j);
      var y := UpdateById(sub, id, updater, compare);
      UpdateKeepsIds(sub, id, updater, compare);
      FindAfterReplace(node, j, y, id);
      UpdateApplies(sub, id, updater, compare);
    }
  }

  /** Nothing else changes: every other id finds the same name and status. */
  lemma {:induction false} UpdateOthers(node: Node, id: int, updater: Node -> Node, compare: Collation, other: int)
    requires Unique(node) && Proper(node) && KeepsIdAndSubs(updater) && other != id
    ensures Entry(UpdateById(node, id, updater, compare), other) == Entry(node, other)
    decreases node
  {
    if !Below(node, id) {
      UpdateAbsent(node, id, updater, compare);
    } else {
      var j := UpdateStep(node, id, updater, compare);
      var sub := node.subs[j];
      ChildOf(node, j);
      if sub.id == Some(id) {
        EntryAfterUpdateHere(node, j, updater(sub), other, compare);
      } else {
        UniqueChild(node, j);
        var y := UpdateById(sub, id, updater, compare);
        UpdateKeepsIds(sub, id, updater, compare);
        UpdateOthers(sub, id, updater, compare, other);
        EntryAfterReplace(node, j, y, other);
      }
    }
  }

  // ----- what delete does -----

  /** Delete takes out exactly the ids of the subtree found under the id. */
  lemma DeleteRemovesSubtree(node: Node, id: int)
    requires Unique(node) && Proper(node) && Below(node, id)
    ensures Find(node, id).Some?
    ensures forall k :: Count(DeleteById(node, id), k) + Count(Find(node, id).value, k) == Count(node, k)
    ensures !Below(DeleteById(node, id), id)
  {
    FindBelow(node, id);
    forall k ensures Count(DeleteById(node, id), k) + Count(Find(node, id).value, k) == Count(node, k) {
      DeleteCount(node, id, k);
    }
    var t := Find(node, id).value;
    assert Count(t, id) >= 1;
    assert Count(node, id) <= 1;
  }

  lemma {:induction false} DeleteCount(node: Node, id: int, k: int)
    requires Unique(node) && Proper(node) && Below(node, id)
    ensures Find(node, id).Some?
    ensures Count(DeleteById(node, id), k) + Count(Find(node, id).value, k) == Count(node, k)
    decreases node
  {
    var j := DeleteStep(node, id);
    var sub := node.subs[j];
    ChildOf(node, j);
    FindUnique(node, id, j);
    if sub.id == Some(id) {
      CountRemove(node.subs, j, k);
    } else {
      UniqueChild(node, j);
      DeleteCount(sub, id, k);
      CountAfterReplace(node, j, DeleteById(sub, id), k);
    }
  }

  lemma {:induction false} DeleteKeepsSorted(node: Node, id: int, compare: Collation)
    requires Unique(node) && Proper(node) && AllSorted(node, compare)
    ensures AllSorted(DeleteById(node, id), compare)
    decreases node
  {
    if !Below(node, id) {
      DeleteAbsent(node, id);
    } else {
      var j := DeleteStep(node, id);
      var sub := node.subs[j];
      ChildOf(node, j);
      assert sub in node.subs;
      if sub.id == Some(id) {
        var t := node.subs[..j] + node.subs[j + 1..];
        SortedRemove(node.subs, j, compare);
        forall x | x in t ensures AllSorted(x, compare) {
          assert x in node.subs;
        }
      } else {
        UniqueChild(node, j);
        DeleteKeepsSorted(sub, id, compare);
        SortedAfterReplace(node, j, DeleteById(sub, id), compare);
      }
    }
  }

  lemma {:induction false} DeleteKeepsProper(node: Node, id: int)
    requires Unique(node) && Proper(node)
    ensures Proper(DeleteById(node, id))
    decreases node
  {
    if !Below(node, id) {
      DeleteAbsent(node, id);
    } else {
      var j := DeleteStep(node, id);
      var sub := node.subs[j];
      ChildOf(node, j);
      if sub.id == Some(id) {
        var t := node.subs[..j] + node.subs[j + 1..];
        forall x | x in t ensures x.id.Some? && Proper(x) {
          assert x in node.subs;
        }
      } else {
        UniqueChild(node, j);
        DeleteKeepsProper(sub, id);
        ProperAfterReplace(node, j, DeleteById(sub, id));
      }
    }
  }

  /** Delete hides exactly the ids of the removed subtree; every other id
      finds the same name and status. */
  lemma {:induction false} DeleteOthers(node: Node, id: int, other: int)
    requires Unique(node) && Proper(node) && Below(node, id)
    ensures Find(node, id).Some?
    ensures Entry(DeleteById(node, id), other)
         == if Has(Find(node, id).value, other) then None else Entry(node, other)
    decreases node
  {
    var r := DeleteById(node, id);
    DeleteRemovesSubtree(node, id);
    var t := Find(node, id).value;
    if Has(t, other) {
      assert !Below(r, other) by {
        assert Count(r, other) + Count(t, other) == Count(node, other);
        assert Count(node, other) <= 1;
      }
      FindAbsent(r, other);
    } else {
      var j := DeleteStep(node, id);
      var sub := node.subs[j];
      ChildOf(node, j);
      FindUnique(node, id, j);
      if sub.id == Some(id) {
        EntryAfterRemove(node, j, other);
      } else {
        UniqueChild(node, j);
        var y := DeleteById(sub, id);
        DeleteRemovesSubtree(sub, id);
        DeleteOthers(sub, id, other);
        EntryAfterReplace(node, j, y, other);
      }
    }
  }

  /** Deleting an id twice is the same as deleting it once. */
  lemma DeleteIdempotent(node: Node, id: int)
    requires Unique(node) && Proper(node)
    ensures DeleteById(DeleteById(node, id), id) == DeleteById(node, id)
  {
    if Below(node, id) {
      DeleteRemovesSubtree(node, id);
      DeleteAbsent(DeleteById(node, id), id);
    } else {
      DeleteAbsent(node, id);
    }
  }
}
