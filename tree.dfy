/** Views of a state tree (services/front/src/reducers/types.ts:36-41) that the
    properties of the tree primitives are stated in: how many nodes carry an
    id, the order of children lists, and the depth-first search the
    primitives run. */
module Tree {
  import opened Wrappers
  import opened Sorting
  import opened Types

  function NameOf(node: Node): string { node.name }

  ghost predicate SortedByName(subs: seq<Node>, compare: Collation) {
    SortedBy(subs, NameOf, compare)
  }

  /** `subs.sort((a, b) => a.name.localeCompare(b.name))`. */
  function SortByName(subs: seq<Node>, compare: Collation): (r: seq<Node>)
    ensures multiset(r) == multiset(subs) && SortedByName(r, compare)
  {
    SortBy(subs, NameOf, compare)
  }

  /** How many nodes of the tree, the node itself included, carry `id`. NaN
      (the root's id) equals no number. */
  function Count(node: Node, id: int): nat
    decreases node
  {
    (if node.id == Some(id) then 1 else 0) + CountIn(node.subs, id)
  }

  /** How many nodes of a list of subtrees carry `id`. */
  function CountIn(subs: seq<Node>, id: int): nat
    decreases subs
  {
    if subs == [] then 0 else Count(subs[0], id) + CountIn(subs[1..], id)
  }

  /** The node or one of its descendants carries `id`. */
  predicate Has(node: Node, id: int) {
    Count(node, id) > 0
  }

  /** Some node strictly below `node` carries `id`. */
  predicate Below(node: Node, id: int) {
    CountIn(node.subs, id) > 0
  }

  /** No id occurs twice anywhere in the tree. */
  ghost predicate Unique(node: Node) {
    forall k :: Count(node, k) <= 1
  }

  /** Every node strictly below `node` has a numeric id: only the root of the
      state tree carries NaN. */
  ghost predicate Proper(node: Node)
    decreases node
  {
    forall sub :: sub in node.subs ==> sub.id.Some? && Proper(sub)
  }

  /** Every children list of the tree is ordered by name. */
  ghost predicate AllSorted(node: Node, compare: Collation)
    decreases node
  {
    && SortedByName(node.subs, compare)
    && forall sub :: sub in node.subs ==> AllSorted(sub, compare)
  }

  /** The first node strictly below `node` whose id is `id`, searching the
      children in order and each child's subtree before the next child: the
      order in which the tree primitives visit the tree. */
  function Find(node: Node, id: int): Option<Node> {
    FindFrom(node, 0, id)
  }

  function FindFrom(node: Node, from: nat, id: int): (r: Option<Node>)
    requires from <= |node.subs|
    decreases node, |node.subs| - from
    ensures r.Some? ==> r.value.id == Some(id)
  {
    if from == |node.subs| then None
    else if node.subs[from].id == Some(id) then Some(node.subs[from])
    else if Below(node.subs[from], id) then FindFrom(node.subs[from], 0, id)
    else FindFrom(node, from + 1, id)
  }

  /** The name and status found under `id`: what a reader of the tree sees
      for that directory. */
  function Entry(node: Node, id: int): Option<(string, Status)> {
    var found := Find(node, id);
    if found.Some? then Some((found.value.name, found.value.status)) else None
  }

  // ----- counting ids -----

  lemma {:induction false} CountAppend(a: seq<Node>, b: seq<Node>, id: int)
    ensures CountIn(a + b, id) == CountIn(a, id) + CountIn(b, id)
  {
    if a == [] {
      assert a + b == b;
    } else {
      assert (a + b)[0] == a[0];
      assert (a + b)[1..] == a[1..] + b;
      CountAppend(a[1..], b, id);
    }
  }

  lemma CountSplit(s: seq<Node>, i: nat, id: int)
    requires i < |s|
    ensures CountIn(s, id) == CountIn(s[..i], id) + Count(s[i], id) + CountIn(s[i + 1..], id)
  {
    assert s == s[..i] + s[i..];
    CountAppend(s[..i], s[i..], id);
    assert s[i..][0] == s[i];
    assert s[i..][1..] == s[i + 1..];
  }

  lemma CountSingleton(x: Node, id: int)
    ensures CountIn([x], id) == Count(x, id)
  {
    assert [x][1..] == [];
  }

  /** Two different positions contribute their counts separately. */
  lemma CountPair(s: seq<Node>, i: nat, j: nat, id: int)
    requires i < |s| && j < |s| && i != j
    ensures Count(s[i], id) + Count(s[j], id) <= CountIn(s, id)
  {
    var lo, hi := if i < j then i else j, if i < j then j else i;
    CountSplit(s, hi, id);
    assert s[..hi][lo] == s[lo];
    CountSplit(s[..hi], lo, id);
  }

  lemma {:induction false} HolderOf(s: seq<Node>, id: int) returns (k: nat)
    requires CountIn(s, id) > 0
    ensures k < |s| && Count(s[k], id) > 0
  {
    if Count(s[0], id) > 0 {
      k := 0;
    } else {
      var k' := HolderOf(s[1..], id);
      k := k' + 1;
    }
  }

  lemma CountUpdate(s: seq<Node>, i: nat, x: Node, id: int)
    requires i < |s|
    ensures CountIn(s[i := x], id) + Count(s[i], id) == CountIn(s, id) + Count(x, id)
  {
    var t := s[i := x];
    CountSplit(s, i, id);
    CountSplit(t, i, id);
    assert t[..i] == s[..i];
    assert t[i + 1..] == s[i + 1..];
  }

  lemma CountRemove(s: seq<Node>, i: nat, id: int)
    requires i < |s|
    ensures CountIn(s[..i] + s[i + 1..], id) + Count(s[i], id) == CountIn(s, id)
  {
    CountSplit(s, i, id);
    CountAppend(s[..i], s[i + 1..], id);
  }

  /** The counts of a list of subtrees depend only on which subtrees it holds. */
  lemma {:induction false} CountPermutation(s: seq<Node>, t: seq<Node>, id: int)
    requires multiset(s) == multiset(t)
    ensures CountIn(s, id) == CountIn(t, id)
    decreases |s|
  {
    if s == [] {
      assert |t| == |multiset(t)| == 0;
    } else {
      assert s[0] in multiset(t);
      var k :| 0 <= k < |t| && t[k] == s[0];
      var rest := t[..k] + t[k + 1..];
      PermutationTail(s, t, k);
      CountPermutation(s[1..], rest, id);
      CountRemove(t, k, id);
    }
  }

  // ----- uniqueness -----

  lemma UniqueChild(node: Node, i: nat)
    requires Unique(node) && i < |node.subs|
    ensures Unique(node.subs[i])
  {
    forall k ensures Count(node.subs[i], k) <= 1 {
      CountSplit(node.subs, i, k);
      assert Count(node, k) <= 1;
    }
  }

  /** In a tree without repeated ids, no id sits in two different children. */
  lemma UniqueApart(node: Node, i: nat, j: nat, id: int)
    requires Unique(node) && i < |node.subs| && j < |node.subs| && i != j
    requires Has(node.subs[i], id)
    ensures !Has(node.subs[j], id)
  {
    CountPair(node.subs, i, j, id);
    assert Count(node, id) <= 1;
  }

  /** An id present below a tree without repeated ids sits in exactly one child. */
  lemma UniqueHolder(node: Node, id: int) returns (j: nat)
    requires Unique(node) && Below(node, id)
    ensures j < |node.subs| && Has(node.subs[j], id)
    ensures forall k :: 0 <= k < |node.subs| && k != j ==> !Has(node.subs[k], id)
  {
    j := HolderOf(node.subs, id);
    forall k | 0 <= k < |node.subs| && k != j ensures !Has(node.subs[k], id) {
      UniqueApart(node, j, k, id);
    }
  }

  // ----- the search -----

  lemma FindSkipOne(node: Node, from: nat, id: int)
    requires from < |node.subs| && !Has(node.subs[from], id)
    ensures FindFrom(node, from, id) == FindFrom(node, from + 1, id)
  {
  }

  lemma {:induction false} FindSkip(node: Node, from: nat, stop: nat, id: int)
    requires from <= stop <= |node.subs|
    requires forall k :: from <= k < stop ==> !Has(node.subs[k], id)
    ensures FindFrom(node, from, id) == FindFrom(node, stop, id)
    decreases stop - from
  {
    if from < stop {
      assert FindFrom(node, from, id) == FindFrom(node, stop - 1, id) by {
        FindSkip(node, from, stop - 1, id);
      }
      assert FindFrom(node, stop - 1, id) == FindFrom(node, stop, id) by {
        FindSkipOne(node, stop - 1, id);
      }
    }
  }

  /** The search enters the first child that holds the id. */
  lemma FindAt(node: Node, id: int, j: nat)
    requires j < |node.subs| && Has(node.subs[j], id)
    requires forall k :: 0 <= k < j ==> !Has(node.subs[k], id)
    ensures Find(node, id)
         == if node.subs[j].id == Some(id) then Some(node.subs[j]) else Find(node.subs[j], id)
  {
    FindSkip(node, 0, j, id);
  }

  /** Without repeated ids, the search enters the one child holding the id. */
  lemma FindUnique(node: Node, id: int, j: nat)
    requires Unique(node) && j < |node.subs| && Has(node.subs[j], id)
    ensures Find(node, id)
         == if node.subs[j].id == Some(id) then Some(node.subs[j]) else Find(node.subs[j], id)
  {
    forall k | 0 <= k < j ensures !Has(node.subs[k], id) {
      UniqueApart(node, j, k, id);
    }
    FindAt(node, id, j);
  }

  lemma FindAbsent(node: Node, id: int)
    requires !Below(node, id)
    ensures Find(node, id) == None
  {
    forall k | 0 <= k < |node.subs| ensures !Has(node.subs[k], id) {
      CountSplit(node.subs, k, id);
    }
    FindSkip(node, 0, |node.subs|, id);
  }

  lemma {:induction false} FindFromSameSubs(a: Node, b: Node, from: nat, id: int)
    requires a.subs == b.subs && from <= |a.subs|
    ensures FindFrom(a, from, id) == FindFrom(b, from, id)
    decreases |a.subs| - from
  {
    if from < |a.subs| {
      FindFromSameSubs(a, b, from + 1, id);
    }
  }

  /** The search looks only at the children. */
  lemma FindSameSubs(a: Node, b: Node, id: int)
    requires a.subs == b.subs
    ensures Find(a, id) == Find(b, id)
  {
    FindFromSameSubs(a, b, 0, id);
  }

  /** In a tree without repeated ids, every id below the root is found. */
  lemma {:induction false} FindBelow(node: Node, id: int)
    requires Unique(node) && Below(node, id)
    ensures Find(node, id).Some?
    decreases node
  {
    var j := UniqueHolder(node, id);
    FindUnique(node, id, j);
    if node.subs[j].id != Some(id) {
      UniqueChild(node, j);
      FindBelow(node.subs[j], id);
    }
  }

  // ----- order of children lists -----

  /** Replacing a child by one with the same name keeps a list ordered. */
  lemma SortedReplaceSameName(s: seq<Node>, j: nat, x: Node, compare: Collation)
    requires SortedByName(s, compare) && j < |s| && x.name == s[j].name
    ensures SortedByName(s[j := x], compare)
  {
    var t := s[j := x];
    forall a, b | 0 <= a < b < |t| ensures compare(NameOf(t[a]), NameOf(t[b])) <= 0 {
      assert NameOf(t[a]) == NameOf(s[a]) && NameOf(t[b]) == NameOf(s[b]);
    }
  }

  /** Removing a child keeps a list ordered. */
  lemma SortedRemove(s: seq<Node>, j: nat, compare: Collation)
    requires SortedByName(s, compare) && j < |s|
    ensures SortedByName(s[..j] + s[j + 1..], compare)
  {
    var t := s[..j] + s[j + 1..];
    forall a, b | 0 <= a < b < |t| ensures compare(NameOf(t[a]), NameOf(t[b])) <= 0 {
      var a' := if a < j then a else a + 1;
      var b' := if b < j then b else b + 1;
      assert t[a] == s[a'] && t[b] == s[b'];
    }
  }

  lemma IndexOf(s: seq<Node>, x: Node) returns (i: nat)
    requires x in multiset(s)
    ensures i < |s| && s[i] == x
  {
    i :| 0 <= i < |s| && s[i] == x;
  }

  // ----- rebuilding one level -----

  /** Replacing one child changes every count by what the child's count
      changed by. */
  lemma CountAfterReplace(node: Node, j: nat, y: Node, id: int)
    requires j < |node.subs|
    ensures Count(node.(subs := node.subs[j := y]), id) + Count(node.subs[j], id) == Count(node, id) + Count(y, id)
  {
    CountUpdate(node.subs, j, y, id);
  }

  lemma SortedAfterReplace(node: Node, j: nat, y: Node, compare: Collation)
    requires j < |node.subs| && AllSorted(node, compare)
    requires AllSorted(y, compare) && y.name == node.subs[j].name
    ensures AllSorted(node.(subs := node.subs[j := y]), compare)
  {
    var t := node.subs[j := y];
    SortedReplaceSameName(node.subs, j, y, compare);
    forall sub | sub in t ensures AllSorted(sub, compare) {
      var k :| 0 <= k < |t| && t[k] == sub;
      if k != j {
        assert node.subs[k] in node.subs;
      }
    }
  }

  lemma ProperAfterReplace(node: Node, j: nat, y: Node)
    requires j < |node.subs| && Proper(node) && Proper(y) && y.id.Some?
    ensures Proper(node.(subs := node.subs[j := y]))
  {
    var t := node.subs[j := y];
    forall sub | sub in t ensures sub.id.Some? && Proper(sub) {
      var k :| 0 <= k < |t| && t[k] == sub;
      if k != j {
        assert node.subs[k] in node.subs;
      }
    }
  }

  /** A new children list made of the old children and some extra nodes. */
  lemma SortedAfterRebuild(node: Node, t: seq<Node>, extra: seq<Node>, compare: Collation)
    requires AllSorted(node, compare) && multiset(t) == multiset(node.subs + extra)
    requires SortedByName(t, compare)
    requires forall x :: x in extra ==> AllSorted(x, compare)
    ensures AllSorted(node.(subs := t), compare)
  {
    forall sub | sub in t ensures AllSorted(sub, compare) {
      assert sub in multiset(node.subs + extra);
    }
  }

  lemma ProperAfterRebuild(node: Node, t: seq<Node>, extra: seq<Node>)
    requires Proper(node) && multiset(t) == multiset(node.subs + extra)
    requires forall x :: x in extra ==> x.id.Some? && Proper(x)
    ensures Proper(node.(subs := t))
  {
    forall sub | sub in t ensures sub.id.Some? && Proper(sub) {
      assert sub in multiset(node.subs + extra);
    }
  }

  // ----- re-sorting a list after replacing one child -----

  lemma CountAfterUpdateHere(node: Node, j: nat, y: Node, compare: Collation, id: int)
    requires j < |node.subs|
    ensures Count(node.(subs := SortByName(node.subs[j := y], compare)), id) + Count(node.subs[j], id)
         == Count(node, id) + Count(y, id)
  {
    var u := node.subs[j := y];
    CountUpdate(node.subs, j, y, id);
    CountPermutation(SortByName(u, compare), u, id);
  }

  lemma SortedAfterUpdateHere(node: Node, j: nat, y: Node, compare: Collation)
    requires j < |node.subs| && AllSorted(node, compare) && AllSorted(y, compare)
    ensures AllSorted(node.(subs := SortByName(node.subs[j := y], compare)), compare)
  {
    var u := node.subs[j := y];
    var t := SortByName(u, compare);
    forall sub | sub in t ensures AllSorted(sub, compare) {
      assert sub in multiset(u);
      var k := IndexOf(u, sub);
      if k != j {
        assert node.subs[k] in node.subs;
      }
    }
  }

  lemma ProperAfterUpdateHere(node: Node, j: nat, y: Node, compare: Collation)
    requires j < |node.subs| && Proper(node) && Proper(y) && y.id.Some?
    ensures Proper(node.(subs := SortByName(node.subs[j := y], compare)))
  {
    var u := node.subs[j := y];
    var t := SortByName(u, compare);
    forall sub | sub in t ensures sub.id.Some? && Proper(sub) {
      assert sub in multiset(u);
      var k := IndexOf(u, sub);
      if k != j {
        assert node.subs[k] in node.subs;
      }
    }
  }

  /** After the re-sort, the search for the replaced child's id finds the
      replacement. */
  lemma FindAfterUpdateHere(node: Node, j: nat, y: Node, compare: Collation)
    requires Unique(node) && j < |node.subs| && node.subs[j].id.Some?
    requires y.id == node.subs[j].id && y.subs == node.subs[j].subs
    ensures Find(node.(subs := SortByName(node.subs[j := y], compare)), node.subs[j].id.value) == Some(y)
  {
    var u := node.subs[j := y];
    var r := node.(subs := SortByName(u, compare));
    assert Unique(r) by {
      forall k ensures Count(r, k) <= 1 {
        CountAfterUpdateHere(node, j, y, compare, k);
        assert Count(y, k) == Count(node.subs[j], k);
        assert Count(node, k) <= 1;
      }
    }
    assert y in multiset(r.subs) by {
      assert y == u[j];
    }
    var i := IndexOf(r.subs, y);
    FindUnique(r, node.subs[j].id.value, i);
  }

  /** After the re-sort, every other id finds what it found before. */
  lemma EntryAfterUpdateHere(node: Node, j: nat, y: Node, q: int, compare: Collation)
    requires Unique(node) && j < |node.subs| && node.subs[j].id != Some(q)
    requires y.id == node.subs[j].id && y.subs == node.subs[j].subs
    ensures Entry(node.(subs := SortByName(node.subs[j := y], compare)), q) == Entry(node, q)
  {
    var u := node.(subs := node.subs[j := y]);
    var r := node.(subs := SortByName(u.subs, compare));
    FindAfterSwap(node, j, y, q);
    assert Unique(u) by {
      forall k ensures Count(u, k) <= 1 {
        CountAfterReplace(node, j, y, k);
        assert Count(y, k) == Count(node.subs[j], k);
        assert Count(node, k) <= 1;
      }
    }
    FindPermuted(u, r, q);
  }

  /** Swapping a child for one with the same id and children changes no
      search for another id. */
  lemma FindAfterSwap(node: Node, j: nat, y: Node, q: int)
    requires Unique(node) && j < |node.subs| && node.subs[j].id != Some(q)
    requires y.id == node.subs[j].id && y.subs == node.subs[j].subs
    ensures Find(node.(subs := node.subs[j := y]), q) == Find(node, q)
  {
    var r := node.(subs := node.subs[j := y]);
    assert Unique(r) && (Below(r, q) <==> Below(node, q)) by {
      forall k ensures Count(r, k) == Count(node, k) {
        CountAfterReplace(node, j, y, k);
        assert Count(y, k) == Count(node.subs[j], k);
      }
      assert Count(r, q) == Count(node, q);
    }
    if !Below(node, q) {
      FindAbsent(node, q);
      FindAbsent(r, q);
    } else {
      var jq := UniqueHolder(node, q);
      assert Has(r.subs[jq], q) by {
        assert Count(r.subs[jq], q) == Count(node.subs[jq], q);
      }
      FindUnique(node, q, jq);
      FindUnique(r, q, jq);
      if jq == j {
        FindSameSubs(y, node.subs[j], q);
      }
    }
  }

  /** Without repeated ids, the search does not depend on the order of the
      children. */
  lemma FindPermuted(a: Node, b: Node, q: int)
    requires Unique(a) && a.id == b.id && multiset(a.subs) == multiset(b.subs)
    ensures Find(a, q) == Find(b, q)
  {
    assert Unique(b) && (Below(a, q) <==> Below(b, q)) by {
      forall k ensures Count(b, k) == Count(a, k) {
        CountPermutation(a.subs, b.subs, k);
      }
      assert Count(b, q) == Count(a, q);
    }
    if !Below(a, q) {
      FindAbsent(a, q);
      FindAbsent(b, q);
    } else {
      var ja := UniqueHolder(a, q);
      assert a.subs[ja] in multiset(b.subs);
      var jb := IndexOf(b.subs, a.subs[ja]);
      FindUnique(a, q, ja);
      FindUnique(b, q, jb);
    }
  }

  // ----- rebuilding one child in place -----

  /** After one child is rebuilt in place, the search for an id it holds goes
      into the rebuilt child. */
  lemma FindAfterReplace(node: Node, j: nat, y: Node, id: int)
    requires Unique(node) && j < |node.subs| && Has(node.subs[j], id)
    requires y.id == node.subs[j].id && forall k :: Count(y, k) == Count(node.subs[j], k)
    ensures Find(node.(subs := node.subs[j := y]), id)
         == if y.id == Some(id) then Some(y) else Find(y, id)
  {
    var r := node.(subs := node.subs[j := y]);
    assert Unique(r) by {
      forall k ensures Count(r, k) <= 1 {
        CountAfterReplace(node, j, y, k);
      }
    }
    FindUnique(r, id, j);
  }

  /** After one child is rebuilt in place, keeping its own name and status
      and possibly losing ids, an id it keeps that finds the same in the child
      finds the same in the tree. */
  lemma EntryAfterReplace(node: Node, j: nat, y: Node, q: int)
    requires Unique(node) && j < |node.subs|
    requires y.id == node.subs[j].id && y.name == node.subs[j].name && y.status == node.subs[j].status
    requires forall k :: Count(y, k) <= Count(node.subs[j], k)
    requires Count(y, q) == Count(node.subs[j], q)
    requires Has(node.subs[j], q) && node.subs[j].id != Some(q) ==> Entry(y, q) == Entry(node.subs[j], q)
    ensures Entry(node.(subs := node.subs[j := y]), q) == Entry(node, q)
  {
    var r := node.(subs := node.subs[j := y]);
    assert Unique(r) && (Below(r, q) <==> Below(node, q)) by {
      forall k ensures Count(r, k) <= Count(node, k) {
        CountAfterReplace(node, j, y, k);
      }
      CountAfterReplace(node, j, y, q);
    }
    if !Below(node, q) {
      FindAbsent(node, q);
      FindAbsent(r, q);
    } else {
      var jq := UniqueHolder(node, q);
      assert Find(node, q) == if node.subs[jq].id == Some(q) then Some(node.subs[jq]) else Find(node.subs[jq], q) by {
        FindUnique(node, q, jq);
      }
      assert Find(r, q) == if r.subs[jq].id == Some(q) then Some(r.subs[jq]) else Find(r.subs[jq], q) by {
        FindUnique(r, q, jq);
      }
    }
  }

  /** Removing a child that does not hold an id changes no search for it. */
  lemma EntryAfterRemove(node: Node, j: nat, q: int)
    requires Unique(node) && j < |node.subs| && !Has(node.subs[j], q)
    ensures Entry(node.(subs := node.subs[..j] + node.subs[j + 1..]), q) == Entry(node, q)
  {
    var t := node.subs[..j] + node.subs[j + 1..];
    var r := node.(subs := t);
    assert Unique(r) && (Below(r, q) <==> Below(node, q)) by {
      forall k ensures Count(r, k) <= Count(node, k) {
        CountRemove(node.subs, j, k);
      }
      CountRemove(node.subs, j, q);
    }
    if !Below(node, q) {
      FindAbsent(node, q);
      FindAbsent(r, q);
    } else {
      var jq := UniqueHolder(node, q);
      assert jq != j;
      var jr := if jq < j then jq else jq - 1;
      assert t[jr] == node.subs[jq];
      FindUnique(node, q, jq);
      FindUnique(r, q, jr);
    }
  }
}
