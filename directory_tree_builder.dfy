/** The server-side tree builder of
    services/back/src/business_logic/directory_tree_builder.rs: it turns the
    flat rows of the `directories` table into a `DirectoryNode` tree, through
    a map from ids to entries that the build consumes. */
module DirectoryTreeBuilder {
  import opened Wrappers
  import N = DirectoryNode

  /** A row as read from the database; every column may be NULL. */
  datatype ListDirectory = ListDirectory(id: Option<int>, name: Option<string>, parentId: Option<int>)

  /** What the map of the builder holds for one id: the name and the ids of
      the children, in the order they were attached. */
  datatype Entry = Entry(name: string, children: seq<int>)

  /** The two fields of the builder, as a value. */
  datatype Registry = Registry(entries: map<int, Entry>, rootIds: seq<int>)

  /** The error `into_node` returns for an id that is not a key of the map. */
  datatype BuildError = MissingKey(id: int)

  /** A row the builder keeps: one with an id and a name. */
  predicate Complete(d: ListDirectory) {
    d.id.Some? && d.name.Some?
  }

  /** One turn of the loop of `from_list`. The entry of the row's id is
      (re)written with no children; a row without a parent becomes a root;
      a row with a parent is attached to it only when the parent is already
      a key. */
  function Register(b: Registry, d: ListDirectory): Registry {
    if !Complete(d) then b
    else
      var id := d.id.value;
      var m := b.entries[id := Entry(d.name.value, [])];
      if d.parentId.None? then Registry(m, b.rootIds + [id])
      else if d.parentId.value in m then
        var p := d.parentId.value;
        Registry(m[p := Entry(m[p].name, m[p].children + [id])], b.rootIds)
      else Registry(m, b.rootIds)
  }

  /** What `from_list` leaves in the builder after reading `list`. */
  function Load(list: seq<ListDirectory>): Registry {
    if list == [] then Registry(map[], [])
    else Register(Load(list[..|list| - 1]), list[|list| - 1])
  }

  /** `d` is a kept row with id `k`. */
  predicate Row(d: ListDirectory, k: int) {
    Complete(d) && d.id == Some(k)
  }

  /** Some kept row of `list` has id `k`. */
  ghost predicate Occurs(list: seq<ListDirectory>, k: int) {
    exists i :: 0 <= i < |list| && Row(list[i], k)
  }

  /** No two kept rows share an id (ids are primary keys of the table). */
  ghost predicate DistinctIds(list: seq<ListDirectory>) {
    forall i, j :: 0 <= i < j < |list| && Complete(list[i]) && Complete(list[j]) ==> list[i].id != list[j].id
  }

  /** No kept row names itself as its parent. */
  ghost predicate NoSelfParent(list: seq<ListDirectory>) {
    forall i :: 0 <= i < |list| && Complete(list[i]) ==> list[i].parentId != list[i].id
  }

  predicate Distinct(s: seq<int>) {
    forall i, j :: 0 <= i < j < |s| ==> s[i] != s[j]
  }

  /** The rows of `list` that the builder keeps, in order. */
  function Kept(list: seq<ListDirectory>): seq<ListDirectory> {
    if list == [] then []
    else (if Complete(list[0]) then [list[0]] else []) + Kept(list[1..])
  }

  /** The ids of the kept rows without a parent, in input order. */
  function RootsOf(list: seq<ListDirectory>): seq<int> {
    if list == [] then []
    else (if Complete(list[0]) && list[0].parentId.None? then [list[0].id.value] else []) + RootsOf(list[1..])
  }

  /** The ids of the kept rows of `list` whose parent is `p`, in input order. */
  function AttachedTo(list: seq<ListDirectory>, p: int): seq<int> {
    if list == [] then []
    else
      var d := list[|list| - 1];
      AttachedTo(list[..|list| - 1], p) + (if Complete(d) && d.parentId == Some(p) then [d.id.value] else [])
  }

  lemma OccursInInit(list: seq<ListDirectory>, k: int)
    requires Occurs(list, k) && !Row(list[|list| - 1], k)
    ensures Occurs(list[..|list| - 1], k)
  {
    var i :| 0 <= i < |list| && Row(list[i], k);
    assert list[..|list| - 1][i] == list[i];
  }

  /** The index of the last kept row with id `k`. */
  function Position(list: seq<ListDirectory>, k: int): (i: nat)
    requires Occurs(list, k)
    ensures i < |list| && Row(list[i], k)
    ensures forall j :: i < j < |list| ==> !Row(list[j], k)
  {
    if Row(list[|list| - 1], k) then |list| - 1
    else
      OccursInInit(list, k);
      Position(list[..|list| - 1], k)
  }

  /** Under distinct ids the row of an id is the one at its position. */
  lemma PositionUnique(list: seq<ListDirectory>, k: int, j: nat)
    requires DistinctIds(list) && j < |list| && Row(list[j], k)
    ensures Occurs(list, k) && Position(list, k) == j
  {
  }

  lemma LoadLast(list: seq<ListDirectory>, d: ListDirectory)
    ensures Load(list + [d]) == Register(Load(list), d)
  {
    assert (list + [d])[..|list|] == list;
  }

  /** The keys of the map are the ids of the kept rows. */
  lemma {:induction false} LoadKeys(list: seq<ListDirectory>)
    ensures forall k :: k in Load(list).entries <==> Occurs(list, k)
  {
    if list != [] {
      var init := list[..|list| - 1];
      LoadKeys(init);
      forall k
        ensures k in Load(list).entries <==> Occurs(list, k)
      {
        if Occurs(init, k) {
          var i :| 0 <= i < |init| && Row(init[i], k);
          assert list[i] == init[i];
        }
        if Occurs(list, k) && !Row(list[|list| - 1], k) {
          OccursInInit(list, k);
        }
      }
    }
  }

  lemma {:induction false} RootsOfAppend(a: seq<ListDirectory>, b: seq<ListDirectory>)
    ensures RootsOf(a + b) == RootsOf(a) + RootsOf(b)
  {
    if a == [] {
      assert a + b == b;
    } else {
      assert (a + b)[0] == a[0];
      assert (a + b)[1..] == a[1..] + b;
      RootsOfAppend(a[1..], b);
    }
  }

  /** The root ids are the ids of the rows without a parent, in input order
      (not in name order), duplicates included. */
  lemma {:induction false} LoadRoots(list: seq<ListDirectory>)
    ensures Load(list).rootIds == RootsOf(list)
  {
    if list != [] {
      var init := list[..|list| - 1];
      var d := list[|list| - 1];
      LoadRoots(init);
      assert init + [d] == list;
      RootsOfAppend(init, [d]);
      assert [d][1..] == [];
    }
  }

  lemma {:induction false} KeptAppend(a: seq<ListDirectory>, b: seq<ListDirectory>)
    ensures Kept(a + b) == Kept(a) + Kept(b)
  {
    if a == [] {
      assert a + b == b;
    } else {
      assert (a + b)[0] == a[0];
      assert (a + b)[1..] == a[1..] + b;
      KeptAppend(a[1..], b);
    }
  }

  /** Rows without an id or without a name leave no trace: the builder is
      the one built from the kept rows alone. */
  lemma {:induction false} LoadSkips(list: seq<ListDirectory>)
    ensures Load(list) == Load(Kept(list))
  {
    if list != [] {
      var init := list[..|list| - 1];
      var d := list[|list| - 1];
      LoadSkips(init);
      assert init + [d] == list;
      KeptAppend(init, [d]);
      assert [d][1..] == [];
      if Complete(d) {
        LoadLast(Kept(init), d);
      } else {
        assert Kept(list) == Kept(init);
      }
    }
  }

  /** Each key holds the name of its last row and, as children, the ids of
      the rows from that one on that name it as their parent, in input
      order: a row is attached only when its parent came before it (or is
      itself), and writing a key again drops its earlier children. */
  lemma {:induction false} LoadChildren(list: seq<ListDirectory>, p: int)
    requires Occurs(list, p)
    ensures var i := Position(list, p);
      p in Load(list).entries
      && Load(list).entries[p] == Entry(list[i].name.value, AttachedTo(list[i..], p))
  {
    var n := |list|;
    var init := list[..n - 1];
    var d := list[n - 1];
    var i := Position(list, p);
    LoadKeys(init);
    if i == n - 1 {
      assert list[i..] == [d];
      assert [d][..0] == [];
    } else {
      OccursInInit(list, p);
      LoadChildren(init, p);
      assert list[i..][..|list[i..]| - 1] == init[i..];
    }
  }

  lemma {:induction false} AttachedMember(list: seq<ListDirectory>, p: int, c: int)
    ensures c in AttachedTo(list, p) <==> exists j :: 0 <= j < |list| && Row(list[j], c) && list[j].parentId == Some(p)
  {
    if list != [] {
      var init := list[..|list| - 1];
      AttachedMember(init, p, c);
      if exists j :: 0 <= j < |init| && Row(init[j], c) && init[j].parentId == Some(p) {
        var j :| 0 <= j < |init| && Row(init[j], c) && init[j].parentId == Some(p);
        assert list[j] == init[j];
      }
      if exists j :: 0 <= j < |list| && Row(list[j], c) && list[j].parentId == Some(p) {
        var j :| 0 <= j < |list| && Row(list[j], c) && list[j].parentId == Some(p);
        if j < |init| {
          assert init[j] == list[j];
        }
      }
    }
  }

  lemma DistinctIdsSlice(list: seq<ListDirectory>, a: nat, b: nat)
    requires DistinctIds(list) && a <= b <= |list|
    ensures DistinctIds(list[a..b])
  {
    forall i, j | 0 <= i < j < b - a && Complete(list[a..b][i]) && Complete(list[a..b][j])
      ensures list[a..b][i].id != list[a..b][j].id
    {
      assert list[a..b][i] == list[a + i] && list[a..b][j] == list[a + j];
    }
  }

  /** Under distinct ids no id is attached twice to the same parent. */
  lemma {:induction false} AttachedDistinct(list: seq<ListDirectory>, p: int)
    requires DistinctIds(list)
    ensures Distinct(AttachedTo(list, p))
  {
    if list != [] {
      var n := |list|;
      var init := list[..n - 1];
      var d := list[n - 1];
      DistinctIdsSlice(list, 0, n - 1);
      AttachedDistinct(init, p);
      if Complete(d) && d.parentId == Some(p) {
        forall j | 0 <= j < |init|
          ensures !Row(init[j], d.id.value)
        {
          assert init[j] == list[j];
        }
        AttachedMember(init, p, d.id.value);
      }
    }
  }

  lemma {:induction false} RootsMember(list: seq<ListDirectory>, r: int)
    ensures r in RootsOf(list) <==> exists j :: 0 <= j < |list| && Row(list[j], r) && list[j].parentId.None?
  {
    if list != [] {
      RootsMember(list[1..], r);
      if exists j :: 0 <= j < |list| && Row(list[j], r) && list[j].parentId.None? {
        var j :| 0 <= j < |list| && Row(list[j], r) && list[j].parentId.None?;
        if j > 0 {
          assert list[1..][j - 1] == list[j];
        }
      }
      if exists j :: 0 <= j < |list| - 1 && Row(list[1..][j], r) && list[1..][j].parentId.None? {
        var j :| 0 <= j < |list| - 1 && Row(list[1..][j], r) && list[1..][j].parentId.None?;
        assert list[1..][j] == list[j + 1];
      }
    }
  }

  /** Under distinct ids no id is a root twice. */
  lemma {:induction false} RootsDistinct(list: seq<ListDirectory>)
    requires DistinctIds(list)
    ensures Distinct(RootsOf(list))
  {
    if list != [] {
      DistinctIdsSlice(list, 1, |list|);
      RootsDistinct(list[1..]);
      var d := list[0];
      if Complete(d) && d.parentId.None? {
        forall j | 0 <= j < |list| - 1
          ensures !Row(list[1..][j], d.id.value)
        {
          assert list[1..][j] == list[j + 1];
        }
        RootsMember(list[1..], d.id.value);
      }
    }
  }

  /** Under distinct ids and no self-parent, a child was read after its
      parent, under that parent's id. */
  lemma ChildLater(list: seq<ListDirectory>, p: int, c: int)
    requires DistinctIds(list) && NoSelfParent(list)
    requires p in Load(list).entries && c in Load(list).entries[p].children
    ensures Occurs(list, p) && Occurs(list, c) && c in Load(list).entries
    ensures Position(list, c) > Position(list, p) && list[Position(list, c)].parentId == Some(p)
  {
    LoadKeys(list);
    var i := Position(list, p);
    LoadChildren(list, p);
    AttachedMember(list[i..], p, c);
    var j :| 0 <= j < |list[i..]| && Row(list[i..][j], c) && list[i..][j].parentId == Some(p);
    assert list[i..][j] == list[i + j];
    PositionUnique(list, c, i + j);
  }

  /** The map `from_list` builds from rows with distinct ids and no
      self-parent is a forest: children are keys read later than their
      parent, no id is attached twice, and the root ids are distinct keys
      nobody has as a child. */
  lemma LoadForest(list: seq<ListDirectory>)
    requires DistinctIds(list) && NoSelfParent(list)
    ensures var m := Load(list).entries;
      SingleParent(m)
      && (forall p, c :: p in m && c in m[p].children ==>
            c in m && Occurs(list, p) && Occurs(list, c) && Position(list, c) > Position(list, p))
      && Distinct(Load(list).rootIds)
      && forall r :: r in Load(list).rootIds ==> r in m && Orphan(m, m.Keys, r)
  {
    var m := Load(list).entries;
    LoadKeys(list);
    LoadRoots(list);
    RootsDistinct(list);
    forall p | p in m
      ensures Distinct(m[p].children)
    {
      LoadChildren(list, p);
      var i := Position(list, p);
      DistinctIdsSlice(list, i, |list|);
      AttachedDistinct(list[i..], p);
    }
    forall p, q, c | p in m && q in m && c in m[p].children && c in m[q].children
      ensures p == q
    {
      ChildLater(list, p, c);
      ChildLater(list, q, c);
    }
    forall p, c | p in m && c in m[p].children
      ensures c in m && Occurs(list, p) && Occurs(list, c) && Position(list, c) > Position(list, p)
    {
      ChildLater(list, p, c);
    }
    forall r | r in Load(list).rootIds
      ensures r in m && Orphan(m, m.Keys, r)
    {
      RootsMember(list, r);
      var j :| 0 <= j < |list| && Row(list[j], r) && list[j].parentId.None?;
      PositionUnique(list, r, j);
      forall q | q in m && q in m.Keys
        ensures r !in m[q].children
      {
        if r in m[q].children {
          ChildLater(list, q, r);
        }
      }
    }
  }

  /** Every child of an entry of `m` in `s` is itself an entry of `m` in `s`. */
  ghost predicate Closed(m: map<int, Entry>, s: set<int>) {
    forall q, c :: q in m && q in s && c in m[q].children ==> c in m && c in s
  }

  /** No id is attached twice: not twice to one entry, not to two entries. */
  ghost predicate SingleParent(m: map<int, Entry>) {
    (forall p :: p in m ==> Distinct(m[p].children))
    && forall p, q, c :: p in m && q in m && c in m[p].children && c in m[q].children ==> p == q
  }

  /** No entry of `m` in `s` has `x` as a child. */
  ghost predicate Orphan(m: map<int, Entry>, s: set<int>, x: int) {
    forall q :: q in m && q in s ==> x !in m[q].children
  }

  /** `a` is `b` with some keys removed. */
  ghost predicate Submap(a: map<int, Entry>, b: map<int, Entry>) {
    forall k :: k in a ==> k in b && a[k] == b[k]
  }

  /** `recursively_build_tree(id, map)`: the node and what is left of the
      map, or `None` where the source panics because an id it needs is not
      (or no longer) a key. */
  function BuildNode(m: map<int, Entry>, id: int): (r: Option<(N.DirectoryNode, map<int, Entry>)>)
    ensures id !in m ==> r.None?
    ensures r.Some? ==> id in m && id !in r.value.1 && Submap(r.value.1, m) && |r.value.1.Keys| < |m.Keys|
    ensures r.Some? ==> var node := r.value.0;
      node.id == id && node.name == m[id].name && |node.subs| == |m[id].children|
      && forall i :: 0 <= i < |node.subs| ==> node.subs[i].id == m[id].children[i]
    decreases |m.Keys|, 0
  {
    if id !in m then None
    else
      var rest := m - {id};
      assert rest.Keys == m.Keys - {id};
      match BuildList(rest, m[id].children)
      case None => None
      case Some((subs, after)) => Some((N.DirectoryNode(id, m[id].name, subs), after))
  }

  /** The children of one node, built one after the other from the map the
      previous one left. */
  function BuildList(m: map<int, Entry>, ids: seq<int>): (r: Option<(seq<N.DirectoryNode>, map<int, Entry>)>)
    ensures r.Some? ==> Submap(r.value.1, m) && |r.value.1.Keys| <= |m.Keys|
    ensures r.Some? ==> |r.value.0| == |ids| && forall i :: 0 <= i < |ids| ==> r.value.0[i].id == ids[i]
    decreases |m.Keys|, 1, |ids|
  {
    if ids == [] then Some(([], m))
    else
      match BuildNode(m, ids[0])
      case None => None
      case Some((node, rest)) =>
        match BuildList(rest, ids[1..])
        case None => None
        case Some((subs, after)) => Some(([node] + subs, after))
  }

  /** One step of `BuildList`: the first child, then the others from what it
      left. */
  lemma BuildListStep(m: map<int, Entry>, ids: seq<int>)
    requires ids != [] && BuildList(m, ids).Some?
    ensures BuildNode(m, ids[0]).Some?
    ensures var first := BuildNode(m, ids[0]).value;
      BuildList(first.1, ids[1..]).Some?
      && BuildList(m, ids).value.0 == [first.0] + BuildList(first.1, ids[1..]).value.0
      && BuildList(m, ids).value.1 == BuildList(first.1, ids[1..]).value.1
  {
  }

  /** `BuildNode` builds the children from the map without `id`. */
  lemma BuildNodeStep(m: map<int, Entry>, id: int)
    requires id in m
    ensures BuildNode(m, id).Some? <==> BuildList(m - {id}, m[id].children).Some?
    ensures BuildNode(m, id).Some? ==>
      var built := BuildList(m - {id}, m[id].children).value;
      BuildNode(m, id).value == (N.DirectoryNode(id, m[id].name, built.0), built.1)
  {
  }

  /** Building `id` does not panic when `id` is an entry of `m` in `s` that
      no entry in `s` has as a child, all children of entries in `s` are
      entries in `s`, and no id is attached twice. What is left keeps those
      properties and still holds every other such orphan. */
  lemma {:induction false} BuildNodeSucceeds(m: map<int, Entry>, s: set<int>, id: int)
    requires Closed(m, s) && SingleParent(m)
    requires id in m && id in s && Orphan(m, s, id)
    ensures BuildNode(m, id).Some?
    ensures var rest := BuildNode(m, id).value.1;
      Closed(rest, s) && SingleParent(rest)
      && forall x :: x in m && x in s && x != id && Orphan(m, s, x) ==> x in rest
    decreases |m.Keys|, 0
  {
    var rest := m - {id};
    assert rest.Keys == m.Keys - {id};
    var children := m[id].children;
    forall c | c in children
      ensures c in rest && c in s && Orphan(rest, s, c)
    {
    }
    BuildListSucceeds(rest, s, children);
    BuildNodeStep(m, id);
  }

  /** The same for the children of one node, built in order. */
  lemma {:induction false} BuildListSucceeds(m: map<int, Entry>, s: set<int>, ids: seq<int>)
    requires Closed(m, s) && SingleParent(m) && Distinct(ids)
    requires forall c :: c in ids ==> c in m && c in s && Orphan(m, s, c)
    ensures BuildList(m, ids).Some?
    ensures var rest := BuildList(m, ids).value.1;
      Closed(rest, s) && SingleParent(rest)
      && forall x :: x in m && x in s && x !in ids && Orphan(m, s, x) ==> x in rest
    decreases |m.Keys|, 1, |ids|
  {
    if ids != [] {
      BuildNodeSucceeds(m, s, ids[0]);
      var rest := BuildNode(m, ids[0]).value.1;
      forall c | c in ids[1..]
        ensures c in rest && c in s && Orphan(rest, s, c)
      {
        assert c != ids[0];
      }
      assert Distinct(ids[1..]);
      BuildListSucceeds(rest, s, ids[1..]);
      BuildListStep(m, ids);
    }
  }

  /** Every key of `m` ends up either in the built tree, exactly once, or in
      what is left of the map; no other id appears. */
  lemma {:induction false} BuildNodeCount(m: map<int, Entry>, id: int)
    requires BuildNode(m, id).Some?
    ensures var r := BuildNode(m, id).value;
      forall x :: N.Count(r.0, x) + (if x in r.1 then 1 else 0) == (if x in m then 1 else 0)
    decreases |m.Keys|, 0
  {
    BuildNodeStep(m, id);
    BuildListCount(m - {id}, m[id].children);
  }

  lemma {:induction false} BuildListCount(m: map<int, Entry>, ids: seq<int>)
    requires BuildList(m, ids).Some?
    ensures var r := BuildList(m, ids).value;
      forall x :: N.CountIn(r.0, x) + (if x in r.1 then 1 else 0) == (if x in m then 1 else 0)
    decreases |m.Keys|, 1, |ids|
  {
    if ids != [] {
      BuildListStep(m, ids);
      var first := BuildNode(m, ids[0]).value;
      var later := BuildList(first.1, ids[1..]).value;
      BuildNodeCount(m, ids[0]);
      BuildListCount(first.1, ids[1..]);
      assert ([first.0] + later.0)[0] == first.0;
      assert ([first.0] + later.0)[1..] == later.0;
    }
  }

  /** `into_root` on rows with distinct ids and no self-parent does not
      panic. Its children are the trees of the rows without a parent, in
      input order, and no id appears twice in it or comes from nowhere. */
  lemma IntoRootSucceeds(list: seq<ListDirectory>)
    requires DistinctIds(list) && NoSelfParent(list)
    ensures BuildList(Load(list).entries, Load(list).rootIds).Some?
    ensures var root := RootOf(Load(list));
      root.id == 0 && root.name == ""
      && |root.subs| == |RootsOf(list)|
      && (forall i :: 0 <= i < |root.subs| ==> root.subs[i].id == RootsOf(list)[i])
      && forall x :: N.CountIn(root.subs, x) <= 1 && (N.CountIn(root.subs, x) > 0 ==> Occurs(list, x))
  {
    var b := Load(list);
    var m := b.entries;
    assert Closed(m, m.Keys) && SingleParent(m) && Distinct(b.rootIds)
      && forall c :: c in b.rootIds ==> c in m && c in m.Keys && Orphan(m, m.Keys, c)
    by {
      LoadForest(list);
    }
    BuildListSucceeds(m, m.Keys, b.rootIds);
    var subs := BuildList(m, b.rootIds).value.0;
    assert forall x :: N.CountIn(subs, x) <= 1 && (N.CountIn(subs, x) > 0 ==> x in m) by {
      BuildListCount(m, b.rootIds);
    }
    LoadKeys(list);
    LoadRoots(list);
  }

  /** The ids whose row was read no earlier than the row of `k`. */
  ghost function ReadFrom(list: seq<ListDirectory>, k: int): set<int>
    requires Occurs(list, k)
  {
    LoadKeys(list);
    set q | q in Load(list).entries && Position(list, q) >= Position(list, k)
  }

  /** Under distinct ids and no self-parent the rows read from `k` on form a
      closed part of the map in which `k` is nobody's child. */
  lemma ReadFromClosed(list: seq<ListDirectory>, k: int)
    requires DistinctIds(list) && NoSelfParent(list) && Occurs(list, k)
    ensures var m := Load(list).entries;
      k in m && k in ReadFrom(list, k)
      && Closed(m, ReadFrom(list, k)) && SingleParent(m) && Orphan(m, ReadFrom(list, k), k)
  {
    var m := Load(list).entries;
    var s := ReadFrom(list, k);
    LoadKeys(list);
    LoadForest(list);
    forall q, c | q in m && q in s && c in m[q].children
      ensures c in m && c in s
    {
      assert Position(list, c) > Position(list, q);
    }
    forall q | q in m && q in s
      ensures k !in m[q].children
    {
    }
  }

  /** `into_node(k)` for the id of a row, on rows with distinct ids and no
      self-parent, does not panic. It yields the subtree of `k`: its name,
      and as children the trees of the later rows naming `k` as parent, in
      input order; no id appears twice in it or comes from nowhere. */
  lemma IntoNodeSucceeds(list: seq<ListDirectory>, k: int)
    requires DistinctIds(list) && NoSelfParent(list) && Occurs(list, k)
    ensures k in Load(list).entries && BuildNode(Load(list).entries, k).Some?
    ensures var i := Position(list, k);
      var r := NodeOf(Load(list).entries, k);
      r.Ok? && r.value.id == k && r.value.name == list[i].name.value
      && |r.value.subs| == |AttachedTo(list[i..], k)|
      && (forall j :: 0 <= j < |r.value.subs| ==> r.value.subs[j].id == AttachedTo(list[i..], k)[j])
      && forall x :: N.Count(r.value, x) <= 1 && (N.Count(r.value, x) > 0 ==> Occurs(list, x))
  {
    var m := Load(list).entries;
    assert k in m && BuildNode(m, k).Some? by {
      ReadFromClosed(list, k);
      BuildNodeSucceeds(m, ReadFrom(list, k), k);
    }
    var node := BuildNode(m, k).value.0;
    assert forall x :: N.Count(node, x) <= 1 && (N.Count(node, x) > 0 ==> Occurs(list, x)) by {
      BuildNodeCount(m, k);
      LoadKeys(list);
    }
    var i := Position(list, k);
    assert m[k] == Entry(list[i].name.value, AttachedTo(list[i..], k)) by {
      LoadChildren(list, k);
    }
  }

  /** `into_node(k)` for an id no kept row has is an error. */
  lemma IntoNodeMissing(list: seq<ListDirectory>, k: int)
    requires !Occurs(list, k)
    ensures k !in Load(list).entries && NodeOf(Load(list).entries, k) == Err(MissingKey(k))
  {
    LoadKeys(list);
  }

  /** A row read before any row of its parent is attached nowhere: it is
      neither a root nor anybody's child. */
  lemma ParentAfterIsDropped(list: seq<ListDirectory>, j: nat)
    requires DistinctIds(list) && NoSelfParent(list)
    requires j < |list| && Complete(list[j]) && list[j].parentId.Some?
    requires forall i :: 0 <= i < j ==> !Row(list[i], list[j].parentId.value)
    ensures var b := Load(list);
      list[j].id.value !in b.rootIds
      && forall q :: q in b.entries ==> list[j].id.value !in b.entries[q].children
  {
    var b := Load(list);
    var c := list[j].id.value;
    PositionUnique(list, c, j);
    LoadRoots(list);
    RootsMember(list, c);
    forall q | q in b.entries
      ensures c !in b.entries[q].children
    {
      if c in b.entries[q].children {
        ChildLater(list, q, c);
      }
    }
  }

  /** `into_node(id)`. */
  function NodeOf(m: map<int, Entry>, id: int): Result<N.DirectoryNode, BuildError>
    requires id in m ==> BuildNode(m, id).Some?
  {
    if id !in m then Err(MissingKey(id)) else Ok(BuildNode(m, id).value.0)
  }

  /** `into_root()`: a root with id 0 and an empty name above the trees of
      the root ids, in the order of `rootIds`. */
  function RootOf(b: Registry): N.DirectoryNode
    requires BuildList(b.entries, b.rootIds).Some?
  {
    N.DirectoryNode(0, "", BuildList(b.entries, b.rootIds).value.0)
  }

  class DirectoryTreeBuilder {
    var entries: map<int, Entry>
    var rootIds: seq<int>

    /** `from_list`. */
    constructor FromList(list: seq<ListDirectory>)
      ensures Registry(entries, rootIds) == Load(list)
    {
      var m: map<int, Entry> := map[];
      var roots: seq<int> := [];
      var i := 0;
      while i < |list|
        invariant 0 <= i <= |list|
        invariant Registry(m, roots) == Load(list[..i])
      {
        var dir := list[i];
        assert list[..i + 1][..i] == list[..i];
        if dir.id.Some? && dir.name.Some? {
          var id := dir.id.value;
          m := m[id := Entry(dir.name.value, [])];
          if dir.parentId.None? {
            roots := roots + [id];
          } else if dir.parentId.value in m {
            var p := dir.parentId.value;
            m := m[p := Entry(m[p].name, m[p].children + [id])];
          }
        }
        i := i + 1;
      }
      assert list[..i] == list;
      entries := m;
      rootIds := roots;
    }

    /** `recursively_build_tree(id, &mut self.map)`: removes the entry of
        `id`, then builds its children. */
    method RecursivelyBuildTree(id: int) returns (node: N.DirectoryNode)
      requires BuildNode(entries, id).Some?
      modifies this
      ensures BuildNode(old(entries), id) == Some((node, entries))
      ensures rootIds == old(rootIds)
      decreases |entries.Keys|, 0
    {
      BuildNodeStep(entries, id);
      var entry := entries[id];
      entries := entries - {id};
      var subs := BuildChildren(entry.children);
      node := N.DirectoryNode(id, entry.name, subs);
    }

    /** The `children.into_iter().map(..).collect()` of
        `recursively_build_tree`: builds the trees of `ids` in order, each
        from the map the previous one left. */
    method BuildChildren(ids: seq<int>) returns (subs: seq<N.DirectoryNode>)
      requires BuildList(entries, ids).Some?
      modifies this
      ensures BuildList(old(entries), ids) == Some((subs, entries))
      ensures rootIds == old(rootIds)
      decreases |entries.Keys|, 1
    {
      ghost var whole := BuildList(entries, ids).value;
      subs := [];
      var i := 0;
      assert ids[i..] == ids;
      while i < |ids|
        invariant 0 <= i <= |ids|
        invariant rootIds == old(rootIds)
        invariant |entries.Keys| <= |old(entries).Keys|
        invariant BuildList(entries, ids[i..]).Some?
        invariant whole.0 == subs + BuildList(entries, ids[i..]).value.0
        invariant whole.1 == BuildList(entries, ids[i..]).value.1
      {
        ghost var pending := ids[i..];
        assert pending[1..] == ids[i + 1..];
        BuildListStep(entries, pending);
        ghost var later := BuildList(BuildNode(entries, ids[i]).value.1, pending[1..]).value;
        var sub := RecursivelyBuildTree(ids[i]);
        assert BuildList(entries, pending[1..]).value == later;
        assert whole.0 == subs + ([sub] + later.0);
        assert subs + ([sub] + later.0) == (subs + [sub]) + later.0;
        subs := subs + [sub];
        i := i + 1;
      }
      assert subs + [] == subs;
    }

    /** `into_node(directory_id)`. */
    method IntoNode(directoryId: int) returns (r: Result<N.DirectoryNode, BuildError>)
      requires directoryId in entries ==> BuildNode(entries, directoryId).Some?
      modifies this
      ensures r == NodeOf(old(entries), directoryId)
    {
      if directoryId !in entries {
        return Err(MissingKey(directoryId));
      }
      var node := RecursivelyBuildTree(directoryId);
      return Ok(node);
    }

    /** `into_root()`. */
    method IntoRoot() returns (root: N.DirectoryNode)
      requires BuildList(entries, rootIds).Some?
      modifies this
      ensures root == RootOf(old(Registry(entries, rootIds)))
    {
      var subs := BuildChildren(rootIds);
      root := N.DirectoryNode(0, "", subs);
    }
  }
}
