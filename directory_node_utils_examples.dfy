/** The three unit tests of services/front/src/reducers/directoryNodeUtils.test.ts,
    stated for every collation that orders the names involved as a locale
    does. Each level of the tree gets its own small lemma. */
module DirectoryNodeUtilsExamples {
  import opened Wrappers
  import opened Sorting
  import opened Types
  import opened Tree
  import opened DirectoryNodeUtils

  function Leaf(id: int, name: string): Node {
    Node(Some(id), name, Regular, [])
  }

  function Etc(): Node {
    Node(Some(2), "etc", Regular, [Leaf(4, "docker"), Leaf(5, "caddy"), Leaf(6, "systemd")])
  }

  /** The tree every test starts from: `src`, `etc` (holding `docker`,
      `caddy`, `systemd`) and `var` under the unnamed root. */
  function Sample(): Node {
    Node(None, "", Regular, [Leaf(1, "src"), Etc(), Leaf(3, "var")])
  }

  function StateConf(): Node {
    Leaf(7, "state.conf")
  }

  /** The `map` over three children replaces the middle one. */
  lemma ReplaceMiddle(a: Node, b: Node, c: Node, next: Node)
    requires b.id.Some? && a.id != b.id && c.id != b.id
    ensures ReplaceWhere([a, b, c], b.id, next) == [a, next, c]
  {
    var r := ReplaceWhere([a, b, c], b.id, next);
    assert r[0] == a && r[1] == next && r[2] == c;
  }

  lemma InsertIntoDocker(compare: Collation)
    ensures InsertById(Leaf(4, "docker"), Some(4), StateConf(), compare)
         == Node(Some(4), "docker", Regular, [StateConf()])
  {
    assert SortByName([] + [StateConf()], compare) == [StateConf()];
  }

  lemma InsertIntoEtc(compare: Collation)
    ensures InsertById(Etc(), Some(4), StateConf(), compare)
         == Etc().(subs := [Node(Some(4), "docker", Regular, [StateConf()]), Leaf(5, "caddy"), Leaf(6, "systemd")])
  {
    InsertIntoDocker(compare);
    assert Has(Leaf(4, "docker"), 4);
  }

  /** Inserting `state.conf` under `docker` nests it there and leaves every
      other list as it was. */
  lemma InsertExample(compare: Collation)
    ensures InsertById(Sample(), Some(4), StateConf(), compare)
         == Node(None, "", Regular, [
              Leaf(1, "src"),
              Node(Some(2), "etc", Regular, [
                Node(Some(4), "docker", Regular, [StateConf()]),
                Leaf(5, "caddy"),
                Leaf(6, "systemd")]),
              Leaf(3, "var")])
  {
    var etc' := InsertById(Etc(), Some(4), StateConf(), compare);
    InsertIntoEtc(compare);
    assert !Has(Leaf(1, "src"), 4);
    InsertSkipOne(Sample(), 0, 4, StateConf(), compare);
    assert Has(Etc(), 4) by {
      assert Etc().subs[1..] == [Leaf(5, "caddy"), Leaf(6, "systemd")];
    }
    assert InsertFrom(Sample(), 1, 4, StateConf(), compare)
        == Sample().(subs := ReplaceWhere(Sample().subs, Some(2), etc'));
    ReplaceMiddle(Leaf(1, "src"), Etc(), Leaf(3, "var"), etc');
  }

  function Podman(n: Node): Node {
    n.(name := "podman")
  }

  /** A locale puts `caddy` before `podman` before `systemd`. */
  ghost predicate LocaleOrder(compare: Collation) {
    compare("podman", "caddy") > 0 && compare("caddy", "systemd") <= 0 && compare("podman", "systemd") <= 0
  }

  lemma SortTwo(compare: Collation)
    requires LocaleOrder(compare)
    ensures SortByName([Leaf(4, "podman"), Leaf(5, "caddy")], compare) == [Leaf(5, "caddy"), Leaf(4, "podman")]
  {
    var list := [Leaf(4, "podman"), Leaf(5, "caddy")];
    assert list[..1] == [Leaf(4, "podman")];
    assert SortBy([Leaf(4, "podman")], NameOf, compare) == [Leaf(4, "podman")] by {
      assert [Leaf(4, "podman")][..0] == [];
    }
    assert InsertSorted(Leaf(5, "caddy"), [Leaf(4, "podman")], NameOf, compare) == [Leaf(5, "caddy"), Leaf(4, "podman")];
  }

  lemma InsertSystemd(compare: Collation)
    requires LocaleOrder(compare)
    ensures InsertSorted(Leaf(6, "systemd"), [Leaf(5, "caddy"), Leaf(4, "podman")], NameOf, compare)
         == [Leaf(5, "caddy"), Leaf(4, "podman"), Leaf(6, "systemd")]
  {
    var s := [Leaf(5, "caddy"), Leaf(4, "podman")];
    assert s[1..] == [Leaf(4, "podman")];
    assert InsertSorted(Leaf(6, "systemd"), [Leaf(4, "podman")], NameOf, compare) == [Leaf(4, "podman"), Leaf(6, "systemd")] by {
      assert [Leaf(4, "podman")][1..] == [];
    }
  }

  lemma SortRenamed(compare: Collation)
    requires LocaleOrder(compare)
    ensures SortByName([Leaf(4, "podman"), Leaf(5, "caddy"), Leaf(6, "systemd")], compare)
         == [Leaf(5, "caddy"), Leaf(4, "podman"), Leaf(6, "systemd")]
  {
    SortTwo(compare);
    InsertSystemd(compare);
    SortLast(Leaf(4, "podman"), Leaf(5, "caddy"), Leaf(6, "systemd"), compare);
  }

  /** Sorting a list is inserting its last element into the sorted rest. */
  lemma SortLast(a: Node, b: Node, x: Node, compare: Collation)
    ensures SortByName([a, b, x], compare) == InsertSorted(x, SortByName([a, b], compare), NameOf, compare)
  {
    assert [a, b, x][..2] == [a, b];
  }

  lemma RenameInEtc()
    ensures Etc().subs[0 := Podman(Etc().subs[0])] == [Leaf(4, "podman"), Leaf(5, "caddy"), Leaf(6, "systemd")]
    ensures Etc().subs[0].id == Some(4) && !Has(Etc().subs[1], 4) && !Has(Etc().subs[2], 4)
  {
  }

  lemma UpdateEtc(compare: Collation)
    requires LocaleOrder(compare)
    ensures UpdateById(Etc(), 4, Podman, compare)
         == Etc().(subs := [Leaf(5, "caddy"), Leaf(4, "podman"), Leaf(6, "systemd")])
  {
    RenameInEtc();
    SortRenamed(compare);
    UpdateFirst(Etc(), 4, Podman, compare, [Leaf(5, "caddy"), Leaf(4, "podman"), Leaf(6, "systemd")]);
  }

  lemma UpdateFirst(node: Node, id: int, updater: Node -> Node, compare: Collation, sorted: seq<Node>)
    requires |node.subs| == 3 && node.subs[0].id == Some(id)
    requires !Has(node.subs[1], id) && !Has(node.subs[2], id)
    requires SortByName(node.subs[0 := updater(node.subs[0])], compare) == sorted
    ensures UpdateById(node, id, updater, compare) == node.(subs := sorted)
  {
    UpdateHere(node, 0, id, updater, compare);
  }

  /** Renaming `docker` to `podman` re-sorts the list it sits in. */
  lemma UpdateExample(compare: Collation)
    requires LocaleOrder(compare)
    ensures UpdateById(Sample(), 4, Podman, compare)
         == Node(None, "", Regular, [
              Leaf(1, "src"),
              Node(Some(2), "etc", Regular, [Leaf(5, "caddy"), Leaf(4, "podman"), Leaf(6, "systemd")]),
              Leaf(3, "var")])
  {
    var etc' := Etc().(subs := [Leaf(5, "caddy"), Leaf(4, "podman"), Leaf(6, "systemd")]);
    UpdateEtc(compare);
    ReplaceMiddle(Leaf(1, "src"), Etc(), Leaf(3, "var"), etc');
    assert Below(Etc(), 4);
    UpdateSecond(Sample(), 4, Podman, compare, [Leaf(1, "src"), etc', Leaf(3, "var")]);
  }

  lemma UpdateSecond(node: Node, id: int, updater: Node -> Node, compare: Collation, result: seq<Node>)
    requires |node.subs| == 3 && !Has(node.subs[0], id)
    requires node.subs[1].id != Some(id) && Below(node.subs[1], id)
    requires var next := UpdateById(node.subs[1], id, updater, compare);
             ReplaceWhere(node.subs, next.id, next) == result
    ensures UpdateById(node, id, updater, compare) == node.(subs := result)
  {
    UpdateSkipOne(node, 0, id, updater, compare);
  }

  /** Deleting `etc` takes its whole subtree with it. */
  lemma DeleteExample()
    ensures DeleteById(Sample(), 2)
         == Node(None, "", Regular, [Leaf(1, "src"), Leaf(3, "var")])
  {
    var s := Sample().subs;
    assert RemoveId(s, 2) == [Leaf(1, "src"), Leaf(3, "var")] by {
      assert s[1..][1..] == [Leaf(3, "var")];
    }
  }
}
