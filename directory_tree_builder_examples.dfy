/** The unit tests of services/back/src/business_logic/directory_tree_builder.rs,
    stated as lemmas about the model. */
module DirectoryTreeBuilderExamples {
  import opened Wrappers
  import N = DirectoryNode
  import opened DirectoryTreeBuilder

  function Dir(id: int, name: string, parentId: Option<int>): ListDirectory {
    ListDirectory(Some(id), Some(name), parentId)
  }

  /** The rows of both tests: `util` and `src` at the top, `bin` and `var`
      in `util`, `usr` in `bin`. */
  function Rows(): seq<ListDirectory> {
    [Dir(1, "util", None), Dir(2, "src", None), Dir(3, "bin", Some(1)), Dir(4, "var", Some(1)), Dir(5, "usr", Some(3))]
  }

  function RowsMap(): map<int, Entry> {
    map[1 := Entry("util", [3, 4]), 2 := Entry("src", []), 3 := Entry("bin", [5]), 4 := Entry("var", []), 5 := Entry("usr", [])]
  }

  function Leaf(id: int, name: string): N.DirectoryNode {
    N.DirectoryNode(id, name, [])
  }

  function Util(): N.DirectoryNode {
    N.DirectoryNode(1, "util", [N.DirectoryNode(3, "bin", [Leaf(5, "usr")]), Leaf(4, "var")])
  }

  /** `with_empty_list`: no rows give a bare root. */
  lemma EmptyExample()
    ensures BuildList(Load([]).entries, Load([]).rootIds).Some?
    ensures RootOf(Load([])) == N.DirectoryNode(0, "", [])
  {
  }

  /** Reading `bin` attaches it to `util`. */
  lemma RegisterBin()
    ensures Register(Registry(map[1 := Entry("util", []), 2 := Entry("src", [])], [1, 2]), Dir(3, "bin", Some(1)))
      == Registry(map[1 := Entry("util", [3]), 2 := Entry("src", []), 3 := Entry("bin", [])], [1, 2])
  {
    assert [] + [3] == [3];
    var m := map[1 := Entry("util", []), 2 := Entry("src", [])][3 := Entry("bin", [])];
    assert m[1 := Entry("util", [3])] == map[1 := Entry("util", [3]), 2 := Entry("src", []), 3 := Entry("bin", [])];
  }

  /** Reading `var` attaches it to `util`, after `bin`. */
  lemma RegisterVar()
    ensures Register(Registry(map[1 := Entry("util", [3]), 2 := Entry("src", []), 3 := Entry("bin", [])], [1, 2]), Dir(4, "var", Some(1)))
      == Registry(map[1 := Entry("util", [3, 4]), 2 := Entry("src", []), 3 := Entry("bin", []), 4 := Entry("var", [])], [1, 2])
  {
    assert [3] + [4] == [3, 4];
    var m := map[1 := Entry("util", [3]), 2 := Entry("src", []), 3 := Entry("bin", [])][4 := Entry("var", [])];
    assert m[1 := Entry("util", [3, 4])] == map[1 := Entry("util", [3, 4]), 2 := Entry("src", []), 3 := Entry("bin", []), 4 := Entry("var", [])];
  }

  /** Reading `usr` attaches it to `bin`. */
  lemma RegisterUsr()
    ensures Register(Registry(map[1 := Entry("util", [3, 4]), 2 := Entry("src", []), 3 := Entry("bin", []), 4 := Entry("var", [])], [1, 2]), Dir(5, "usr", Some(3)))
      == Registry(RowsMap(), [1, 2])
  {
    assert [] + [5] == [5];
    var m := map[1 := Entry("util", [3, 4]), 2 := Entry("src", []), 3 := Entry("bin", []), 4 := Entry("var", [])][5 := Entry("usr", [])];
    assert m[3 := Entry("bin", [5])] == RowsMap();
  }

  /** What `from_list` leaves after reading the rows. */
  lemma LoadExample()
    ensures Load(Rows()) == Registry(RowsMap(), [1, 2])
  {
    var l := Rows();
    assert l[..0] == [];
    LoadLast(l[..0], l[0]);
    assert l[..1] == l[..0] + [l[0]];
    LoadLast(l[..1], l[1]);
    assert l[..2] == l[..1] + [l[1]];
    assert Load(l[..2]) == Registry(map[1 := Entry("util", []), 2 := Entry("src", [])], [1, 2]);
    LoadLast(l[..2], l[2]);
    assert l[..3] == l[..2] + [l[2]];
    RegisterBin();
    LoadLast(l[..3], l[3]);
    assert l[..4] == l[..3] + [l[3]];
    RegisterVar();
    LoadLast(l[..4], l[4]);
    assert l == l[..4] + [l[4]];
    RegisterUsr();
  }

  /** A key without children builds to a leaf. */
  lemma BuildLeaf(m: map<int, Entry>, id: int)
    requires id in m && m[id].children == []
    ensures BuildNode(m, id) == Some((Leaf(id, m[id].name), m - {id}))
  {
    BuildNodeStep(m, id);
  }

  lemma BuildOne(m: map<int, Entry>, id: int)
    requires BuildNode(m, id).Some?
    ensures BuildList(m, [id]) == Some(([BuildNode(m, id).value.0], BuildNode(m, id).value.1))
  {
    assert [id][1..] == [];
    BuildListStep(m, [id]);
    assert [BuildNode(m, id).value.0] + [] == [BuildNode(m, id).value.0];
  }

  /** A list builds from its first node and the rest built from what that
      node left. */
  lemma BuildCons(m: map<int, Entry>, ids: seq<int>)
    requires ids != [] && BuildNode(m, ids[0]).Some?
    requires BuildList(BuildNode(m, ids[0]).value.1, ids[1..]).Some?
    ensures var first := BuildNode(m, ids[0]).value;
      var later := BuildList(first.1, ids[1..]).value;
      BuildList(m, ids) == Some(([first.0] + later.0, later.1))
  {
  }

  /** `bin` takes `usr` along. */
  lemma BuildBin()
    ensures BuildNode(map[2 := Entry("src", []), 3 := Entry("bin", [5]), 4 := Entry("var", []), 5 := Entry("usr", [])], 3)
      == Some((N.DirectoryNode(3, "bin", [Leaf(5, "usr")]), map[2 := Entry("src", []), 4 := Entry("var", [])]))
  {
    var m := map[2 := Entry("src", []), 3 := Entry("bin", [5]), 4 := Entry("var", []), 5 := Entry("usr", [])];
    var without := map[2 := Entry("src", []), 4 := Entry("var", []), 5 := Entry("usr", [])];
    assert m - {3} == without;
    BuildLeaf(without, 5);
    assert without - {5} == map[2 := Entry("src", []), 4 := Entry("var", [])];
    BuildOne(without, 5);
    BuildNodeStep(m, 3);
  }

  /** The children of `util`, `bin` then `var`. */
  lemma BuildUtilChildren()
    ensures BuildList(map[2 := Entry("src", []), 3 := Entry("bin", [5]), 4 := Entry("var", []), 5 := Entry("usr", [])], [3, 4])
      == Some((Util().subs, map[2 := Entry("src", [])]))
  {
    var m := map[2 := Entry("src", []), 3 := Entry("bin", [5]), 4 := Entry("var", []), 5 := Entry("usr", [])];
    var left := map[2 := Entry("src", []), 4 := Entry("var", [])];
    var bin := N.DirectoryNode(3, "bin", [Leaf(5, "usr")]);
    BuildBin();
    assert BuildNode(m, 3) == Some((bin, left));
    BuildLeaf(left, 4);
    assert left - {4} == map[2 := Entry("src", [])];
    BuildOne(left, 4);
    assert BuildList(left, [4]) == Some(([Leaf(4, "var")], map[2 := Entry("src", [])]));
    assert [3, 4][1..] == [4];
    BuildCons(m, [3, 4]);
    assert [bin] + [Leaf(4, "var")] == Util().subs;
  }

  lemma BuildUtil()
    ensures BuildNode(RowsMap(), 1) == Some((Util(), map[2 := Entry("src", [])]))
  {
    var m := RowsMap();
    assert m - {1} == map[2 := Entry("src", []), 3 := Entry("bin", [5]), 4 := Entry("var", []), 5 := Entry("usr", [])];
    BuildUtilChildren();
    BuildNodeStep(m, 1);
  }

  /** `into_node_simple_test`: the subtree of `util`, children in input
      order. */
  lemma IntoNodeExample()
    ensures BuildNode(Load(Rows()).entries, 1).Some?
    ensures NodeOf(Load(Rows()).entries, 1) == Ok(Util())
  {
    LoadExample();
    BuildUtil();
  }

  /** `into_root_simple_test`: `util` before `src`, in input order rather
      than name order. */
  lemma IntoRootExample()
    ensures BuildList(Load(Rows()).entries, Load(Rows()).rootIds).Some?
    ensures RootOf(Load(Rows())) == N.DirectoryNode(0, "", [Util(), Leaf(2, "src")])
  {
    LoadExample();
    BuildUtil();
    var rest := map[2 := Entry("src", [])];
    BuildLeaf(rest, 2);
    BuildOne(rest, 2);
    assert [1, 2][1..] == [2];
    BuildListStep(RowsMap(), [1, 2]);
  }
}
