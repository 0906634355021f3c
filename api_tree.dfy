/** Facts about the tree the front end receives from `GET /api/directories`
    (services/front/src/api.ts; the server builds it with
    services/back/src/business_logic/directory_tree_builder.rs). */
module ApiTree {
  import opened Types

  /** How many nodes of the fetched tree, the node itself included, carry
      `id`. */
  function ApiCount(node: ApiNode, id: int): nat
    decreases node
  {
    (if node.id == id then 1 else 0) + ApiCountIn(node.subs, id)
  }

  function ApiCountIn(subs: seq<ApiNode>, id: int): nat
    decreases subs
  {
    if subs == [] then 0 else ApiCount(subs[0], id) + ApiCountIn(subs[1..], id)
  }

  /** The nodes below the fetched root carry distinct ids (they are primary
      keys of the `directories` table). The root's own id is never read. */
  ghost predicate ApiUnique(root: ApiNode) {
    forall k :: ApiCountIn(root.subs, k) <= 1
  }

  lemma ApiCountSplit(subs: seq<ApiNode>, i: nat, id: int)
    requires i < |subs|
    ensures ApiCountIn(subs[i..], id) == ApiCount(subs[i], id) + ApiCountIn(subs[i + 1..], id)
  {
    assert subs[i..][1..] == subs[i + 1..];
  }
}
