/** The tree the server sends to clients: services/back/src/business_logic/directory_node.rs. */
module DirectoryNode {
  datatype DirectoryNode = DirectoryNode(id: int, name: string, subs: seq<DirectoryNode>)

  /** How many nodes of the tree, the node itself included, carry `id`. */
  function Count(node: DirectoryNode, id: int): nat
    decreases node
  {
    (if node.id == id then 1 else 0) + CountIn(node.subs, id)
  }

  /** How many nodes of a list of subtrees carry `id`. */
  function CountIn(subs: seq<DirectoryNode>, id: int): nat
    decreases subs
  {
    if subs == [] then 0 else Count(subs[0], id) + CountIn(subs[1..], id)
  }
}
