/**
 * The protobuf wire record `pb.Node` as far as the short node uses it. The
 * generated code is not part of this model: the record is taken as the four
 * fields a short node reads and writes.
 */
module Pb {
  import opened Bytes

  /**
   * The generated `NodeType` enum. Only its leaf tag is named by the short
   * node; every other enum value is carried as `Other` with its code and
   * denotes an extension node when held by a short node.
   */
  datatype NodeType = Leaf | Other(code: int)

  /** The wire record of a trie node. */
  datatype Node = Node(nodeType: NodeType, parity: bool, path: seq<byte>, value: seq<byte>)
}
