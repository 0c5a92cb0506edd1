/**
 * The short node of the Merkle-Patricia trie (merkle/shortnode.go): an
 * immutable record that is either a leaf or an extension node. It is built
 * from a wire record, converted back to one, and read through four
 * accessors; being a datatype value, it can never change after construction.
 */
module Merkle {
  import opened Wrappers
  import opened Bytes
  import opened Hex
  import Pb

  /** `shortNodeImpl`: the node type, the path parity flag, the raw path bytes and the value bytes. */
  datatype ShortNode = ShortNode(nodeType: Pb.NodeType, parity: bool, path: seq<byte>, value: seq<byte>)
  {
    /** The node is a leaf exactly when its type is the leaf tag. */
    predicate IsLeaf() {
      nodeType == Pb.Leaf
    }

    function GetValue(): seq<byte> {
      value
    }

    function GetParity(): bool {
      parity
    }

    /**
     * The path bytes as lowercase base16 text. The parity flag is not
     * consulted: an odd-length nibble path is rendered with its padding nibble.
     */
    function GetPath(): (p: string)
      ensures |p| == 2 * |path| && IsLowerHexString(p)
      ensures forall i :: 0 <= i < |path| ==>
        p[2 * i] == HexTable[path[i] / 16] && p[2 * i + 1] == HexTable[path[i] % 16]
      ensures DecodeString(p) == Success(path)
    {
      EncodedLength(path);
      EncodedIsLowerHex(path);
      forall i | 0 <= i < |path|
        ensures EncodeToString(path)[2 * i] == HexTable[path[i] / 16]
        ensures EncodeToString(path)[2 * i + 1] == HexTable[path[i] % 16]
      {
        EncodedDigits(path, i);
      }
      DecodeEncode(path);
      EncodeToString(path)
    }

    /** The wire record carrying the node's four fields. */
    function Marshal(): Pb.Node {
      Pb.Node(nodeType, parity, path, value)
    }
  }

  /**
   * `newShortNode`: copies the four fields out of a wire record. Marshalling
   * the result gives back the record, and each accessor answers from the
   * field it was built from.
   */
  function NewShortNode(data: Pb.Node): (n: ShortNode)
    ensures n.Marshal() == data
    ensures n.IsLeaf() <==> data.nodeType == Pb.Leaf
    ensures n.GetValue() == data.value && n.GetParity() == data.parity
    ensures n.GetPath() == EncodeToString(data.path)
  {
    ShortNode(data.nodeType, data.parity, data.path, data.value)
  }

  /** Rebuilding a node from its own wire record gives the same node and the same accessor results. */
  lemma RebuildFromMarshal(n: ShortNode)
    ensures NewShortNode(n.Marshal()) == n
    ensures NewShortNode(n.Marshal()).IsLeaf() == n.IsLeaf()
    ensures NewShortNode(n.Marshal()).GetValue() == n.GetValue()
    ensures NewShortNode(n.Marshal()).GetParity() == n.GetParity()
    ensures NewShortNode(n.Marshal()).GetPath() == n.GetPath()
  {
  }

  /**
   * The type discriminator is total: a node whose tag is not the leaf tag is
   * an extension node, and the tag survives marshalling.
   */
  lemma LeafOrExtension(n: ShortNode)
    ensures !n.IsLeaf() <==> n.nodeType.Other?
    ensures n.IsLeaf() <==> n.Marshal().nodeType == Pb.Leaf
  {
  }

  /** Two nodes render the same path string exactly when they hold the same path bytes. */
  lemma GetPathInjective(n: ShortNode, m: ShortNode)
    ensures n.GetPath() == m.GetPath() <==> n.path == m.path
  {
    EncodeInjective(n.path, m.path);
  }

  /** The rendered path does not depend on the parity flag. */
  lemma GetPathIgnoresParity(n: ShortNode, parity: bool)
    ensures n.(parity := parity).GetPath() == n.GetPath()
  {
  }

  /** Every even-length lowercase hex string is the rendered path of some node. */
  lemma GetPathOnto(s: string, nodeType: Pb.NodeType, parity: bool, value: seq<byte>)
    requires IsLowerHexString(s)
    ensures DecodeString(s).Success?
    ensures ShortNode(nodeType, parity, DecodeString(s).value, value).GetPath() == s
  {
    EncodeDecode(s);
  }
}
