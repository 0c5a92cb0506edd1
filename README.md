# Merkle trie short node

A model of the short node of go-spacemesh's Merkle-Patricia trie
(`merkle/shortnode.go`). A short node is the immutable record used for both
leaf and extension nodes. It holds a node type tag, a path parity flag, the
raw path bytes and the value bytes. It is built from the protobuf wire record
`pb.Node` (`newShortNode`), converted back into one (`Marshal`) and read through
`IsLeaf`, `GetValue`, `GetParity` and `GetPath`. `GetPath` renders the path bytes
as lowercase base16 text with Go's `hex.EncodeToString`.

Layout:

- `wrappers.dfy` — `Option` and `Result`.
- `bytes.dfy` — module `Bytes`: Go's `byte`.
- `hex.dfy` — module `Hex`: the digit table `"0123456789abcdef"`,
  `EncodeToString`, and the decoder `DecodeString` as its reference partner.
  The decoder accepts both letter cases. It reports the first invalid character,
  or an odd length, in the same order as Go's decoder.
- `pb.dfy` — module `Pb`: the wire record `pb.Node` and its `NodeType` tag.
- `shortnode.dfy` — module `Merkle`: the `ShortNode` datatype, its accessors,
  `Marshal`, `NewShortNode` and the lemmas about them.

The node is a datatype value, so no operation can change it after construction.
Repeated calls of an accessor or of `Marshal` therefore always return the same
result. That is the immutability the type's comment promises
(merkle/shortnode.go:8).

## Model

| member | source | states |
|---|---|---|
| Merkle.NewShortNode | merkle/shortnode.go:17-26 | Marshalling the new node gives back the record it was built from, field for field over the four fields the record has here (node type, parity, path, value). The node is a leaf exactly when the record's type is the leaf tag. Value and parity are the record's own, and the path is rendered from the record's path bytes. |
| Merkle.ShortNode.Marshal | merkle/shortnode.go:44-53 | No contract of its own: the ensures of `Merkle.NewShortNode` (marshalling a node built from a record gives that record) and `Merkle.RebuildFromMarshal` (rebuilding from the marshalled record gives the same node) state its behaviour. |
| Merkle.ShortNode.IsLeaf | merkle/shortnode.go:37 | No contract of its own: `Merkle.NewShortNode` states it is true exactly when the record's tag is the leaf tag, and `Merkle.LeafOrExtension` that every other tag is an extension. |
| Merkle.ShortNode.GetValue | merkle/shortnode.go:35 | No contract of its own: `Merkle.NewShortNode` states it returns the record's value bytes unchanged, and `Merkle.RebuildFromMarshal` that a rebuilt node returns the same. |
| Merkle.ShortNode.GetParity | merkle/shortnode.go:36 | No contract of its own: `Merkle.NewShortNode` states it returns the record's parity flag, and `Merkle.RebuildFromMarshal` that a rebuilt node returns the same. |
| Merkle.RebuildFromMarshal | merkle/shortnode.go:17-53 | Rebuilding a node from its own `Marshal` output gives the same node, so `IsLeaf`, `GetValue`, `GetParity` and `GetPath` all agree with the original. |
| Merkle.LeafOrExtension | merkle/shortnode.go:29-37 | A node is not a leaf exactly when its tag is some tag other than the leaf tag (an extension node), and it is a leaf exactly when its marshalled record carries the leaf tag. |
| Merkle.ShortNode.GetPath | merkle/shortnode.go:39-42 | The rendered path is twice as long as the path bytes and uses only lowercase hex digits. Byte `i` gives its high-nibble digit at `2i` and its low-nibble digit at `2i+1`. Decoding the text gives back the path bytes. |
| Merkle.GetPathInjective | merkle/shortnode.go:39-42 | Two nodes render equal path strings if and only if their path bytes are equal. |
| Merkle.GetPathIgnoresParity | merkle/shortnode.go:39-41 | Changing only the parity flag does not change the rendered path. |
| Merkle.GetPathOnto | merkle/shortnode.go:39-42 | Every even-length lowercase hex string is the rendered path of the node whose path is that string decoded. |
| Hex.EncodeToString | merkle/shortnode.go:41 | No contract of its own: `Hex.EncodedLength`, `Hex.EncodedDigits`, `Hex.EncodedIsLowerHex`, `Hex.DecodeEncode`, `Hex.EncodeInjective` and `Hex.EncodeDecode` state its length, its digits, its alphabet and its inverse. |
| Hex.EncodedLength | merkle/shortnode.go:41 | The hex encoding is exactly twice as long as its input. |
| Hex.EncodedDigits | merkle/shortnode.go:41 | Byte `i` is encoded as the table digit of its high nibble at `2i`, followed by the digit of its low nibble. |
| Hex.EncodedIsLowerHex | merkle/shortnode.go:41 | Every encoding has even length and contains only characters from `0123456789abcdef`. |
| Hex.DecodeEncode | merkle/shortnode.go:41 | Decoding an encoding succeeds and returns the original bytes. |
| Hex.EncodeInjective | merkle/shortnode.go:41 | Two byte strings have equal encodings if and only if they are equal. |
| Hex.DecodeSucceeds | merkle/shortnode.go:41 | The decoder that serves as the inverse of the path rendering succeeds exactly on even-length strings of hex digits in either case, and fails on every other string. |
| Hex.EncodeDecode | merkle/shortnode.go:41 | An even-length lowercase hex string decodes successfully, and encoding the result gives back the string. |

## Left out

- Opening and closing the two LevelDB stores (`NewEmptyTree`, `NewTreeFromDb`, `CloseDataStores`, merkle/tree.go:37-109): file I/O over a library that is not part of this model. `newNodeFromData` is not part of this model either.
- `Print` (merkle/tree.go:112-124): a diagnostic dump that depends on `GetRootHash` and on the node container's printer, neither of which is part of this model.
- The trie engine (`Put`, `Get`, `Delete`, `GetRootHash`, `GetRootNode`, merkle/tree.go:14-24), the branch node, nibble-path packing and rehashing: only declared in the repository's files, so they are not reconstructed.
- Truncating the padding nibble when parity is set: the field comment at merkle/shortnode.go:30 describes it, but `GetPath` does not do it. The model renders all path bytes, as the code does.
- The protobuf encoding of `pb.Node` and the enum codes of `NodeType`: generated code that is not part of this model. The record is four plain fields; every tag other than the leaf tag is `Other(code)`.
- Slice aliasing: in Go, the node and the record built by `newShortNode` or `Marshal` share the same byte arrays, so the node is immutable only by convention. Byte strings here are values, so that sharing is not modelled. Go also tells a nil slice from an empty one (a nil `Value` stays nil through `newShortNode` and `Marshal`); nil and empty slices are the same value here.
- Strings: Go strings are byte strings; here text is `seq<char>`. The encoder emits only ASCII digits, so for `EncodeToString` and `GetPath` the two agree. The decoder differs on non-ASCII input: Go reports the first byte of the character's UTF-8 encoding as the invalid byte, while `Hex.DecodeString` reports the whole character.
- Merkle.NewShortNode: takes the record as a value, so it cannot be given a nil record. Go's `newShortNode` takes a `*pb.Node` and panics when that pointer is nil; that path is not modelled.
- Merkle.NewShortNode: the round trip "marshalling gives back the record" holds here over the whole record only because the record is modelled with exactly the four fields the short node copies. Go's `pb.Node` may carry other fields (for instance a list of child hashes); `newShortNode` drops them and `Marshal` leaves them unset, so for such a record the round trip holds over the four fields only.
- accounts/tests/account_test.go: key generation, passphrase encryption and account files. That is cryptography and file I/O, outside the trie.
