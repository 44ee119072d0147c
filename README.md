# Object data model of the jj storage backend

This project models, in Dafny, the object data model that `lib/src/backend.rs`
defines for the jj version-control engine, and proves properties of it:

- the six identifier types (commit, change, tree, file, symlink and conflict
  ids): byte-wise equality and order, lower-case hexadecimal text and its
  parsing, and the stable object-kind tag;
- `MergedTreeId`, a legacy tree or a merge of trees, whose equality compares
  canonical merge expansions while its content hash tags the variant first;
- `TreeValue` and the byte stream its content hash feeds to the digest;
- `Tree`, an ordered map from entry name to tree value, updated in place;
- `common_hex_len`, the shared hex-prefix length of two ids;
- `make_root_commit`, the synthesised root commit.

Layout, one module per file: `Wrappers` (Option), `Bytes` (the byte type and
the lexicographic order of byte strings), `Text` (`strip_suffix`,
`to_ascii_lowercase`), `ContentHash` (little-endian integers, byte vectors),
`Base16` (the `hex` crate), `ObjectIds`, `Merges` (a minimal `Merge<T>`),
`MergedTreeIds`, `TreeValues`, `Trees`, `HexPrefix`, `Commits`.

Modelling choices:

- The macro-generated id newtypes are one datatype `Id(kind, bytes)`; the
  subset types `CommitId`, `ChangeId`, `TreeId`, `FileId`, `SymlinkId`,
  `ConflictId` fix the kind, standing for the six Rust types.
- A `RepoPathComponent` is modelled by the UTF-8 bytes of its text, so its
  `String` order is the same byte-wise order the ids use.
- The `BTreeMap` inside `Tree` is modelled by its ordered contents: a list of
  entries whose names strictly increase. `insert`, `remove` and `get` are
  functions on such lists. `Tree.Set`, `Tree.Remove` and `Tree.SetOrRemove`
  assign the new list to the field.
- `lib/src/content_hash.rs` and `lib/src/merge.rs` are not part of this model.
  Content hashes are modelled as the byte stream handed to `digest::Update`.
  The primitive encodings are an assumption: they are taken to be those of
  jj's `ContentHash` implementations in lib/src/content_hash.rs, namely
  fixed-width integers little-endian; a vector its length as a `u64`, then
  its elements; a `u8` itself; a `bool` the byte 1 or 0. A `Merge<TreeId>`
  is assumed to hash as the vector of its values.
- `TreeEntry` (lib/src/backend.rs:338-356) is a datatype of a name and a
  value; its accessors are its fields. The entry iterator
  (lib/src/backend.rs:358-370) is modelled by the sequence it yields,
  `Trees.Tree.Entries`.
- `Merge<T>` is an odd-length list of values; `Merge::resolved(x)` is `[x]`.
- `hex::decode` accepts digits of either case, so `from_hex` followed by
  `hex` gives the text back in lower case (`ObjectIds.FromHex`).

Two facts about the code worth stating directly:

- `Legacy(t)` and `resolved(t)` compare equal (lib/src/backend.rs:163-169);
  only their hash streams differ (`MergedTreeIds.Equals`,
  `MergedTreeIds.LegacyEqualsResolvedButHashesDiffer`). The derived equality
  of `Commit` inherits this through its `root_tree` field
  (`Commits.CommitEquals`).
- There are six object-kind tags, including "change"
  (lib/src/backend.rs:97-102, `ObjectIds.ObjectType`).

## Model

| member | source | states |
|---|---|---|
| `Bytes.Less` | lib/src/backend.rs:44 | the derived order of byte vectors: a proper prefix sorts first, a sequence never sorts before its own prefix, and otherwise the first differing byte decides |
| `Bytes.LessIrreflexive` | lib/src/backend.rs:44 | the derived byte-wise order never puts an id below itself |
| `Bytes.LessAsymmetric` | lib/src/backend.rs:44 | the byte-wise order never holds both ways |
| `Bytes.LessTransitive` | lib/src/backend.rs:44 | the byte-wise order is transitive |
| `Bytes.LessTotal` | lib/src/backend.rs:44 | any two byte strings are equal or ordered one way or the other |
| `Text.LowerChar` | lib/src/backend.rs:68 | each capital 'A'..'Z' becomes the small letter in the same position of 'a'..'z'; every other character is kept |
| `Text.StripSuffix` | lib/src/backend.rs:66-67 | a result exists exactly when the text ends with the suffix, and result plus suffix is the text |
| `Text.AsciiLowercase` | lib/src/backend.rs:68 | same length; each character lower-cased, others kept |
| `ContentHash.LittleEndian` | lib/src/backend.rs:314 | `to_le_bytes` yields exactly `width` bytes |
| `ContentHash.LittleEndianRoundTrip` | lib/src/backend.rs:314 | a number that fits the width is read back from its little-endian bytes |
| `ContentHash.LittleEndianInjective` | lib/src/backend.rs:314 | numbers that fit the width have distinct encodings |
| `ContentHash.U32` | lib/src/backend.rs:314 | a `u32` discriminant is four bytes that read back as the number |
| `ContentHash.U64` | lib/src/backend.rs:43-46 | a vector length is eight bytes that read back as the length when it fits a `u64` |
| `ContentHash.Bool` | lib/src/backend.rs:316 | the executable flag hashes as one byte, 1 exactly when set |
| `ContentHash.ByteVec` | lib/src/backend.rs:43-46 | an id's byte vector hashes as its 8-byte length followed by the bytes |
| `ContentHash.ByteVecPrefixFree` | lib/src/backend.rs:43-46 | a hashed byte vector is read back unambiguously whatever follows it |
| `Base16.Digit` | lib/src/backend.rs:88-90 | each nibble is written as a lower-case hex digit |
| `Base16.DigitValue` | lib/src/backend.rs:84-86 | a character has a value exactly when, lower-cased, it is a hex digit (so 'A'..'F' are accepted), and the value's digit is the character lower-cased |
| `Base16.DigitRoundTrip` | lib/src/backend.rs:84-90 | a written digit reads back as its nibble |
| `Base16.Encode` | lib/src/backend.rs:88-90 | `hex()` is twice as long as the bytes and all lower-case hex digits |
| `Base16.Decode` | lib/src/backend.rs:84-86 | decoding succeeds exactly on text of even length made of hex digits, giving half as many bytes |
| `Base16.DecodePairs` | lib/src/backend.rs:84-86 | pairwise decoding succeeds exactly when every character is a hex digit |
| `Base16.DecodeEncode` | lib/src/backend.rs:84-90 | for every byte string, decoding its hex gives it back |
| `Base16.EncodeDecode` | lib/src/backend.rs:84-90 | for decodable text, encoding the decoded bytes gives the text in lower case |
| `Base16.EncodeAt` | lib/src/backend.rs:88-90 | hex digit `i` is the high nibble (even `i`) or low nibble (odd `i`) of byte `i / 2` |
| `ObjectIds.TypeName` | lib/src/backend.rs:65 | every `stringify!` type name ends in `Id`, so the `unwrap` after `strip_suffix` cannot fail |
| `ObjectIds.ObjectType` | lib/src/backend.rs:64-70 | stripping `Id` and lower-casing the type names gives "commit", "change", "tree", "file", "symlink", "conflict" |
| `ObjectIds.ObjectTypeInjective` | lib/src/backend.rs:64-70 | distinct id kinds have distinct tags |
| `ObjectIds.Id.ObjectTypeName` | lib/src/backend.rs:64-70 | an id's tag is two characters shorter than its type name, non-empty, and free of capitals |
| `ObjectIds.Id.AsBytes` | lib/src/backend.rs:76-82 | the exposed bytes rebuild the same id |
| `ObjectIds.FromBytes` | lib/src/backend.rs:60-74 | wraps the bytes verbatim under the given kind |
| `ObjectIds.Id.Hex` | lib/src/backend.rs:88-90 | `hex()` has length twice the byte count and only lower-case hex digits |
| `ObjectIds.Id.HashStream` | lib/src/backend.rs:43-46 | an id hashes as its byte vector: eight bytes that read back as the byte count when it fits a `u64`, then the bytes themselves |
| `ObjectIds.FromHex` | lib/src/backend.rs:84-86 | defined exactly on decodable text; the id's `hex()` is that text lower-cased |
| `ObjectIds.Id.Less` | lib/src/backend.rs:44 | an id below another is a different id, and the other is not below it |
| `ObjectIds.HexRoundTrip` | lib/src/backend.rs:84-90 | `from_hex(id.hex()) == id` for every id |
| `ObjectIds.HexInjective` | lib/src/backend.rs:84-90 | ids of one kind are equal exactly when their hex texts are |
| `ObjectIds.IdOrderTotal` | lib/src/backend.rs:44 | ids of one kind are totally and strictly ordered by their bytes |
| `ObjectIds.IdOrderTransitive` | lib/src/backend.rs:44 | the id order is transitive |
| `Merges.Resolved` | lib/src/backend.rs:191 | `Merge::resolved(x)` is a valid merge whose resolved value is `x` |
| `MergedTreeIds.MergedTreeId.ToMerge` | lib/src/backend.rs:194-200 | the expansion of a legacy tree is that tree resolved; a merge expands to itself; valid ids expand to valid merges |
| `MergedTreeIds.Resolved` | lib/src/backend.rs:189-192 | `resolved(t)` is a merge variant with the same expansion as `Legacy(t)` |
| `MergedTreeIds.Equals` | lib/src/backend.rs:163-169 | equal exactly when identical, or one is `Legacy(t)` and the other `resolved(t)` |
| `MergedTreeIds.EqualsIsEquivalence` | lib/src/backend.rs:171 | the overridden equality is reflexive, symmetric and transitive |
| `MergedTreeIds.MergedTreeId.HashStream` | lib/src/backend.rs:173-186 | the stream starts with "0" for a legacy tree and "1" for a merge |
| `MergedTreeIds.IdVec` | lib/src/backend.rs:182 | a merge's tree ids hash as their count in eight little-endian bytes, then each id's hash in order |
| `MergedTreeIds.IdConcatPrefixFree` | lib/src/backend.rs:182 | equally many tree ids are read back unambiguously from their concatenated hashes |
| `MergedTreeIds.HashStreamInjective` | lib/src/backend.rs:173-186 | two merged tree ids with the same hash stream are structurally the same, variant included |
| `MergedTreeIds.LegacyEqualsResolvedButHashesDiffer` | lib/src/backend.rs:163-186 | `Legacy(t)` equals `resolved(t)` yet their streams start "0" and "1" and differ |
| `TreeValues.TreeValue.Id` | lib/src/backend.rs:289-295 | each variant holds an id of its own kind |
| `TreeValues.TreeValue.Hex` | lib/src/backend.rs:298-306 | a value's hex is its id's hex: twice the byte count, lower-case digits only, decoding to the id bytes |
| `TreeValues.TreeValue.Discriminant` | lib/src/backend.rs:309-336 | the discriminants are 0 to 4 |
| `TreeValues.TreeValue.HashStream` | lib/src/backend.rs:309-336 | each variant's stream begins with its own discriminant as four little-endian bytes |
| `TreeValues.DiscriminantDeterminesVariant` | lib/src/backend.rs:309-336 | equal discriminants mean the same variant |
| `TreeValues.HashTagsDistinct` | lib/src/backend.rs:309-336 | values of different variants never have the same stream |
| `TreeValues.HashStreamShape` | lib/src/backend.rs:309-336 | every stream is discriminant, id hash, then the executable flag for files only |
| `TreeValues.PartsDetermineValue` | lib/src/backend.rs:289-295 | a value is determined by discriminant, id and trailer |
| `TreeValues.SplitStream` | lib/src/backend.rs:313-316 | after a common tag, equal streams hold the same id bytes and the same rest |
| `TreeValues.HashPrefixInjective` | lib/src/backend.rs:309-336 | if one value's stream plus `x` equals another's plus `y`, the values and `x`, `y` are equal |
| `TreeValues.SameHexDifferentHash` | lib/src/backend.rs:298-336 | a file and a symlink over the same bytes print the same hex yet hash differently |
| `Trees.Lookup` | lib/src/backend.rs:419-421 | `get` finds nothing exactly when no entry has the name; what it finds is an entry of the list |
| `Trees.Insert` | lib/src/backend.rs:394-396 | `insert` adds the new entry, keeps every entry under another name, and brings in nothing else |
| `Trees.Delete` | lib/src/backend.rs:398-400 | `remove` keeps exactly the entries under other names |
| `Trees.NamesOf` | lib/src/backend.rs:384-386 | the names are the entries' names, in their order |
| `Trees.LookupIndex` | lib/src/backend.rs:419-421 | a found name is stored at some index with the found value |
| `Trees.LookupSorted` | lib/src/backend.rs:419-421 | in a sorted tree every stored entry is what its name looks up to |
| `Trees.LookupSortedAll` | lib/src/backend.rs:419-421 | the same, for all entries at once |
| `Trees.LookupAbove` | lib/src/backend.rs:419-421 | a name below every stored name is absent |
| `Trees.LookupNames` | lib/src/backend.rs:384-386 | a name has a value exactly when it is among the names |
| `Trees.InsertLookup` | lib/src/backend.rs:394-396 | after insert, the name maps to the value and all other names are unchanged |
| `Trees.InsertAbove` | lib/src/backend.rs:394-396 | inserting a name above a bound keeps all names above it |
| `Trees.InsertSorted` | lib/src/backend.rs:394-396 | insert keeps names strictly increasing |
| `Trees.DeleteLookup` | lib/src/backend.rs:398-400 | after remove, the name is absent and all other names are unchanged |
| `Trees.DeleteAbove` | lib/src/backend.rs:398-400 | removing keeps all names above a bound |
| `Trees.DeleteSorted` | lib/src/backend.rs:398-400 | remove keeps names strictly increasing |
| `Trees.Canonical` | lib/src/backend.rs:372-377 | two sorted entry lists with the same lookups are the same list, so equal contents iterate identically |
| `Trees.InsertCommutes` | lib/src/backend.rs:394-396 | setting two different names in either order gives the same tree |
| `Trees.DeleteInsert` | lib/src/backend.rs:394-400 | removing a name just set equals removing it from the original tree |
| `Trees.SameLookupsEqual` | lib/src/backend.rs:372-377 | two sorted entry lists are equal exactly when every name has the same value in both |
| `Trees.Tree.constructor` | lib/src/backend.rs:372-377 | the default tree is valid and empty |
| `Trees.Tree.IsEmpty` | lib/src/backend.rs:380-382 | empty exactly when no name has a value |
| `Trees.Tree.Names` | lib/src/backend.rs:384-386 | one name per entry, strictly increasing, and exactly the names with a value |
| `Trees.Tree.Entries` | lib/src/backend.rs:358-392 | entries in strictly increasing name order, each the value its name looks up to |
| `Trees.Tree.Equal` | lib/src/backend.rs:372-377 | the derived `PartialEq`: two valid trees are equal exactly when every name has the same value in both |
| `Trees.Tree.Value` | lib/src/backend.rs:419-421 | present exactly for the listed names, and then the stored value |
| `Trees.Tree.Entry` | lib/src/backend.rs:413-417 | present exactly when `value` is, with the queried name and that value |
| `Trees.Tree.Set` | lib/src/backend.rs:394-396 | afterwards `value(name)` is the new value, every other name is unchanged, names stay sorted |
| `Trees.Tree.Remove` | lib/src/backend.rs:398-400 | afterwards `value(name)` is none, every other name is unchanged, names stay sorted |
| `Trees.Tree.SetOrRemove` | lib/src/backend.rs:402-411 | afterwards `value(name)` is the given option; same new entries as `remove` for none and `set` for some |
| `HexPrefix.HalfBytes` | lib/src/backend.rs:433-442 | twice as many nibbles as bytes |
| `HexPrefix.HalfBytesCons` | lib/src/backend.rs:433-442 | each byte expands to its high nibble then its low nibble |
| `HexPrefix.CommonPrefixLen` | lib/src/backend.rs:427-430 | the count is within both lengths, the prefixes agree, and the next elements differ or one side ended |
| `HexPrefix.CommonPrefixLenUnique` | lib/src/backend.rs:427-430 | any number with those three properties is the count |
| `HexPrefix.CommonHexLen` | lib/src/backend.rs:424-431 | at most twice either length; twice the length for equal inputs; 0 when the first nibbles differ |
| `HexPrefix.CommonHexLenOfHex` | lib/src/backend.rs:424-431 | equals the longest common prefix of the two ids' hex texts |
| `HexPrefix.CommonHexLenExample` | lib/src/backend.rs:424-431 | "1234abcd" and "1234ff00" share 4 digits |
| `Commits.MakeRootCommit` | lib/src/backend.rs:444-464 | no parents or predecessors, legacy empty tree, the given change id, empty description, author equal to committer with empty name and email at millisecond 0 offset 0, no signature |
| `Commits.RootCommitTree` | lib/src/backend.rs:457 | the root tree equals the resolved empty tree yet hashes with the legacy tag |
| `Commits.CommitEquals` | lib/src/backend.rs:203-215 | the derived `PartialEq`: equal exactly when every field but the root tree is identical and the root trees are equal under the overridden `MergedTreeId` equality |
| `Commits.CommitEqualsIsEquivalence` | lib/src/backend.rs:204 | commit equality is reflexive, symmetric and transitive |
| `Commits.RootCommitEqualsResolvedForm` | lib/src/backend.rs:203-215 | the root commit equals the same commit over the resolved empty tree, though the two are different values |

## Left out

- The `Backend` trait (lib/src/backend.rs:466-522): asynchronous reads, byte
  streams, the `as_any` downcast and the concurrency hint are storage and I/O
  behind a trait object with no implementation in view.
- `BackendError`, `BackendInitError`, `BackendLoadError`
  (lib/src/backend.rs:236-286): wrappers of opaque foreign errors, nothing to
  compute or prove.
- `Timestamp::now` and `Timestamp::from_datetime` (lib/src/backend.rs:118-131):
  they read the wall clock through the `chrono` library.
- The `Debug` formatting of ids (lib/src/backend.rs:53-57): display only.
- The digest algorithm itself and the hashes the `content_hash!` macro derives
  for `Timestamp`, `Signature`, `SecureSig`, `Commit`, `Conflict` and `Tree`:
  the model stops at the byte streams of ids, `MergedTreeId` and `TreeValue`.
- The derived orderings of `MillisSinceEpoch` and `Timestamp`: nothing in the
  modelled core uses them.
- The error value of `hex::decode` (odd length or the offending character):
  `from_hex` unwraps it, so only success or failure matters.
- Base16.Decode: decides on characters, while `hex::decode` checks the parity
  of the UTF-8 byte length; the two agree on whether decoding succeeds, which
  is all `from_hex` uses.
- `Merges.Merge.AsResolved` stands for `Merge::as_resolved` of
  lib/src/merge.rs, which is not part of this model; it is an observer the
  contracts of `Merges.Resolved` and `MergedTreeIds.MergedTreeId.ToMerge` use.
- `ConflictTerm` and `Conflict` (lib/src/backend.rs:217-234): plain records
  that the modelled operations never compute with; the equivalence of a
  one-add conflict with its value is a comment there, not code.
- `Merge<T>` beyond its list of values, and `RepoPath`,
  `RepoPathComponent` beyond their byte order: lib/src/merge.rs and
  lib/src/repo_path.rs are not part of this model.
- The `class Tree` compares by reference under `==`; the derived `PartialEq`
  of lib/src/backend.rs:373 is `Trees.Tree.Equal`, not `==`.
- The `Tree` entries are an ordered list, not a balanced search tree: the
  model captures what `BTreeMap` does, not its node layout or cost.
