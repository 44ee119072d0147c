/**
 * The identifier family that `id_type!` stamps out: six newtypes over a byte
 * vector, here one datatype that carries the kind as a tag, and one subset
 * type per kind standing for the six Rust types.
 */
module ObjectIds {
  import opened Wrappers
  import opened Bytes
  import Text
  import Base16
  import ContentHash

  datatype ObjectKind = CommitKind | ChangeKind | TreeKind | FileKind | SymlinkKind | ConflictKind

  /** The Rust type name that `stringify!` gives for each kind; each ends in `Id`. */
  function TypeName(kind: ObjectKind): (r: string)
    ensures |r| > 2 && r[|r| - 2..] == "Id"
  {
    match kind
    case CommitKind => "CommitId"
    case ChangeKind => "ChangeId"
    case TreeKind => "TreeId"
    case FileKind => "FileId"
    case SymlinkKind => "SymlinkId"
    case ConflictKind => "ConflictId"
  }

  /**
   * `object_type()`: the type name with its `Id` suffix stripped (which every
   * name has, so the `unwrap` never fails) and lower-cased.
   */
  function ObjectType(kind: ObjectKind): (r: string)
    ensures r == match kind
      case CommitKind => "commit"
      case ChangeKind => "change"
      case TreeKind => "tree"
      case FileKind => "file"
      case SymlinkKind => "symlink"
      case ConflictKind => "conflict"
  {
    var stripped := Text.StripSuffix(TypeName(kind), "Id");
    assert stripped.Some?;
    Text.AsciiLowercase(stripped.value)
  }

  /** The object-kind tags are stable and tell the kinds apart. */
  lemma ObjectTypeInjective(k1: ObjectKind, k2: ObjectKind)
    requires ObjectType(k1) == ObjectType(k2)
    ensures k1 == k2
  {
  }

  /** An identifier: raw bytes, compared and ordered by those bytes alone. */
  datatype Id = Id(kind: ObjectKind, bytes: seq<byte>) {
    /** `as_bytes()` / `to_bytes()`. */
    function AsBytes(): (r: seq<byte>)
      ensures FromBytes(kind, r) == this
    {
      bytes
    }

    /** `object_type()`: the type name without its `Id` suffix, in lower case. */
    function ObjectTypeName(): (r: string)
      ensures |r| + 2 == |TypeName(kind)| && r != []
      ensures forall i :: 0 <= i < |r| ==> !Text.IsAsciiUpper(r[i])
    {
      ObjectType(kind)
    }

    /** `hex()`: lower-case hexadecimal text, two digits per byte. */
    function Hex(): (r: string)
      ensures |r| == 2 * |bytes|
      ensures forall i :: 0 <= i < |r| ==> Base16.IsLowerHexDigit(r[i])
    {
      Base16.Encode(bytes)
    }

    /** The derived `Ord`: byte-wise. Rust only compares ids of one kind. */
    function Less(other: Id): (r: bool)
      ensures r ==> this != other && !Bytes.Less(other.bytes, bytes)
    {
      if Bytes.Less(bytes, other.bytes) then
        Bytes.LessIrreflexive(bytes);
        Bytes.LessAsymmetric(bytes, other.bytes);
        true
      else false
    }

    /** The content hash of the one-field struct: its byte vector, the length as a `u64` and then the bytes. */
    function HashStream(): (r: seq<byte>)
      ensures |r| == 8 + |bytes| && r[8..] == bytes
      ensures Representable() ==> ContentHash.LittleEndianValue(r[..8]) == |bytes|
    {
      ContentHash.ByteVec(bytes)
    }

    /** A Rust vector cannot be longer than what a `u64` counts. */
    predicate Representable() {
      ContentHash.Representable(|bytes|)
    }
  }

  type CommitId = id: Id | id.kind == CommitKind witness Id(CommitKind, [])
  type ChangeId = id: Id | id.kind == ChangeKind witness Id(ChangeKind, [])
  type TreeId = id: Id | id.kind == TreeKind witness Id(TreeKind, [])
  type FileId = id: Id | id.kind == FileKind witness Id(FileKind, [])
  type SymlinkId = id: Id | id.kind == SymlinkKind witness Id(SymlinkKind, [])
  type ConflictId = id: Id | id.kind == ConflictKind witness Id(ConflictKind, [])

  /** `new(value)` / `from_bytes(bytes)`: wraps the bytes verbatim, with no length check. */
  function FromBytes(kind: ObjectKind, bytes: seq<byte>): (id: Id)
    ensures id.kind == kind && id.bytes == bytes
  {
    Id(kind, bytes)
  }

  /**
   * `from_hex(hex)`: `hex::decode` followed by `unwrap`, so text that does
   * not decode is outside the domain. Either letter case is accepted.
   */
  function FromHex(kind: ObjectKind, hex: string): (id: Id)
    requires Base16.Decode(hex).Some?
    ensures id.kind == kind
    ensures 2 * |id.bytes| == |hex|
    ensures id.Hex() == Text.AsciiLowercase(hex)
  {
    Base16.EncodeDecode(hex);
    Id(kind, Base16.Decode(hex).value)
  }

  /** `from_hex(hex())` is the identity. */
  lemma HexRoundTrip(id: Id)
    ensures Base16.Decode(id.Hex()).Some?
    ensures FromHex(id.kind, id.Hex()) == id
  {
    Base16.DecodeEncode(id.bytes);
  }

  /** Ids of one kind are equal exactly when their hex texts are. */
  lemma HexInjective(a: Id, b: Id)
    requires a.kind == b.kind
    ensures a.Hex() == b.Hex() <==> a == b
  {
    if a.Hex() == b.Hex() {
      HexRoundTrip(a);
      HexRoundTrip(b);
    }
  }

  /** Ids of one kind are totally ordered: exactly one of equal, less, greater. */
  lemma IdOrderTotal(a: Id, b: Id)
    requires a.kind == b.kind
    ensures a == b || a.Less(b) || b.Less(a)
    ensures !(a.Less(b) && b.Less(a))
    ensures !a.Less(a)
  {
    Bytes.LessTotal(a.bytes, b.bytes);
    Bytes.LessIrreflexive(a.bytes);
    if a.Less(b) {
      Bytes.LessAsymmetric(a.bytes, b.bytes);
    }
  }

  lemma IdOrderTransitive(a: Id, b: Id, c: Id)
    requires a.Less(b) && b.Less(c)
    ensures a.Less(c)
  {
    Bytes.LessTransitive(a.bytes, b.bytes, c.bytes);
  }
}
