/**
 * `TreeValue`, what a tree entry points at, with its content hash: a
 * four-byte little-endian discriminant first, then the payload.
 */
module TreeValues {
  import opened Bytes
  import opened ObjectIds
  import ContentHash

  datatype TreeValue =
    | File(file: FileId, executable: bool)
    | Symlink(symlink: SymlinkId)
    | Tree(tree: TreeId)
    | GitSubmodule(commit: CommitId)
    | Conflict(conflict: ConflictId)
  {
    /** The id the value points at, whatever its kind. */
    function Id(): (id: Id)
      ensures id.kind == match this
        case File(_, _) => FileKind
        case Symlink(_) => SymlinkKind
        case Tree(_) => TreeKind
        case GitSubmodule(_) => CommitKind
        case Conflict(_) => ConflictKind
    {
      match this
      case File(id, _) => id
      case Symlink(id) => id
      case Tree(id) => id
      case GitSubmodule(id) => id
      case Conflict(id) => id
    }

    /** `hex()`: the hex of the id, which does not say what kind of value it is. */
    function Hex(): (r: string)
      ensures |r| == 2 * |Id().bytes|
      ensures forall i :: 0 <= i < |r| ==> Base16.IsLowerHexDigit(r[i])
      ensures Base16.Decode(r) == Wrappers.Some(Id().bytes)
    {
      Base16.DecodeEncode(Id().bytes);
      Id().Hex()
    }

    /** The variant's discriminant, the `u32` written first: File 0 ... Conflict 4. */
    function Discriminant(): (d: nat)
      ensures d < 5
    {
      match this
      case File(_, _) => 0
      case Symlink(_) => 1
      case Tree(_) => 2
      case GitSubmodule(_) => 3
      case Conflict(_) => 4
    }

    /** The bytes `ContentHash::hash` feeds to the digest. */
    function HashStream(): (r: seq<byte>)
      ensures |r| >= 12
      ensures r[..4] == [Discriminant(), 0, 0, 0]
    {
      match this
      case File(id, executable) => ContentHash.U32(0) + id.HashStream() + ContentHash.Bool(executable)
      case Symlink(id) => ContentHash.U32(1) + id.HashStream()
      case Tree(id) => ContentHash.U32(2) + id.HashStream()
      case GitSubmodule(id) => ContentHash.U32(3) + id.HashStream()
      case Conflict(id) => ContentHash.U32(4) + id.HashStream()
    }

    predicate Representable() {
      Id().Representable()
    }
  }

  /** The discriminant determines the variant. */
  lemma DiscriminantDeterminesVariant(a: TreeValue, b: TreeValue)
    requires a.Discriminant() == b.Discriminant()
    ensures a.File? == b.File? && a.Symlink? == b.Symlink? && a.Tree? == b.Tree?
    ensures a.GitSubmodule? == b.GitSubmodule? && a.Conflict? == b.Conflict?
  {
  }

  /** Values of different variants never hash alike, even over the same id bytes. */
  lemma HashTagsDistinct(a: TreeValue, b: TreeValue)
    requires a.Discriminant() != b.Discriminant()
    ensures a.HashStream() != b.HashStream()
  {
    assert a.HashStream()[0] != b.HashStream()[0];
  }

  /** The payload bytes after the id: only a file has them, its executable flag. */
  function Trailer(v: TreeValue): seq<byte> {
    if v.File? then ContentHash.Bool(v.executable) else []
  }

  /** Regrouping a concatenation of three parts and a rest. */
  lemma Regroup(t: seq<byte>, i: seq<byte>, p: seq<byte>, rest: seq<byte>)
    ensures (t + i + p) + rest == t + (i + (p + rest))
  {
  }

  /** Every variant's stream, and whatever follows it, is discriminant, id hash, trailer, rest. */
  lemma HashStreamShape(v: TreeValue, rest: seq<byte>)
    ensures v.HashStream() + rest
         == ContentHash.U32(v.Discriminant()) + (ContentHash.ByteVec(v.Id().bytes) + (Trailer(v) + rest))
    ensures (v.HashStream() + rest)[0] == v.Discriminant()
  {
    var tag, id, t := ContentHash.U32(v.Discriminant()), ContentHash.ByteVec(v.Id().bytes), Trailer(v);
    match v {
      case File(f, e) => assert v.HashStream() == tag + id + t;
      case Symlink(_) => assert v.HashStream() == tag + id + t;
      case Tree(_) => assert v.HashStream() == tag + id + t;
      case GitSubmodule(_) => assert v.HashStream() == tag + id + t;
      case Conflict(_) => assert v.HashStream() == tag + id + t;
    }
    Regroup(tag, id, t, rest);
  }

  /** A value is determined by its discriminant, its id and its trailer. */
  lemma PartsDetermineValue(a: TreeValue, b: TreeValue)
    requires a.Discriminant() == b.Discriminant() && a.Id() == b.Id() && Trailer(a) == Trailer(b)
    ensures a == b
  {
    if a.File? {
      assert Trailer(a)[0] == Trailer(b)[0];
    }
  }

  /** Cancels a common tag and splits what follows at the end of the id's hash. */
  lemma SplitStream(tag: seq<byte>, ia: seq<byte>, ib: seq<byte>, p: seq<byte>, q: seq<byte>)
    requires ContentHash.Representable(|ia|) && ContentHash.Representable(|ib|)
    requires tag + (ContentHash.ByteVec(ia) + p) == tag + (ContentHash.ByteVec(ib) + q)
    ensures ia == ib && p == q
  {
    ContentHash.CancelPrefix(tag, ContentHash.ByteVec(ia) + p, ContentHash.ByteVec(ib) + q);
    ContentHash.ByteVecPrefixFree(ia, ib, p, q);
  }

  /**
   * No value's stream is a proper prefix of another's: a stream of values
   * written one after the other is read back unambiguously.
   */
  lemma HashPrefixInjective(a: TreeValue, b: TreeValue, x: seq<byte>, y: seq<byte>)
    requires a.Representable() && b.Representable()
    requires a.HashStream() + x == b.HashStream() + y
    ensures a == b && x == y
  {
    HashStreamShape(a, x);
    HashStreamShape(b, y);
    var ta, tb := Trailer(a), Trailer(b);
    SplitStream(ContentHash.U32(a.Discriminant()), a.Id().bytes, b.Id().bytes, ta + x, tb + y);
    DiscriminantDeterminesVariant(a, b);
    if a.File? {
      assert ta[0] == (ta + x)[0] == (tb + y)[0] == tb[0];
      ContentHash.CancelPrefix(ta, x, y);
    } else {
      assert ta + x == x && tb + y == y;
    }
    PartsDetermineValue(a, b);
  }

  /** A file and a symlink over the same bytes print the same hex yet hash apart. */
  lemma SameHexDifferentHash(f: FileId, s: SymlinkId, executable: bool)
    requires f.bytes == s.bytes
    ensures File(f, executable).Hex() == Symlink(s).Hex()
    ensures File(f, executable).HashStream() != Symlink(s).HashStream()
  {
    HashTagsDistinct(File(f, executable), Symlink(s));
  }
}
