/**
 * `MergedTreeId`: either one legacy tree (which may hold path-level
 * conflicts) or a merge of conflict-free trees. Equality compares the
 * canonical merge expansions; the content hash tags the variant first.
 */
module MergedTreeIds {
  import opened Bytes
  import opened ObjectIds
  import ContentHash
  import Merges

  /** The byte "0" and the byte "1" that tag the variants in the hash. */
  const LEGACY_TAG: byte := 0x30
  const MERGE_TAG: byte := 0x31

  datatype MergedTreeId = Legacy(tree: TreeId) | Merge(trees: Merges.Merge<TreeId>) {
    predicate Valid() {
      Legacy? || trees.Valid()
    }

    /** `to_merge()`: the canonical expansion; a legacy id is a resolved merge. */
    function ToMerge(): (m: Merges.Merge<TreeId>)
      ensures Valid() ==> m.Valid()
      ensures Legacy? ==> m.AsResolved() == Wrappers.Some(tree)
      ensures Merge? ==> m == trees
    {
      match this
      case Legacy(t) => Merges.Resolved(t)
      case Merge(ts) => ts
    }

    /** The bytes `ContentHash::hash` feeds to the digest. */
    function HashStream(): (r: seq<byte>)
      ensures |r| >= 1
      ensures r[0] == if Legacy? then LEGACY_TAG else MERGE_TAG
    {
      match this
      case Legacy(t) => [LEGACY_TAG] + t.HashStream()
      case Merge(ts) => [MERGE_TAG] + IdVec(ts.values)
    }

    /** Every vector inside fits the `u64` length the hash writes. */
    predicate Representable() {
      match this
      case Legacy(t) => t.Representable()
      case Merge(ts) =>
        ContentHash.Representable(|ts.values|) &&
        forall i :: 0 <= i < |ts.values| ==> ts.values[i].Representable()
    }
  }

  /** `MergedTreeId::resolved(tree_id)`. */
  function Resolved(tree: TreeId): (r: MergedTreeId)
    ensures r.Merge? && r.Valid()
    ensures r.ToMerge() == Legacy(tree).ToMerge()
  {
    Merge(Merges.Resolved(tree))
  }

  /**
   * The `PartialEq` override: equal when the expansions are, which is when
   * the two are the same, or one is a legacy tree and the other is that tree
   * resolved.
   */
  function Equals(a: MergedTreeId, b: MergedTreeId): (r: bool)
    ensures r <==>
      a == b ||
      (a.Legacy? && b == Resolved(a.tree)) ||
      (b.Legacy? && a == Resolved(b.tree))
  {
    a.ToMerge() == b.ToMerge()
  }

  /** The override is still an equivalence relation, as `Eq` demands. */
  lemma EqualsIsEquivalence(a: MergedTreeId, b: MergedTreeId, c: MergedTreeId)
    ensures Equals(a, a)
    ensures Equals(a, b) ==> Equals(b, a)
    ensures Equals(a, b) && Equals(b, c) ==> Equals(a, c)
  {
  }

  /** A `Vec<TreeId>` (the values of a merge): its length, then each id's hash. */
  function IdVec(ids: seq<TreeId>): (r: seq<byte>)
    ensures |r| >= 8 && r[..8] == ContentHash.U64(|ids|) && r[8..] == IdConcat(ids)
    ensures ContentHash.Representable(|ids|) ==> ContentHash.LittleEndianValue(r[..8]) == |ids|
  {
    ContentHash.U64(|ids|) + IdConcat(ids)
  }

  function IdConcat(ids: seq<TreeId>): seq<byte> {
    if ids == [] then [] else ids[0].HashStream() + IdConcat(ids[1..])
  }

  /** The first id's hash, then the rest, then whatever follows. */
  lemma IdConcatCons(ids: seq<TreeId>, rest: seq<byte>)
    requires ids != []
    ensures IdConcat(ids) + rest == ContentHash.ByteVec(ids[0].bytes) + (IdConcat(ids[1..]) + rest)
  {
    assert IdConcat(ids) == ContentHash.ByteVec(ids[0].bytes) + IdConcat(ids[1..]);
  }

  /** Equally many ids are read back unambiguously from their concatenated hashes. */
  lemma {:induction false} IdConcatPrefixFree(a: seq<TreeId>, b: seq<TreeId>, x: seq<byte>, y: seq<byte>)
    requires |a| == |b|
    requires forall i :: 0 <= i < |a| ==> a[i].Representable()
    requires forall i :: 0 <= i < |b| ==> b[i].Representable()
    requires IdConcat(a) + x == IdConcat(b) + y
    ensures a == b && x == y
  {
    if a == [] {
      assert IdConcat(a) + x == x && IdConcat(b) + y == y;
    } else {
      var ra, rb := IdConcat(a[1..]) + x, IdConcat(b[1..]) + y;
      IdConcatCons(a, x);
      IdConcatCons(b, y);
      ContentHash.ByteVecPrefixFree(a[0].bytes, b[0].bytes, ra, rb);
      IdConcatPrefixFree(a[1..], b[1..], x, y);
      assert a[0] == b[0];
      assert a == [a[0]] + a[1..] && b == [b[0]] + b[1..];
    }
  }

  /** Distinct ids never hash alike: the stream determines the id, variant included. */
  lemma HashStreamInjective(a: MergedTreeId, b: MergedTreeId)
    requires a.Representable() && b.Representable()
    requires a.HashStream() == b.HashStream()
    ensures a == b
  {
    var s := a.HashStream();
    match a
    case Legacy(t) =>
      var u := b.tree;
      ContentHash.CancelPrefix([LEGACY_TAG], t.HashStream(), u.HashStream());
      assert t.HashStream() + [] == u.HashStream() + [];
      ContentHash.ByteVecPrefixFree(t.bytes, u.bytes, [], []);
    case Merge(ts) =>
      var us := b.trees;
      ContentHash.CancelPrefix([MERGE_TAG], IdVec(ts.values), IdVec(us.values));
      var n, m := |ts.values|, |us.values|;
      assert ContentHash.U64(n) == IdVec(ts.values)[..8] == IdVec(us.values)[..8] == ContentHash.U64(m);
      assert n == m;
      ContentHash.CancelPrefix(ContentHash.U64(n), IdConcat(ts.values), IdConcat(us.values));
      assert IdConcat(ts.values) + [] == IdConcat(us.values) + [];
      IdConcatPrefixFree(ts.values, us.values, [], []);
  }

  /** A legacy tree equals its resolved form, yet the two hash differently. */
  lemma LegacyEqualsResolvedButHashesDiffer(t: TreeId)
    ensures Equals(Legacy(t), Resolved(t))
    ensures Legacy(t).HashStream()[0] == LEGACY_TAG
    ensures Resolved(t).HashStream()[0] == MERGE_TAG
    ensures Legacy(t).HashStream() != Resolved(t).HashStream()
  {
  }
}
