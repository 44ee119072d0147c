/**
 * Commits and their signatures, and `make_root_commit`, which synthesises
 * the root commit every other commit descends from.
 */
module Commits {
  import opened Wrappers
  import opened Bytes
  import opened ObjectIds
  import opened MergedTreeIds

  /** Rust's `i64` and `i32`. */
  type i64 = x: int | -0x8000_0000_0000_0000 <= x < 0x8000_0000_0000_0000
  type i32 = x: int | -0x8000_0000 <= x < 0x8000_0000

  datatype MillisSinceEpoch = MillisSinceEpoch(millis: i64)

  /** An instant and the time-zone offset, in minutes, it was recorded in. */
  datatype Timestamp = Timestamp(timestamp: MillisSinceEpoch, tzOffset: i32)

  datatype Signature = Signature(name: string, email: string, timestamp: Timestamp)

  /** A cryptographic signature: the signed data and the signature bytes. */
  datatype SecureSig = SecureSig(data: seq<byte>, sig: seq<byte>)

  datatype Commit = Commit(
    parents: seq<CommitId>,
    predecessors: seq<CommitId>,
    rootTree: MergedTreeId,
    changeId: ChangeId,
    description: string,
    author: Signature,
    committer: Signature,
    secureSig: Option<SecureSig>)

  /**
   * `make_root_commit`: no parents or predecessors, the empty tree as a
   * legacy root, no description, author and committer both the anonymous
   * signature at the epoch in UTC, and no cryptographic signature.
   */
  function MakeRootCommit(rootChangeId: ChangeId, emptyTreeId: TreeId): (c: Commit)
    ensures c.parents == [] && c.predecessors == []
    ensures c.rootTree == Legacy(emptyTreeId) && c.changeId == rootChangeId
    ensures c.description == ""
    ensures c.author == c.committer
    ensures c.author.name == "" && c.author.email == ""
    ensures c.author.timestamp == Timestamp(MillisSinceEpoch(0), 0)
    ensures c.secureSig == None
  {
    var timestamp := Timestamp(MillisSinceEpoch(0), 0);
    var signature := Signature("", "", timestamp);
    Commit([], [], Legacy(emptyTreeId), rootChangeId, "", signature, signature, None)
  }

  /**
   * The root commit's tree compares equal to the resolved empty tree, though
   * it is stored, and hashed, as a legacy tree.
   */
  lemma RootCommitTree(rootChangeId: ChangeId, emptyTreeId: TreeId)
    ensures Equals(MakeRootCommit(rootChangeId, emptyTreeId).rootTree, Resolved(emptyTreeId))
    ensures MakeRootCommit(rootChangeId, emptyTreeId).rootTree.HashStream()[0] == LEGACY_TAG
  {
  }

  /**
   * The derived `PartialEq` of `Commit`: field by field, where `root_tree`
   * is compared by the overridden `MergedTreeId` equality. It differs from
   * structural equality only in the root tree.
   */
  function CommitEquals(a: Commit, b: Commit): (r: bool)
    ensures r <==> a.(rootTree := b.rootTree) == b && Equals(a.rootTree, b.rootTree)
  {
    a.parents == b.parents && a.predecessors == b.predecessors &&
    Equals(a.rootTree, b.rootTree) && a.changeId == b.changeId &&
    a.description == b.description && a.author == b.author &&
    a.committer == b.committer && a.secureSig == b.secureSig
  }

  /** The derived equality of commits is an equivalence, as `Eq` demands. */
  lemma CommitEqualsIsEquivalence(a: Commit, b: Commit, c: Commit)
    ensures CommitEquals(a, a)
    ensures CommitEquals(a, b) ==> CommitEquals(b, a)
    ensures CommitEquals(a, b) && CommitEquals(b, c) ==> CommitEquals(a, c)
  {
    EqualsIsEquivalence(a.rootTree, b.rootTree, c.rootTree);
  }

  /**
   * The root commit equals the same commit over the resolved empty tree,
   * although the two are different values whose root trees hash differently.
   */
  lemma RootCommitEqualsResolvedForm(rootChangeId: ChangeId, emptyTreeId: TreeId)
    ensures var c := MakeRootCommit(rootChangeId, emptyTreeId);
      CommitEquals(c, c.(rootTree := Resolved(emptyTreeId))) &&
      c != c.(rootTree := Resolved(emptyTreeId))
  {
    LegacyEqualsResolvedButHashesDiffer(emptyTreeId);
  }
}
