/**
 * `Tree`: a directory, an ordered map from entry name to `TreeValue`. The
 * `BTreeMap` behind it is modelled by its ordered contents, a list of entries
 * whose names strictly increase; the map operations are functions on such
 * lists, and the `Tree` methods update the entries in place with them.
 */
module Trees {
  import opened Wrappers
  import opened Bytes
  import opened TreeValues

  /** A `RepoPathComponent`, as the UTF-8 bytes of its text: `String` order is byte order. */
  type Name = seq<byte>

  /** `TreeEntry`: one name and the value stored under it. */
  datatype TreeEntry = TreeEntry(name: Name, value: TreeValue)

  /** The `BTreeMap` invariant: names strictly increase, so each occurs once. */
  predicate Sorted(es: seq<TreeEntry>) {
    forall i, j :: 0 <= i < j < |es| ==> Less(es[i].name, es[j].name)
  }

  /** Every name in `es` sorts after `lo`. */
  predicate Above(lo: Name, es: seq<TreeEntry>) {
    forall i :: 0 <= i < |es| ==> Less(lo, es[i].name)
  }

  /** `BTreeMap::get`: the value stored under `name`. */
  function Lookup(es: seq<TreeEntry>, name: Name): (r: Option<TreeValue>)
    ensures r.None? <==> forall i :: 0 <= i < |es| ==> es[i].name != name
    ensures r.Some? ==> TreeEntry(name, r.value) in es
  {
    if es == [] then None
    else if es[0].name == name then Some(es[0].value)
    else Lookup(es[1..], name)
  }

  /** `BTreeMap::keys`: the names in order. */
  function NamesOf(es: seq<TreeEntry>): (r: seq<Name>)
    ensures |r| == |es|
    ensures forall i :: 0 <= i < |es| ==> r[i] == es[i].name
  {
    if es == [] then [] else [es[0].name] + NamesOf(es[1..])
  }

  /** `BTreeMap::insert`: overwrite the entry for `name`, or add one in its place in the order. */
  function Insert(es: seq<TreeEntry>, name: Name, value: TreeValue): (r: seq<TreeEntry>)
    ensures TreeEntry(name, value) in r
    ensures forall e :: e in r ==> e in es || e == TreeEntry(name, value)
    ensures forall e :: e in es && e.name != name ==> e in r
  {
    if es == [] then [TreeEntry(name, value)]
    else if es[0].name == name then [TreeEntry(name, value)] + es[1..]
    else if Less(name, es[0].name) then [TreeEntry(name, value)] + es
    else [es[0]] + Insert(es[1..], name, value)
  }

  /** `BTreeMap::remove`: drop the entry for `name` if there is one. */
  function Delete(es: seq<TreeEntry>, name: Name): (r: seq<TreeEntry>)
    ensures forall e :: e in r <==> e in es && e.name != name
  {
    if es == [] then []
    else if es[0].name == name then Delete(es[1..], name)
    else [es[0]] + Delete(es[1..], name)
  }

  /** Looking a name up finds it exactly where it is stored. */
  lemma {:induction false} LookupIndex(es: seq<TreeEntry>, name: Name) returns (i: nat)
    requires Lookup(es, name).Some?
    ensures i < |es| && es[i].name == name && Lookup(es, name) == Some(es[i].value)
  {
    if es[0].name == name {
      i := 0;
    } else {
      var j := LookupIndex(es[1..], name);
      i := j + 1;
    }
  }

  /** The first entry of a non-empty list is found. */
  lemma LookupHead(es: seq<TreeEntry>)
    ensures es != [] ==> Lookup(es, es[0].name) == Some(es[0].value)
  {
  }

  /** In a sorted list every stored entry is what a lookup of its name finds. */
  lemma {:induction false} LookupSorted(es: seq<TreeEntry>, i: nat)
    requires Sorted(es) && i < |es|
    ensures Lookup(es, es[i].name) == Some(es[i].value)
  {
    if i > 0 {
      LessIrreflexive(es[i].name);
      assert es[0].name != es[i].name;
      LookupSorted(es[1..], i - 1);
    }
  }

  lemma LookupSortedAll(es: seq<TreeEntry>)
    ensures Sorted(es) ==> forall i :: 0 <= i < |es| ==> Lookup(es, es[i].name) == Some(es[i].value)
  {
    if Sorted(es) {
      forall i | 0 <= i < |es| ensures Lookup(es, es[i].name) == Some(es[i].value) {
        LookupSorted(es, i);
      }
    }
  }

  /** A name below every stored name is not found. */
  lemma {:induction false} LookupAbove(lo: Name, es: seq<TreeEntry>)
    requires Above(lo, es)
    ensures Lookup(es, lo) == None
  {
    if es != [] {
      LessIrreflexive(lo);
      LookupAbove(lo, es[1..]);
    }
  }

  /** A name is found exactly when it is one of the names. */
  lemma {:induction false} LookupNames(es: seq<TreeEntry>, name: Name)
    ensures Lookup(es, name).Some? <==> name in NamesOf(es)
  {
    if es != [] {
      LookupNames(es[1..], name);
      assert NamesOf(es) == [es[0].name] + NamesOf(es[1..]);
    }
  }

  /** After an insert, the name maps to the new value and every other name is unchanged. */
  lemma {:induction false} InsertLookup(es: seq<TreeEntry>, name: Name, value: TreeValue, other: Name)
    ensures Lookup(Insert(es, name, value), other) == if other == name then Some(value) else Lookup(es, other)
  {
    if es != [] && es[0].name != name && !Less(name, es[0].name) {
      InsertLookup(es[1..], name, value, other);
    }
  }

  lemma {:induction false} InsertAbove(lo: Name, es: seq<TreeEntry>, name: Name, value: TreeValue)
    requires Above(lo, es) && Less(lo, name)
    ensures Above(lo, Insert(es, name, value))
  {
    if es != [] && es[0].name != name && !Less(name, es[0].name) {
      InsertAbove(lo, es[1..], name, value);
    }
  }

  /** Inserting keeps the names strictly increasing. */
  lemma {:induction false} InsertSorted(es: seq<TreeEntry>, name: Name, value: TreeValue)
    requires Sorted(es)
    ensures Sorted(Insert(es, name, value))
  {
    if es == [] {
    } else if es[0].name == name {
    } else if Less(name, es[0].name) {
      forall j | 0 <= j < |es| ensures Less(name, es[j].name) {
        if j > 0 {
          LessTransitive(name, es[0].name, es[j].name);
        }
      }
    } else {
      LessTotal(name, es[0].name);
      InsertSorted(es[1..], name, value);
      InsertAbove(es[0].name, es[1..], name, value);
      var r := Insert(es, name, value);
      assert r == [es[0]] + Insert(es[1..], name, value);
    }
  }

  /** After a delete, the name is gone and every other name is unchanged. */
  lemma {:induction false} DeleteLookup(es: seq<TreeEntry>, name: Name, other: Name)
    ensures Lookup(Delete(es, name), other) == if other == name then None else Lookup(es, other)
  {
    if es != [] {
      DeleteLookup(es[1..], name, other);
    }
  }

  lemma {:induction false} DeleteAbove(lo: Name, es: seq<TreeEntry>, name: Name)
    requires Above(lo, es)
    ensures Above(lo, Delete(es, name))
  {
    if es != [] {
      DeleteAbove(lo, es[1..], name);
    }
  }

  /** Deleting keeps the names strictly increasing. */
  lemma {:induction false} DeleteSorted(es: seq<TreeEntry>, name: Name)
    requires Sorted(es)
    ensures Sorted(Delete(es, name))
  {
    if es != [] {
      DeleteSorted(es[1..], name);
      if es[0].name != name {
        DeleteAbove(es[0].name, es[1..], name);
        var r := Delete(es, name);
        assert r == [es[0]] + Delete(es[1..], name);
      }
    }
  }

  /**
   * A sorted list is determined by what its names map to: two trees with the
   * same contents iterate the same entries in the same order, so they hash
   * alike.
   */
  lemma {:induction false} Canonical(a: seq<TreeEntry>, b: seq<TreeEntry>)
    requires Sorted(a) && Sorted(b)
    requires forall n :: Lookup(a, n) == Lookup(b, n)
    ensures a == b
    decreases |a|
  {
    if a == [] || b == [] {
      LookupHead(a);
      LookupHead(b);
    } else {
      var x, y := a[0].name, b[0].name;
      assert Lookup(a, x).Some? && Lookup(b, y).Some?;
      var j := LookupIndex(b, x);
      var i := LookupIndex(a, y);
      if x != y {
        assert i > 0 && j > 0;
        assert Less(x, y) && Less(y, x);
        LessAsymmetric(x, y);
      }
      assert x == y;
      assert Above(x, a[1..]) && Above(x, b[1..]);
      forall n ensures Lookup(a[1..], n) == Lookup(b[1..], n) {
        if n == x {
          LookupAbove(x, a[1..]);
          LookupAbove(x, b[1..]);
        } else {
          assert Lookup(a, n) == Lookup(a[1..], n) && Lookup(b, n) == Lookup(b[1..], n);
        }
      }
      Canonical(a[1..], b[1..]);
      assert a == [a[0]] + a[1..] && b == [b[0]] + b[1..];
    }
  }

  /** Setting two different names commutes. */
  lemma InsertCommutes(es: seq<TreeEntry>, n1: Name, v1: TreeValue, n2: Name, v2: TreeValue)
    requires Sorted(es) && n1 != n2
    ensures Insert(Insert(es, n1, v1), n2, v2) == Insert(Insert(es, n2, v2), n1, v1)
  {
    var a, b := Insert(Insert(es, n1, v1), n2, v2), Insert(Insert(es, n2, v2), n1, v1);
    InsertSorted(es, n1, v1);
    InsertSorted(Insert(es, n1, v1), n2, v2);
    InsertSorted(es, n2, v2);
    InsertSorted(Insert(es, n2, v2), n1, v1);
    forall n ensures Lookup(a, n) == Lookup(b, n) {
      InsertLookup(es, n1, v1, n);
      InsertLookup(Insert(es, n1, v1), n2, v2, n);
      InsertLookup(es, n2, v2, n);
      InsertLookup(Insert(es, n2, v2), n1, v1, n);
    }
    Canonical(a, b);
  }

  /** Removing a name just set undoes the set, as far as that name was absent before. */
  lemma DeleteInsert(es: seq<TreeEntry>, name: Name, value: TreeValue)
    requires Sorted(es)
    ensures Delete(Insert(es, name, value), name) == Delete(es, name)
  {
    var a, b := Delete(Insert(es, name, value), name), Delete(es, name);
    InsertSorted(es, name, value);
    DeleteSorted(Insert(es, name, value), name);
    DeleteSorted(es, name);
    forall n ensures Lookup(a, n) == Lookup(b, n) {
      InsertLookup(es, name, value, n);
      DeleteLookup(Insert(es, name, value), name, n);
      DeleteLookup(es, name, n);
    }
    Canonical(a, b);
  }

  /** Every name has the same value in both lists. */
  ghost predicate SameLookups(a: seq<TreeEntry>, b: seq<TreeEntry>) {
    forall n :: Lookup(a, n) == Lookup(b, n)
  }

  /** Two sorted lists are equal exactly when every name looks up alike in both. */
  lemma SameLookupsEqual(a: seq<TreeEntry>, b: seq<TreeEntry>)
    ensures Sorted(a) && Sorted(b) ==> (a == b <==> SameLookups(a, b))
  {
    if Sorted(a) && Sorted(b) && SameLookups(a, b) {
      Canonical(a, b);
    }
  }

  class Tree {
    var entries: seq<TreeEntry>

    ghost predicate Valid()
      reads this
    {
      Sorted(entries)
    }

    /** `Tree::default()`: the empty tree. */
    constructor ()
      ensures Valid() && entries == []
    {
      entries := [];
    }

    /** `is_empty()`: no name has a value. */
    function IsEmpty(): (r: bool)
      reads this
      ensures r <==> forall n :: Lookup(entries, n) == None
    {
      if entries == [] then true
      else
        assert Lookup(entries, entries[0].name).Some?;
        false
    }

    /** `names()`: every name that has a value, each once, in increasing order. */
    function Names(): (r: seq<Name>)
      reads this
      ensures |r| == |entries|
      ensures Valid() ==> forall i, j :: 0 <= i < j < |r| ==> Less(r[i], r[j])
      ensures forall n :: n in r <==> Lookup(entries, n).Some?
    {
      forall n ensures n in NamesOf(entries) <==> Lookup(entries, n).Some? {
        LookupNames(entries, n);
      }
      NamesOf(entries)
    }

    /** `entries()`: the entries in increasing name order, each what its name looks up to. */
    function Entries(): (r: seq<TreeEntry>)
      reads this
      ensures Valid() ==> Sorted(r)
      ensures Valid() ==> forall i :: 0 <= i < |r| ==> Lookup(entries, r[i].name) == Some(r[i].value)
      ensures forall n :: Lookup(r, n) == Lookup(entries, n)
    {
      LookupSortedAll(entries);
      entries
    }

    /**
     * The derived `PartialEq`: equal entries, which for two valid trees is
     * exactly that every name has the same value in both.
     */
    function Equal(other: Tree): (r: bool)
      reads this, other
      ensures Sorted(entries) && Sorted(other.entries) ==> (r <==> SameLookups(entries, other.entries))
    {
      SameLookupsEqual(entries, other.entries);
      entries == other.entries
    }

    /** `value(name)`: the value stored under `name`, if any. */
    function Value(name: Name): (r: Option<TreeValue>)
      reads this
      ensures r.Some? <==> name in Names()
      ensures Valid() ==> forall i :: 0 <= i < |entries| && entries[i].name == name ==> r == Some(entries[i].value)
    {
      LookupSortedAll(entries);
      LookupNames(entries, name);
      Lookup(entries, name)
    }

    /** `entry(name)`: the stored name and value together, if `name` is present. */
    function Entry(name: Name): (r: Option<TreeEntry>)
      reads this
      ensures r.Some? <==> Value(name).Some?
      ensures r.Some? ==> r.value.name == name && Value(name) == Some(r.value.value)
    {
      match Lookup(entries, name)
      case None => None
      case Some(v) => Some(TreeEntry(name, v))
    }

    /** `set(name, value)`: `name` now maps to `value`; every other name is unchanged. */
    method Set(name: Name, value: TreeValue)
      requires Valid()
      modifies this
      ensures Valid()
      ensures Value(name) == Some(value)
      ensures forall n :: n != name ==> Value(n) == old(Value(n))
      ensures entries == Insert(old(entries), name, value)
    {
      InsertSorted(entries, name, value);
      forall n ensures Lookup(Insert(entries, name, value), n) == if n == name then Some(value) else Lookup(entries, n) {
        InsertLookup(entries, name, value, n);
      }
      entries := Insert(entries, name, value);
    }

    /** `remove(name)`: `name` now has no value; every other name is unchanged. */
    method Remove(name: Name)
      requires Valid()
      modifies this
      ensures Valid()
      ensures Value(name) == None
      ensures forall n :: n != name ==> Value(n) == old(Value(n))
      ensures entries == Delete(old(entries), name)
    {
      DeleteSorted(entries, name);
      forall n ensures Lookup(Delete(entries, name), n) == if n == name then None else Lookup(entries, n) {
        DeleteLookup(entries, name, n);
      }
      entries := Delete(entries, name);
    }

    /**
     * `set_or_remove(name, value)`: `name` now maps to `value`, absent when it
     * is `None`; the same as `remove` for `None` and `set` for `Some`.
     */
    method SetOrRemove(name: Name, value: Option<TreeValue>)
      requires Valid()
      modifies this
      ensures Valid()
      ensures Value(name) == value
      ensures forall n :: n != name ==> Value(n) == old(Value(n))
      ensures entries == match value
        case None => Delete(old(entries), name)
        case Some(v) => Insert(old(entries), name, v)
    {
      match value {
        case None =>
          DeleteSorted(entries, name);
          forall n ensures Lookup(Delete(entries, name), n) == if n == name then None else Lookup(entries, n) {
            DeleteLookup(entries, name, n);
          }
          entries := Delete(entries, name);
        case Some(v) =>
          InsertSorted(entries, name, v);
          forall n ensures Lookup(Insert(entries, name, v), n) == if n == name then Some(v) else Lookup(entries, n) {
            InsertLookup(entries, name, v, n);
          }
          entries := Insert(entries, name, v);
      }
    }
  }
}
