/**
 * The sparse set the subset construction collects NFA state ids in
 * (Briggs and Torczon's representation): `dense` holds the members in
 * insertion order, `sparse` maps a member to its position in `dense`, and
 * clearing only resets the length.
 */
module SparseSets {

  class SparseSet {
    /** The members in insertion order live in `dense[..len]`; its length is the capacity. */
    const dense: array<nat>
    /** Maps a member to its position in `dense`; its length is the size of the id space. */
    const sparse: array<nat>
    var len: nat

    /**
     * Every member's `sparse` entry points at a position in `dense[..len]`
     * that holds it, and every member is a valid index into `sparse`.
     */
    ghost predicate Valid()
      reads this, dense, sparse
    {
      dense != sparse &&
      len <= dense.Length &&
      (forall k :: 0 <= k < len ==> dense[k] < sparse.Length) &&
      (forall k :: 0 <= k < len ==> sparse[dense[k]] < len && dense[sparse[dense[k]]] == dense[k])
    }

    /** The members, in the order in which they were inserted since the last clear. */
    ghost function Contents(): seq<nat>
      reads this, dense
      requires len <= dense.Length
    {
      dense[..len]
    }

    /** A set for ids below `size`, with room for `size` insertions. */
    constructor (size: nat)
      ensures Valid() && fresh(dense) && fresh(sparse)
      ensures dense.Length == size && sparse.Length == size
      ensures Contents() == []
    {
      dense := new nat[size](_ => 0);
      sparse := new nat[size](_ => 0);
      len := 0;
    }

    method Len() returns (n: nat)
      requires Valid()
      ensures n == |Contents()|
    {
      n := len;
    }

    method IsEmpty() returns (b: bool)
      requires Valid()
      ensures b <==> Contents() == []
    {
      b := len == 0;
    }

    method Capacity() returns (n: nat)
      ensures n == dense.Length
    {
      n := dense.Length;
    }

    /** Append `value`; the source asserts that there is spare capacity. */
    method Insert(value: nat)
      requires Valid()
      requires len < dense.Length && value < sparse.Length
      modifies this, dense, sparse
      ensures Valid()
      ensures Contents() == old(Contents()) + [value]
    {
      var i := len;
      dense[i] := value;
      sparse[value] := i;
      len := i + 1;
      assert dense[..len] == old(dense[..len]) + [value];
    }

    /** Whether `value` was inserted since the last clear. */
    method Contains(value: nat) returns (b: bool)
      requires Valid() && value < sparse.Length
      ensures b <==> value in Contents()
    {
      var i := sparse[value];
      b := i < len && dense[i] == value;
    }

    method Clear()
      requires Valid()
      modifies this
      ensures Valid()
      ensures Contents() == []
    {
      len := 0;
    }
  }
}
