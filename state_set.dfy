/**
 * Sets of DFA state ids as the minimizer keeps them: sequences that are
 * sorted and free of duplicates once canonicalized, combined by merging.
 * The shared, mutable cells around the sequences are not modelled: every
 * operation produces a new value.
 */
module StateSets {

  /** Strictly increasing, hence also free of duplicates. */
  predicate Sorted(s: seq<nat>) {
    forall i, j :: 0 <= i < j < |s| ==> s[i] < s[j]
  }

  /** Sort and remove duplicates: the same members, in increasing order. */
  function Canonicalize(s: seq<nat>): (r: seq<nat>)
    ensures Sorted(r)
    ensures forall x :: x in r <==> x in s
  {
    if s == [] then [] else InsertSorted(Canonicalize(s[..|s| - 1]), s[|s| - 1])
  }

  /** Insert `x` into a sorted sequence unless it is already there. */
  function InsertSorted(s: seq<nat>, x: nat): (r: seq<nat>)
    requires Sorted(s)
    ensures Sorted(r)
    ensures forall y :: y in r <==> y in s || y == x
  {
    if s == [] then [x]
    else if x < s[0] then [x] + s
    else if x == s[0] then s
    else
      var rest := InsertSorted(s[1..], x);
      InsertTail(s, x, rest);
      [s[0]] + rest
  }

  /** The head of `s` is below every member of its tail and below `x`, so it heads their merge. */
  lemma InsertTail(s: seq<nat>, x: nat, rest: seq<nat>)
    requires Sorted(s) && |s| > 0 && s[0] < x
    requires Sorted(rest) && forall y :: y in rest <==> y in s[1..] || y == x
    ensures Sorted([s[0]] + rest)
    ensures forall y :: y in [s[0]] + rest <==> y in s || y == x
  {
    assert forall y :: y in s[1..] ==> s[0] < y;
    var r := [s[0]] + rest;
    forall i, j | 0 <= i < j < |r|
      ensures r[i] < r[j]
    {
      if i == 0 {
        assert r[j] == rest[j - 1] && rest[j - 1] in rest;
      } else {
        assert r[i] == rest[i - 1] && r[j] == rest[j - 1];
      }
    }
    assert s == [s[0]] + s[1..];
  }

  /** Appending an id above every member keeps a sequence sorted. */
  lemma SortedSnoc(s: seq<nat>, x: nat)
    requires Sorted(s) && forall y :: y in s ==> y < x
    ensures Sorted(s + [x]) && Sorted(s + [])
  {
    assert s + [] == s;
    var r := s + [x];
    forall i, j | 0 <= i < j < |r|
      ensures r[i] < r[j]
    {
      assert r[i] == s[i] && s[i] in s;
    }
  }

  /**
   * The merge of `a` and `b` that keeps the common members. The loop
   * follows two cursors; `ia` and `ib` are the positions of the current
   * elements, and the iteration ends as soon as a cursor cannot advance.
   */
  method Intersection(a: seq<nat>, b: seq<nat>) returns (r: seq<nat>)
    requires Sorted(a) && Sorted(b)
    ensures Sorted(r)
    ensures forall x :: x in r <==> x in a && x in b
  {
    if |a| == 0 || |b| == 0 {
      return [];
    }
    r := [];
    var ia, ib := 0, 0;
    while true
      invariant 0 <= ia < |a| && 0 <= ib < |b|
      invariant Sorted(r)
      invariant forall x :: x in r <==> x in a[..ia] && x in b[..ib]
      invariant forall k :: 0 <= k < |r| ==> r[k] < a[ia] && r[k] < b[ib]
      invariant forall k :: 0 <= k < ia ==> a[k] < b[ib]
      invariant forall k :: 0 <= k < ib ==> b[k] < a[ia]
      decreases |a| - ia + |b| - ib
    {
      if a[ia] == b[ib] {
        r := r + [a[ia]];
        if ia + 1 == |a| {
          break;
        }
        ia := ia + 1;
        if ib + 1 == |b| {
          break;
        }
        ib := ib + 1;
      } else if a[ia] < b[ib] {
        if ia + 1 == |a| {
          break;
        }
        ia := ia + 1;
      } else {
        if ib + 1 == |b| {
          break;
        }
        ib := ib + 1;
      }
    }
  }

  /**
   * The merge of `a` and `b` that keeps the members of `a` missing from
   * `b`; once `b` runs out, the rest of `a` is kept as it is.
   */
  method Subtract(a: seq<nat>, b: seq<nat>) returns (r: seq<nat>)
    requires Sorted(a) && Sorted(b)
    ensures Sorted(r)
    ensures forall x :: x in r <==> x in a && x !in b
  {
    if |a| == 0 || |b| == 0 {
      return a;
    }
    r := [];
    var ia, ib := 0, 0;
    while true
      invariant 0 <= ia < |a| && 0 <= ib < |b|
      invariant Sorted(r)
      invariant forall x :: x in r <==> x in a[..ia] && x !in b
      invariant forall k :: 0 <= k < |r| ==> r[k] < a[ia]
      invariant forall k :: 0 <= k < ib ==> b[k] < a[ia]
      decreases |a| - ia + |b| - ib
    {
      if a[ia] == b[ib] {
        if ia + 1 == |a| {
          ia := ia + 1;
          break;
        }
        ia := ia + 1;
        if ib + 1 == |b| {
          Below(b, a[ia]);
          r := r + [a[ia]];
          ia := ia + 1;
          break;
        }
        ib := ib + 1;
      } else if a[ia] < b[ib] {
        Between(b, ib, a[ia]);
        r := r + [a[ia]];
        if ia + 1 == |a| {
          ia := ia + 1;
          break;
        }
        ia := ia + 1;
      } else {
        if ib + 1 == |b| {
          Below(b, a[ia]);
          r := r + [a[ia]];
          ia := ia + 1;
          break;
        }
        ib := ib + 1;
      }
    }
    r := r + a[ia..];
  }

  /** A value above the last member of a sorted sequence is not in it. */
  lemma Below(b: seq<nat>, v: nat)
    requires Sorted(b) && |b| >= 1 && b[|b| - 1] < v
    ensures forall k :: 0 <= k < |b| ==> b[k] < v
    ensures v !in b
  {
  }

  /** A value above the members before `ib` and below `b[ib]` is not in a sorted `b`. */
  lemma Between(b: seq<nat>, ib: nat, v: nat)
    requires Sorted(b) && ib < |b| && v < b[ib] && forall k :: 0 <= k < ib ==> b[k] < v
    ensures v !in b
  {
  }

  /** The members of `a` that are in `b` (when `inside`) or missing from it, in the order of `a`. */
  function Filter(a: seq<nat>, b: seq<nat>, inside: bool): seq<nat> {
    if a == [] then []
    else Filter(a[..|a| - 1], b, inside) + (if (a[|a| - 1] in b) == inside then [a[|a| - 1]] else [])
  }

  /** Filtering a sorted sequence keeps it sorted and keeps exactly the members on the chosen side of `b`. */
  lemma {:induction false} FilterIff(a: seq<nat>, b: seq<nat>, inside: bool)
    requires Sorted(a)
    ensures Sorted(Filter(a, b, inside))
    ensures forall x :: x in Filter(a, b, inside) <==> x in a && (x in b) == inside
  {
    if a != [] {
      var init, last := a[..|a| - 1], a[|a| - 1];
      assert Sorted(init);
      FilterIff(init, b, inside);
      assert forall x :: x in init ==> x < last;
      SortedSnoc(Filter(init, b, inside), last);
      assert a == init + [last];
    }
  }

  /** A sorted sequence is determined by its members. */
  lemma {:induction false} SortedUnique(r: seq<nat>, s: seq<nat>)
    requires Sorted(r) && Sorted(s) && forall x :: x in r <==> x in s
    ensures r == s
  {
    assert r != [] ==> r[0] in r;
    assert s != [] ==> s[0] in s;
    if r != [] && s != [] {
      assert r[0] in s && s[0] in r;
      var i :| 0 <= i < |s| && s[i] == r[0];
      var j :| 0 <= j < |r| && r[j] == s[0];
      assert r[0] == s[0];
      forall x
        ensures x in r[1..] <==> x in s[1..]
      {
        TailMember(r, s, x);
        TailMember(s, r, x);
      }
      SortedUnique(r[1..], s[1..]);
      assert r == [r[0]] + r[1..] && s == [s[0]] + s[1..];
    }
  }

  /** A member of the tail of one sorted list with the same head and members as another is in the other's tail. */
  lemma TailMember(r: seq<nat>, s: seq<nat>, x: nat)
    requires Sorted(r) && Sorted(s) && r != [] && s != [] && r[0] == s[0]
    requires forall y :: y in r <==> y in s
    ensures x in r[1..] ==> x in s[1..]
  {
    if x in r[1..] {
      var k :| 0 <= k < |r| - 1 && r[1..][k] == x;
      assert r[k + 1] == x && r[0] < x && x in r && x in s;
      var m :| 0 <= m < |s| && s[m] == x;
      assert m != 0 && s[1..][m - 1] == x;
    }
  }
}
