/**
 * Partitions of the ids of a state table into blocks, as the minimizer
 * refines them: what a partition is, and why splitting one block into
 * two halves keeps one.
 */
module Partitions {
  import opened StateSets
  import D = Dfas

  lemma TotalSnoc(parts: seq<seq<nat>>, p: seq<nat>)
    ensures Total(parts + [p]) == Total(parts) + |p|
  {
    assert (parts + [p])[..|parts|] == parts;
  }

  lemma TotalPair(a: seq<nat>, b: seq<nat>)
    ensures Total([a]) == |a| && Total([a, b]) == |a| + |b|
  {
    assert [a, b][..1] == [a];
    assert [a][..0] == [];
  }

  /**
   * Two disjoint sorted sets covering the ids below `n` form a partition:
   * of two blocks, or of one when `b` is empty.
   */
  lemma PairPartition(a: seq<nat>, b: seq<nat>, n: nat)
    requires Sorted(a) && Sorted(b) && a != []
    requires forall x :: x in a ==> x < n && x !in b
    requires forall x :: x in b ==> x < n
    requires forall x: nat :: x < n ==> x in a || x in b
    ensures b == [] ==> Partition([a], n)
    ensures b != [] ==> Partition([a, b], n)
  {
    var parts := if b == [] then [a] else [a, b];
    forall x: nat | x < n
      ensures InSome(parts, x)
    {
      if x in a {
        assert x in parts[0];
      } else {
        assert x in parts[1];
      }
    }
  }

  /** Blocks that are each all matching or all non-matching respect the matching flag. */
  lemma PairRespects(states: seq<D.DfaState>, a: seq<nat>, b: seq<nat>, ma: bool, mb: bool)
    requires forall x :: x in a ==> x < |states| && states[x].isMatch == ma
    requires forall x :: x in b ==> x < |states| && states[x].isMatch == mb
    ensures Respects([a], states) && Respects([a, b], states)
  {
  }

  /** The sum of the block sizes. */
  function Total(parts: seq<seq<nat>>): nat {
    if parts == [] then 0 else Total(parts[..|parts| - 1]) + |parts[|parts| - 1]|
  }

  /**
   * The blocks are sorted, non-empty, pairwise disjoint sets of ids below
   * `n` that together hold every id below `n`.
   */
  ghost predicate Partition(parts: seq<seq<nat>>, n: nat) {
    (forall i :: 0 <= i < |parts| ==> Sorted(parts[i]) && parts[i] != []) &&
    (forall i, e :: 0 <= i < |parts| && e in parts[i] ==> e < n) &&
    (forall i, j, e :: 0 <= i < j < |parts| && e in parts[i] ==> e !in parts[j]) &&
    (forall e :: 0 <= e < n ==> InSome(parts, e))
  }

  /** Some block holds `e`. */
  ghost predicate InSome(parts: seq<seq<nat>>, e: nat) {
    exists i :: 0 <= i < |parts| && e in parts[i]
  }

  /** Every block is all matching or all non-matching. */
  ghost predicate Respects(parts: seq<seq<nat>>, states: seq<D.DfaState>) {
    forall i :: 0 <= i < |parts| ==> Uniform(parts[i], states)
  }

  /** The ids of `block` are states that agree on matching. */
  ghost predicate Uniform(block: seq<nat>, states: seq<D.DfaState>) {
    forall e, f :: e in block && f in block ==> e < |states| && f < |states| && states[e].isMatch == states[f].isMatch
  }

  // ---------------------------------------------------------------------------
  // Splitting blocks

  /** Every block of `fine` lies within one block of `coarse`. */
  ghost predicate Refines(fine: seq<seq<nat>>, coarse: seq<seq<nat>>) {
    forall i, j, e, f :: 0 <= i < |fine| && 0 <= j < |coarse| && e in fine[i] && f in fine[i] && e in coarse[j] ==> f in coarse[j]
  }

  lemma RefinesRefl(parts: seq<seq<nat>>, n: nat)
    requires Partition(parts, n)
    ensures Refines(parts, parts)
  {
  }

  lemma RefinesTrans(a: seq<seq<nat>>, b: seq<seq<nat>>, c: seq<seq<nat>>, n: nat)
    requires Partition(a, n) && Partition(b, n) && Refines(a, b) && Refines(b, c)
    ensures Refines(a, c)
  {
    forall i, j, e, f | 0 <= i < |a| && 0 <= j < |c| && e in a[i] && f in a[i] && e in c[j]
      ensures f in c[j]
    {
      assert InSome(b, e);
      var k :| 0 <= k < |b| && e in b[k];
    }
  }

  /** `x` and `y` are the two non-empty, disjoint, sorted halves of `block`. */
  ghost predicate Splits(block: seq<nat>, x: seq<nat>, y: seq<nat>) {
    Sorted(x) && Sorted(y) && x != [] && y != [] &&
    (forall e :: e in block <==> e in x || e in y) &&
    (forall e :: e in x ==> e !in y)
  }

  /** `parts` with block `k` replaced by `pieces`. */
  function Replace<T>(parts: seq<T>, k: nat, pieces: seq<T>): (r: seq<T>)
    requires k < |parts|
    ensures |r| == |parts| - 1 + |pieces|
    ensures forall i :: 0 <= i < k ==> r[i] == parts[i]
    ensures forall i :: 0 <= i < |pieces| ==> r[k + i] == pieces[i]
    ensures forall i :: k + 1 <= i < |parts| ==> r[i - 1 + |pieces|] == parts[i]
  {
    parts[..k] + pieces + parts[k + 1..]
  }

  /** Moving the head of `b` behind `a` while replacing it by `pieces`. */
  lemma ReplaceHead<T>(a: seq<T>, b: seq<T>, pieces: seq<T>)
    requires |b| >= 1
    ensures (a + b)[|a|] == b[0]
    ensures (a + pieces) + b[1..] == Replace(a + b, |a|, pieces)
    ensures (a + [b[0]]) + b[1..] == a + b
  {
    assert (a + b)[..|a|] == a && (a + b)[|a| + 1..] == b[1..];
    assert b == [b[0]] + b[1..];
  }

  lemma {:induction false} TotalConcat(a: seq<seq<nat>>, b: seq<seq<nat>>)
    ensures Total(a + b) == Total(a) + Total(b)
  {
    if b == [] {
      assert a + b == a;
    } else {
      var b' := b[..|b| - 1];
      TotalConcat(a, b');
      assert (a + b)[..|a + b| - 1] == a + b';
    }
  }

  /** Every block holds at least one id, so there are at most as many blocks as ids. */
  lemma {:induction false} TotalBound(parts: seq<seq<nat>>)
    requires forall i :: 0 <= i < |parts| ==> parts[i] != []
    ensures |parts| <= Total(parts)
  {
    if parts != [] {
      TotalBound(parts[..|parts| - 1]);
    }
  }

  /** The sizes of the two halves add up to the size of the block they split. */
  lemma SplitSizes(block: seq<nat>, x: seq<nat>, y: seq<nat>)
    requires Sorted(block) && Splits(block, x, y)
    ensures |x| + |y| == |block|
  {
    DistinctCard(block);
    DistinctCard(x);
    DistinctCard(y);
    assert Members(block) == Members(x) + Members(y);
    assert Members(x) * Members(y) == {};
  }

  ghost function Members(s: seq<nat>): set<nat> {
    set e | e in s
  }

  /** A sorted sequence has no repetitions, so it has as many members as elements. */
  lemma {:induction false} DistinctCard(s: seq<nat>)
    requires Sorted(s)
    ensures |Members(s)| == |s|
  {
    if s != [] {
      var t := s[..|s| - 1];
      DistinctCard(t);
      assert s == t + [s[|s| - 1]];
      assert s[|s| - 1] !in t;
      assert Members(s) == Members(t) + {s[|s| - 1]};
    }
  }

  /** The block of `parts` that block `i` of `Replace(parts, k, [x, y])` comes from. */
  function Origin(k: nat, i: nat): nat {
    if i <= k then i else i - 1
  }

  /** Each block after the split lies within the block it comes from, and is that block unless it is a half. */
  lemma Within(parts: seq<seq<nat>>, k: nat, x: seq<nat>, y: seq<nat>, i: nat)
    requires k < |parts| && Splits(parts[k], x, y) && i < |parts| + 1
    ensures Origin(k, i) < |parts|
    ensures forall e :: e in Replace(parts, k, [x, y])[i] ==> e in parts[Origin(k, i)]
    ensures i != k && i != k + 1 ==> Replace(parts, k, [x, y])[i] == parts[Origin(k, i)]
    ensures i == k ==> Replace(parts, k, [x, y])[i] == x
    ensures i == k + 1 ==> Replace(parts, k, [x, y])[i] == y
  {
    var r := Replace(parts, k, [x, y]);
    if k + 1 < i {
      assert r[(i - 1) - 1 + 2] == parts[i - 1];
    }
  }

  /** Replacing a block by its two halves keeps a partition. */
  lemma SplitPartition(parts: seq<seq<nat>>, n: nat, k: nat, x: seq<nat>, y: seq<nat>)
    requires Partition(parts, n) && k < |parts| && Splits(parts[k], x, y)
    ensures Partition(Replace(parts, k, [x, y]), n)
  {
    SplitBlocks(parts, n, k, x, y);
    SplitDisjoint(parts, n, k, x, y);
    SplitCovers(parts, n, k, x, y);
  }

  lemma SplitBlocks(parts: seq<seq<nat>>, n: nat, k: nat, x: seq<nat>, y: seq<nat>)
    requires Partition(parts, n) && k < |parts| && Splits(parts[k], x, y)
    ensures var r := Replace(parts, k, [x, y]);
      forall i :: 0 <= i < |r| ==> Sorted(r[i]) && r[i] != [] && forall e :: e in r[i] ==> e < n
  {
    var r := Replace(parts, k, [x, y]);
    forall i | 0 <= i < |r|
      ensures Sorted(r[i]) && r[i] != [] && forall e :: e in r[i] ==> e < n
    {
      Within(parts, k, x, y, i);
    }
  }

  lemma SplitDisjoint(parts: seq<seq<nat>>, n: nat, k: nat, x: seq<nat>, y: seq<nat>)
    requires Partition(parts, n) && k < |parts| && Splits(parts[k], x, y)
    ensures var r := Replace(parts, k, [x, y]);
      forall i, j, e :: 0 <= i < j < |r| && e in r[i] ==> e !in r[j]
  {
    var r := Replace(parts, k, [x, y]);
    forall i, j, e | 0 <= i < j < |r| && e in r[i]
      ensures e !in r[j]
    {
      Within(parts, k, x, y, i);
      Within(parts, k, x, y, j);
      var oi, oj := Origin(k, i), Origin(k, j);
      assert e in parts[oi];
      if oi == oj {
        assert i == k && j == k + 1;
      } else {
        assert e !in parts[oj];
      }
    }
  }

  lemma SplitCovers(parts: seq<seq<nat>>, n: nat, k: nat, x: seq<nat>, y: seq<nat>)
    requires Partition(parts, n) && k < |parts| && Splits(parts[k], x, y)
    ensures forall e :: 0 <= e < n ==> InSome(Replace(parts, k, [x, y]), e)
  {
    var r := Replace(parts, k, [x, y]);
    forall e: nat | e < n
      ensures InSome(r, e)
    {
      assert InSome(parts, e);
      var j :| 0 <= j < |parts| && e in parts[j];
      if j < k {
        Within(parts, k, x, y, j);
        assert e in r[j];
      } else if j == k {
        Within(parts, k, x, y, k);
        Within(parts, k, x, y, k + 1);
        assert e in r[k] || e in r[k + 1];
      } else {
        Within(parts, k, x, y, j + 1);
        assert e in r[j + 1];
      }
    }
  }

  /** The halves of a uniform block are uniform. */
  lemma SplitRespects(parts: seq<seq<nat>>, states: seq<D.DfaState>, k: nat, x: seq<nat>, y: seq<nat>)
    requires Respects(parts, states) && k < |parts| && Splits(parts[k], x, y)
    ensures Respects(Replace(parts, k, [x, y]), states)
  {
    var r := Replace(parts, k, [x, y]);
    forall i, e: nat, f: nat | 0 <= i < |r| && e in r[i] && f in r[i]
      ensures e < |states| && f < |states| && states[e].isMatch == states[f].isMatch
    {
      Within(parts, k, x, y, i);
      var o := Origin(k, i);
      assert Uniform(parts[o], states);
    }
  }

  /** The halves hold the ids of the block they replace: the size of the partition is unchanged. */
  lemma SplitTotal(parts: seq<seq<nat>>, k: nat, x: seq<nat>, y: seq<nat>)
    requires k < |parts| && Sorted(parts[k]) && Splits(parts[k], x, y)
    ensures Total(Replace(parts, k, [x, y])) == Total(parts)
  {
    var a, b := parts[..k], parts[k + 1..];
    Around(parts, k);
    assert Total(parts) == Total(a) + |parts[k]| + Total(b) by {
      TotalThree(a, [parts[k]], b);
      TotalPair(parts[k], []);
    }
    assert Total(Replace(parts, k, [x, y])) == Total(a) + |x| + |y| + Total(b) by {
      TotalThree(a, [x, y], b);
      TotalPair(x, y);
    }
    SplitSizes(parts[k], x, y);
  }

  /** A sequence is its prefix, its element at `k` and its suffix. */
  lemma Around<T>(s: seq<T>, k: nat)
    requires k < |s|
    ensures s == s[..k] + [s[k]] + s[k + 1..]
  {
    assert forall i :: 0 <= i < |s| ==> (s[..k] + [s[k]] + s[k + 1..])[i] == s[i];
  }

  /** The size of a three-way concatenation of block lists is the sum of the sizes. */
  lemma TotalThree(a: seq<seq<nat>>, m: seq<seq<nat>>, b: seq<seq<nat>>)
    ensures Total(a + m + b) == Total(a) + Total(m) + Total(b)
  {
    TotalConcat(a + m, b);
    TotalConcat(a, m);
  }

  /** The halves each lie within the block they replace. */
  lemma SplitRefines(parts: seq<seq<nat>>, n: nat, k: nat, x: seq<nat>, y: seq<nat>)
    requires Partition(parts, n) && k < |parts| && Splits(parts[k], x, y)
    ensures Refines(Replace(parts, k, [x, y]), parts)
  {
    var r := Replace(parts, k, [x, y]);
    forall i, j, e, f | 0 <= i < |r| && 0 <= j < |parts| && e in r[i] && f in r[i] && e in parts[j]
      ensures f in parts[j]
    {
      Within(parts, k, x, y, i);
      OneBlock(parts, n, e, Origin(k, i), j);
    }
  }

  /** In a partition, an id lies in one block only. */
  lemma OneBlock(parts: seq<seq<nat>>, n: nat, e: nat, i: nat, j: nat)
    requires Partition(parts, n) && i < |parts| && j < |parts| && e in parts[i] && e in parts[j]
    ensures i == j
  {
  }

  /** `cur` partitions the states, agrees on matching within blocks, holds every state once and refines `coarse`. */
  ghost predicate Refinement(cur: seq<seq<nat>>, coarse: seq<seq<nat>>, states: seq<D.DfaState>) {
    Partition(cur, |states|) && Respects(cur, states) && Total(cur) == |states| && Refines(cur, coarse)
  }

  /** A block of a refinement is sorted and holds states. */
  lemma RefinementBlock(cur: seq<seq<nat>>, coarse: seq<seq<nat>>, states: seq<D.DfaState>, k: nat)
    requires Refinement(cur, coarse, states) && k < |cur|
    ensures Sorted(cur[k]) && forall e :: e in cur[k] ==> e < |states|
  {
  }

  /** Replacing a block of the current partition by its halves keeps every invariant of `Split`. */
  lemma SplitStep(cur: seq<seq<nat>>, states: seq<D.DfaState>, k: nat, x: seq<nat>, y: seq<nat>, coarse: seq<seq<nat>>)
    requires Refinement(cur, coarse, states) && k < |cur| && Splits(cur[k], x, y)
    ensures Refinement(Replace(cur, k, [x, y]), coarse, states)
  {
    SplitPartition(cur, |states|, k, x, y);
    SplitRespects(cur, states, k, x, y);
    SplitTotal(cur, k, x, y);
    SplitRefines(cur, |states|, k, x, y);
    RefinesTrans(Replace(cur, k, [x, y]), cur, coarse, |states|);
  }

  /** Keeping the next unvisited block as it is keeps the refinement, read with the block moved over. */
  lemma KeepNext(done: seq<seq<nat>>, rest: seq<seq<nat>>, coarse: seq<seq<nat>>, states: seq<D.DfaState>)
    requires |rest| >= 1 && Refinement(done + rest, coarse, states)
    ensures Sorted(rest[0]) && forall e :: e in rest[0] ==> e < |states|
    ensures Refinement((done + [rest[0]]) + rest[1..], coarse, states)
  {
    ReplaceHead(done, rest, [rest[0]]);
    RefinementBlock(done + rest, coarse, states, |done|);
  }

  /** Splitting the next unvisited block into two halves keeps the refinement. */
  lemma SplitNext(done: seq<seq<nat>>, rest: seq<seq<nat>>, coarse: seq<seq<nat>>, states: seq<D.DfaState>, x: seq<nat>, y: seq<nat>)
    requires |rest| >= 1 && Refinement(done + rest, coarse, states) && Splits(rest[0], x, y)
    ensures Refinement((done + [x, y]) + rest[1..], coarse, states)
  {
    ReplaceHead(done, rest, [x, y]);
    SplitStep(done + rest, states, |done|, x, y, coarse);
  }
}
