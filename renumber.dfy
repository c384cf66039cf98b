/**
 * The last phase of minimization: every state is sent to the first (and
 * smallest) member of its block, the representatives are numbered in
 * increasing order, and each representative's transitions are rewritten
 * to the new numbers.
 */
module Renumberings {
  import opened StateSets
  import opened Partitions
  import D = Dfas

  /** `stp` sends every id below `n` to the first member of its block. */
  ghost predicate FirstOf(parts: seq<seq<nat>>, stp: seq<nat>, n: nat) {
    |stp| == n && forall i, e :: 0 <= i < |parts| && e in parts[i] ==> e < n && stp[e] == parts[i][0]
  }

  /** Each id is sent to an id no larger than itself that is sent to itself. */
  ghost predicate Canonical(stp: seq<nat>) {
    forall e :: 0 <= e < |stp| ==> stp[e] <= e && stp[stp[e]] == stp[e]
  }

  /** Record, for every member of every block, the block's first member. */
  method StateToPart(parts: seq<seq<nat>>, n: nat) returns (stp: seq<nat>)
    requires Partition(parts, n)
    ensures FirstOf(parts, stp, n)
  {
    stp := seq(n, _ => D.DEAD);
    var p := 0;
    while p < |parts|
      invariant p <= |parts| && |stp| == n
      invariant forall i, e :: 0 <= i < p && e in parts[i] ==> stp[e] == parts[i][0]
    {
      stp := MarkBlock(parts, n, p, stp);
      p := p + 1;
    }
  }

  /** Send every member of block `p` to its first member, leaving the other blocks' entries alone. */
  method MarkBlock(parts: seq<seq<nat>>, n: nat, p: nat, stp: seq<nat>) returns (stp': seq<nat>)
    requires Partition(parts, n) && p < |parts| && |stp| == n
    requires forall i, e :: 0 <= i < p && e in parts[i] ==> stp[e] == parts[i][0]
    ensures |stp'| == n
    ensures forall i, e :: 0 <= i <= p && e in parts[i] ==> stp'[e] == parts[i][0]
  {
    var block := parts[p];
    stp' := stp;
    var k := 0;
    while k < |block|
      invariant k <= |block| && |stp'| == n
      invariant forall i, e :: 0 <= i < p && e in parts[i] ==> stp'[e] == parts[i][0]
      invariant forall e :: e in block[..k] ==> e < n && stp'[e] == block[0]
    {
      var id := block[k];
      assert id in parts[p];
      assert block[..k + 1] == block[..k] + [id];
      stp' := stp'[id := block[0]];
      k := k + 1;
    }
    assert block[..k] == block;
  }

  /** The first member of a sorted block is its smallest. */
  lemma FirstIsLeast(block: seq<nat>, e: nat)
    requires Sorted(block) && e in block
    ensures block[0] <= e
  {
  }

  /** Sending every id to the first member of its block is canonical. */
  lemma FirstOfCanonical(parts: seq<seq<nat>>, stp: seq<nat>, n: nat)
    requires Partition(parts, n) && FirstOf(parts, stp, n)
    ensures Canonical(stp)
  {
    forall e | 0 <= e < n
      ensures stp[e] <= e && stp[stp[e]] == stp[e]
    {
      assert InSome(parts, e);
      var i :| 0 <= i < |parts| && e in parts[i];
      FirstIsLeast(parts[i], e);
      assert parts[i][0] in parts[i];
    }
  }

  /** Two ids are sent to the same id exactly when they share a block. */
  lemma FirstOfSame(parts: seq<seq<nat>>, stp: seq<nat>, n: nat, s: nat, t: nat)
    requires Partition(parts, n) && FirstOf(parts, stp, n) && s < n && t < n
    ensures stp[s] == stp[t] <==> SameBlock(parts, s, t)
  {
    assert InSome(parts, s) && InSome(parts, t);
    var i :| 0 <= i < |parts| && s in parts[i];
    var j :| 0 <= j < |parts| && t in parts[j];
    assert parts[i][0] in parts[i] && parts[j][0] in parts[j];
    if i < j {
      assert parts[i][0] !in parts[j];
    } else if j < i {
      assert parts[j][0] !in parts[i];
    }
  }

  /** Some block holds both `s` and `t`. */
  ghost predicate SameBlock(parts: seq<seq<nat>>, s: nat, t: nat) {
    exists i :: 0 <= i < |parts| && s in parts[i] && t in parts[i]
  }

  /** The number of ids below `k` that are sent to themselves. */
  function RepCount(stp: seq<nat>, k: nat): nat
    requires k <= |stp|
  {
    if k == 0 then 0 else RepCount(stp, k - 1) + (if stp[k - 1] == k - 1 then 1 else 0)
  }

  /** Number the ids sent to themselves `0, 1, ...` in increasing order, and send the others to 0. */
  method MinimalIds(stp: seq<nat>) returns (mids: seq<nat>, count: nat)
    ensures |mids| == |stp| && count == RepCount(stp, |stp|)
    ensures forall r :: 0 <= r < |stp| ==> mids[r] == if stp[r] == r then RepCount(stp, r) else D.DEAD
  {
    mids := seq(|stp|, _ => D.DEAD);
    count := 0;
    var id := 0;
    while id < |stp|
      invariant id <= |stp| && |mids| == |stp| && count == RepCount(stp, id)
      invariant forall r :: 0 <= r < id ==> mids[r] == if stp[r] == r then RepCount(stp, r) else D.DEAD
      invariant forall r :: id <= r < |stp| ==> mids[r] == D.DEAD
    {
      if stp[id] == id {
        mids := mids[id := count];
        count := count + 1;
      }
      id := id + 1;
    }
  }

  /** There are no more representatives below `k` than ids, nor fewer below a larger bound. */
  lemma {:induction false} RepCountBounds(stp: seq<nat>, j: nat, k: nat)
    requires j <= k <= |stp|
    ensures RepCount(stp, j) <= RepCount(stp, k) <= RepCount(stp, j) + (k - j)
    decreases k - j
  {
    if j < k {
      RepCountBounds(stp, j, k - 1);
    }
  }

  /** A representative below `k` is numbered below the count up to `k`, and representatives keep their order. */
  lemma RepCountStrict(stp: seq<nat>, r: nat, k: nat)
    requires r < k <= |stp| && stp[r] == r
    ensures RepCount(stp, r) < RepCount(stp, k)
    ensures RepCount(stp, r) <= r
  {
    RepCountBounds(stp, r + 1, k);
    RepCountBounds(stp, 0, r);
  }

  /** Every number below the count up to `m` is the number of a representative below `m`. */
  lemma {:induction false} RepCountOnto(stp: seq<nat>, m: nat, c: nat)
    requires m <= |stp| && c < RepCount(stp, m)
    ensures exists r :: 0 <= r < m && stp[r] == r && RepCount(stp, r) == c
  {
    if c < RepCount(stp, m - 1) {
      RepCountOnto(stp, m - 1, c);
    } else {
      assert stp[m - 1] == m - 1 && RepCount(stp, m - 1) == c;
    }
  }

  /** The new id of every old state. */
  predicate Numbering(stp: seq<nat>, mids: seq<nat>, classOf: seq<nat>) {
    |stp| == |mids| == |classOf| &&
    forall s :: 0 <= s < |classOf| ==> stp[s] < |mids| && classOf[s] == mids[stp[s]]
  }

  /** `t` is `s` with every transition sent to its new id. */
  predicate Renames(t: D.DfaState, s: D.DfaState, classOf: seq<nat>) {
    t.isMatch == s.isMatch && |t.transitions| == |s.transitions| == D.ALPHABET_SIZE &&
    forall b :: 0 <= b < D.ALPHABET_SIZE ==> s.transitions[b] < |classOf| && t.transitions[b] == classOf[s.transitions[b]]
  }

  /**
   * The numbering is onto `0..count` and sends every id below a
   * representative's number, so a representative's renamed state has its
   * transitions below `count`.
   */
  lemma NewIdsBelow(stp: seq<nat>, mids: seq<nat>, classOf: seq<nat>, count: nat)
    requires Canonical(stp) && Numbering(stp, mids, classOf) && count == RepCount(stp, |stp|)
    requires forall r :: 0 <= r < |stp| && stp[r] == r ==> mids[r] == RepCount(stp, r)
    ensures forall s :: 0 <= s < |classOf| ==> classOf[s] < count
  {
    forall s | 0 <= s < |classOf|
      ensures classOf[s] < count
    {
      RepCountStrict(stp, stp[s], |stp|);
    }
  }

  /** The two ids map to the same new id exactly when they map to the same representative. */
  lemma NumberingSame(stp: seq<nat>, mids: seq<nat>, classOf: seq<nat>, s: nat, t: nat)
    requires Canonical(stp) && Numbering(stp, mids, classOf) && s < |classOf| && t < |classOf|
    requires forall r :: 0 <= r < |stp| && stp[r] == r ==> mids[r] == RepCount(stp, r)
    ensures classOf[s] == classOf[t] <==> stp[s] == stp[t]
  {
    if stp[s] < stp[t] {
      RepCountStrict(stp, stp[s], stp[t]);
    } else if stp[t] < stp[s] {
      RepCountStrict(stp, stp[t], stp[s]);
    }
  }

  /** A block's first member agrees on matching with every member. */
  lemma FirstOfMatch(parts: seq<seq<nat>>, stp: seq<nat>, states: seq<D.DfaState>)
    requires Partition(parts, |states|) && Respects(parts, states) && FirstOf(parts, stp, |states|)
    ensures forall s :: 0 <= s < |states| ==> stp[s] < |states| && states[stp[s]].isMatch == states[s].isMatch
  {
    forall s | 0 <= s < |states|
      ensures stp[s] < |states| && states[stp[s]].isMatch == states[s].isMatch
    {
      assert InSome(parts, s);
      var i :| 0 <= i < |parts| && s in parts[i];
      assert parts[i][0] in parts[i] && Uniform(parts[i], states);
    }
  }

  /** Some state matches. */
  ghost predicate HasMatch(states: seq<D.DfaState>) {
    exists s :: 0 <= s < |states| && states[s].isMatch
  }

  /**
   * `s1` is the table the renumbering leaves: the renamed state of every
   * representative `r` sits at its new id `mids[r]`, and nothing else.
   */
  ghost predicate Placed(s0: seq<D.DfaState>, s1: seq<D.DfaState>, stp: seq<nat>, mids: seq<nat>, classOf: seq<nat>) {
    D.WellFormed(s0) && |s0| == |stp| && Canonical(stp) && Numbering(stp, mids, classOf) &&
    (forall r :: 0 <= r < |stp| && stp[r] == r ==> mids[r] == RepCount(stp, r)) &&
    |s1| == RepCount(stp, |stp|) &&
    forall r :: 0 <= r < |stp| && stp[r] == r ==> mids[r] < |s1| && Renames(s1[mids[r]], s0[r], classOf)
  }

  /** The representatives below `id` sit renamed at their new ids in `cur`. */
  ghost predicate PlacedBelow(s0: seq<D.DfaState>, cur: seq<D.DfaState>, stp: seq<nat>, mids: seq<nat>, classOf: seq<nat>, id: nat) {
    id <= |stp| == |mids| &&
    forall r :: 0 <= r < id && stp[r] == r ==> mids[r] < |cur| && r < |s0| && Renames(cur[mids[r]], s0[r], classOf)
  }

  /** An id that is not a representative places nothing. */
  lemma PlacedBelowSkip(s0: seq<D.DfaState>, cur: seq<D.DfaState>, stp: seq<nat>, mids: seq<nat>, classOf: seq<nat>, id: nat)
    requires PlacedBelow(s0, cur, stp, mids, classOf, id) && id < |stp| && stp[id] != id
    ensures PlacedBelow(s0, cur, stp, mids, classOf, id + 1)
  {
  }

  /**
   * Renaming representative `id` in place (`c0` to `c1`) and swapping it
   * into its new id, which is at most `id` and above the new id of every
   * earlier representative, places it without moving those.
   */
  lemma PlaceStep(s0: seq<D.DfaState>, c0: seq<D.DfaState>, c1: seq<D.DfaState>, stp: seq<nat>, mids: seq<nat>, classOf: seq<nat>, id: nat)
    requires PlacedBelow(s0, c0, stp, mids, classOf, id) && id < |stp| == |c0| == |c1| == |s0| && stp[id] == id
    requires forall r :: 0 <= r < |stp| && stp[r] == r ==> mids[r] == RepCount(stp, r)
    requires forall j :: 0 <= j < |c1| && j != id ==> c1[j] == c0[j]
    requires Renames(c1[id], s0[id], classOf)
    ensures mids[id] <= id
    ensures PlacedBelow(s0, c1[id := c1[mids[id]]][mids[id] := c1[id]], stp, mids, classOf, id + 1)
  {
    var m := mids[id];
    RepCountStrict(stp, id, |stp|);
    var c2 := c1[id := c1[m]][m := c1[id]];
    forall r | 0 <= r < id + 1 && stp[r] == r
      ensures mids[r] < |c2| && r < |s0| && Renames(c2[mids[r]], s0[r], classOf)
    {
      if r < id {
        RepCountStrict(stp, r, id);
        assert mids[r] < m;
        assert c2[mids[r]] == c0[mids[r]];
      } else {
        assert c2[m] == c1[id];
      }
    }
  }

  /** Every old state's new id is a position of the new table holding its representative's renamed state. */
  lemma PlacedClass(s0: seq<D.DfaState>, s1: seq<D.DfaState>, stp: seq<nat>, mids: seq<nat>, classOf: seq<nat>, s: nat)
    requires Placed(s0, s1, stp, mids, classOf) && s < |s0|
    ensures classOf[s] < |s1| && Renames(s1[classOf[s]], s0[stp[s]], classOf)
  {
  }

  /** `t`, at position `k` of the new table, is an old state of class `k` with renamed transitions. */
  ghost predicate Source(s0: seq<D.DfaState>, t: D.DfaState, k: nat, classOf: seq<nat>) {
    exists s :: 0 <= s < |s0| && s < |classOf| && classOf[s] == k && Renames(t, s0[s], classOf)
  }

  /** Every position of the new table holds the renamed state of a representative. */
  lemma PlacedOnto(s0: seq<D.DfaState>, s1: seq<D.DfaState>, stp: seq<nat>, mids: seq<nat>, classOf: seq<nat>)
    requires Placed(s0, s1, stp, mids, classOf)
    ensures forall k :: 0 <= k < |s1| ==> Source(s0, s1[k], k, classOf)
  {
    forall k | 0 <= k < |s1|
      ensures Source(s0, s1[k], k, classOf)
    {
      var r := PlacedAt(s0, s1, stp, mids, classOf, k);
    }
  }

  /** The representative whose renamed state sits at position `k`. */
  lemma PlacedAt(s0: seq<D.DfaState>, s1: seq<D.DfaState>, stp: seq<nat>, mids: seq<nat>, classOf: seq<nat>, k: nat)
    returns (r: nat)
    requires Placed(s0, s1, stp, mids, classOf) && k < |s1|
    ensures r < |s0| && classOf[r] == k && Renames(s1[k], s0[r], classOf)
  {
    RepCountOnto(stp, |stp|, k);
    r :| 0 <= r < |stp| && stp[r] == r && RepCount(stp, r) == k;
  }

  /** The transitions of the new table stay within it. */
  lemma PlacedWellFormed(s0: seq<D.DfaState>, s1: seq<D.DfaState>, stp: seq<nat>, mids: seq<nat>, classOf: seq<nat>)
    requires Placed(s0, s1, stp, mids, classOf)
    ensures D.WellFormed(s1)
  {
    NewIdsBelow(stp, mids, classOf, |s1|);
    forall k | 0 <= k < |s1|
      ensures D.StateOk(s1[k], |s1|)
    {
      var r := PlacedAt(s0, s1, stp, mids, classOf, k);
    }
  }

  /** The dead state, the first representative, is renamed to itself and stays dead. */
  lemma PlacedDead(s0: seq<D.DfaState>, s1: seq<D.DfaState>, stp: seq<nat>, mids: seq<nat>, classOf: seq<nat>)
    requires Placed(s0, s1, stp, mids, classOf) && |s0| >= 1 && s0[0] == D.EmptyState()
    ensures |s1| >= 1 && s1[0] == D.EmptyState()
  {
    RepCountStrict(stp, 0, |stp|);
    assert classOf[0] == 0;
    assert s1[0].transitions == D.EmptyState().transitions;
  }

  /** With a non-matching state 0 and a matching state, there are two representatives. */
  lemma TwoReps(stp: seq<nat>, s: nat)
    requires Canonical(stp) && s < |stp| && stp[s] != 0
    ensures RepCount(stp, |stp|) >= 2
  {
    RepCountStrict(stp, 0, stp[s]);
    RepCountStrict(stp, stp[s], |stp|);
  }

  /**
   * What minimization leaves: `s1` is well formed and no larger than `s0`;
   * `classOf` sends every old state to a new state that agrees on
   * matching, two old states to the same one exactly when they share a
   * block of `parts`, and onto the new table, each new state being an old
   * member of its class with renamed transitions; the dead state stays
   * dead, and a table with a non-matching state 0 and a matching state
   * keeps at least two states.
   */
  ghost predicate Quotient(s0: seq<D.DfaState>, s1: seq<D.DfaState>, classOf: seq<nat>, parts: seq<seq<nat>>) {
    D.WellFormed(s0) && D.WellFormed(s1) && |s1| <= |s0| && |classOf| == |s0| &&
    Partition(parts, |s0|) && Respects(parts, s0) &&
    (forall s :: 0 <= s < |s0| ==> classOf[s] < |s1| && s1[classOf[s]].isMatch == s0[s].isMatch) &&
    (forall s, t :: 0 <= s < |s0| && 0 <= t < |s0| ==> (classOf[s] == classOf[t] <==> SameBlock(parts, s, t))) &&
    (forall k :: 0 <= k < |s1| ==> Source(s0, s1[k], k, classOf)) &&
    (|s0| >= 1 && s0[0] == D.EmptyState() ==> |s1| >= 1 && s1[0] == D.EmptyState()) &&
    (HasMatch(s0) && |s0| >= 1 && !s0[0].isMatch ==> |s1| >= 2)
  }

  /** The table the renumbering leaves is the quotient of the old one by the blocks. */
  lemma PlacedQuotient(s0: seq<D.DfaState>, s1: seq<D.DfaState>, stp: seq<nat>, mids: seq<nat>, classOf: seq<nat>, parts: seq<seq<nat>>)
    requires Placed(s0, s1, stp, mids, classOf)
    requires Partition(parts, |s0|) && Respects(parts, s0) && FirstOf(parts, stp, |s0|)
    ensures Quotient(s0, s1, classOf, parts)
  {
    RepCountBounds(stp, 0, |stp|);
    PlacedOnto(s0, s1, stp, mids, classOf);
    PlacedWellFormed(s0, s1, stp, mids, classOf);
    FirstOfMatch(parts, stp, s0);
    forall s | 0 <= s < |s0|
      ensures classOf[s] < |s1| && s1[classOf[s]].isMatch == s0[s].isMatch
    {
      PlacedClass(s0, s1, stp, mids, classOf, s);
    }
    forall s, t | 0 <= s < |s0| && 0 <= t < |s0|
      ensures classOf[s] == classOf[t] <==> SameBlock(parts, s, t)
    {
      NumberingSame(stp, mids, classOf, s, t);
      FirstOfSame(parts, stp, |s0|, s, t);
    }
    if |s0| >= 1 && s0[0] == D.EmptyState() {
      PlacedDead(s0, s1, stp, mids, classOf);
    }
    if HasMatch(s0) && |s0| >= 1 && !s0[0].isMatch {
      var s :| 0 <= s < |s0| && s0[s].isMatch;
      TwoReps(stp, s);
    }
  }
}
