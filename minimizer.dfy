/**
 * Minimization of a DFA by partition refinement (Hopcroft's algorithm):
 * the states start out split into matching and non-matching blocks; each
 * block on the waiting list splits every block against the states that
 * move into it on some byte; finally each block is replaced by its first,
 * smallest member and the state table is renumbered, compacted in place
 * and truncated.
 */
module Minimizers {
  import opened Wrappers
  import opened StateSets
  import opened Partitions
  import opened Renumberings
  import D = Dfas

  // ---------------------------------------------------------------------------
  // The inverse-transition index

  /** The ids `s < n`, in increasing order, whose transition on `b` leads to `t`. */
  function Into(states: seq<D.DfaState>, n: nat, b: nat, t: nat): seq<nat>
    requires D.WellFormed(states) && n <= |states| && b < D.ALPHABET_SIZE
  {
    if n == 0 then []
    else Into(states, n - 1, b, t) + (if states[n - 1].transitions[b] == t then [n - 1] else [])
  }

  lemma {:induction false} IntoIff(states: seq<D.DfaState>, n: nat, b: nat, t: nat)
    requires D.WellFormed(states) && n <= |states| && b < D.ALPHABET_SIZE
    ensures Sorted(Into(states, n, b, t))
    ensures forall s: nat {:trigger s in Into(states, n, b, t)} :: s in Into(states, n, b, t) <==> s < n && states[s].transitions[b] == t
  {
    if n > 0 {
      IntoIff(states, n - 1, b, t);
      SortedSnoc(Into(states, n - 1, b, t), n - 1);
    }
  }

  /** `incoming[t][b]` lists, in increasing order, exactly the states that move to `t` on `b`. */
  ghost predicate IsIncoming(states: seq<D.DfaState>, incoming: seq<seq<seq<nat>>>) {
    D.WellFormed(states) && |incoming| == |states| &&
    (forall t :: 0 <= t < |states| ==> |incoming[t]| == D.ALPHABET_SIZE) &&
    (forall t, b :: 0 <= t < |states| && 0 <= b < D.ALPHABET_SIZE ==> Sorted(incoming[t][b])) &&
    forall t, b, s: nat :: 0 <= t < |states| && 0 <= b < D.ALPHABET_SIZE ==>
      (s in incoming[t][b] <==> s < |states| && states[s].transitions[b] == t)
  }

  /** The sources of `t` on `b` in the index. */
  lemma IncomingAt(states: seq<D.DfaState>, incoming: seq<seq<seq<nat>>>, t: nat, b: nat)
    requires IsIncoming(states, incoming) && t < |states| && b < D.ALPHABET_SIZE
    ensures forall s: nat :: s in incoming[t][b] <==> s < |states| && states[s].transitions[b] == t
  {
  }

  /** Build the inverse-transition index by visiting the transitions of every state in order. */
  method IncomingTransitions(states: seq<D.DfaState>) returns (incoming: seq<seq<seq<nat>>>)
    requires D.WellFormed(states)
    ensures IsIncoming(states, incoming)
  {
    var n := |states|;
    incoming := seq(n, _ => seq(D.ALPHABET_SIZE, _ => []));
    var i := 0;
    while i < n
      invariant 0 <= i <= n && |incoming| == n
      invariant forall t :: 0 <= t < n ==> |incoming[t]| == D.ALPHABET_SIZE
      invariant forall t, c :: 0 <= t < n && 0 <= c < D.ALPHABET_SIZE ==> incoming[t][c] == Into(states, i, c, t)
    {
      incoming := AddSources(states, incoming, i);
      i := i + 1;
    }
    forall t, c | 0 <= t < n && 0 <= c < D.ALPHABET_SIZE
      ensures Sorted(incoming[t][c]) && forall s: nat :: s in incoming[t][c] <==> s < n && states[s].transitions[c] == t
    {
      IntoIff(states, n, c, t);
    }
  }

  /** Record state `i` as a source of each of its 256 transitions. */
  method AddSources(states: seq<D.DfaState>, incoming: seq<seq<seq<nat>>>, i: nat) returns (incoming': seq<seq<seq<nat>>>)
    requires D.WellFormed(states) && i < |states| && |incoming| == |states|
    requires forall t :: 0 <= t < |states| ==> |incoming[t]| == D.ALPHABET_SIZE
    requires forall t, c :: 0 <= t < |states| && 0 <= c < D.ALPHABET_SIZE ==> incoming[t][c] == Into(states, i, c, t)
    ensures |incoming'| == |states|
    ensures forall t :: 0 <= t < |states| ==> |incoming'[t]| == D.ALPHABET_SIZE
    ensures forall t, c :: 0 <= t < |states| && 0 <= c < D.ALPHABET_SIZE ==> incoming'[t][c] == Into(states, i + 1, c, t)
  {
    incoming' := incoming;
    var b := 0;
    while b < D.ALPHABET_SIZE
      invariant 0 <= b <= D.ALPHABET_SIZE && |incoming'| == |states|
      invariant forall t :: 0 <= t < |states| ==> |incoming'[t]| == D.ALPHABET_SIZE
      invariant forall t, c :: 0 <= t < |states| && 0 <= c < D.ALPHABET_SIZE ==>
        incoming'[t][c] == Into(states, if c < b then i + 1 else i, c, t)
    {
      var next := states[i].transitions[b];
      assert D.StateOk(states[i], |states|);
      incoming' := incoming'[next := incoming'[next][b := incoming'[next][b] + [i]]];
      b := b + 1;
    }
  }

  // ---------------------------------------------------------------------------
  // Partitions

  /** The ids `s < n`, in increasing order, whose matching flag is `m`. */
  function Matching(states: seq<D.DfaState>, n: nat, m: bool): seq<nat>
    requires n <= |states|
  {
    if n == 0 then []
    else Matching(states, n - 1, m) + (if states[n - 1].isMatch == m then [n - 1] else [])
  }

  lemma {:induction false} MatchingIff(states: seq<D.DfaState>, n: nat, m: bool)
    requires n <= |states|
    ensures Sorted(Matching(states, n, m))
    ensures forall s: nat {:trigger s in Matching(states, n, m)} :: s in Matching(states, n, m) <==> s < n && states[s].isMatch == m
  {
    if n > 0 {
      MatchingIff(states, n - 1, m);
      SortedSnoc(Matching(states, n - 1, m), n - 1);
    }
  }

  /** Every id below `n` is in exactly one of the two lists. */
  lemma {:induction false} MatchingSizes(states: seq<D.DfaState>, n: nat)
    requires n <= |states|
    ensures |Matching(states, n, true)| + |Matching(states, n, false)| == n
  {
    if n > 0 {
      MatchingSizes(states, n - 1);
    }
  }

  /**
   * The states with matching flag `first` and then the others form a
   * partition of two blocks, or of one when there are no others.
   */
  lemma TwoBlocks(states: seq<D.DfaState>, first: bool)
    requires Matching(states, |states|, first) != []
    ensures var a, b := Matching(states, |states|, first), Matching(states, |states|, !first);
      (b != [] ==> Partition([a, b], |states|) && Total([a, b]) == |states|) &&
      (b == [] ==> Partition([a], |states|) && Total([a]) == |states|)
  {
    var a, b := Matching(states, |states|, first), Matching(states, |states|, !first);
    MatchingIff(states, |states|, true);
    MatchingIff(states, |states|, false);
    MatchingSizes(states, |states|);
    assert forall x: nat :: x < |states| ==> x in a || x in b;
    PairPartition(a, b, |states|);
    TotalPair(a, b);
  }

  /** Both blocks of the initial partition are uniform in the matching flag. */
  lemma TwoBlocksRespect(states: seq<D.DfaState>, matchFirst: bool)
    ensures var a, b := Matching(states, |states|, matchFirst), Matching(states, |states|, !matchFirst);
      Respects([a], states) && Respects([a, b], states)
  {
    var a, b := Matching(states, |states|, matchFirst), Matching(states, |states|, !matchFirst);
    MatchingIff(states, |states|, matchFirst);
    MatchingIff(states, |states|, !matchFirst);
    PairRespects(states, a, b, matchFirst, !matchFirst);
  }

  /**
   * The matching block then the non-matching one, left out when empty, in
   * increasing order of size (the sort is stable).
   */
  method InitialPartitions(states: seq<D.DfaState>) returns (r: Option<seq<seq<nat>>>)
    ensures r.None? <==> forall s :: 0 <= s < |states| ==> !states[s].isMatch
    ensures r.Some? ==> Partition(r.value, |states|) && Respects(r.value, states) && Total(r.value) == |states|
    ensures r.Some? ==> 1 <= |r.value| <= 2 && (|r.value| == 2 ==> |r.value[0]| <= |r.value[1]|)
    ensures r.Some? ==> Matching(states, |states|, true) in r.value
  {
    var isMatch: seq<nat>, noMatch: seq<nat> := [], [];
    var i := 0;
    while i < |states|
      invariant 0 <= i <= |states|
      invariant isMatch == Matching(states, i, true) && noMatch == Matching(states, i, false)
    {
      if states[i].isMatch {
        isMatch := isMatch + [i];
      } else {
        noMatch := noMatch + [i];
      }
      i := i + 1;
    }
    if isMatch == [] {
      MatchingIff(states, |states|, true);
      forall s | 0 <= s < |states|
        ensures !states[s].isMatch
      {
        assert s !in Matching(states, |states|, true);
      }
      return None;
    }
    MatchingIff(states, |states|, true);
    assert isMatch[0] in isMatch;
    var sets := [isMatch];
    if noMatch != [] {
      // Sorting the two blocks by size puts the non-matching one first only when it is smaller.
      sets := if |noMatch| < |isMatch| then [noMatch, isMatch] else [isMatch, noMatch];
    }
    InitialBlocks(states, sets);
    r := Some(sets);
  }

  /** The blocks `InitialPartitions` returns form a partition that respects the matching flag. */
  lemma InitialBlocks(states: seq<D.DfaState>, parts: seq<seq<nat>>)
    requires var m, u := Matching(states, |states|, true), Matching(states, |states|, false);
      m != [] && parts == if u == [] then [m] else if |u| < |m| then [u, m] else [m, u]
    ensures Partition(parts, |states|) && Respects(parts, states) && Total(parts) == |states|
  {
    var m, u := Matching(states, |states|, true), Matching(states, |states|, false);
    var first := u == [] || |m| <= |u|;
    TwoBlocks(states, first);
    TwoBlocksRespect(states, first);
  }

  /** The index of the first entry of `ws` equal to `s`, if any. */
  function Position(ws: seq<seq<nat>>, s: seq<nat>): (r: Option<nat>)
    ensures r.Some? ==> r.value < |ws| && ws[r.value] == s && forall j :: 0 <= j < r.value ==> ws[j] != s
    ensures r.None? ==> forall j :: 0 <= j < |ws| ==> ws[j] != s
  {
    if ws == [] then None
    else if ws[0] == s then Some(0)
    else match Position(ws[1..], s) {
      case None => None
      case Some(i) => Some(i + 1)
    }
  }

  /** Every id in the waiting sets is a state. */
  ghost predicate Bounded(waiting: seq<seq<nat>>, n: nat) {
    forall w, e :: 0 <= w < |waiting| && e in waiting[w] ==> e < n
  }

  /** What one pass of the splitting loop puts in place of `block`: its two halves when both are non-empty, else the block. */
  function Pieces(block: seq<nat>, incoming: seq<nat>): seq<seq<nat>> {
    var x, y := Filter(block, incoming, true), Filter(block, incoming, false);
    if x == [] || y == [] then [block] else [x, y]
  }

  /** The blocks after splitting every block of `parts` against `incoming`, in order. */
  function Refined(parts: seq<seq<nat>>, incoming: seq<nat>): seq<seq<nat>> {
    if parts == [] then []
    else Refined(parts[..|parts| - 1], incoming) + Pieces(parts[|parts| - 1], incoming)
  }

  /**
   * The waiting list after `block` split into `x` and `y`: a waiting copy
   * of the block is replaced by `x` and `y` is appended; otherwise the
   * smaller half is appended, `x` on a tie.
   */
  function Queued(ws: seq<seq<nat>>, block: seq<nat>, x: seq<nat>, y: seq<nat>): seq<seq<nat>> {
    match Position(ws, block)
    case Some(i) => ws[i := x] + [y]
    case None => ws + [if |x| <= |y| then x else y]
  }

  /** The waiting list after splitting every block of `parts` against `incoming`, starting from `ws`. */
  function SplitWaiting(parts: seq<seq<nat>>, incoming: seq<nat>, ws: seq<seq<nat>>): seq<seq<nat>> {
    if parts == [] then ws
    else
      var w, block := SplitWaiting(parts[..|parts| - 1], incoming, ws), parts[|parts| - 1];
      var x, y := Filter(block, incoming, true), Filter(block, incoming, false);
      if x == [] || y == [] then w else Queued(w, block, x, y)
  }

  /**
   * A sorted block stays whole exactly when it lies inside `incoming` or
   * outside it; otherwise it splits into the two halves.
   */
  lemma PiecesIff(block: seq<nat>, incoming: seq<nat>)
    requires Sorted(block)
    ensures Pieces(block, incoming) == [block] <==>
            (forall e :: e in block ==> e in incoming) || (forall e :: e in block ==> e !in incoming)
    ensures Pieces(block, incoming) != [block] ==>
            Splits(block, Filter(block, incoming, true), Filter(block, incoming, false))
  {
    var x, y := Filter(block, incoming, true), Filter(block, incoming, false);
    FilterIff(block, incoming, true);
    FilterIff(block, incoming, false);
    if x != [] && y != [] {
      assert x[0] in x && y[0] in y;
      assert |Pieces(block, incoming)| == 2;
      assert Splits(block, x, y);
    } else if x != [] {
      assert forall e :: e in block ==> e !in y;
    } else {
      assert forall e :: e in block ==> e !in x;
    }
  }

  /** `Splitting` over plain values. */
  ghost predicate SplitState(parts: seq<seq<nat>>, states: seq<D.DfaState>, newparts: seq<seq<nat>>, p: nat,
                             waiting: seq<seq<nat>>, w0: seq<seq<nat>>, incoming: seq<nat>) {
    p <= |parts| && p <= |newparts| &&
    Refinement(newparts + parts[p..], parts, states) &&
    newparts == Refined(parts[..p], incoming) && waiting == SplitWaiting(parts[..p], incoming, w0) &&
    |waiting| + |parts| == |w0| + |newparts| + |parts| - p
  }

  /** Before the first block, nothing is split. */
  lemma SplitStart(parts: seq<seq<nat>>, states: seq<D.DfaState>, w0: seq<seq<nat>>, incoming: seq<nat>)
    requires Partition(parts, |states|) && Respects(parts, states) && Total(parts) == |states|
    ensures SplitState(parts, states, [], 0, w0, w0, incoming)
  {
    RefinesRefl(parts, |states|);
    assert [] + parts[0..] == parts && parts[..0] == [];
  }

  /** After the last block, the new blocks are the refined partition. */
  lemma SplitEnd(parts: seq<seq<nat>>, states: seq<D.DfaState>, newparts: seq<seq<nat>>,
                 waiting: seq<seq<nat>>, w0: seq<seq<nat>>, incoming: seq<nat>)
    requires SplitState(parts, states, newparts, |parts|, waiting, w0, incoming)
    ensures Refinement(newparts, parts, states) && |parts| <= |newparts|
    ensures newparts == Refined(parts, incoming) && waiting == SplitWaiting(parts, incoming, w0)
    ensures |waiting| + |parts| == |w0| + |newparts|
  {
    assert newparts + parts[|parts|..] == newparts && parts[..|parts|] == parts;
  }

  /** The next block to split is sorted and holds states. */
  lemma SplitBlock(parts: seq<seq<nat>>, states: seq<D.DfaState>, newparts: seq<seq<nat>>, p: nat,
                   waiting: seq<seq<nat>>, w0: seq<seq<nat>>, incoming: seq<nat>)
    requires SplitState(parts, states, newparts, p, waiting, w0, incoming) && p < |parts|
    ensures Sorted(parts[p]) && forall e :: e in parts[p] ==> e < |states|
  {
    var rest := parts[p..];
    assert rest[0] == parts[p];
    KeepNext(newparts, rest, parts, states);
  }

  /** A block that does not split is carried over, and the waiting list stays. */
  lemma SplitKeep(parts: seq<seq<nat>>, states: seq<D.DfaState>, newparts: seq<seq<nat>>, p: nat,
                  waiting: seq<seq<nat>>, w0: seq<seq<nat>>, incoming: seq<nat>)
    requires SplitState(parts, states, newparts, p, waiting, w0, incoming) && p < |parts|
    requires Filter(parts[p], incoming, true) == [] || Filter(parts[p], incoming, false) == []
    ensures SplitState(parts, states, newparts + [parts[p]], p + 1, waiting, w0, incoming)
  {
    var rest := parts[p..];
    assert rest[0] == parts[p] && rest[1..] == parts[p + 1..];
    assert parts[..p + 1][..p] == parts[..p] && parts[..p + 1][p] == parts[p];
    KeepNext(newparts, rest, parts, states);
  }

  /** A block that splits is replaced by its halves, and the waiting list is updated as `Queued` says. */
  lemma SplitPair(parts: seq<seq<nat>>, states: seq<D.DfaState>, newparts: seq<seq<nat>>, p: nat,
                  waiting: seq<seq<nat>>, waiting': seq<seq<nat>>, w0: seq<seq<nat>>, incoming: seq<nat>,
                  x: seq<nat>, y: seq<nat>)
    requires SplitState(parts, states, newparts, p, waiting, w0, incoming) && p < |parts|
    requires x == Filter(parts[p], incoming, true) && y == Filter(parts[p], incoming, false)
    requires Splits(parts[p], x, y)
    requires waiting' == Queued(waiting, parts[p], x, y) && |waiting'| == |waiting| + 1
    ensures SplitState(parts, states, newparts + [x, y], p + 1, waiting', w0, incoming)
  {
    var rest := parts[p..];
    assert rest[0] == parts[p] && rest[1..] == parts[p + 1..];
    assert parts[..p + 1][..p] == parts[..p] && parts[..p + 1][p] == parts[p];
    SplitNext(newparts, rest, parts, states, x, y);
  }

  // ---------------------------------------------------------------------------
  // The minimizer

  class Minimizer {
    const dfa: D.Dfa
    /** `inTransitions[t][b]` lists the states that move to `t` on byte `b`. */
    const inTransitions: seq<seq<seq<nat>>>
    var partitions: seq<seq<nat>>
    /** The blocks still to split the others against; the last one is taken first. */
    var waiting: seq<seq<nat>>

    /**
     * The index describes the DFA; the blocks partition its states, agree
     * on matching within each block, and hold every state once.
     */
    ghost predicate Valid()
      reads this`partitions, dfa
    {
      dfa.Valid() && IsIncoming(dfa.states, inTransitions) &&
      Partition(partitions, |dfa.states|) && Respects(partitions, dfa.states) &&
      Total(partitions) == |dfa.states|
    }

    /** Every waiting set holds states. */
    ghost predicate Waiting()
      reads this`waiting, dfa
    {
      Bounded(waiting, |dfa.states|)
    }

    /** The minimizer for the index and initial partition of `dfa`, waiting on the first block. */
    constructor (dfa: D.Dfa, inTransitions: seq<seq<seq<nat>>>, partitions: seq<seq<nat>>)
      requires dfa.Valid() && IsIncoming(dfa.states, inTransitions) && |partitions| >= 1
      requires Partition(partitions, |dfa.states|) && Respects(partitions, dfa.states) && Total(partitions) == |dfa.states|
      ensures Valid() && Waiting() && this.dfa == dfa && this.inTransitions == inTransitions
      ensures this.partitions == partitions && waiting == [partitions[0]]
    {
      this.dfa := dfa;
      this.inTransitions := inTransitions;
      this.partitions := partitions;
      waiting := [partitions[0]];
    }

    /** The states that move into `target` on byte `b`, sorted and without repetitions. */
    method FindIncomingTo(b: D.byte, target: seq<nat>) returns (incoming: seq<nat>)
      requires Valid() && forall e :: e in target ==> e < |dfa.states|
      ensures Sorted(incoming)
      ensures forall s: nat :: s in incoming <==> s < |dfa.states| && dfa.states[s].transitions[b] in target
    {
      var raw: seq<nat> := [];
      var k := 0;
      while k < |target|
        invariant 0 <= k <= |target|
        invariant forall s: nat :: s in raw <==> s < |dfa.states| && dfa.states[s].transitions[b] in target[..k]
      {
        var id := target[k];
        assert id in target;
        assert target[..k + 1] == target[..k] + [id];
        IncomingAt(dfa.states, inTransitions, id, b);
        raw := raw + inTransitions[id][b];
        k := k + 1;
      }
      assert target[..k] == target;
      incoming := Canonicalize(raw);
    }

    /**
     * Split every block against `incoming`. A block that splits is replaced
     * by its two halves; if it was waiting, the first half takes its place
     * and the second is queued, else the smaller half is queued.
     */
    method Split(incoming: seq<nat>)
      requires Valid() && Waiting() && Sorted(incoming)
      modifies this`partitions, this`waiting
      ensures Valid() && Waiting() && Refines(partitions, old(partitions))
      ensures partitions == Refined(old(partitions), incoming)
      ensures waiting == SplitWaiting(old(partitions), incoming, old(waiting))
      ensures |waiting| + old(|partitions|) == old(|waiting|) + |partitions|
      ensures old(|partitions|) <= |partitions|
    {
      var newparts := SplitAll(incoming);
      partitions := newparts;
    }

    /** The loop of `Split`: the blocks that replace the current ones, built block by block, queueing as it goes. */
    method SplitAll(incoming: seq<nat>) returns (newparts: seq<seq<nat>>)
      requires Valid() && Waiting() && Sorted(incoming)
      modifies this`waiting
      ensures Waiting() && Refinement(newparts, partitions, dfa.states) && |partitions| <= |newparts|
      ensures newparts == Refined(partitions, incoming)
      ensures waiting == SplitWaiting(partitions, incoming, old(waiting))
      ensures |waiting| + |partitions| == old(|waiting|) + |newparts|
    {
      newparts := [];
      var p := 0;
      SplitStart(partitions, dfa.states, waiting, incoming);
      while p < |partitions|
        invariant p <= |partitions|
        invariant Waiting() && Splitting(newparts, p, old(waiting), incoming)
      {
        newparts := SplitAt(p, incoming, newparts, old(waiting));
        p := p + 1;
      }
      SplitEnd(partitions, dfa.states, newparts, waiting, old(waiting), incoming);
    }

    /**
     * The invariant of the loop in `Split` after `p` blocks: the blocks
     * made so far and the waiting list are those of splitting the first
     * `p` blocks, with one more waiting set per split, and followed by the
     * blocks not yet visited they form a partition that refines the old one.
     */
    ghost predicate Splitting(newparts: seq<seq<nat>>, p: nat, w0: seq<seq<nat>>, incoming: seq<nat>)
      reads this`partitions, this`waiting, dfa
    {
      SplitState(partitions, dfa.states, newparts, p, waiting, w0, incoming)
    }

    /** Split block `p` against `incoming`, when both halves are non-empty, and queue a half. */
    method SplitAt(p: nat, incoming: seq<nat>, newparts: seq<seq<nat>>, ghost w0: seq<seq<nat>>) returns (newparts': seq<seq<nat>>)
      requires Waiting() && Splitting(newparts, p, w0, incoming) && p < |partitions| && Sorted(incoming)
      modifies this`waiting
      ensures Waiting() && Splitting(newparts', p + 1, w0, incoming)
    {
      var block := partitions[p];
      SplitBlock(partitions, dfa.states, newparts, p, waiting, w0, incoming);
      var x, y := Halves(block, incoming);
      if x == [] || y == [] {
        SplitKeep(partitions, dfa.states, newparts, p, waiting, w0, incoming);
        return newparts + [block];
      }
      ghost var ws := waiting;
      Queue(block, x, y);
      SplitPair(partitions, dfa.states, newparts, p, ws, waiting, w0, incoming, x, y);
      newparts' := newparts + [x, y];
    }

    /**
     * The part of `block` in `incoming` and, when that is not empty, the
     * part outside it; the source skips the difference after an empty
     * intersection.
     */
    method Halves(block: seq<nat>, incoming: seq<nat>) returns (x: seq<nat>, y: seq<nat>)
      requires Sorted(block) && Sorted(incoming)
      ensures x == Filter(block, incoming, true)
      ensures y == if x == [] then [] else Filter(block, incoming, false)
      ensures x == [] || y == [] || Splits(block, x, y)
    {
      FilterIff(block, incoming, true);
      FilterIff(block, incoming, false);
      x := Intersection(block, incoming);
      SortedUnique(x, Filter(block, incoming, true));
      y := [];
      if x != [] {
        y := Subtract(block, incoming);
        SortedUnique(y, Filter(block, incoming, false));
      }
    }

    /**
     * Queue a half of `block`: if the block is waiting, its first half
     * takes its place and the second joins the queue, else the smaller
     * half joins it.
     */
    method Queue(block: seq<nat>, x: seq<nat>, y: seq<nat>)
      requires Bounded(waiting, |dfa.states|)
      requires forall e :: e in x ==> e < |dfa.states|
      requires forall e :: e in y ==> e < |dfa.states|
      modifies this`waiting
      ensures Bounded(waiting, |dfa.states|) && |waiting| == old(|waiting|) + 1
      ensures waiting == Queued(old(waiting), block, x, y)
    {
      match Position(waiting, block) {
        case Some(i) =>
          waiting := waiting[i := x] + [y];
        case None =>
          if |x| <= |y| {
            waiting := waiting + [x];
          } else {
            waiting := waiting + [y];
          }
      }
    }

    /**
     * Take waiting sets from the back until none is left, and split every
     * block against the states that enter the set on each byte in turn.
     * Each split adds a block, of which there are at most as many as
     * states, and one waiting set, so twice the number of blocks still
     * possible plus the number of waiting sets decreases with every set
     * taken.
     */
    method Refine()
      requires Valid() && Waiting()
      modifies this`partitions, this`waiting
      ensures Valid() && Refines(partitions, old(partitions)) && waiting == []
    {
      RefinesRefl(partitions, |dfa.states|);
      TotalBound(partitions);
      while waiting != []
        invariant Valid() && Waiting() && Refines(partitions, old(partitions))
        invariant |partitions| <= |dfa.states|
        decreases 2 * (|dfa.states| - |partitions|) + |waiting|
      {
        ghost var measure := 2 * (|dfa.states| - |partitions|) + |waiting|;
        var target := Pop();
        var b := 0;
        while b < D.ALPHABET_SIZE
          invariant b <= D.ALPHABET_SIZE
          invariant Valid() && Waiting() && Refines(partitions, old(partitions))
          invariant |partitions| <= |dfa.states|
          invariant 2 * (|dfa.states| - |partitions|) + |waiting| < measure
        {
          var incoming := FindIncomingTo(b, target);
          ghost var before := partitions;
          Split(incoming);
          RefinesTrans(partitions, before, old(partitions), |dfa.states|);
          TotalBound(partitions);
          b := b + 1;
        }
      }
    }

    /** Remove and return the last waiting set. */
    method Pop() returns (target: seq<nat>)
      requires Waiting() && waiting != []
      modifies this`waiting
      ensures Waiting() && waiting == old(waiting[..|waiting| - 1]) && target == old(waiting[|waiting| - 1])
      ensures forall e :: e in target ==> e < |dfa.states|
    {
      target := waiting[|waiting| - 1];
      waiting := waiting[..|waiting| - 1];
    }

    /** Rewrite every transition of state `id` to the new id of its target. */
    method RenameTransitions(id: nat, stp: seq<nat>, mids: seq<nat>, ghost classOf: seq<nat>)
      requires Numbering(stp, mids, classOf) && id < |dfa.states| && D.StateOk(dfa.states[id], |classOf|)
      modifies dfa
      ensures dfa.start == old(dfa.start) && |dfa.states| == old(|dfa.states|)
      ensures forall j :: 0 <= j < |dfa.states| && j != id ==> dfa.states[j] == old(dfa.states[j])
      ensures Renames(dfa.states[id], old(dfa.states[id]), classOf)
    {
      ghost var s0 := dfa.states[id];
      var b := 0;
      while b < D.ALPHABET_SIZE
        invariant b <= D.ALPHABET_SIZE && dfa.start == old(dfa.start) && |dfa.states| == old(|dfa.states|)
        invariant forall j :: 0 <= j < |dfa.states| && j != id ==> dfa.states[j] == old(dfa.states[j])
        invariant dfa.states[id].isMatch == s0.isMatch && |dfa.states[id].transitions| == D.ALPHABET_SIZE
        invariant forall c :: 0 <= c < b ==> dfa.states[id].transitions[c] == classOf[s0.transitions[c]]
        invariant forall c :: b <= c < D.ALPHABET_SIZE ==> dfa.states[id].transitions[c] == s0.transitions[c]
      {
        var next := dfa.states[id].transitions[b];
        var row := dfa.states[id].transitions[b := mids[stp[next]]];
        dfa.states := dfa.states[id := dfa.states[id].(transitions := row)];
        b := b + 1;
      }
    }

    /**
     * Visit the representatives in increasing order: rename the
     * transitions of each and swap it into its new id, which is never
     * above its own; then drop everything past the last new id.
     */
    method Renumber(stp: seq<nat>, mids: seq<nat>, count: nat, ghost classOf: seq<nat>)
      requires D.WellFormed(dfa.states) && |dfa.states| == |stp|
      requires Canonical(stp) && Numbering(stp, mids, classOf) && count == RepCount(stp, |stp|)
      requires forall r :: 0 <= r < |stp| && stp[r] == r ==> mids[r] == RepCount(stp, r)
      modifies dfa
      ensures dfa.start == old(dfa.start)
      ensures Placed(old(dfa.states), dfa.states, stp, mids, classOf)
    {
      ghost var s0 := dfa.states;
      var id := 0;
      while id < |stp|
        invariant id <= |stp| && |dfa.states| == |stp| && dfa.start == old(dfa.start)
        invariant forall j :: id <= j < |stp| ==> dfa.states[j] == s0[j]
        invariant PlacedBelow(s0, dfa.states, stp, mids, classOf, id)
      {
        if stp[id] == id {
          Place(id, stp, mids, classOf, s0);
        } else {
          PlacedBelowSkip(s0, dfa.states, stp, mids, classOf, id);
        }
        id := id + 1;
      }
      forall r | 0 <= r < |stp| && stp[r] == r
        ensures mids[r] < count
      {
        RepCountStrict(stp, r, |stp|);
      }
      RepCountBounds(stp, 0, |stp|);
      dfa.states := dfa.states[..count];
    }

    /** Rename representative `id` and swap it into position `mids[id]`. */
    method Place(id: nat, stp: seq<nat>, mids: seq<nat>, ghost classOf: seq<nat>, ghost s0: seq<D.DfaState>)
      requires D.WellFormed(s0) && |dfa.states| == |stp| == |s0| && id < |stp| && stp[id] == id
      requires Numbering(stp, mids, classOf)
      requires forall r :: 0 <= r < |stp| && stp[r] == r ==> mids[r] == RepCount(stp, r)
      requires forall j :: id <= j < |stp| ==> dfa.states[j] == s0[j]
      requires PlacedBelow(s0, dfa.states, stp, mids, classOf, id)
      modifies dfa
      ensures |dfa.states| == |stp| && dfa.start == old(dfa.start)
      ensures forall j :: id < j < |stp| ==> dfa.states[j] == s0[j]
      ensures PlacedBelow(s0, dfa.states, stp, mids, classOf, id + 1)
    {
      assert D.StateOk(s0[id], |s0|);
      ghost var c0 := dfa.states;
      RenameTransitions(id, stp, mids, classOf);
      PlaceStep(s0, c0, dfa.states, stp, mids, classOf, id);
      var m := mids[id];
      var moved, kept := dfa.states[id], dfa.states[m];
      dfa.states := dfa.states[id := kept][m := moved];
    }

    /**
     * Refine the blocks, then replace every block by its first member:
     * the table left is the quotient of the old one by the final blocks,
     * and the start id is left as it was.
     */
    method Run() returns (ghost classOf: seq<nat>)
      requires Valid() && Waiting()
      modifies this`partitions, this`waiting, dfa
      ensures Quotient(old(dfa.states), dfa.states, classOf, partitions)
      ensures Refines(partitions, old(partitions)) && dfa.start == old(dfa.start)
    {
      Refine();
      ghost var s0 := dfa.states;
      var stp := StateToPart(partitions, |dfa.states|);
      var mids, count := MinimalIds(stp);
      FirstOfCanonical(partitions, stp, |dfa.states|);
      classOf := seq(|stp|, s requires 0 <= s < |stp| => mids[stp[s]]);
      Renumber(stp, mids, count, classOf);
      PlacedQuotient(s0, dfa.states, stp, mids, classOf, partitions);
    }
  }

  /**
   * Minimize `dfa` in place; this fails, leaving it as it was, when no
   * state matches. A table whose state 0 does not match and whose start
   * is 0 or 1 keeps a start in range.
   */
  method Minimize(dfa: D.Dfa) returns (ok: bool, ghost classOf: seq<nat>, ghost blocks: seq<seq<nat>>)
    requires dfa.Valid()
    modifies dfa
    ensures ok <==> HasMatch(old(dfa.states))
    ensures !ok ==> dfa.states == old(dfa.states)
    ensures dfa.start == old(dfa.start)
    ensures ok ==> Quotient(old(dfa.states), dfa.states, classOf, blocks)
    ensures ok && old(dfa.start) <= 1 && !old(dfa.states[0].isMatch) ==> dfa.Valid()
  {
    var incoming := IncomingTransitions(dfa.states);
    var initial := InitialPartitions(dfa.states);
    if initial.None? {
      return false, [], [];
    }
    var m := new Minimizer(dfa, incoming, initial.value);
    classOf := m.Run();
    blocks := m.partitions;
    ok := true;
  }
}
