/**
 * The DFA the regex compiler produces: a table of states with 256 byte
 * transitions each, where state 0 is the dead state, and the matcher that
 * scans it.
 */
module Dfas {
  import opened Wrappers

  type byte = b: int | 0 <= b < 0x100

  /** The id of the dead state. */
  const DEAD: nat := 0
  const ALPHABET_SIZE: nat := 256

  datatype DfaState = DfaState(isMatch: bool, transitions: seq<nat>)

  /** A non-matching state whose every transition goes to the dead state. */
  function EmptyState(): (s: DfaState)
    ensures !s.isMatch && |s.transitions| == ALPHABET_SIZE
    ensures forall b :: 0 <= b < ALPHABET_SIZE ==> s.transitions[b] == DEAD
  {
    DfaState(false, seq(ALPHABET_SIZE, _ => DEAD))
  }

  /** Every state has 256 transitions and every transition names a state of the table. */
  predicate WellFormed(states: seq<DfaState>) {
    forall i :: 0 <= i < |states| ==> StateOk(states[i], |states|)
  }

  predicate StateOk(s: DfaState, count: nat) {
    |s.transitions| == ALPHABET_SIZE && forall b :: 0 <= b < ALPHABET_SIZE ==> s.transitions[b] < count
  }

  /** Appending a state whose transitions are in range keeps the table well formed. */
  lemma AppendState(states: seq<DfaState>, s: DfaState)
    requires WellFormed(states) && StateOk(s, |states| + 1)
    ensures WellFormed(states + [s])
  {
    forall i | 0 <= i < |states|
      ensures StateOk((states + [s])[i], |states| + 1)
    {
      assert (states + [s])[i] == states[i] && StateOk(states[i], |states|);
    }
  }

  class Dfa {
    var states: seq<DfaState>
    var start: nat

    ghost predicate Valid()
      reads this
    {
      WellFormed(states) && start < |states|
    }

    /** The DFA with the single dead state, which is also the start state. */
    constructor Empty()
      ensures Valid()
      ensures states == [EmptyState()] && start == DEAD
    {
      states := [EmptyState()];
      start := DEAD;
    }

    method SetStart(id: nat)
      requires Valid() && id < |states|
      modifies this
      ensures Valid() && states == old(states) && start == id
    {
      start := id;
    }

    method SetTransition(from: nat, b: byte, to: nat)
      requires Valid() && from < |states| && to < |states|
      modifies this
      ensures Valid() && start == old(start)
      ensures states == old(states)[from := old(states)[from].(transitions := old(states)[from].transitions[b := to])]
    {
      states := states[from := states[from].(transitions := states[from].transitions[b := to])];
    }

    /** The state reached from the start state after reading `bytes[..i]`. */
    ghost function Walk(bytes: seq<byte>, i: nat): (s: nat)
      reads this
      requires Valid() && i <= |bytes|
      ensures s < |states|
    {
      if i == 0 then start else states[Walk(bytes, i - 1)].transitions[bytes[i - 1]]
    }

    /** The walk over `bytes[..i]` never enters the dead state after the start. */
    ghost predicate Alive(bytes: seq<byte>, i: nat)
      reads this
      requires Valid() && i <= |bytes|
    {
      forall j :: 1 <= j <= i ==> Walk(bytes, j) != DEAD
    }

    /** The walk reaches a matching state after `bytes[..i]`, for a non-empty prefix, without dying first. */
    ghost predicate MatchAt(bytes: seq<byte>, i: nat)
      reads this
      requires Valid()
    {
      1 <= i <= |bytes| && Alive(bytes, i) && states[Walk(bytes, i)].isMatch
    }

    /**
     * The end of the longest non-empty prefix of `bytes` after which the walk
     * is in a matching state, scanning only until the dead state is entered.
     */
    method Find(bytes: seq<byte>) returns (r: Option<nat>)
      requires Valid()
      ensures r.Some? ==> 1 <= r.value <= |bytes| && MatchAt(bytes, r.value)
      ensures r.Some? ==> forall j :: r.value < j <= |bytes| ==> !MatchAt(bytes, j)
      ensures r.None? ==> forall j :: 0 <= j <= |bytes| ==> !MatchAt(bytes, j)
    {
      var state := start;
      var lastMatch: Option<nat> := None;
      var i := 0;
      while i < |bytes|
        invariant 0 <= i <= |bytes|
        invariant state == Walk(bytes, i) && Alive(bytes, i)
        invariant lastMatch.Some? ==> 1 <= lastMatch.value <= i && MatchAt(bytes, lastMatch.value)
        invariant lastMatch.Some? ==> forall j :: lastMatch.value < j <= i ==> !MatchAt(bytes, j)
        invariant lastMatch.None? ==> forall j :: 0 <= j <= i ==> !MatchAt(bytes, j)
      {
        state := states[state].transitions[bytes[i]];
        if state == DEAD {
          DeadStops(bytes, i + 1);
          return lastMatch;
        } else if states[state].isMatch {
          lastMatch := Some(i + 1);
        }
        i := i + 1;
      }
      return lastMatch;
    }

    /** Once the walk has entered the dead state, no later prefix can match. */
    lemma DeadStops(bytes: seq<byte>, i: nat)
      requires Valid() && 1 <= i <= |bytes| && Walk(bytes, i) == DEAD
      ensures forall j :: i <= j <= |bytes| ==> !MatchAt(bytes, j)
    {
    }
  }

  // ---------------------------------------------------------------------------
  // Range compression

  /** A run of bytes `start..=end` that all go to `next`. */
  datatype TransitionRange = TransitionRange(start: byte, end: byte, next: nat)

  /** The transitions the runs stand for, one per byte. */
  function Expand(ranges: seq<TransitionRange>): seq<nat> {
    if ranges == [] then []
    else Expand(ranges[..|ranges| - 1]) + Run(ranges[|ranges| - 1])
  }

  function Run(r: TransitionRange): seq<nat> {
    if r.start <= r.end then seq(r.end as int - r.start as int + 1, _ => r.next) else []
  }

  /** The runs cover `0..=255` in order and no two neighbours could be merged. */
  predicate MaximalRuns(ranges: seq<TransitionRange>) {
    |ranges| >= 1 && ranges[0].start == 0 && ranges[|ranges| - 1].end == 255 &&
    (forall k :: 0 <= k < |ranges| ==> ranges[k].start <= ranges[k].end) &&
    (forall k :: 0 <= k < |ranges| - 1 ==> ranges[k + 1].start == ranges[k].end + 1) &&
    (forall k :: 0 <= k < |ranges| - 1 ==> ranges[k + 1].next != ranges[k].next)
  }

  /** Compress the 256 transitions of `state` into maximal runs of equal targets. */
  method SparseTransitions(state: DfaState) returns (ranges: seq<TransitionRange>)
    requires |state.transitions| == ALPHABET_SIZE
    ensures MaximalRuns(ranges)
    ensures Expand(ranges) == state.transitions
  {
    ranges := [];
    var cur := TransitionRange(0, 0, state.transitions[0]);
    var i := 1;
    while i < ALPHABET_SIZE
      invariant 1 <= i <= ALPHABET_SIZE
      invariant cur.start <= cur.end == i - 1
      invariant Expand(ranges) + Run(cur) == state.transitions[..i]
      invariant RunsBefore(ranges, cur)
    {
      var next := state.transitions[i];
      ranges, cur := ExtendRuns(ranges, cur, i, next);
      assert state.transitions[..i + 1] == state.transitions[..i] + [next];
      i := i + 1;
    }
    CloseRuns(ranges, cur, state.transitions);
    ranges := ranges + [cur];
  }

  /** One more byte `b` going to `next`: extend the open run `cur` when it goes there too, else close it. */
  method ExtendRuns(ranges: seq<TransitionRange>, cur: TransitionRange, b: byte, next: nat)
    returns (ranges': seq<TransitionRange>, cur': TransitionRange)
    requires RunsBefore(ranges, cur) && cur.start <= cur.end && b == cur.end + 1
    ensures RunsBefore(ranges', cur') && cur'.start <= cur'.end == b
    ensures Expand(ranges') + Run(cur') == Expand(ranges) + Run(cur) + [next]
  {
    if cur.next == next {
      GrowRun(ranges, cur, b);
      ranges', cur' := ranges, cur.(end := b);
    } else {
      ExpandSnoc(ranges, cur);
      PushRun(ranges, cur, TransitionRange(b, b, next));
      ranges', cur' := ranges + [cur], TransitionRange(b, b, next);
      assert Run(cur') == [next];
    }
  }

  /** `ranges + [cur]` starts at 0 and is a chain of adjacent, non-empty, unmergeable runs. */
  predicate RunsBefore(ranges: seq<TransitionRange>, cur: TransitionRange) {
    var all := ranges + [cur];
    all[0].start == 0 &&
    (forall k :: 0 <= k < |all| ==> all[k].start <= all[k].end) &&
    (forall k :: 0 <= k < |all| - 1 ==> all[k + 1].start == all[k].end + 1) &&
    (forall k :: 0 <= k < |all| - 1 ==> all[k + 1].next != all[k].next)
  }

  lemma GrowRun(ranges: seq<TransitionRange>, cur: TransitionRange, b: byte)
    requires RunsBefore(ranges, cur) && b == cur.end + 1
    ensures RunsBefore(ranges, cur.(end := b))
    ensures Run(cur.(end := b)) == Run(cur) + [cur.next]
  {
    var all, all' := ranges + [cur], ranges + [cur.(end := b)];
    assert forall k :: 0 <= k < |ranges| ==> all'[k] == all[k];
    assert all[|ranges|] == cur && all'[|ranges|] == cur.(end := b);
    var r0, r1 := Run(cur), Run(cur.(end := b));
    assert |r1| == |r0| + 1;
    assert forall k :: 0 <= k < |r0| ==> r0[k] == cur.next;
    assert forall k :: 0 <= k < |r1| ==> r1[k] == cur.next;
    assert r1 == r0 + [cur.next];
  }

  /** Closing the open run `cur` appends its bytes to the expansion. */
  lemma ExpandSnoc(ranges: seq<TransitionRange>, cur: TransitionRange)
    ensures Expand(ranges + [cur]) == Expand(ranges) + Run(cur)
  {
    assert (ranges + [cur])[..|ranges|] == ranges;
  }

  /** Closing `cur` and opening `nxt`, which starts right after it with another target, keeps the chain. */
  lemma PushRun(ranges: seq<TransitionRange>, cur: TransitionRange, nxt: TransitionRange)
    requires RunsBefore(ranges, cur)
    requires nxt.start == cur.end + 1 && nxt.start <= nxt.end && nxt.next != cur.next
    ensures RunsBefore(ranges + [cur], nxt)
  {
    var all, all' := ranges + [cur], ranges + [cur] + [nxt];
    assert forall k :: 0 <= k < |all| ==> all'[k] == all[k];
    assert all'[|all|] == nxt && all'[|all| - 1] == cur;
  }

  /** A chain whose open run ends at 255 is complete once that run is closed, and expands to all 256 transitions. */
  lemma CloseRuns(ranges: seq<TransitionRange>, cur: TransitionRange, t: seq<nat>)
    requires RunsBefore(ranges, cur) && cur.end == 255
    requires |t| == ALPHABET_SIZE && Expand(ranges) + Run(cur) == t[..ALPHABET_SIZE]
    ensures MaximalRuns(ranges + [cur]) && Expand(ranges + [cur]) == t
  {
    ExpandSnoc(ranges, cur);
    assert t[..ALPHABET_SIZE] == t;
  }

  /** Runs that start at 0, are non-empty, and each start right after the one before. */
  predicate Adjacent(ranges: seq<TransitionRange>) {
    |ranges| >= 1 && ranges[0].start == 0 &&
    (forall k :: 0 <= k < |ranges| ==> ranges[k].start <= ranges[k].end) &&
    (forall k :: 0 <= k < |ranges| - 1 ==> ranges[k + 1].start == ranges[k].end + 1)
  }

  /** The transition of byte `b` can be read back from the runs: the run holding `b` names it. */
  lemma ExpandAt(ranges: seq<TransitionRange>, b: nat)
    requires MaximalRuns(ranges) && b < ALPHABET_SIZE
    ensures |Expand(ranges)| == ALPHABET_SIZE
    ensures exists k :: 0 <= k < |ranges| && ranges[k].start <= b <= ranges[k].end && Expand(ranges)[b] == ranges[k].next
  {
    ExpandIndex(ranges, b);
  }

  lemma {:induction false} ExpandIndex(ranges: seq<TransitionRange>, b: nat)
    requires Adjacent(ranges) && b <= ranges[|ranges| - 1].end
    ensures |Expand(ranges)| == ranges[|ranges| - 1].end as int + 1
    ensures exists k :: 0 <= k < |ranges| && ranges[k].start <= b <= ranges[k].end && Expand(ranges)[b] == ranges[k].next
  {
    var n := |ranges|;
    var init, last := ranges[..n - 1], ranges[n - 1];
    var run := Run(last);
    assert Expand(ranges) == Expand(init) + run;
    if n == 1 {
      assert Expand(init) == [];
      assert Expand(ranges)[b] == run[b];
    } else {
      assert Adjacent(init) && init[n - 2] == ranges[n - 2];
      if b < last.start {
        ExpandIndex(init, b);
        var k :| 0 <= k < |init| && init[k].start <= b <= init[k].end && Expand(init)[b] == init[k].next;
        assert ranges[k] == init[k];
      } else {
        ExpandIndex(init, ranges[n - 2].end as int);
        assert Expand(ranges)[b] == run[b - last.start];
      }
    }
  }
}
