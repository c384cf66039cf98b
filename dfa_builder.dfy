/**
 * The subset construction: DFA states are built from ordered sets of NFA
 * states. A builder state records whether the set reaches a `Match` and
 * the `Range` states it holds before that; a cache maps builder states to
 * DFA ids, with id 0 seeded as the dead state.
 */
module DfaBuilders {
  import opened Wrappers
  import opened SparseSets
  import N = Nfas
  import D = Dfas

  // ---------------------------------------------------------------------------
  // Epsilon edges and closures

  /** `y` is reached from `s` without consuming a byte. */
  predicate EpsSucc(s: N.NfaState, y: nat) {
    match s
    case Empty(next) => y == next
    case Union(alternates, _) => y in alternates
    case _ => false
  }

  /** Every epsilon successor of `s` is in `c` or still pending in `p`. */
  predicate SuccsCovered(s: N.NfaState, c: seq<nat>, p: seq<nat>) {
    match s
    case Empty(next) => next in c || next in p
    case Union(alternates, _) => forall m :: 0 <= m < |alternates| ==> alternates[m] in c || alternates[m] in p
    case _ => true
  }

  predicate IdsBelow(c: seq<nat>, n: nat) {
    forall k :: 0 <= k < |c| ==> c[k] < n
  }

  /** The members of `c` from position `lo` on have their epsilon successors in `c` or in `p`. */
  predicate Covered(nfa: seq<N.NfaState>, c: seq<nat>, lo: nat, p: seq<nat>) {
    forall k {:trigger SuccsCovered(nfa[c[k]], c, p)} :: lo <= k < |c| && c[k] < |nfa| ==> SuccsCovered(nfa[c[k]], c, p)
  }

  /** `y` is `start`, or an epsilon successor of a member of `c[lo..hi]`. */
  predicate Justified(nfa: seq<N.NfaState>, c: seq<nat>, lo: nat, hi: nat, start: nat, y: nat) {
    y == start || exists j :: lo <= j < hi && j < |c| && c[j] < |nfa| && EpsSucc(nfa[c[j]], y)
  }

  /** Each member of `c` from `lo` on is `start` or an epsilon successor of an earlier such member. */
  predicate Grown(nfa: seq<N.NfaState>, c: seq<nat>, lo: nat, start: nat) {
    forall k {:trigger Justified(nfa, c, lo, k, start, c[k])} :: lo <= k < |c| ==> Justified(nfa, c, lo, k, start, c[k])
  }

  predicate Prefix<T(==)>(a: seq<T>, b: seq<T>) {
    |a| <= |b| && forall k :: 0 <= k < |a| ==> b[k] == a[k]
  }

  /**
   * `c` is an epsilon closure of `seeds`: it holds every seed, every
   * epsilon successor of a member, and nothing that is neither a seed nor
   * an epsilon successor of an earlier member.
   */
  predicate IsClosure(nfa: seq<N.NfaState>, seeds: seq<nat>, c: seq<nat>) {
    IdsBelow(c, |nfa|) &&
    (forall k :: 0 <= k < |seeds| ==> seeds[k] in c) &&
    Covered(nfa, c, 0, []) &&
    forall k {:trigger FromSeeds(nfa, seeds, c, k)} :: 0 <= k < |c| ==> FromSeeds(nfa, seeds, c, k)
  }

  /** The member at position `k` is a seed or an epsilon successor of an earlier member. */
  predicate FromSeeds(nfa: seq<N.NfaState>, seeds: seq<nat>, c: seq<nat>, k: nat)
    requires k < |c|
  {
    c[k] in seeds || exists j :: 0 <= j < k && c[j] < |nfa| && EpsSucc(nfa[c[j]], c[k])
  }

  function Elems(c: seq<nat>): set<nat> {
    set x | x in c
  }

  /** A set of ids below `n` has at most `n` members. */
  lemma {:induction false} BoundedCard(s: set<nat>, n: nat)
    requires forall x :: x in s ==> x < n
    ensures |s| <= n
  {
    if n > 0 {
      var s' := s - {n - 1};
      BoundedCard(s', n - 1);
      assert s <= s' + {n - 1};
    } else {
      assert s == {};
    }
  }

  lemma SuccsCoveredMono(s: N.NfaState, c: seq<nat>, p: seq<nat>, c': seq<nat>, p': seq<nat>)
    requires SuccsCovered(s, c, p)
    requires forall y :: y in c || y in p ==> y in c' || y in p'
    ensures SuccsCovered(s, c', p')
  {
  }

  /** Coverage survives growing `c` and trading pending ids for members or other pending ids. */
  lemma CoveredMono(nfa: seq<N.NfaState>, c: seq<nat>, lo: nat, p: seq<nat>, c': seq<nat>, p': seq<nat>)
    requires Covered(nfa, c, lo, p) && Prefix(c, c')
    requires forall y :: y in c || y in p ==> y in c' || y in p'
    requires forall k :: |c| <= k < |c'| && lo <= k && c'[k] < |nfa| ==> SuccsCovered(nfa[c'[k]], c', p')
    ensures Covered(nfa, c', lo, p')
  {
    forall k | lo <= k < |c'| && c'[k] < |nfa|
      ensures SuccsCovered(nfa[c'[k]], c', p')
    {
      if k < |c| {
        assert c'[k] == c[k];
        SuccsCoveredMono(nfa[c[k]], c, p, c', p');
      }
    }
  }

  lemma JustifiedMono(nfa: seq<N.NfaState>, c: seq<nat>, lo: nat, hi: nat, start: nat, y: nat, c': seq<nat>, hi': nat)
    requires Justified(nfa, c, lo, hi, start, y) && Prefix(c, c') && hi <= hi' && hi <= |c|
    ensures Justified(nfa, c', lo, hi', start, y)
  {
    if y != start {
      var j :| lo <= j < hi && j < |c| && c[j] < |nfa| && EpsSucc(nfa[c[j]], y);
      assert c'[j] == c[j];
    }
  }

  lemma GrownMono(nfa: seq<N.NfaState>, c: seq<nat>, lo: nat, start: nat, c': seq<nat>)
    requires Grown(nfa, c, lo, start) && Prefix(c, c')
    requires forall k :: |c| <= k < |c'| && lo <= k ==> Justified(nfa, c', lo, k, start, c'[k])
    ensures Grown(nfa, c', lo, start)
  {
    forall k | lo <= k < |c'|
      ensures Justified(nfa, c', lo, k, start, c'[k])
    {
      if k < |c| {
        assert c'[k] == c[k];
        JustifiedMono(nfa, c, lo, k, start, c[k], c', k);
      }
    }
  }

  // ---------------------------------------------------------------------------
  // Builder states

  /** A DFA state in the making: whether it matches, and its NFA `Range` states in order. */
  datatype BuilderState = BuilderState(isMatch: bool, nfaStates: seq<nat>)

  function Dead(): BuilderState {
    BuilderState(false, [])
  }

  /**
   * The builder state of an ordered set of NFA states: the `Range` states
   * in set order, up to the first `Match`, which makes it matching.
   */
  function Collect(nfa: seq<N.NfaState>, c: seq<nat>): (r: BuilderState)
    requires IdsBelow(c, |nfa|)
    ensures |r.nfaStates| <= |c|
    ensures forall k :: 0 <= k < |r.nfaStates| ==> r.nfaStates[k] < |nfa| && nfa[r.nfaStates[k]].Range?
  {
    if c == [] then Dead()
    else
      match nfa[c[0]]
      case Range(_, _, _) =>
        var rest := Collect(nfa, c[1..]);
        BuilderState(rest.isMatch, [c[0]] + rest.nfaStates)
      case Match => BuilderState(true, [])
      case _ => Collect(nfa, c[1..])
  }

  /** One step of `Collect` from position `i` of `c`. */
  lemma CollectStep(nfa: seq<N.NfaState>, c: seq<nat>, i: nat)
    requires IdsBelow(c, |nfa|) && i < |c|
    ensures nfa[c[i]].Range? ==>
              Collect(nfa, c[i..]) == BuilderState(Collect(nfa, c[i + 1..]).isMatch, [c[i]] + Collect(nfa, c[i + 1..]).nfaStates)
    ensures nfa[c[i]].Match? ==> Collect(nfa, c[i..]) == BuilderState(true, [])
    ensures nfa[c[i]].Empty? || nfa[c[i]].Union? ==> Collect(nfa, c[i..]) == Collect(nfa, c[i + 1..])
  {
    assert c[i..][0] == c[i] && c[i..][1..] == c[i + 1..];
  }

  /** The `Range` states among `c`, in order. */
  function RangesOf(nfa: seq<N.NfaState>, c: seq<nat>): seq<nat>
    requires IdsBelow(c, |nfa|)
  {
    if c == [] then []
    else RangesOf(nfa, c[..|c| - 1]) + (if nfa[c[|c| - 1]].Range? then [c[|c| - 1]] else [])
  }

  lemma {:induction false} RangesOfCons(nfa: seq<N.NfaState>, x: nat, c: seq<nat>)
    requires x < |nfa| && IdsBelow(c, |nfa|)
    ensures RangesOf(nfa, [x] + c) == (if nfa[x].Range? then [x] else []) + RangesOf(nfa, c)
    decreases |c|
  {
    if c != [] {
      assert ([x] + c)[..|[x] + c| - 1] == [x] + c[..|c| - 1];
      RangesOfCons(nfa, x, c[..|c| - 1]);
    }
  }

  /** A set holding a `Match` state gives a matching builder state, and only such a set. */
  lemma {:induction false} CollectMatch(nfa: seq<N.NfaState>, c: seq<nat>)
    requires IdsBelow(c, |nfa|)
    ensures Collect(nfa, c).isMatch <==> exists k :: 0 <= k < |c| && nfa[c[k]].Match?
  {
    if c != [] {
      CollectMatch(nfa, c[1..]);
      if nfa[c[0]].Match? {
        assert nfa[c[0]].Match?;
      } else {
        assert forall k :: 1 <= k < |c| ==> c[k] == c[1..][k - 1];
        assert forall k :: 0 <= k < |c| - 1 ==> c[1..][k] == c[k + 1];
      }
    }
  }

  /** Without a `Match` state, the builder state lists every `Range` state in set order. */
  lemma {:induction false} CollectNoMatch(nfa: seq<N.NfaState>, c: seq<nat>)
    requires IdsBelow(c, |nfa|)
    requires forall k :: 0 <= k < |c| ==> !nfa[c[k]].Match?
    ensures Collect(nfa, c) == BuilderState(false, RangesOf(nfa, c))
  {
    if c != [] {
      assert forall k :: 0 <= k < |c| - 1 ==> c[1..][k] == c[k + 1];
      CollectNoMatch(nfa, c[1..]);
      RangesOfCons(nfa, c[0], c[1..]);
      assert [c[0]] + c[1..] == c;
    }
  }

  /** With a first `Match` at position `k`, the builder state matches and lists the `Range` states before it. */
  lemma {:induction false} CollectFirstMatch(nfa: seq<N.NfaState>, c: seq<nat>, k: nat)
    requires IdsBelow(c, |nfa|) && k < |c| && nfa[c[k]].Match?
    requires forall j :: 0 <= j < k ==> !nfa[c[j]].Match?
    ensures Collect(nfa, c) == BuilderState(true, RangesOf(nfa, c[..k]))
  {
    if k > 0 {
      assert forall j :: 0 <= j < |c| - 1 ==> c[1..][j] == c[j + 1];
      CollectFirstMatch(nfa, c[1..], k - 1);
      RangesOfCons(nfa, c[0], c[1..][..k - 1]);
      assert [c[0]] + c[1..][..k - 1] == c[..k];
    }
  }

  /** At most as many ids as the NFA has states, each naming a `Range` state. */
  predicate StateOk(nfa: seq<N.NfaState>, s: BuilderState) {
    |s.nfaStates| <= |nfa| &&
    forall k :: 0 <= k < |s.nfaStates| ==> s.nfaStates[k] < |nfa| && nfa[s.nfaStates[k]].Range?
  }

  /**
   * The DFA states and the builder states line up id for id; every builder
   * state names `Range` states of the NFA; the cache maps each builder state
   * to an id that holds it, and at most one id (the start state, which is
   * added without a lookup) is missing from its values.
   */
  predicate Tables(nfa: seq<N.NfaState>, states: seq<D.DfaState>, bs: seq<BuilderState>, cache: map<BuilderState, nat>) {
    |states| == |bs| && |bs| >= 1 && bs[0] == Dead() &&
    (forall i :: 0 <= i < |bs| ==> states[i].isMatch == bs[i].isMatch) &&
    (forall i :: 0 <= i < |bs| ==> StateOk(nfa, bs[i])) &&
    (forall k :: k in cache ==> cache[k] < |bs| && bs[cache[k]] == k) &&
    (forall i :: 0 <= i < |bs| ==> bs[i] in cache && (cache[bs[i]] == i || (i < 2 && cache[bs[i]] < 2))) &&
    |bs| <= |cache| + 1
  }

  /** The conditions of `Tables` on the cache. */
  predicate Cached(bs: seq<BuilderState>, cache: map<BuilderState, nat>) {
    (forall k :: k in cache ==> cache[k] < |bs| && bs[cache[k]] == k) &&
    (forall i :: 0 <= i < |bs| ==> bs[i] in cache && (cache[bs[i]] == i || (i < 2 && cache[bs[i]] < 2))) &&
    |bs| <= |cache| + 1
  }

  lemma CachedAppend(bs: seq<BuilderState>, cache: map<BuilderState, nat>, state: BuilderState)
    requires Cached(bs, cache) && |bs| >= 1
    requires state !in cache || |bs| == 1
    ensures Cached(bs + [state], cache[state := |bs|])
  {
    var bs', cache' := bs + [state], cache[state := |bs|];
    forall k | k in cache'
      ensures cache'[k] < |bs'| && bs'[cache'[k]] == k
    {
      if k != state {
        assert k in cache && bs'[cache[k]] == bs[cache[k]];
      }
    }
    forall i | 0 <= i < |bs'|
      ensures bs'[i] in cache' && (cache'[bs'[i]] == i || (i < 2 && cache'[bs'[i]] < 2))
    {
      if i < |bs| {
        assert bs'[i] == bs[i];
        if bs[i] == state {
          assert |bs| == 1;
        }
      }
    }
    CachedSize(bs, cache, state);
  }

  lemma CachedSize(bs: seq<BuilderState>, cache: map<BuilderState, nat>, state: BuilderState)
    requires Cached(bs, cache) && |bs| >= 1
    requires state !in cache || |bs| == 1
    ensures |bs| + 1 <= |cache[state := |bs|]| + 1
  {
    var cache' := cache[state := |bs|];
    if state !in cache {
      assert cache'.Keys == cache.Keys + {state};
    } else {
      assert cache'.Keys == cache.Keys && bs[0] in cache.Keys;
    }
  }

  /** Adding a state that is new, or the first one after the dead state, keeps the tables consistent. */
  lemma TablesAppend(nfa: seq<N.NfaState>, states: seq<D.DfaState>, bs: seq<BuilderState>, cache: map<BuilderState, nat>, state: BuilderState)
    requires Tables(nfa, states, bs, cache) && StateOk(nfa, state)
    requires state !in cache || |bs| == 1
    ensures Tables(nfa, states + [D.EmptyState().(isMatch := state.isMatch)], bs + [state], cache[state := |bs|])
  {
    var states', bs' := states + [D.EmptyState().(isMatch := state.isMatch)], bs + [state];
    forall i | 0 <= i < |bs'|
      ensures states'[i].isMatch == bs'[i].isMatch && StateOk(nfa, bs'[i])
    {
      if i < |bs| {
        assert bs'[i] == bs[i] && states'[i] == states[i];
      }
    }
    assert Cached(bs, cache);
    CachedAppend(bs, cache, state);
    assert Cached(bs', cache[state := |bs|]);
  }

  class DfaBuilder {
    /** The NFA being converted; the builder only reads it. */
    const nfa: seq<N.NfaState>
    const dfa: D.Dfa
    var builderStates: seq<BuilderState>
    var cache: map<BuilderState, nat>
    /** The ids the epsilon closure still has to visit, depth first. */
    var stack: seq<nat>

    /**
     * The DFA and the builder states line up id for id; every builder state
     * names `Range` states of the NFA; the cache maps each builder state to
     * an id that holds it, and at most one id (the start state, which is
     * added without a lookup) is missing from its values.
     */
    ghost predicate Valid()
      reads this, dfa
    {
      N.WellFormed(nfa) && |nfa| >= 1 && dfa.Valid() &&
      Tables(nfa, dfa.states, builderStates, cache) && stack == []
    }

    /** A builder whose DFA holds only the dead state, which the cache maps to id 0. */
    constructor (nfa: seq<N.NfaState>)
      requires N.WellFormed(nfa) && |nfa| >= 1
      ensures Valid() && fresh(dfa) && this.nfa == nfa
      ensures builderStates == [Dead()] && cache == map[Dead() := 0]
      ensures dfa.states == [D.EmptyState()] && dfa.start == D.DEAD
    {
      this.nfa := nfa;
      dfa := new D.Dfa.Empty();
      builderStates := [Dead()];
      cache := map[Dead() := 0];
      stack := [];
    }

    /**
     * The builder state of the set: its `Range` states in insertion order
     * up to the first `Match`, which makes it matching and ends the scan.
     */
    method NewState(sparse: SparseSet) returns (state: BuilderState)
      requires sparse.Valid() && sparse.sparse.Length == |nfa|
      ensures IdsBelow(sparse.Contents(), |nfa|) && state == Collect(nfa, sparse.Contents())
    {
      var c := sparse.dense[..sparse.len];
      state := BuilderState(false, []);
      var i := 0;
      assert c[0..] == c && [] + Collect(nfa, c).nfaStates == Collect(nfa, c).nfaStates;
      while i < |c|
        invariant 0 <= i <= |c| && !state.isMatch
        invariant Collect(nfa, c) == BuilderState(Collect(nfa, c[i..]).isMatch, state.nfaStates + Collect(nfa, c[i..]).nfaStates)
      {
        CollectStep(nfa, c, i);
        ghost var rest := Collect(nfa, c[i + 1..]);
        match nfa[c[i]] {
          case Range(_, _, _) =>
            assert state.nfaStates + ([c[i]] + rest.nfaStates) == (state.nfaStates + [c[i]]) + rest.nfaStates;
            state := state.(nfaStates := state.nfaStates + [c[i]]);
          case Match =>
            assert state.nfaStates + [] == state.nfaStates;
            state := state.(isMatch := true);
            return;
          case _ =>
        }
        i := i + 1;
      }
      assert c[i..] == [] && state.nfaStates + [] == state.nfaStates;
    }

    /**
     * Collects in `sparse`, cleared first, the closures of the targets of the
     * `Range` states of DFA state `dfaId` that accept `b`, in the order of
     * those states: `StepClosure`. Not `ok` exactly when that does not fit in
     * the set, which is then full.
     */
    method Next(dfaId: nat, b: D.byte, sparse: SparseSet) returns (ok: bool)
      requires N.WellFormed(nfa) && stack == []
      requires dfaId < |builderStates| && StateOk(nfa, builderStates[dfaId])
      requires sparse.Valid() && sparse.dense.Length == |nfa| && sparse.sparse.Length == |nfa|
      modifies this`stack, sparse, sparse.dense, sparse.sparse
      ensures sparse.Valid() && IdsBelow(builderStates[dfaId].nfaStates, |nfa|)
      ensures ok <==> Fits(nfa, builderStates[dfaId], b)
      ensures ok ==> stack == [] && sparse.Contents() == StepClosure(nfa, builderStates[dfaId].nfaStates, b)
      ensures !ok ==> |sparse.Contents()| == sparse.dense.Length
    {
      sparse.Clear();
      var ids := builderStates[dfaId].nfaStates;
      assert IdsBelow(ids, |nfa|);
      assert ids[..0] == [];
      var i := 0;
      while i < |ids|
        invariant 0 <= i <= |ids|
        invariant sparse.Valid() && sparse.dense.Length == |nfa| && sparse.sparse.Length == |nfa|
        invariant stack == []
        invariant IdsBelow(ids[..i], |nfa|) && sparse.Contents() == StepClosure(nfa, ids[..i], b)
      {
        ok := NextStep(ids, i, b, sparse);
        if !ok {
          StepClosurePrefix(nfa, ids, i + 1, b);
          return false;
        }
        i := i + 1;
      }
      assert ids[..i] == ids;
      ok := true;
    }

    /** Adds to `sparse` the closure of the target of `ids[i]` when it is a `Range` that holds `b`. */
    method NextStep(ids: seq<nat>, i: nat, b: D.byte, sparse: SparseSet) returns (ok: bool)
      requires N.WellFormed(nfa) && stack == [] && IdsBelow(ids, |nfa|) && i < |ids|
      requires sparse.Valid() && sparse.dense.Length == |nfa| && sparse.sparse.Length == |nfa|
      requires IdsBelow(ids[..i], |nfa|) && sparse.Contents() == StepClosure(nfa, ids[..i], b)
      modifies this`stack, sparse, sparse.dense, sparse.sparse
      ensures sparse.Valid() && IdsBelow(ids[..i + 1], |nfa|)
      ensures ok ==> stack == [] && sparse.Contents() == StepClosure(nfa, ids[..i + 1], b)
      ensures !ok ==> |StepClosure(nfa, ids[..i + 1], b)| > |nfa| && |sparse.Contents()| == sparse.dense.Length
    {
      StepClosureStep(nfa, ids, i, b);
      var s := nfa[ids[i]];
      if s.Range? && s.start <= b <= s.end {
        ok := EpsilonClosure(s.next, sparse);
      } else {
        ok := true;
      }
    }

    /**
     * The id of the successor of DFA state `dfaId` on byte `b`: the cached id
     * when the builder state is known, otherwise that of a newly added state.
     * Not `ok` exactly when the successor's set does not fit, and then no
     * builder state has been added.
     */
    method CachedState(dfaId: nat, b: D.byte, sparse: SparseSet) returns (ok: bool, id: nat)
      requires Valid() && dfaId < |builderStates|
      requires sparse.Valid() && sparse.dense.Length == |nfa| && sparse.sparse.Length == |nfa|
      modifies this, dfa, sparse, sparse.dense, sparse.sparse
      ensures sparse.Valid() && IdsBelow(old(builderStates[dfaId].nfaStates), |nfa|)
      ensures ok <==> Fits(nfa, old(builderStates[dfaId]), b)
      ensures !ok ==> builderStates == old(builderStates) && |sparse.Contents()| == sparse.dense.Length
      ensures ok ==> Valid() && id < |builderStates| && dfa.start == old(dfa.start)
      ensures ok ==> Prefix(old(builderStates), builderStates) && |builderStates| <= old(|builderStates|) + 1
      ensures ok && |builderStates| != old(|builderStates|) ==> id == old(|builderStates|)
      ensures ok ==> Prefix(old(dfa.states), dfa.states) && Successor(nfa, builderStates[dfaId], b, builderStates[id])
      ensures ok ==> builderStates[id] == Target(nfa, old(builderStates[dfaId]), b)
      ensures ok && Target(nfa, old(builderStates[dfaId]), b) in old(cache) ==>
                id == old(cache[Target(nfa, builderStates[dfaId], b)]) &&
                builderStates == old(builderStates) && cache == old(cache) && dfa.states == old(dfa.states)
      ensures ok && Target(nfa, old(builderStates[dfaId]), b) !in old(cache) ==>
                id == old(|builderStates|) &&
                builderStates == old(builderStates) + [Target(nfa, old(builderStates[dfaId]), b)] &&
                cache == old(cache)[Target(nfa, old(builderStates[dfaId]), b) := id] &&
                dfa.states == old(dfa.states) + [D.EmptyState().(isMatch := Target(nfa, old(builderStates[dfaId]), b).isMatch)]
    {
      sparse.Clear();
      ok := Next(dfaId, b, sparse);
      if !ok {
        return false, 0;
      }
      var state := NewState(sparse);
      if state in cache {
        return true, cache[state];
      }
      id := AddState(state);
    }

    /**
     * Appends `state` to the DFA as a state with no transitions yet and
     * caches its id, the previous number of states.
     */
    method AddState(state: BuilderState) returns (id: nat)
      requires Valid() && StateOk(nfa, state)
      requires state !in cache || |builderStates| == 1
      modifies this, dfa
      ensures Valid() && id == old(|dfa.states|) && dfa.start == old(dfa.start)
      ensures builderStates == old(builderStates) + [state] && cache == old(cache)[state := id]
      ensures dfa.states == old(dfa.states) + [D.EmptyState().(isMatch := state.isMatch)]
    {
      id := |dfa.states|;
      D.AppendState(dfa.states, D.EmptyState().(isMatch := state.isMatch));
      TablesAppend(nfa, dfa.states, builderStates, cache, state);
      dfa.states := dfa.states + [D.EmptyState().(isMatch := state.isMatch)];
      builderStates := builderStates + [state];
      cache := cache[state := id];
    }

    /** Adds the builder state of the closure of NFA state 0 and makes it the start state. */
    method AddStart(sparse: SparseSet) returns (id: nat)
      requires Valid() && builderStates == [Dead()]
      requires sparse.Valid() && sparse.Contents() == [] && sparse.dense.Length == |nfa| && sparse.sparse.Length == |nfa|
      modifies this, dfa, sparse, sparse.dense, sparse.sparse
      ensures sparse.Valid() && Valid() && id == 1 && dfa.start == 1
      ensures builderStates == [Dead(), Collect(nfa, Closure(nfa, [], 0))] && StartState(nfa, builderStates[1])
      ensures |dfa.states| == 2 && dfa.states[0] == old(dfa.states[0])
    {
      var state := StartClosure(sparse);
      id := AddState(state);
      dfa.SetStart(id);
    }

    /**
     * The builder state of the epsilon closure of NFA state 0, collected in
     * the empty `sparse`; that closure repeats no id, so it always fits.
     */
    method StartClosure(sparse: SparseSet) returns (state: BuilderState)
      requires N.WellFormed(nfa) && |nfa| >= 1 && stack == []
      requires sparse.Valid() && sparse.Contents() == [] && sparse.dense.Length == |nfa| && sparse.sparse.Length == |nfa|
      modifies this`stack, sparse, sparse.dense, sparse.sparse
      ensures sparse.Valid() && stack == [] && StateOk(nfa, state)
      ensures state == Collect(nfa, Closure(nfa, [], 0))
    {
      StartFits(nfa);
      var ok := EpsilonClosure(0, sparse);
      assert ok;
      state := NewState(sparse);
    }

    /**
     * The subset construction: from the start state, compute the 256
     * transitions of each DFA state popped from the worklist, pushing every
     * target not queued before. Not `ok` when a successor's set did not fit
     * in the scratch set, where the source stops on an assertion.
     */
    method Build() returns (ok: bool)
      requires Valid() && builderStates == [Dead()] && dfa.states == [D.EmptyState()]
      modifies this, dfa
      ensures |builderStates| >= 2 && builderStates[0] == Dead() && StartState(nfa, builderStates[1])
      ensures ok ==> Valid() && dfa.start == 1
      ensures ok ==> forall d :: 0 <= d < |builderStates| ==> Compiled(nfa, builderStates, dfa.states, d, D.ALPHABET_SIZE)
      ensures !ok ==> Overflow(nfa, builderStates)
    {
      var sparse := new SparseSet(|nfa|);
      var start := AddStart(sparse);
      StartWorklist(nfa, builderStates, dfa.states);
      ghost var bs := builderStates;
      ok := Run(sparse, [start]);
      assert builderStates[0] == bs[0] && builderStates[1] == bs[1];
    }

    /** The worklist loop, until every DFA state has its transitions computed. */
    method Run(sparse: SparseSet, pending: seq<nat>) returns (ok: bool)
      requires Valid() && sparse.Valid() && sparse.dense.Length == |nfa| && sparse.sparse.Length == |nfa|
      requires IdsBelow(pending, |builderStates|) && Worklist(nfa, builderStates, dfa.states, pending)
      modifies this, dfa, sparse, sparse.dense, sparse.sparse
      ensures Prefix(old(builderStates), builderStates)
      ensures ok ==> Valid() && dfa.start == old(dfa.start)
      ensures ok ==> forall d :: 0 <= d < |builderStates| ==> Compiled(nfa, builderStates, dfa.states, d, D.ALPHABET_SIZE)
      ensures !ok ==> Overflow(nfa, builderStates)
    {
      var uncompiled := pending;
      var queued: set<nat> := {};
      ghost var bound := |AllStates(|nfa|)| + 1;
      while |uncompiled| > 0
        invariant Valid() && sparse.Valid() && sparse.dense.Length == |nfa| && sparse.sparse.Length == |nfa|
        invariant dfa.start == old(dfa.start) && Prefix(old(builderStates), builderStates)
        invariant forall q :: q in queued ==> q < |builderStates|
        invariant IdsBelow(uncompiled, |builderStates|)
        invariant Worklist(nfa, builderStates, dfa.states, uncompiled)
        decreases bound - |queued|, |uncompiled|
      {
        ok, uncompiled, queued := Step(sparse, uncompiled, queued, bound);
        if !ok {
          return;
        }
      }
      ok := true;
    }

    /**
     * One iteration of the worklist loop: pop a DFA state and compute its
     * transitions. Either more ids are queued afterwards, or the worklist is
     * shorter.
     */
    method Step(sparse: SparseSet, uncompiled: seq<nat>, queued: set<nat>, ghost bound: nat)
      returns (ok: bool, uncompiled': seq<nat>, queued': set<nat>)
      requires Valid() && sparse.Valid() && sparse.dense.Length == |nfa| && sparse.sparse.Length == |nfa|
      requires bound == |AllStates(|nfa|)| + 1 && |uncompiled| > 0
      requires IdsBelow(uncompiled, |builderStates|) && forall q :: q in queued ==> q < |builderStates|
      requires Worklist(nfa, builderStates, dfa.states, uncompiled)
      modifies this, dfa, sparse, sparse.dense, sparse.sparse
      ensures sparse.Valid() && Prefix(old(builderStates), builderStates)
      ensures !ok ==> Overflow(nfa, builderStates)
      ensures ok ==> Valid() && dfa.start == old(dfa.start)
      ensures ok ==> IdsBelow(uncompiled', |builderStates|) && forall q :: q in queued' ==> q < |builderStates|
      ensures ok ==> Worklist(nfa, builderStates, dfa.states, uncompiled')
      ensures ok ==> |queued| <= bound && |queued'| <= bound
      ensures ok ==> |queued'| > |queued| || (queued' == queued && |uncompiled'| < |uncompiled|)
    {
      SizeBound();
      BoundedCard(queued, |builderStates|);
      var dfaId := uncompiled[|uncompiled| - 1];
      var rest := uncompiled[..|uncompiled| - 1];
      assert rest + [dfaId] == uncompiled;
      ok, uncompiled', queued' := CompileState(dfaId, sparse, rest, queued);
      if !ok {
        return;
      }
      SizeBound();
      BoundedCard(queued', |builderStates|);
      if queued' != queued {
        ProperSubsetCard(queued, queued');
      }
    }

    /**
     * The body of the worklist loop: set the transition of DFA state `dfaId`
     * on every byte to the id of its successor, pushing each target that was
     * not queued yet.
     */
    method CompileState(dfaId: nat, sparse: SparseSet, uncompiled: seq<nat>, queued: set<nat>)
      returns (ok: bool, uncompiled': seq<nat>, queued': set<nat>)
      requires Valid() && sparse.Valid() && sparse.dense.Length == |nfa| && sparse.sparse.Length == |nfa|
      requires dfaId < |builderStates| && IdsBelow(uncompiled, |builderStates|)
      requires forall q :: q in queued ==> q < |builderStates|
      requires Worklist(nfa, builderStates, dfa.states, uncompiled + [dfaId])
      modifies this, dfa, sparse, sparse.dense, sparse.sparse
      ensures sparse.Valid() && Prefix(old(builderStates), builderStates)
      ensures !ok ==> Overflow(nfa, builderStates)
      ensures ok ==> Valid() && dfa.start == old(dfa.start)
      ensures ok ==> IdsBelow(uncompiled', |builderStates|) && forall q :: q in queued' ==> q < |builderStates|
      ensures ok ==> Worklist(nfa, builderStates, dfa.states, uncompiled')
      ensures ok ==> queued <= queued' && (queued' == queued ==> uncompiled' == uncompiled)
    {
      uncompiled', queued' := uncompiled, queued;
      var b: nat := 0;
      while b < D.ALPHABET_SIZE
        invariant Valid() && sparse.Valid() && sparse.dense.Length == |nfa| && sparse.sparse.Length == |nfa|
        invariant dfa.start == old(dfa.start) && Prefix(old(builderStates), builderStates)
        invariant forall q :: q in queued' ==> q < |builderStates|
        invariant IdsBelow(uncompiled', |builderStates|) && dfaId < |builderStates|
        invariant Worklist(nfa, builderStates, dfa.states, uncompiled' + [dfaId])
        invariant b <= D.ALPHABET_SIZE && Compiled(nfa, builderStates, dfa.states, dfaId, b)
        invariant queued <= queued' && (queued' == queued ==> uncompiled' == uncompiled)
      {
        ok, uncompiled', queued' := CompileTransition(dfaId, b, sparse, uncompiled', queued');
        if !ok {
          return;
        }
        b := b + 1;
      }
      assert forall d :: d in uncompiled' + [dfaId] && d != dfaId ==> d in uncompiled';
      ok := true;
    }

    /**
     * One iteration of the byte loop: the transition of `dfaId` on `b` goes to
     * the cached or newly added successor, which is pushed unless queued.
     */
    method CompileTransition(dfaId: nat, b: D.byte, sparse: SparseSet, uncompiled: seq<nat>, queued: set<nat>)
      returns (ok: bool, uncompiled': seq<nat>, queued': set<nat>)
      requires Valid() && sparse.Valid() && sparse.dense.Length == |nfa| && sparse.sparse.Length == |nfa|
      requires dfaId < |builderStates| && IdsBelow(uncompiled, |builderStates|)
      requires forall q :: q in queued ==> q < |builderStates|
      requires Worklist(nfa, builderStates, dfa.states, uncompiled + [dfaId])
      requires Compiled(nfa, builderStates, dfa.states, dfaId, b)
      modifies this, dfa, sparse, sparse.dense, sparse.sparse
      ensures sparse.Valid() && Prefix(old(builderStates), builderStates)
      ensures !ok ==> Overflow(nfa, builderStates)
      ensures ok ==> Valid() && dfa.start == old(dfa.start)
      ensures ok ==> IdsBelow(uncompiled', |builderStates|) && forall q :: q in queued' ==> q < |builderStates|
      ensures ok ==> Worklist(nfa, builderStates, dfa.states, uncompiled' + [dfaId])
      ensures ok ==> Compiled(nfa, builderStates, dfa.states, dfaId, b + 1)
      ensures ok ==> queued <= queued' && (queued' == queued ==> uncompiled' == uncompiled)
    {
      ghost var bs, states := builderStates, dfa.states;
      var next;
      ok, next := Transition(dfaId, b, sparse);
      if !ok {
        return false, uncompiled, queued;
      }
      uncompiled', queued' := Enqueue(nfa, bs, states, builderStates, dfa.states, uncompiled, queued, dfaId, b, next);
    }

    /**
     * Sets the transition of `dfaId` on `b` to the id of its successor,
     * which is either a state that existed before or the one just added.
     */
    method Transition(dfaId: nat, b: D.byte, sparse: SparseSet) returns (ok: bool, next: nat)
      requires Valid() && sparse.Valid() && sparse.dense.Length == |nfa| && sparse.sparse.Length == |nfa|
      requires dfaId < |builderStates|
      modifies this, dfa, sparse, sparse.dense, sparse.sparse
      ensures sparse.Valid() && Prefix(old(builderStates), builderStates)
      ensures !ok ==> Overflow(nfa, builderStates)
      ensures ok ==> Valid() && dfa.start == old(dfa.start)
      ensures ok ==> next < |builderStates| && |builderStates| <= old(|builderStates|) + 1
      ensures ok && |builderStates| != old(|builderStates|) ==> next == old(|builderStates|)
      ensures ok ==> forall e :: 0 <= e < old(|dfa.states|) && e != dfaId ==> dfa.states[e] == old(dfa.states[e])
      ensures ok ==> forall k :: 0 <= k < D.ALPHABET_SIZE && k != b ==> dfa.states[dfaId].transitions[k] == old(dfa.states[dfaId].transitions[k])
      ensures ok ==> dfa.states[dfaId].transitions[b] == next && Successor(nfa, builderStates[dfaId], b, builderStates[next])
    {
      ok, next := CachedState(dfaId, b, sparse);
      if !ok {
        assert 0 <= dfaId < |builderStates| && 0 <= b < D.ALPHABET_SIZE && !Fits(nfa, builderStates[dfaId], b);
        return;
      }
      SetTransition(dfaId, b, next);
    }

    /** Sets the transition of DFA state `from` on `b`; the builder states and the cache stay as they are. */
    method SetTransition(from: nat, b: D.byte, to: nat)
      requires Valid() && from < |dfa.states| && to < |dfa.states|
      modifies dfa
      ensures Valid() && dfa.start == old(dfa.start) && |dfa.states| == old(|dfa.states|)
      ensures forall e :: 0 <= e < |dfa.states| && e != from ==> dfa.states[e] == old(dfa.states[e])
      ensures forall k :: 0 <= k < D.ALPHABET_SIZE && k != b ==> dfa.states[from].transitions[k] == old(dfa.states[from].transitions[k])
      ensures dfa.states[from].transitions[b] == to
    {
      TablesSetTransition(nfa, dfa.states, builderStates, cache, from, b, to);
      dfa.SetTransition(from, b, to);
    }

    /** The cache holds distinct builder states allowed for the NFA, so there are boundedly many. */
    lemma SizeBound()
      requires Valid()
      ensures |builderStates| <= |AllStates(|nfa|)| + 1
    {
      forall k | k in cache
        ensures k in AllStates(|nfa|)
      {
        assert StateOk(nfa, builderStates[cache[k]]);
        InSeqs(k.nfaStates, |nfa|, |nfa|);
      }
      var keys := cache.Keys;
      assert keys <= AllStates(|nfa|);
      SubsetCard(keys, AllStates(|nfa|));
    }

    /** The empty, non-matching builder state is cached as the dead state unless the start state equals it. */
    lemma DeadCached()
      requires Valid() && |builderStates| >= 2 && builderStates[1] != Dead()
      ensures Dead() in cache && cache[Dead()] == 0
    {
      assert builderStates[0] in cache;
    }

    /**
     * Adds to `sparse` what the source's closure of `start` adds to it: the
     * ids of `Closure`, in its order. `ok` is false when an insertion would
     * exceed the set's capacity, which stops the source with an assertion;
     * that happens exactly when `Closure` is longer than the capacity, and
     * the set is then full.
     */
    method EpsilonClosure(start: nat, sparse: SparseSet) returns (ok: bool)
      requires N.WellFormed(nfa) && stack == []
      requires sparse.Valid() && sparse.dense.Length == |nfa| && sparse.sparse.Length == |nfa|
      requires start < |nfa|
      modifies this`stack, sparse, sparse.dense, sparse.sparse
      ensures sparse.Valid() && IdsBelow(old(sparse.Contents()), |nfa|)
      ensures ok <==> |Closure(nfa, old(sparse.Contents()), start)| <= |nfa|
      ensures ok ==> stack == [] && sparse.Contents() == Closure(nfa, old(sparse.Contents()), start)
      ensures !ok ==> |sparse.Contents()| == sparse.dense.Length
    {
      ghost var c0 := sparse.Contents();
      if !N.IsEpsilon(nfa[start]) {
        var len := sparse.Len();
        var capacity := sparse.Capacity();
        if len >= capacity {
          return false;
        }
        sparse.Insert(start);
        return true;
      }
      stack := [start];
      ok := Drain(sparse, Closure(nfa, c0, start));
    }

    /** The outer loop of the closure: descend from each popped id until the stack is empty. */
    method Drain(sparse: SparseSet, ghost goal: seq<nat>) returns (ok: bool)
      requires sparse.Valid() && sparse.dense.Length == |nfa| && sparse.sparse.Length == |nfa|
      requires Toward(nfa, sparse.Contents(), stack, goal)
      modifies this`stack, sparse, sparse.dense, sparse.sparse
      ensures sparse.Valid()
      ensures ok ==> stack == [] && sparse.Contents() == goal
      ensures !ok ==> |goal| > |nfa| && |sparse.Contents()| == |nfa|
    {
      while |stack| > 0
        invariant sparse.Valid() && sparse.dense.Length == |nfa| && sparse.sparse.Length == |nfa|
        invariant Toward(nfa, sparse.Contents(), stack, goal)
        decreases |nfa| - |Elems(sparse.Contents())|, |stack|
      {
        BoundedCard(Elems(sparse.Contents()), |nfa|);
        ok := Descend(sparse, goal);
        if !ok {
          return false;
        }
        BoundedCard(Elems(sparse.Contents()), |nfa|);
      }
      ok := true;
    }

    /**
     * The inner loop of the closure: from the popped id, insert states while they are
     * new, moving on along an `Empty` edge or to a union's first alternate
     * and pushing the union's other alternates so that the second is popped
     * first; stop at a state already present, a `Range`, a `Match` or a
     * union without alternates.
     */
    method Descend(sparse: SparseSet, ghost goal: seq<nat>) returns (ok: bool)
      requires sparse.Valid() && sparse.dense.Length == |nfa| && sparse.sparse.Length == |nfa|
      requires Toward(nfa, sparse.Contents(), stack, goal) && |stack| > 0
      modifies this`stack, sparse, sparse.dense, sparse.sparse
      ensures sparse.Valid()
      ensures ok ==> Toward(nfa, sparse.Contents(), stack, goal)
      ensures ok ==> |Elems(sparse.Contents())| > |Elems(old(sparse.Contents()))| ||
                     (|stack| < old(|stack|) && sparse.Contents() == old(sparse.Contents()))
      ensures !ok ==> |goal| > |nfa| && |sparse.Contents()| == |nfa|
    {
      ghost var all := stack;
      var id := stack[|stack| - 1];
      stack := stack[..|stack| - 1];
      assert all == stack + [id];
      var ok', added := Visit(id, sparse, goal);
      if !ok' {
        return false;
      } else if !added {
        return true;
      }
      var more, cur := Advance(id);
      if !more {
        return true;
      }
      ok := Follow(cur, sparse, goal);
    }

    /** The descent after its first insertion: it only ever adds members. */
    method Follow(id: nat, sparse: SparseSet, ghost goal: seq<nat>) returns (ok: bool)
      requires sparse.Valid() && sparse.dense.Length == |nfa| && sparse.sparse.Length == |nfa|
      requires Toward(nfa, sparse.Contents(), stack + [id], goal)
      modifies this`stack, sparse, sparse.dense, sparse.sparse
      ensures sparse.Valid()
      ensures ok ==> Toward(nfa, sparse.Contents(), stack, goal)
      ensures ok ==> |Elems(sparse.Contents())| >= |Elems(old(sparse.Contents()))|
      ensures !ok ==> |goal| > |nfa| && |sparse.Contents()| == |nfa|
    {
      ghost var e0 := |Elems(sparse.Contents())|;
      var cur := id;
      BoundedCard(Elems(sparse.Contents()), |nfa|);
      while true
        invariant sparse.Valid() && sparse.dense.Length == |nfa| && sparse.sparse.Length == |nfa|
        invariant Toward(nfa, sparse.Contents(), stack + [cur], goal)
        invariant e0 <= |Elems(sparse.Contents())| <= |nfa|
        decreases |nfa| - |Elems(sparse.Contents())|
      {
        var more;
        ok, more, cur := Hop(cur, sparse, goal);
        if !ok || !more {
          return;
        }
        BoundedCard(Elems(sparse.Contents()), |nfa|);
      }
    }

    /** Visit `id` and, when it was new, advance from it. */
    method Hop(id: nat, sparse: SparseSet, ghost goal: seq<nat>) returns (ok: bool, more: bool, next: nat)
      requires sparse.Valid() && sparse.dense.Length == |nfa| && sparse.sparse.Length == |nfa|
      requires Toward(nfa, sparse.Contents(), stack + [id], goal)
      modifies this`stack, sparse, sparse.dense, sparse.sparse
      ensures sparse.Valid()
      ensures ok && more ==> Toward(nfa, sparse.Contents(), stack + [next], goal) &&
                             |Elems(sparse.Contents())| == |Elems(old(sparse.Contents()))| + 1
      ensures ok && !more ==> Toward(nfa, sparse.Contents(), stack, goal) &&
                              |Elems(sparse.Contents())| >= |Elems(old(sparse.Contents()))|
      ensures !ok ==> |goal| > |nfa| && |sparse.Contents()| == |nfa|
    {
      var added;
      ok, added := Visit(id, sparse, goal);
      if !ok || !added {
        return ok, false, 0;
      }
      more, next := Advance(id);
    }

    /**
     * One step of the descent: `added` when `id` was new and has been
     * inserted, not `ok` when the set was full.
     */
    method Visit(id: nat, sparse: SparseSet, ghost goal: seq<nat>) returns (ok: bool, added: bool)
      requires sparse.Valid() && sparse.dense.Length == |nfa| && sparse.sparse.Length == |nfa|
      requires Toward(nfa, sparse.Contents(), stack + [id], goal)
      modifies sparse, sparse.dense, sparse.sparse
      ensures sparse.Valid() && id < |nfa|
      ensures ok && !added ==> sparse.Contents() == old(sparse.Contents()) &&
                               Toward(nfa, sparse.Contents(), stack, goal)
      ensures ok && added ==> id !in old(sparse.Contents()) &&
                              Elems(sparse.Contents()) == Elems(old(sparse.Contents())) + {id} &&
                              Toward(nfa, sparse.Contents(), Pending(nfa[id], stack), goal)
      ensures !ok ==> |goal| > |nfa| && |sparse.Contents()| == |nfa|
    {
      DfsPop(nfa, sparse.Contents(), stack, id);
      var present := sparse.Contains(id);
      if present {
        return true, false;
      }
      var len := sparse.Len();
      var capacity := sparse.Capacity();
      if len >= capacity {
        return false, false;
      }
      ghost var c := sparse.Contents();
      sparse.Insert(id);
      assert Elems(c + [id]) == Elems(c) + {id};
      return true, true;
    }

    /**
     * Where the descent goes after inserting `id`: along an `Empty` edge, or
     * to a union's first alternate after pushing the others in reverse;
     * `more` is false for any other state and for a union without alternates.
     */
    method Advance(id: nat) returns (more: bool, next: nat)
      requires id < |nfa|
      modifies this`stack
      ensures more ==> stack + [next] == Pending(nfa[id], old(stack))
      ensures !more ==> stack == Pending(nfa[id], old(stack))
    {
      match nfa[id]
      case Empty(n) =>
        more, next := true, n;
      case Union(alternates, _) =>
        if |alternates| == 0 {
          return false, 0;
        }
        more, next := true, alternates[0];
        stack := stack + Reversed(alternates[1..]);
      case _ =>
        more, next := false, 0;
    }
  }

  // ---------------------------------------------------------------------------
  // The source's depth-first closure

  /**
   * What the depth-first closure ends with, from members `c` and pending ids
   * `p`: the last pending id is popped and skipped when it is a member;
   * otherwise it is appended and replaced by its epsilon successors, the
   * `Empty` target or the union's alternates with the first on top.
   */
  function Dfs(nfa: seq<N.NfaState>, c: seq<nat>, p: seq<nat>): (r: seq<nat>)
    requires N.WellFormed(nfa) && IdsBelow(c, |nfa|) && IdsBelow(p, |nfa|)
    ensures Prefix(c, r) && IdsBelow(r, |nfa|)
    decreases |nfa| - |Elems(c)|, |p|
  {
    BoundedCard(Elems(c), |nfa|);
    if p == [] then c
    else
      var id, rest := p[|p| - 1], p[..|p| - 1];
      if id in c then Dfs(nfa, c, rest)
      else
        assert Elems(c + [id]) == Elems(c) + {id};
        BoundedCard(Elems(c + [id]), |nfa|);
        assert N.TargetsBelow(nfa[id], |nfa|);
        PendingSuccs(nfa[id], rest, c, |nfa|);
        Dfs(nfa, c + [id], Pending(nfa[id], rest))
  }

  /**
   * The ids `epsilon_closure` leaves in a set holding `c`: a state that is
   * not an epsilon state is appended without a membership test, any other
   * is closed over depth first from a stack holding only it.
   */
  function Closure(nfa: seq<N.NfaState>, c: seq<nat>, start: nat): (r: seq<nat>)
    requires N.WellFormed(nfa) && IdsBelow(c, |nfa|) && start < |nfa|
    ensures Prefix(c, r) && IdsBelow(r, |nfa|)
  {
    if N.IsEpsilon(nfa[start]) then Dfs(nfa, c, [start]) else c + [start]
  }

  /** The goal of the depth-first closure from members `c` and pending ids `p`. */
  ghost predicate Toward(nfa: seq<N.NfaState>, c: seq<nat>, p: seq<nat>, goal: seq<nat>) {
    N.WellFormed(nfa) && IdsBelow(c, |nfa|) && IdsBelow(p, |nfa|) && goal == Dfs(nfa, c, p)
  }

  /** One pop of the depth-first closure. */
  lemma DfsPop(nfa: seq<N.NfaState>, c: seq<nat>, p: seq<nat>, id: nat)
    requires N.WellFormed(nfa) && IdsBelow(c, |nfa|) && IdsBelow(p + [id], |nfa|)
    ensures IdsBelow(p, |nfa|) && id < |nfa|
    ensures id in c ==> Dfs(nfa, c, p + [id]) == Dfs(nfa, c, p)
    ensures id !in c ==> IdsBelow(c + [id], |nfa|) && IdsBelow(Pending(nfa[id], p), |nfa|) &&
                         Dfs(nfa, c, p + [id]) == Dfs(nfa, c + [id], Pending(nfa[id], p)) &&
                         |Dfs(nfa, c, p + [id])| > |c|
  {
    var q := p + [id];
    assert q[|q| - 1] == id && q[..|q| - 1] == p;
    assert forall k :: 0 <= k < |p| ==> p[k] == q[k];
    assert N.TargetsBelow(nfa[id], |nfa|);
    PendingSuccs(nfa[id], p, c, |nfa|);
  }

  /** The depth-first closure keeps the closure state, so it ends with a closed extension of `c0`. */
  lemma {:induction false} DfsCloses(nfa: seq<N.NfaState>, c0: seq<nat>, c: seq<nat>, start: nat, p: seq<nat>)
    requires ClosureInv(nfa, c0, c, start, p)
    ensures ClosureInv(nfa, c0, Dfs(nfa, c, p), start, [])
    decreases |nfa| - |Elems(c)|, |p|
  {
    BoundedCard(Elems(c), |nfa|);
    if p != [] {
      var id, rest := p[|p| - 1], p[..|p| - 1];
      assert rest + [id] == p;
      DfsPop(nfa, c, rest, id);
      if id in c {
        PresentStep(nfa, c0, c, start, rest, id);
        DfsCloses(nfa, c0, c, start, rest);
      } else {
        InsertStep(nfa, c0, c, start, rest, id);
        BoundedCard(Elems(c + [id]), |nfa|);
        DfsCloses(nfa, c0, c + [id], start, Pending(nfa[id], rest));
      }
    }
  }

  /** The source's closure of one more seed turns a closure of the seeds before it into a closure of them all. */
  lemma ClosureCloses(nfa: seq<N.NfaState>, seeds: seq<nat>, c: seq<nat>, start: nat)
    requires N.WellFormed(nfa) && start < |nfa| && IsClosure(nfa, seeds, c)
    ensures IsClosure(nfa, seeds + [start], Closure(nfa, c, start))
  {
    var c' := Closure(nfa, c, start);
    if N.IsEpsilon(nfa[start]) {
      ClosureStart(nfa, c, start);
      DfsCloses(nfa, c, c, start, [start]);
      ClosureDone(nfa, c, c', start);
    } else {
      assert c'[|c|] == start;
    }
    ClosureExtend(nfa, seeds, c, start, c');
  }

  /** No id is listed twice. */
  predicate Distinct(c: seq<nat>) {
    forall j, k :: 0 <= j < k < |c| ==> c[j] != c[k]
  }

  /** The depth-first closure never lists an id twice, as it inserts only ids not yet present. */
  lemma {:induction false} DfsDistinct(nfa: seq<N.NfaState>, c: seq<nat>, p: seq<nat>)
    requires N.WellFormed(nfa) && IdsBelow(c, |nfa|) && IdsBelow(p, |nfa|) && Distinct(c)
    ensures Distinct(Dfs(nfa, c, p))
    decreases |nfa| - |Elems(c)|, |p|
  {
    BoundedCard(Elems(c), |nfa|);
    if p != [] {
      var id, rest := p[|p| - 1], p[..|p| - 1];
      assert rest + [id] == p;
      DfsPop(nfa, c, rest, id);
      if id in c {
        DfsDistinct(nfa, c, rest);
      } else {
        assert Elems(c + [id]) == Elems(c) + {id};
        BoundedCard(Elems(c + [id]), |nfa|);
        DfsDistinct(nfa, c + [id], Pending(nfa[id], rest));
      }
    }
  }

  /** A list without repeats has as many members as entries. */
  lemma {:induction false} DistinctCard(c: seq<nat>)
    requires Distinct(c)
    ensures |Elems(c)| == |c|
  {
    if c != [] {
      var init, last := c[..|c| - 1], c[|c| - 1];
      assert Distinct(init);
      DistinctCard(init);
      assert Elems(c) == Elems(init) + {last};
      assert last !in Elems(init);
    }
  }

  /** The closure of NFA state 0 in an empty set fits in a set with room for every NFA state. */
  lemma StartFits(nfa: seq<N.NfaState>)
    requires N.WellFormed(nfa) && |nfa| >= 1
    ensures |Closure(nfa, [], 0)| <= |nfa|
  {
    if N.IsEpsilon(nfa[0]) {
      DfsDistinct(nfa, [], [0]);
      DistinctCard(Closure(nfa, [], 0));
      BoundedCard(Elems(Closure(nfa, [], 0)), |nfa|);
    }
  }

  predicate ClosureInv(nfa: seq<N.NfaState>, c0: seq<nat>, c: seq<nat>, start: nat, p: seq<nat>) {
    N.WellFormed(nfa) && start < |nfa| &&
    Prefix(c0, c) && IdsBelow(c, |nfa|) && IdsBelow(p, |nfa|) &&
    (start in c || start in p) &&
    Covered(nfa, c, |c0|, p) &&
    Grown(nfa, c, |c0|, start) &&
    forall m :: 0 <= m < |p| ==> Justified(nfa, c, |c0|, |c|, start, p[m])
  }

  /** The closure of an epsilon state starts with nothing new and `start` pending. */
  lemma ClosureStart(nfa: seq<N.NfaState>, c0: seq<nat>, start: nat)
    requires N.WellFormed(nfa) && start < |nfa| && IdsBelow(c0, |nfa|)
    ensures ClosureInv(nfa, c0, c0, start, [start])
  {
    assert c0[..|c0|] == c0;
  }

  /** With nothing pending, the new members are closed and justified. */
  lemma ClosureDone(nfa: seq<N.NfaState>, c0: seq<nat>, c: seq<nat>, start: nat)
    requires ClosureInv(nfa, c0, c, start, [])
    ensures Prefix(c0, c) && start in c
    ensures Covered(nfa, c, |c0|, []) && Grown(nfa, c, |c0|, start)
  {
  }

  /** What is still pending once `id` has been visited from `p + [id]`. */
  function Pending(s: N.NfaState, p: seq<nat>): seq<nat> {
    match s
    case Empty(next) => p + [next]
    case Union(alternates, _) => if alternates == [] then p else p + Reversed(alternates[1..]) + [alternates[0]]
    case _ => p
  }

  /** An id already in the set is dropped from the pending ids. */
  lemma PresentStep(nfa: seq<N.NfaState>, c0: seq<nat>, c: seq<nat>, start: nat, p: seq<nat>, id: nat)
    requires ClosureInv(nfa, c0, c, start, p + [id]) && id in c
    ensures ClosureInv(nfa, c0, c, start, p)
  {
    CoveredMono(nfa, c, |c0|, p + [id], c, p);
    forall m | 0 <= m < |p|
      ensures Justified(nfa, c, |c0|, |c|, start, p[m])
    {
      assert p[m] == (p + [id])[m];
    }
  }

  /** Inserting a pending id that is not yet a member replaces it by its epsilon successors. */
  lemma InsertStep(nfa: seq<N.NfaState>, c0: seq<nat>, c: seq<nat>, start: nat, p: seq<nat>, id: nat)
    requires ClosureInv(nfa, c0, c, start, p + [id]) && id < |nfa| && id !in c
    ensures ClosureInv(nfa, c0, c + [id], start, Pending(nfa[id], p))
    ensures Elems(c + [id]) == Elems(c) + {id}
  {
    var c', p' := c + [id], Pending(nfa[id], p);
    var lo := |c0|;
    assert c'[..|c|] == c && c'[|c|] == id;
    assert c'[..lo] == c[..lo];
    assert Justified(nfa, c, lo, |c|, start, (p + [id])[|p|]);
    assert forall m :: 0 <= m < |p| ==> p[m] == (p + [id])[m];
    assert N.TargetsBelow(nfa[id], |nfa|);
    PendingSuccs(nfa[id], p, c', |nfa|);
    CoveredMono(nfa, c, lo, p + [id], c', p');
    JustifiedMono(nfa, c, lo, |c|, start, id, c', |c|);
    GrownMono(nfa, c, lo, start, c');
    forall m | 0 <= m < |p'|
      ensures Justified(nfa, c', lo, |c'|, start, p'[m])
    {
      if m < |p| {
        assert p'[m] == p[m];
        JustifiedMono(nfa, c, lo, |c|, start, p[m], c', |c'|);
      } else {
        assert EpsSucc(nfa[c'[|c|]], p'[m]);
      }
    }
  }

  /** The ids `Pending` adds are exactly the epsilon successors of `s`, all below `n`. */
  lemma PendingSuccs(s: N.NfaState, p: seq<nat>, c: seq<nat>, n: nat)
    requires N.TargetsBelow(s, n) && IdsBelow(p, n)
    ensures |p| <= |Pending(s, p)| && Pending(s, p)[..|p|] == p
    ensures forall m :: |p| <= m < |Pending(s, p)| ==> EpsSucc(s, Pending(s, p)[m])
    ensures IdsBelow(Pending(s, p), n)
    ensures SuccsCovered(s, c, Pending(s, p))
  {
    match s
    case Union(alternates, _) =>
      if alternates != [] {
        var q := Pending(s, p);
        var r := Reversed(alternates[1..]);
        ReversedIn(alternates[1..]);
        assert q == p + r + [alternates[0]];
        forall m | |p| <= m < |q|
          ensures EpsSucc(s, q[m])
        {
          if m < |p| + |r| {
            assert q[m] == r[m - |p|];
            assert r[m - |p|] in r;
          }
        }
        forall m | 0 <= m < |alternates|
          ensures alternates[m] in q
        {
          if m > 0 {
            assert alternates[m] == alternates[1..][m - 1];
            assert alternates[m] in r;
          }
        }
      }
    case _ =>
  }

  function Reversed(s: seq<nat>): (r: seq<nat>)
    ensures |r| == |s|
  {
    if s == [] then [] else Reversed(s[1..]) + [s[0]]
  }

  lemma {:induction false} ReversedIn(s: seq<nat>)
    ensures forall x :: x in Reversed(s) <==> x in s
  {
    if s != [] {
      ReversedIn(s[1..]);
      assert s == [s[0]] + s[1..];
    }
  }

  // ---------------------------------------------------------------------------
  // Successor states

  /** The targets of the `Range` states among `ids` whose range holds `b`, in order. */
  function Seeds(nfa: seq<N.NfaState>, ids: seq<nat>, b: nat): (r: seq<nat>)
    requires N.WellFormed(nfa) && IdsBelow(ids, |nfa|)
    ensures |r| <= |ids| && IdsBelow(r, |nfa|)
  {
    if ids == [] then []
    else
      var last := ids[|ids| - 1];
      Seeds(nfa, ids[..|ids| - 1], b) +
        (match nfa[last]
         case Range(lo, hi, next) => if lo <= b <= hi then [next] else []
         case _ => [])
  }

  /** A seed is the target of one of the `Range` states whose range holds `b`, and each such target is a seed. */
  lemma {:induction false} SeedsIn(nfa: seq<N.NfaState>, ids: seq<nat>, b: nat, y: nat)
    requires N.WellFormed(nfa) && IdsBelow(ids, |nfa|)
    ensures y in Seeds(nfa, ids, b) <==>
            exists k :: 0 <= k < |ids| && nfa[ids[k]].Range? && nfa[ids[k]].start <= b <= nfa[ids[k]].end && nfa[ids[k]].next == y
  {
    if ids != [] {
      var init := ids[..|ids| - 1];
      SeedsIn(nfa, init, b, y);
      assert forall k :: 0 <= k < |init| ==> init[k] == ids[k];
    }
  }

  /** A closure of `seeds` followed by the closure of one more seed is a closure of all of them. */
  lemma ClosureExtend(nfa: seq<N.NfaState>, seeds: seq<nat>, c: seq<nat>, start: nat, c': seq<nat>)
    requires IsClosure(nfa, seeds, c) && IdsBelow(c', |nfa|)
    requires Prefix(c, c') && start in c'
    requires Covered(nfa, c', |c|, []) && Grown(nfa, c', |c|, start)
    ensures IsClosure(nfa, seeds + [start], c')
  {
    var seeds' := seeds + [start];
    forall k | 0 <= k < |seeds'|
      ensures seeds'[k] in c'
    {
      if k < |seeds| {
        assert seeds'[k] == seeds[k] && seeds[k] in c;
        var i :| 0 <= i < |c| && c[i] == seeds[k];
        assert c'[i] == c[i];
      }
    }
    forall k | 0 <= k < |c'| && c'[k] < |nfa|
      ensures SuccsCovered(nfa[c'[k]], c', [])
    {
      if k < |c| {
        assert c'[k] == c[k];
        assert SuccsCovered(nfa[c[k]], c, []);
        forall y | y in c
          ensures y in c'
        {
          var i :| 0 <= i < |c| && c[i] == y;
          assert c'[i] == c[i];
        }
        SuccsCoveredMono(nfa[c[k]], c, [], c', []);
      }
    }
    forall k | 0 <= k < |c'|
      ensures FromSeeds(nfa, seeds', c', k)
    {
      if k < |c| {
        assert c'[k] == c[k];
        assert FromSeeds(nfa, seeds, c, k);
        if c[k] !in seeds {
          var j :| 0 <= j < k && c[j] < |nfa| && EpsSucc(nfa[c[j]], c[k]);
          assert c'[j] == c[j];
        }
      } else {
        assert Justified(nfa, c', |c|, k, start, c'[k]);
      }
    }
  }

  /** Two closures of the same seeds hold the same states, whatever their order. */
  lemma ClosureUnique(nfa: seq<N.NfaState>, seeds: seq<nat>, c1: seq<nat>, c2: seq<nat>)
    requires IsClosure(nfa, seeds, c1) && IsClosure(nfa, seeds, c2)
    ensures Elems(c1) == Elems(c2)
  {
    ClosureWithin(nfa, seeds, c1, c2, |c1|);
    ClosureWithin(nfa, seeds, c2, c1, |c2|);
  }

  /** The first `n` members of a closure `c1` of `seeds` belong to every closure `c2` of them. */
  lemma {:induction false} ClosureWithin(nfa: seq<N.NfaState>, seeds: seq<nat>, c1: seq<nat>, c2: seq<nat>, n: nat)
    requires IsClosure(nfa, seeds, c1) && IsClosure(nfa, seeds, c2) && n <= |c1|
    ensures forall k :: 0 <= k < n ==> c1[k] in c2
  {
    if n > 0 {
      ClosureWithin(nfa, seeds, c1, c2, n - 1);
      var k := n - 1;
      assert FromSeeds(nfa, seeds, c1, k);
      if c1[k] !in seeds {
        var j :| 0 <= j < k && c1[j] < |nfa| && EpsSucc(nfa[c1[j]], c1[k]);
        var i :| 0 <= i < |c2| && c2[i] == c1[j];
        assert SuccsCovered(nfa[c2[i]], c2, []);
      } else {
        var m :| 0 <= m < |seeds| && seeds[m] == c1[k];
      }
    }
  }

  /**
   * The set `next` collects for byte `b` from the ids of a builder state:
   * the closures of the targets of their `Range` states that hold `b`, taken
   * in order, each added to what the ones before it left.
   */
  function StepClosure(nfa: seq<N.NfaState>, ids: seq<nat>, b: nat): (r: seq<nat>)
    requires N.WellFormed(nfa) && IdsBelow(ids, |nfa|)
    ensures IdsBelow(r, |nfa|)
  {
    if ids == [] then []
    else
      var c := StepClosure(nfa, ids[..|ids| - 1], b);
      var s := nfa[ids[|ids| - 1]];
      if s.Range? && s.start <= b <= s.end then Closure(nfa, c, s.next) else c
  }

  /** `StepClosure` over one more id. */
  lemma StepClosureStep(nfa: seq<N.NfaState>, ids: seq<nat>, i: nat, b: nat)
    requires N.WellFormed(nfa) && IdsBelow(ids, |nfa|) && i < |ids|
    ensures IdsBelow(ids[..i], |nfa|) && IdsBelow(ids[..i + 1], |nfa|)
    ensures StepClosure(nfa, ids[..i + 1], b) ==
            var s := nfa[ids[i]];
            if s.Range? && s.start <= b <= s.end then Closure(nfa, StepClosure(nfa, ids[..i], b), s.next)
            else StepClosure(nfa, ids[..i], b)
  {
    assert ids[..i + 1][..i] == ids[..i] && ids[..i + 1][i] == ids[i];
  }

  /** What the first `i` ids collect is a prefix of what all of them collect. */
  lemma {:induction false} StepClosurePrefix(nfa: seq<N.NfaState>, ids: seq<nat>, i: nat, b: nat)
    requires N.WellFormed(nfa) && IdsBelow(ids, |nfa|) && i <= |ids|
    ensures IdsBelow(ids[..i], |nfa|) && Prefix(StepClosure(nfa, ids[..i], b), StepClosure(nfa, ids, b))
    decreases |ids|
  {
    if i == |ids| {
      assert ids[..i] == ids;
    } else {
      var init := ids[..|ids| - 1];
      assert init[..i] == ids[..i];
      StepClosurePrefix(nfa, init, i, b);
    }
  }

  /** What `next` collects is an epsilon closure of the `Range` targets on `b`, whatever its order. */
  lemma {:induction false} StepClosureCloses(nfa: seq<N.NfaState>, ids: seq<nat>, b: nat)
    requires N.WellFormed(nfa) && IdsBelow(ids, |nfa|)
    ensures IsClosure(nfa, Seeds(nfa, ids, b), StepClosure(nfa, ids, b))
  {
    if ids != [] {
      var init := ids[..|ids| - 1];
      StepClosureCloses(nfa, init, b);
      var s := nfa[ids[|ids| - 1]];
      if s.Range? && s.start <= b <= s.end {
        ClosureCloses(nfa, Seeds(nfa, init, b), StepClosure(nfa, init, b), s.next);
      } else {
        assert Seeds(nfa, ids, b) == Seeds(nfa, init, b);
        assert StepClosure(nfa, ids, b) == StepClosure(nfa, init, b);
      }
    }
  }

  /** The set collected from `from` on `b` fits in the scratch set, whose capacity is the number of NFA states. */
  predicate Fits(nfa: seq<N.NfaState>, from: BuilderState, b: nat)
    requires N.WellFormed(nfa) && IdsBelow(from.nfaStates, |nfa|)
  {
    |StepClosure(nfa, from.nfaStates, b)| <= |nfa|
  }

  /** The builder state collected from `from` on `b`. */
  function Target(nfa: seq<N.NfaState>, from: BuilderState, b: nat): BuilderState
    requires N.WellFormed(nfa) && IdsBelow(from.nfaStates, |nfa|)
  {
    Collect(nfa, StepClosure(nfa, from.nfaStates, b))
  }

  /**
   * `to` is the builder state the subset construction moves to from `from`
   * on byte `b`: the collected set fits, and `to` is its builder state.
   */
  predicate Successor(nfa: seq<N.NfaState>, from: BuilderState, b: nat, to: BuilderState) {
    N.WellFormed(nfa) && IdsBelow(from.nfaStates, |nfa|) && Fits(nfa, from, b) && to == Target(nfa, from, b)
  }

  /** Some builder state has a successor that does not fit in the scratch set. */
  ghost predicate Overflow(nfa: seq<N.NfaState>, bs: seq<BuilderState>) {
    N.WellFormed(nfa) &&
    exists d, b :: 0 <= d < |bs| && 0 <= b < D.ALPHABET_SIZE && IdsBelow(bs[d].nfaStates, |nfa|) && !Fits(nfa, bs[d], b)
  }

  /** The first `n` transitions of DFA state `d` lead to the successors of its builder state. */
  ghost predicate Compiled(nfa: seq<N.NfaState>, bs: seq<BuilderState>, states: seq<D.DfaState>, d: nat, n: nat) {
    d < |bs| && d < |states| && |states[d].transitions| == D.ALPHABET_SIZE && n <= D.ALPHABET_SIZE &&
    (forall b :: 0 <= b < n ==> states[d].transitions[b] < |bs|) &&
    forall b {:trigger Successor(nfa, bs[d], b, bs[states[d].transitions[b]])} :: 0 <= b < n ==>
      Successor(nfa, bs[d], b, bs[states[d].transitions[b]])
  }

  /** A successor matches exactly when any epsilon closure of its seeds holds a `Match`, whatever its order. */
  lemma SuccessorMatch(nfa: seq<N.NfaState>, from: BuilderState, b: nat, to: BuilderState, c: seq<nat>)
    requires Successor(nfa, from, b, to) && IsClosure(nfa, Seeds(nfa, from.nfaStates, b), c)
    ensures to.isMatch <==> exists k :: 0 <= k < |c| && nfa[c[k]].Match?
  {
    var c' := StepClosure(nfa, from.nfaStates, b);
    StepClosureCloses(nfa, from.nfaStates, b);
    ClosureUnique(nfa, Seeds(nfa, from.nfaStates, b), c, c');
    CollectMatch(nfa, c');
    if exists k :: 0 <= k < |c| && nfa[c[k]].Match? {
      var k :| 0 <= k < |c| && nfa[c[k]].Match?;
      assert c[k] in Elems(c);
      var k' :| 0 <= k' < |c'| && c'[k'] == c[k];
    }
    if exists k :: 0 <= k < |c'| && nfa[c'[k]].Match? {
      var k :| 0 <= k < |c'| && nfa[c'[k]].Match?;
      assert c'[k] in Elems(c');
      var k' :| 0 <= k' < |c| && c[k'] == c'[k];
    }
  }

  // ---------------------------------------------------------------------------
  // A bound on the number of builder states

  /** All sequences of at most `len` ids below `n`. */
  ghost function Seqs(len: nat, n: nat): set<seq<nat>> {
    if len == 0 then {[]}
    else {[]} + set s, x | s in Seqs(len - 1, n) && 0 <= x < n :: [x] + s
  }

  lemma {:induction false} InSeqs(s: seq<nat>, len: nat, n: nat)
    requires |s| <= len && IdsBelow(s, n)
    ensures s in Seqs(len, n)
  {
    if s != [] {
      InSeqs(s[1..], len - 1, n);
      assert [s[0]] + s[1..] == s;
    }
  }

  /** Every builder state `StateOk` allows for an NFA of `n` states. */
  ghost function AllStates(n: nat): set<BuilderState> {
    set s, m | s in Seqs(n, n) && m in {false, true} :: BuilderState(m, s)
  }

  lemma SubsetCard<T>(a: set<T>, b: set<T>)
    requires a <= b
    ensures |a| <= |b|
  {
    assert b == a + (b - a);
  }

  /** The start state is the builder state of the source's closure of NFA state 0. */
  predicate StartState(nfa: seq<N.NfaState>, s: BuilderState) {
    N.WellFormed(nfa) && |nfa| >= 1 && s == Collect(nfa, Closure(nfa, [], 0))
  }

  /** The start state's set is an epsilon closure of NFA state 0. */
  lemma StartCloses(nfa: seq<N.NfaState>)
    requires N.WellFormed(nfa) && |nfa| >= 1
    ensures IsClosure(nfa, [0], Closure(nfa, [], 0))
  {
    assert IsClosure(nfa, [], []);
    ClosureCloses(nfa, [], [], 0);
    assert [] + [0] == [0];
  }

  /** Every DFA state has all its transitions computed, or is still on the worklist. */
  ghost predicate Worklist(nfa: seq<N.NfaState>, bs: seq<BuilderState>, states: seq<D.DfaState>, uncompiled: seq<nat>) {
    forall d {:trigger Compiled(nfa, bs, states, d, D.ALPHABET_SIZE)} :: 0 <= d < |bs| ==>
      Compiled(nfa, bs, states, d, D.ALPHABET_SIZE) || d in uncompiled
  }

  /** Before the loop, only the start state, id 1, is not compiled. */
  lemma StartWorklist(nfa: seq<N.NfaState>, bs: seq<BuilderState>, states: seq<D.DfaState>)
    requires N.WellFormed(nfa) && |bs| == 2 && bs[0] == Dead() && |states| >= 1 && states[0] == D.EmptyState()
    ensures Worklist(nfa, bs, states, [1])
  {
    DeadCompiled(nfa, bs, states);
  }

  /** The dead state's transitions all lead back to it, which is its own successor on every byte. */
  lemma DeadCompiled(nfa: seq<N.NfaState>, bs: seq<BuilderState>, states: seq<D.DfaState>)
    requires N.WellFormed(nfa) && |bs| >= 1 && bs[0] == Dead() && |states| >= 1 && states[0] == D.EmptyState()
    ensures Compiled(nfa, bs, states, 0, D.ALPHABET_SIZE)
  {
    forall b | 0 <= b < D.ALPHABET_SIZE
      ensures Successor(nfa, bs[0], b, bs[states[0].transitions[b]])
    {
      assert StepClosure(nfa, Dead().nfaStates, b) == [] && Collect(nfa, []) == Dead();
    }
  }

  /** Overwriting a transition does not change what the tables relate. */
  lemma TablesSetTransition(nfa: seq<N.NfaState>, states: seq<D.DfaState>, bs: seq<BuilderState>, cache: map<BuilderState, nat>,
                            d: nat, b: nat, to: nat)
    requires Tables(nfa, states, bs, cache) && d < |states| && b < |states[d].transitions|
    ensures Tables(nfa, states[d := states[d].(transitions := states[d].transitions[b := to])], bs, cache)
  {
    var states' := states[d := states[d].(transitions := states[d].transitions[b := to])];
    assert forall i :: 0 <= i < |states| ==> states'[i].isMatch == states[i].isMatch;
  }

  /**
   * One transition of the worklist loop: the builder states may have grown,
   * DFA state `d` has its transition on `b` set to a successor, and any new
   * state has been pushed.
   */
  /**
   * Queue `next`, the successor just recorded for `d` on `b`, unless it
   * was queued before; a state just added was not.
   */
  method Enqueue(ghost nfa: seq<N.NfaState>, ghost bs: seq<BuilderState>, ghost states: seq<D.DfaState>,
                 ghost bs': seq<BuilderState>, ghost states': seq<D.DfaState>,
                 u: seq<nat>, queued: set<nat>, d: nat, b: nat, next: nat) returns (u': seq<nat>, queued': set<nat>)
    requires Worklist(nfa, bs, states, u + [d]) && Compiled(nfa, bs, states, d, b) && b < D.ALPHABET_SIZE
    requires IdsBelow(u, |bs|) && forall q :: q in queued ==> q < |bs|
    requires D.WellFormed(states) && |states| == |bs| && |states'| == |bs'|
    requires Prefix(bs, bs') && |states| <= |states'| && |bs'| <= |bs| + 1 && (|bs'| != |bs| ==> next == |bs|)
    requires forall e :: 0 <= e < |states| && e != d ==> states'[e] == states[e]
    requires |states'[d].transitions| == D.ALPHABET_SIZE
    requires forall k :: 0 <= k < D.ALPHABET_SIZE && k != b ==> states'[d].transitions[k] == states[d].transitions[k]
    requires next < |bs'| && states'[d].transitions[b] == next && Successor(nfa, bs'[d], b, bs'[next])
    ensures IdsBelow(u', |bs'|) && forall q :: q in queued' ==> q < |bs'|
    ensures Worklist(nfa, bs', states', u' + [d]) && Compiled(nfa, bs', states', d, b + 1)
    ensures queued <= queued' && (queued' == queued ==> u' == u)
  {
    u', queued' := u, queued;
    if next !in queued {
      u' := u + [next];
      queued' := queued + {next};
    }
    WorklistStep(nfa, bs, states, u, d, b, bs', states', u');
  }

  lemma WorklistStep(nfa: seq<N.NfaState>, bs: seq<BuilderState>, states: seq<D.DfaState>, u: seq<nat>, d: nat, b: nat,
                     bs': seq<BuilderState>, states': seq<D.DfaState>, u': seq<nat>)
    requires Worklist(nfa, bs, states, u + [d]) && Compiled(nfa, bs, states, d, b) && b < D.ALPHABET_SIZE
    requires D.WellFormed(states) && |states| == |bs| && |states'| == |bs'|
    requires Prefix(bs, bs') && |states| <= |states'|
    requires forall e :: 0 <= e < |states| && e != d ==> states'[e] == states[e]
    requires |states'[d].transitions| == D.ALPHABET_SIZE
    requires forall k :: 0 <= k < b ==> states'[d].transitions[k] == states[d].transitions[k]
    requires states'[d].transitions[b] < |bs'| && Successor(nfa, bs'[d], b, bs'[states'[d].transitions[b]])
    requires |bs'| == |bs| || (|bs'| == |bs| + 1 && u' == u + [|bs|])
    requires u' == u || u' == u + [states'[d].transitions[b]]
    ensures Worklist(nfa, bs', states', u' + [d]) && Compiled(nfa, bs', states', d, b + 1)
  {
    forall e | 0 <= e < |bs'|
      ensures Compiled(nfa, bs', states', e, D.ALPHABET_SIZE) || e in u' + [d]
    {
      if e < |bs| && e != d && e !in u' {
        assert u' == u || u' == u + [states'[d].transitions[b]];
        assert e !in u + [d];
        assert Compiled(nfa, bs, states, e, D.ALPHABET_SIZE);
        forall k | 0 <= k < D.ALPHABET_SIZE
          ensures bs'[states'[e].transitions[k]] == bs[states[e].transitions[k]]
        {
          assert states'[e] == states[e];
        }
        assert bs'[e] == bs[e];
      }
    }
    forall k | 0 <= k < b
      ensures states'[d].transitions[k] < |bs'| && Successor(nfa, bs'[d], k, bs'[states'[d].transitions[k]])
    {
      assert bs'[states[d].transitions[k]] == bs[states[d].transitions[k]];
    }
    assert bs'[d] == bs[d];
  }

  lemma ProperSubsetCard<T>(a: set<T>, b: set<T>)
    requires a <= b && a != b
    ensures |a| < |b|
  {
    assert !(b <= a);
    var x :| x in b && x !in a;
    assert b == a + (b - a) && x in b - a;
  }

  /**
   * The DFA of `nfa` by the subset construction: the dead state is id 0, the
   * start state id 1, each DFA state agrees with its builder state on
   * matching, and every transition leads to the successor of its builder
   * state. `None` stands for the scratch set's capacity assertion firing,
   * which happens when some builder state's successor does not fit.
   */
  method FromNfa(nfa: seq<N.NfaState>) returns (r: Option<D.Dfa>, ghost bs: seq<BuilderState>)
    requires N.WellFormed(nfa) && |nfa| >= 1
    ensures |bs| >= 2 && bs[0] == Dead() && StartState(nfa, bs[1])
    ensures r.None? ==> Overflow(nfa, bs)
    ensures r.Some? ==> fresh(r.value) && r.value.Valid() && r.value.start == 1 && |bs| == |r.value.states|
    ensures r.Some? ==> forall d :: 0 <= d < |bs| ==> r.value.states[d].isMatch == bs[d].isMatch
    ensures r.Some? ==> forall d :: 0 <= d < |bs| ==> Compiled(nfa, bs, r.value.states, d, D.ALPHABET_SIZE)
  {
    var builder := new DfaBuilder(nfa);
    var ok := builder.Build();
    bs := builder.builderStates;
    if !ok {
      return None, bs;
    }
    r := Some(builder.dfa);
  }
}
