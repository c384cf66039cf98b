/**
 * Thompson's construction: a regular expression's high-level syntax tree
 * compiled into an NFA whose states live in one append-only table. Each
 * sub-expression becomes a fragment with an entry and an open exit, and
 * successors are filled in afterwards by patching. The order of a union's
 * alternates records preference: a greedy repetition appends the loop
 * before the exit, a lazy one puts the exit first.
 */
module Nfas {
  import opened Wrappers

  type byte = b: int | 0 <= b < 0x100

  datatype NfaState =
    | Empty(next: nat)
    | Range(start: byte, end: byte, next: nat)
    | Union(alternates: seq<nat>, reverse: bool)
    | Match

  /** States left without consuming a byte. */
  predicate IsEpsilon(s: NfaState) {
    s.Empty? || s.Union?
  }

  /** Every successor named by `s` is an id below `n`. */
  predicate TargetsBelow(s: NfaState, n: nat) {
    match s
    case Empty(next) => next < n
    case Range(_, _, next) => next < n
    case Union(alternates, _) => forall k :: 0 <= k < |alternates| ==> alternates[k] < n
    case Match => true
  }

  /** Every successor in the table names a state of the table. */
  predicate WellFormed(states: seq<NfaState>) {
    forall i :: 0 <= i < |states| ==> TargetsBelow(states[i], |states|)
  }

  /** `b` is `a` with states appended and none of `a`'s states changed. */
  predicate Extends(a: seq<NfaState>, b: seq<NfaState>) {
    |a| <= |b| && forall i :: 0 <= i < |a| ==> b[i] == a[i]
  }

  // ---------------------------------------------------------------------------
  // The input: the parser's syntax tree, reduced to what the compiler inspects

  datatype ByteRange = ByteRange(start: byte, end: byte)
  datatype CharRange = CharRange(start: char, end: char)

  datatype RepetitionKind =
    | ZeroOrOne
    | ZeroOrMore
    | OneOrMore
    | Exactly(count: nat)
    | AtLeast(min: nat)
    | Bounded(min: nat, max: nat)

  datatype Hir =
    | EmptyString
    | Literal(ch: char)
    | Byte(b: byte)
    | ByteClass(byteRanges: seq<ByteRange>)
    | UnicodeClass(charRanges: seq<CharRange>)
    | Repetition(kind: RepetitionKind, greedy: bool, sub: Hir)
    | Group(sub: Hir)
    | Concat(subs: seq<Hir>)
    | Alternation(subs: seq<Hir>)
    | Anchor
    | WordBoundary

  /**
   * Splitting a range of scalar values into sequences of byte ranges whose
   * UTF-8 encodings cover it is done by a library the compiler calls; the
   * model takes it as a given function.
   */
  type Utf8Splitter = (char, char) -> seq<seq<ByteRange>>

  const ANCHORS_UNSUPPORTED := "anchors are not supported"
  const WORD_BOUNDARIES_UNSUPPORTED := "word boundaries are not supported"
  /** The message of the assertion that stops the compiler on an empty alternation. */
  const EMPTY_ALTERNATION := "alternations must be non-empty"

  /** The number of bytes UTF-8 takes for a scalar value. */
  function Utf8Width(c: int): nat {
    if c < 0x80 then 1 else if c < 0x800 then 2 else if c < 0x1_0000 then 3 else 4
  }

  /** The lead byte of a sequence of `width` bytes: `0xxxxxxx`, `110xxxxx`, `1110xxxx` or `11110xxx`. */
  predicate LeadByte(b: byte, width: nat) {
    if width == 1 then b < 0x80
    else if width == 2 then 0xC0 <= b < 0xE0
    else if width == 3 then 0xE0 <= b < 0xF0
    else 0xF0 <= b < 0xF8
  }

  /** A continuation byte, `10xxxxxx`. */
  predicate ContinuationByte(b: byte) {
    0x80 <= b < 0xC0
  }

  /** The scalar value a UTF-8 sequence carries: the lead byte's payload bits, then six bits per continuation byte. */
  function DecodeUtf8(bs: seq<byte>): int
    requires 1 <= |bs| <= 4
  {
    var b0 := bs[0] as int;
    var lead := if |bs| == 1 then b0 else if |bs| == 2 then b0 - 0xC0 else if |bs| == 3 then b0 - 0xE0 else b0 - 0xF0;
    Payload(lead, bs[1..])
  }

  function Payload(acc: int, rest: seq<byte>): int
    decreases |rest|
  {
    if rest == [] then acc else Payload(acc * 0x40 + (rest[0] as int - 0x80), rest[1..])
  }

  /** The UTF-8 encoding of a scalar value. */
  function EncodeUtf8(ch: char): (r: seq<byte>)
    ensures |r| == Utf8Width(ch as int)
    ensures LeadByte(r[0], |r|) && forall k :: 1 <= k < |r| ==> ContinuationByte(r[k])
  {
    var c := ch as int;
    if c < 0x80 then [c]
    else if c < 0x800 then [0xC0 + c / 0x40, 0x80 + c % 0x40]
    else if c < 0x1_0000 then [0xE0 + c / 0x1000, 0x80 + c / 0x40 % 0x40, 0x80 + c % 0x40]
    else [0xF0 + c / 0x4_0000, 0x80 + c / 0x1000 % 0x40, 0x80 + c / 0x40 % 0x40, 0x80 + c % 0x40]
  }

  /** Decoding an encoding gives back the scalar value. */
  lemma DecodeEncode(ch: char)
    ensures DecodeUtf8(EncodeUtf8(ch)) == ch as int
  {
    var c := ch as int;
    var r := EncodeUtf8(ch);
    if c < 0x80 {
    } else if c < 0x800 {
      assert Payload(c / 0x40, r[1..]) == Payload(c / 0x40 * 0x40 + c % 0x40, []);
    } else if c < 0x1_0000 {
      assert r[1..][1..] == [r[2]];
      assert Payload(c / 0x1000, r[1..]) == Payload(c / 0x1000 * 0x40 + c / 0x40 % 0x40, [r[2]]);
      assert c / 0x1000 * 0x40 + c / 0x40 % 0x40 == c / 0x40;
      assert Payload(c / 0x40, [r[2]]) == c / 0x40 * 0x40 + c % 0x40 == c;
    } else {
      assert r[1..][1..] == [r[2], r[3]] && [r[2], r[3]][1..] == [r[3]];
      assert Payload(c / 0x4_0000, r[1..]) == Payload(c / 0x4_0000 * 0x40 + c / 0x1000 % 0x40, [r[2], r[3]]);
      assert c / 0x4_0000 * 0x40 + c / 0x1000 % 0x40 == c / 0x1000;
      assert c / 0x1000 * 0x40 + c / 0x40 % 0x40 == c / 0x40;
      assert Payload(c / 0x1000, [r[2], r[3]]) == Payload(c / 0x40, [r[3]]);
      assert Payload(c / 0x40, [r[3]]) == c / 0x40 * 0x40 + c % 0x40 == c;
    }
  }

  /** Two scalar values with the same encoding are the same value. */
  lemma EncodeUtf8Injective(a: char, b: char)
    requires EncodeUtf8(a) == EncodeUtf8(b)
    ensures a == b
  {
    DecodeEncode(a);
    DecodeEncode(b);
  }

  // ---------------------------------------------------------------------------
  // Which expressions the compiler rejects, and with which message

  /** Whether a repetition of this kind compiles its sub-expression at least once. */
  predicate CompilesSub(kind: RepetitionKind) {
    match kind
    case Exactly(n) => n > 0
    case Bounded(min, max) => min > 0 || max > min
    case _ => true
  }

  /** The first error met when compiling `e`, in the compiler's order of work. */
  function Failure(e: Hir, utf8: Utf8Splitter): Option<string> {
    match e
    case EmptyString => None
    case Literal(_) => None
    case Byte(_) => None
    case ByteClass(rs) => if rs == [] then Some(EMPTY_ALTERNATION) else None
    case UnicodeClass(rs) => if Utf8Pieces(rs, utf8) == [] then Some(EMPTY_ALTERNATION) else None
    case Repetition(kind, _, sub) => if CompilesSub(kind) then Failure(sub, utf8) else None
    case Group(sub) => Failure(sub, utf8)
    case Concat(subs) => FirstFailure(subs, utf8)
    case Alternation(subs) =>
      if FirstFailure(subs, utf8).Some? then FirstFailure(subs, utf8)
      else if subs == [] then Some(EMPTY_ALTERNATION)
      else None
    case Anchor => Some(ANCHORS_UNSUPPORTED)
    case WordBoundary => Some(WORD_BOUNDARIES_UNSUPPORTED)
  }

  function FirstFailure(subs: seq<Hir>, utf8: Utf8Splitter): Option<string> {
    if subs == [] then None
    else if Failure(subs[0], utf8).Some? then Failure(subs[0], utf8)
    else FirstFailure(subs[1..], utf8)
  }

  lemma RepetitionFailure(kind: RepetitionKind, greedy: bool, sub: Hir, utf8: Utf8Splitter)
    ensures Failure(Repetition(kind, greedy, sub), utf8) == if CompilesSub(kind) then Failure(sub, utf8) else None
  { }

  /** An anchor or a word boundary somewhere the compiler reaches it. */
  predicate Unsupported(e: Hir) {
    match e
    case Anchor => true
    case WordBoundary => true
    case Repetition(kind, _, sub) => CompilesSub(kind) && Unsupported(sub)
    case Group(sub) => Unsupported(sub)
    case Concat(subs) => exists i :: 0 <= i < |subs| && Unsupported(subs[i])
    case Alternation(subs) => exists i :: 0 <= i < |subs| && Unsupported(subs[i])
    case _ => false
  }

  /** An anchor or word boundary the compiler reaches makes compilation fail. */
  lemma {:induction false} UnsupportedFails(e: Hir, utf8: Utf8Splitter)
    requires Unsupported(e)
    ensures Failure(e, utf8).Some?
  {
    match e
    case Anchor =>
    case WordBoundary =>
    case Repetition(_, _, sub) => UnsupportedFails(sub, utf8);
    case Group(sub) => UnsupportedFails(sub, utf8);
    case Concat(subs) =>
      var i :| 0 <= i < |subs| && Unsupported(subs[i]);
      UnsupportedFailsIn(subs, i, utf8);
    case Alternation(subs) =>
      var i :| 0 <= i < |subs| && Unsupported(subs[i]);
      UnsupportedFailsIn(subs, i, utf8);
  }

  lemma {:induction false} UnsupportedFailsIn(subs: seq<Hir>, i: nat, utf8: Utf8Splitter)
    requires i < |subs| && Unsupported(subs[i])
    ensures FirstFailure(subs, utf8).Some?
    decreases subs, 0
  {
    if Failure(subs[0], utf8).None? {
      if i == 0 {
        UnsupportedFails(subs[0], utf8);
      } else {
        assert subs[1..][i - 1] == subs[i];
        UnsupportedFailsIn(subs[1..], i - 1, utf8);
      }
    }
  }

  // ---------------------------------------------------------------------------
  // The items the compiler's iterators yield, each compiled on demand

  datatype Piece =
    | Expr(sub: Hir)
    | Bytes(start: byte, end: byte)
    | Optional(sub: Hir, greedy: bool)
    | Utf8Sequence(ranges: seq<ByteRange>)

  function PieceFailure(p: Piece, utf8: Utf8Splitter): Option<string> {
    match p
    case Expr(sub) => Failure(sub, utf8)
    case Optional(sub, _) => Failure(sub, utf8)
    case _ => None
  }

  /** The first error among the pieces, compiled from the front. */
  function PiecesFailure(ps: seq<Piece>, utf8: Utf8Splitter): Option<string> {
    if ps == [] then None
    else if PieceFailure(ps[0], utf8).Some? then PieceFailure(ps[0], utf8)
    else PiecesFailure(ps[1..], utf8)
  }

  /** An alternation fails on its first failing alternate, or when it has none. */
  function AlternationFailure(ps: seq<Piece>, utf8: Utf8Splitter): Option<string> {
    if PiecesFailure(ps, utf8).Some? then PiecesFailure(ps, utf8)
    else if ps == [] then Some(EMPTY_ALTERNATION)
    else None
  }

  function ExprPieces(subs: seq<Hir>): (ps: seq<Piece>)
    ensures |ps| == |subs| && forall k :: 0 <= k < |subs| ==> ps[k] == Expr(subs[k])
  {
    seq(|subs|, k requires 0 <= k < |subs| => Expr(subs[k]))
  }

  function BytePieces(bs: seq<byte>): (ps: seq<Piece>)
    ensures |ps| == |bs| && forall k :: 0 <= k < |bs| ==> ps[k] == Bytes(bs[k], bs[k])
  {
    seq(|bs|, k requires 0 <= k < |bs| => Bytes(bs[k], bs[k]))
  }

  function RangePieces(rs: seq<ByteRange>): (ps: seq<Piece>)
    ensures |ps| == |rs| && forall k :: 0 <= k < |rs| ==> ps[k] == Bytes(rs[k].start, rs[k].end)
  {
    seq(|rs|, k requires 0 <= k < |rs| => Bytes(rs[k].start, rs[k].end))
  }

  /** The byte-range sequences of every class range, in order, one piece each. */
  function Utf8Pieces(rs: seq<CharRange>, utf8: Utf8Splitter): (ps: seq<Piece>)
    ensures forall k :: 0 <= k < |ps| ==> ps[k].Utf8Sequence?
  {
    if rs == [] then []
    else
      var seqs := utf8(rs[0].start, rs[0].end);
      seq(|seqs|, k requires 0 <= k < |seqs| => Utf8Sequence(seqs[k])) + Utf8Pieces(rs[1..], utf8)
  }

  lemma {:induction false} ExprPiecesFailure(subs: seq<Hir>, utf8: Utf8Splitter)
    ensures PiecesFailure(ExprPieces(subs), utf8) == FirstFailure(subs, utf8)
  {
    if subs != [] {
      assert ExprPieces(subs)[1..] == ExprPieces(subs[1..]);
      ExprPiecesFailure(subs[1..], utf8);
    }
  }

  /** `n` copies of one piece fail exactly when the piece does, unless there are none. */
  lemma {:induction false} RepeatedFailure(p: Piece, n: nat, utf8: Utf8Splitter)
    ensures PiecesFailure(seq(n, _ => p), utf8) == if n == 0 then None else PieceFailure(p, utf8)
  {
    if n > 0 {
      assert seq(n, _ => p)[1..] == seq(n - 1, _ => p);
      RepeatedFailure(p, n - 1, utf8);
    }
  }

  /** Pieces that hold no expression never fail. */
  lemma {:induction false} PlainPiecesSucceed(ps: seq<Piece>, utf8: Utf8Splitter)
    requires forall k :: 0 <= k < |ps| ==> ps[k].Bytes? || ps[k].Utf8Sequence?
    ensures PiecesFailure(ps, utf8) == None
  {
    if ps != [] {
      PlainPiecesSucceed(ps[1..], utf8);
    }
  }

  // ---------------------------------------------------------------------------
  // Sizes, for the termination of the mutually recursive compiler

  function Size(e: Hir): nat {
    match e
    case Repetition(_, _, sub) => 1 + Size(sub)
    case Group(sub) => 1 + Size(sub)
    case Concat(subs) => 1 + SizeAll(subs)
    case Alternation(subs) => 1 + SizeAll(subs)
    case _ => 1
  }

  function SizeAll(subs: seq<Hir>): nat {
    if subs == [] then 0 else Size(subs[0]) + SizeAll(subs[1..])
  }

  lemma {:induction false} SizeAllBound(subs: seq<Hir>)
    ensures forall k :: 0 <= k < |subs| ==> Size(subs[k]) <= SizeAll(subs)
  {
    if subs != [] {
      SizeAllBound(subs[1..]);
      assert forall k :: 1 <= k < |subs| ==> subs[k] == subs[1..][k - 1];
    }
  }

  function PieceSize(p: Piece): nat {
    match p
    case Expr(sub) => Size(sub) + 1
    case Optional(sub, _) => Size(sub) + 1
    case Bytes(_, _) => 0
    case Utf8Sequence(_) => 1
  }

  predicate PiecesBelow(ps: seq<Piece>, bound: nat) {
    forall k :: 0 <= k < |ps| ==> PieceSize(ps[k]) <= bound
  }

  // ---------------------------------------------------------------------------
  // Fragments

  /** A compiled fragment: its entry state and the state whose exit is still open. */
  datatype ThompsonRef = ThompsonRef(start: nat, end: nat)

  /** `r` reports the error `f` when there is one, and a fragment otherwise. */
  predicate Reports(r: Result<ThompsonRef>, f: Option<string>) {
    (r.Err? <==> f.Some?) && (r.Err? ==> r.error == f.value)
  }

  predicate FragmentIn(t: ThompsonRef, lo: nat, hi: nat) {
    lo <= t.start < hi && lo <= t.end < hi
  }

  // ---------------------------------------------------------------------------
  // The shape of a compiled fragment

  /**
   * Where a compiled fragment lies: its entry and exit, the block of ids
   * `lo .. hi - 1` it was appended as, and the fragments of its parts in
   * the order they were compiled.
   */
  datatype Trace = Trace(start: nat, end: nat, lo: nat, hi: nat, parts: seq<Trace>)

  function Ref(tr: Trace): ThompsonRef {
    ThompsonRef(tr.start, tr.end)
  }

  /** The successor an exit has been patched to, or 0 while it is still open. */
  function Exit(exit: Option<nat>): nat {
    if exit.Some? then exit.value else 0
  }

  /** The state that pointing the exit of `s` at `to` leaves in its place. */
  function Patched(s: NfaState, to: nat): NfaState {
    match s
    case Empty(_) => Empty(to)
    case Range(start, end, _) => Range(start, end, to)
    case Union(alternates, reverse) =>
      if reverse then Union([to] + alternates, true) else Union(alternates + [to], false)
    case Match => Match
  }

  /**
   * The union of a repetition: it offers the copy's entry and, once
   * patched, `other`. A greedy repetition uses a forward union and a lazy
   * one a reverse union, so the copy comes first exactly when greedy.
   */
  function RepetitionUnion(entry: nat, greedy: bool, other: Option<nat>): NfaState {
    Union(if other.None? then [entry] else if greedy then [entry, other.value] else [other.value, entry], !greedy)
  }

  /** The parts' exits, in order. */
  function Ends(parts: seq<Trace>): (r: seq<nat>)
    ensures |r| == |parts| && forall k :: 0 <= k < |parts| ==> r[k] == parts[k].end
  {
    seq(|parts|, k requires 0 <= k < |parts| => parts[k].end)
  }

  lemma EndsSnoc(parts: seq<Trace>, ctr: Trace, ends: seq<nat>, e: nat)
    requires ends == Ends(parts) && e == ctr.end
    ensures ends + [e] == Ends(parts + [ctr])
  {
  }

  function Starts(parts: seq<Trace>): (r: seq<nat>)
    ensures |r| == |parts| && forall k :: 0 <= k < |parts| ==> r[k] == parts[k].start
  {
    seq(|parts|, k requires 0 <= k < |parts| => parts[k].start)
  }

  /** `n` copies of one piece. */
  function Repeat(p: Piece, n: nat): (ps: seq<Piece>)
    ensures |ps| == n && forall k :: 0 <= k < n ==> ps[k] == p
  {
    seq(n, _ => p)
  }

  /** The exit of a chain's `k`th part: the next part's entry, or the chain's own exit. */
  function ChainExit(parts: seq<Trace>, k: nat, exit: Option<nat>): Option<nat> {
    if k + 1 < |parts| then Some(parts[k + 1].start) else exit
  }

  ghost predicate Placed(s: seq<NfaState>, tr: Trace) {
    tr.lo <= tr.start < tr.hi && tr.lo <= tr.end < tr.hi && tr.hi <= |s|
  }

  /** The parts' blocks fill `lo .. hi - 1` one after another. */
  ghost predicate Tiled(parts: seq<Trace>, lo: nat, hi: nat) {
    (if parts == [] then lo == hi else parts[0].lo == lo && parts[|parts| - 1].hi == hi) &&
    (forall k :: 0 <= k < |parts| ==> lo <= parts[k].lo <= parts[k].hi <= hi) &&
    (forall k :: 0 <= k < |parts| - 1 ==> parts[k].hi == parts[k + 1].lo)
  }

  /** Tiled blocks do not overlap. */
  lemma {:induction false} TiledOrdered(parts: seq<Trace>, lo: nat, hi: nat, j: nat, k: nat)
    requires Tiled(parts, lo, hi) && j < k < |parts|
    ensures parts[j].hi <= parts[k].lo
    decreases k - j
  {
    if j + 1 < k {
      TiledOrdered(parts, lo, hi, j + 1, k);
    }
  }

  /** A fragment of one state that is both entry and exit. */
  ghost predicate Single(s: seq<NfaState>, tr: Trace, state: NfaState) {
    tr.start == tr.end == tr.lo && tr.hi == tr.lo + 1 && tr.hi <= |s| && tr.parts == [] && s[tr.lo] == state
  }

  /**
   * The block `tr` of table `s` is Thompson's fragment for `e`, its exit
   * still open (`None`) or patched to a successor: every state of the
   * block is fixed, in the order the compiler appends them.
   */
  ghost predicate Built(s: seq<NfaState>, e: Hir, utf8: Utf8Splitter, tr: Trace, exit: Option<nat>)
    decreases Size(e), 10
  {
    Placed(s, tr) &&
    match e
    case EmptyString => Single(s, tr, Empty(Exit(exit)))
    case Literal(ch) => Chain(s, BytePieces(EncodeUtf8(ch)), utf8, tr, exit, 0)
    case Byte(b) => Single(s, tr, Range(b, b, Exit(exit)))
    case ByteClass(rs) => Alt(s, RangePieces(rs), utf8, tr, exit, 0)
    case UnicodeClass(rs) => Alt(s, Utf8Pieces(rs, utf8), utf8, tr, exit, 1)
    case Repetition(kind, greedy, sub) => RepetitionBuilt(s, kind, greedy, sub, utf8, tr, exit)
    case Group(sub) => Built(s, sub, utf8, tr, exit)
    case Concat(subs) => Chain(s, ExprPieces(subs), utf8, tr, exit, Size(e))
    case Alternation(subs) => Alt(s, ExprPieces(subs), utf8, tr, exit, Size(e))
    case Anchor => false
    case WordBoundary => false
  }

  ghost predicate PieceBuilt(s: seq<NfaState>, p: Piece, utf8: Utf8Splitter, tr: Trace, exit: Option<nat>)
    decreases PieceSize(p), 4
  {
    Placed(s, tr) &&
    match p
    case Expr(sub) => Built(s, sub, utf8, tr, exit)
    case Bytes(start, end) => Single(s, tr, Range(start, end, Exit(exit)))
    case Optional(sub, greedy) => OptionalBuilt(s, sub, greedy, utf8, tr, exit)
    case Utf8Sequence(ranges) => Chain(s, RangePieces(ranges), utf8, tr, exit, 0)
  }

  /**
   * A concatenation: the parts one after another, each exit patched to the
   * next part's entry; no parts give a single `Empty`.
   */
  ghost predicate Chain(s: seq<NfaState>, ps: seq<Piece>, utf8: Utf8Splitter, tr: Trace, exit: Option<nat>, bound: nat)
    decreases bound, 5
  {
    PiecesBelow(ps, bound) && Placed(s, tr) &&
    if ps == [] then Single(s, tr, Empty(Exit(exit)))
    else
      |tr.parts| == |ps| && Tiled(tr.parts, tr.lo, tr.hi) &&
      tr.start == tr.parts[0].start && tr.end == tr.parts[|ps| - 1].end &&
      forall k {:trigger ps[k]} :: 0 <= k < |ps| ==> PieceBuilt(s, ps[k], utf8, tr.parts[k], ChainExit(tr.parts, k, exit))
  }

  /**
   * An alternation: a forward union first, whose alternates are the parts'
   * entries in order, then the parts, then one `Empty` every part exits to.
   */
  ghost predicate Alt(s: seq<NfaState>, ps: seq<Piece>, utf8: Utf8Splitter, tr: Trace, exit: Option<nat>, bound: nat)
    decreases bound, 5
  {
    PiecesBelow(ps, bound) && Placed(s, tr) && |ps| > 0 && |tr.parts| == |ps| &&
    tr.start == tr.lo && tr.end == tr.hi - 1 && Tiled(tr.parts, tr.lo + 1, tr.hi - 1) &&
    s[tr.start] == Union(Starts(tr.parts), false) && s[tr.end] == Empty(Exit(exit)) &&
    forall k :: 0 <= k < |ps| ==> PieceBuilt(s, ps[k], utf8, tr.parts[k], Some(tr.end))
  }

  ghost predicate RepetitionBuilt(s: seq<NfaState>, kind: RepetitionKind, greedy: bool, sub: Hir, utf8: Utf8Splitter, tr: Trace, exit: Option<nat>)
    decreases Size(sub) + 1, 9
  {
    Placed(s, tr) &&
    match kind
    case ZeroOrOne => OptionalBuilt(s, sub, greedy, utf8, tr, exit)
    case ZeroOrMore => AtLeastBuilt(s, sub, greedy, 0, utf8, tr, exit)
    case OneOrMore => AtLeastBuilt(s, sub, greedy, 1, utf8, tr, exit)
    case Exactly(n) => Chain(s, Repeat(Expr(sub), n), utf8, tr, exit, Size(sub) + 1)
    case AtLeast(n) => AtLeastBuilt(s, sub, greedy, n, utf8, tr, exit)
    case Bounded(min, max) => BoundedBuilt(s, sub, greedy, min, max, utf8, tr, exit)
  }

  /**
   * `sub?`: a union first, offering the copy and the `Empty` at the end
   * (the copy first when greedy), then the copy, then that `Empty`.
   */
  ghost predicate OptionalBuilt(s: seq<NfaState>, sub: Hir, greedy: bool, utf8: Utf8Splitter, tr: Trace, exit: Option<nat>)
    decreases Size(sub) + 1, 3
  {
    Placed(s, tr) && |tr.parts| == 1 && tr.start == tr.lo && tr.end == tr.hi - 1 &&
    Tiled(tr.parts, tr.lo + 1, tr.hi - 1) &&
    s[tr.start] == RepetitionUnion(tr.parts[0].start, greedy, Some(tr.end)) &&
    s[tr.end] == Empty(Exit(exit)) &&
    Built(s, sub, utf8, tr.parts[0], Some(tr.end))
  }

  /** `sub{n,}`, in the three forms the compiler uses for `n == 0`, `n == 1` and larger `n`. */
  ghost predicate AtLeastBuilt(s: seq<NfaState>, sub: Hir, greedy: bool, n: nat, utf8: Utf8Splitter, tr: Trace, exit: Option<nat>)
    decreases Size(sub) + 1, 8
  {
    Placed(s, tr) &&
    if n == 0 then StarBuilt(s, sub, greedy, utf8, tr, exit)
    else if n == 1 then PlusBuilt(s, sub, greedy, utf8, tr, exit)
    else AtLeastManyBuilt(s, sub, greedy, n, utf8, tr, exit)
  }

  /** `sub*`: the union comes first and is entry and exit; the copy after it loops back to it. */
  ghost predicate StarBuilt(s: seq<NfaState>, sub: Hir, greedy: bool, utf8: Utf8Splitter, tr: Trace, exit: Option<nat>)
    decreases Size(sub) + 1, 7
  {
    Placed(s, tr) && |tr.parts| == 1 && tr.start == tr.end == tr.lo && Tiled(tr.parts, tr.lo + 1, tr.hi) &&
    s[tr.lo] == RepetitionUnion(tr.parts[0].start, greedy, exit) &&
    Built(s, sub, utf8, tr.parts[0], Some(tr.lo))
  }

  /** `sub+`: the copy is the entry; the union after it is the exit and loops back to the copy. */
  ghost predicate PlusBuilt(s: seq<NfaState>, sub: Hir, greedy: bool, utf8: Utf8Splitter, tr: Trace, exit: Option<nat>)
    decreases Size(sub) + 1, 7
  {
    Placed(s, tr) && |tr.parts| == 1 && tr.start == tr.parts[0].start && tr.end == tr.hi - 1 &&
    Tiled(tr.parts, tr.lo, tr.hi - 1) &&
    s[tr.end] == RepetitionUnion(tr.parts[0].start, greedy, exit) &&
    Built(s, sub, utf8, tr.parts[0], Some(tr.end))
  }

  /** `sub{n,}` for `n >= 2`: `n - 1` copies, a last copy, and the union after it looping back to the last copy. */
  ghost predicate AtLeastManyBuilt(s: seq<NfaState>, sub: Hir, greedy: bool, n: nat, utf8: Utf8Splitter, tr: Trace, exit: Option<nat>)
    requires n >= 2
    decreases Size(sub) + 1, 7
  {
    Placed(s, tr) && |tr.parts| == 2 && tr.start == tr.parts[0].start && tr.end == tr.hi - 1 &&
    Tiled(tr.parts, tr.lo, tr.hi - 1) &&
    s[tr.end] == RepetitionUnion(tr.parts[1].start, greedy, exit) &&
    Chain(s, Repeat(Expr(sub), n - 1), utf8, tr.parts[0], Some(tr.parts[1].start), Size(sub) + 1) &&
    Built(s, sub, utf8, tr.parts[1], Some(tr.end))
  }

  /** `sub{min,max}`: `min` copies, then `max - min` optional copies, if `min != max`. */
  ghost predicate BoundedBuilt(s: seq<NfaState>, sub: Hir, greedy: bool, min: nat, max: nat, utf8: Utf8Splitter, tr: Trace, exit: Option<nat>)
    decreases Size(sub) + 1, 8
  {
    Placed(s, tr) &&
    if min == max then Chain(s, Repeat(Expr(sub), min), utf8, tr, exit, Size(sub) + 1)
    else
      |tr.parts| == 2 && Tiled(tr.parts, tr.lo, tr.hi) &&
      tr.start == tr.parts[0].start && tr.end == tr.parts[1].end &&
      Chain(s, Repeat(Expr(sub), min), utf8, tr.parts[0], Some(tr.parts[1].start), Size(sub) + 1) &&
      Chain(s, Repeat(Optional(sub, greedy), if max > min then max - min else 0), utf8, tr.parts[1], exit, Size(sub) + 1)
  }

  // ---------------------------------------------------------------------------
  // A fragment's shape survives changes outside it and the patching of its exit

  /**
   * `b` agrees with `a` on the block of `tr`, except that the exit may have
   * been patched once, from open to `after`.
   */
  ghost predicate Reframed(a: seq<NfaState>, b: seq<NfaState>, tr: Trace, before: Option<nat>, after: Option<nat>) {
    tr.hi <= |a| && tr.hi <= |b| && tr.lo <= tr.end < tr.hi &&
    (forall i :: tr.lo <= i < tr.hi && i != tr.end ==> b[i] == a[i]) &&
    if before == after then b[tr.end] == a[tr.end]
    else before.None? && after.Some? && b[tr.end] == Patched(a[tr.end], after.value)
  }

  /** A part whose block does not hold the exit is left as it was. */
  lemma Untouched(a: seq<NfaState>, b: seq<NfaState>, tr: Trace, p: Trace, before: Option<nat>, after: Option<nat>, x: Option<nat>)
    requires Reframed(a, b, tr, before, after)
    requires tr.lo <= p.lo && p.hi <= tr.hi && p.lo <= p.end < p.hi && !(p.lo <= tr.end < p.hi)
    ensures Reframed(a, b, p, x, x)
  {
  }

  /** The part holding the exit is changed as the whole is. */
  lemma Exiting(a: seq<NfaState>, b: seq<NfaState>, tr: Trace, p: Trace, before: Option<nat>, after: Option<nat>)
    requires Reframed(a, b, tr, before, after)
    requires tr.lo <= p.lo && p.hi <= tr.hi && p.lo <= p.end < p.hi && p.end == tr.end
    ensures Reframed(a, b, p, before, after)
  {
  }

  lemma {:induction false} BuiltFrame(a: seq<NfaState>, b: seq<NfaState>, e: Hir, utf8: Utf8Splitter, tr: Trace, before: Option<nat>, after: Option<nat>)
    requires Built(a, e, utf8, tr, before) && Reframed(a, b, tr, before, after)
    ensures Built(b, e, utf8, tr, after)
    decreases Size(e), 20
  {
    match e
    case EmptyString =>
    case Literal(ch) => ChainFrame(a, b, BytePieces(EncodeUtf8(ch)), utf8, tr, before, after, 0);
    case Byte(_) =>
    case ByteClass(rs) => AltFrame(a, b, RangePieces(rs), utf8, tr, before, after, 0);
    case UnicodeClass(rs) => AltFrame(a, b, Utf8Pieces(rs, utf8), utf8, tr, before, after, 1);
    case Repetition(kind, greedy, sub) => RepetitionFrame(a, b, kind, greedy, sub, utf8, tr, before, after);
    case Group(sub) => BuiltFrame(a, b, sub, utf8, tr, before, after);
    case Concat(subs) => ChainFrame(a, b, ExprPieces(subs), utf8, tr, before, after, Size(e));
    case Alternation(subs) => AltFrame(a, b, ExprPieces(subs), utf8, tr, before, after, Size(e));
  }

  lemma {:induction false} PieceFrame(a: seq<NfaState>, b: seq<NfaState>, p: Piece, utf8: Utf8Splitter, tr: Trace, before: Option<nat>, after: Option<nat>)
    requires PieceBuilt(a, p, utf8, tr, before) && Reframed(a, b, tr, before, after)
    ensures PieceBuilt(b, p, utf8, tr, after)
    decreases PieceSize(p), 12
  {
    match p
    case Expr(sub) => BuiltFrame(a, b, sub, utf8, tr, before, after);
    case Bytes(_, _) =>
    case Optional(sub, greedy) => OptionalFrame(a, b, sub, greedy, utf8, tr, before, after);
    case Utf8Sequence(ranges) => ChainFrame(a, b, RangePieces(ranges), utf8, tr, before, after, 0);
  }

  lemma {:induction false} ChainFrame(a: seq<NfaState>, b: seq<NfaState>, ps: seq<Piece>, utf8: Utf8Splitter, tr: Trace, before: Option<nat>, after: Option<nat>, bound: nat)
    requires Chain(a, ps, utf8, tr, before, bound) && Reframed(a, b, tr, before, after)
    ensures Chain(b, ps, utf8, tr, after, bound)
    decreases bound, 16
  {
    if ps != [] {
      forall k | 0 <= k < |ps|
        ensures PieceBuilt(b, ps[k], utf8, tr.parts[k], ChainExit(tr.parts, k, after))
      {
        ChainPartFrame(a, b, ps, utf8, tr, before, after, bound, k);
      }
    }
  }

  /** One part of a chain: the last one holds the chain's exit, the others are untouched. */
  lemma {:induction false} ChainPartFrame(a: seq<NfaState>, b: seq<NfaState>, ps: seq<Piece>, utf8: Utf8Splitter, tr: Trace, before: Option<nat>, after: Option<nat>, bound: nat, k: nat)
    requires Chain(a, ps, utf8, tr, before, bound) && Reframed(a, b, tr, before, after) && k < |ps|
    ensures PieceBuilt(b, ps[k], utf8, tr.parts[k], ChainExit(tr.parts, k, after))
    decreases bound, 15
  {
    if k < |ps| - 1 {
      ChainInnerPart(a, b, ps, utf8, tr, before, after, bound, k);
    } else {
      ChainLastPart(a, b, ps, utf8, tr, before, after, bound);
    }
  }

  lemma {:induction false} ChainInnerPart(a: seq<NfaState>, b: seq<NfaState>, ps: seq<Piece>, utf8: Utf8Splitter, tr: Trace, before: Option<nat>, after: Option<nat>, bound: nat, k: nat)
    requires Chain(a, ps, utf8, tr, before, bound) && Reframed(a, b, tr, before, after) && k < |ps| - 1
    ensures PieceBuilt(b, ps[k], utf8, tr.parts[k], ChainExit(tr.parts, k, after))
    decreases bound, 14
  {
    ChainInnerBounds(a, ps, utf8, tr, before, bound, k);
    assert PieceBuilt(a, ps[k], utf8, tr.parts[k], ChainExit(tr.parts, k, before));
    InnerFrame(a, b, ps[k], utf8, tr, tr.parts[k], ChainExit(tr.parts, k, before), ChainExit(tr.parts, k, after), before, after, tr.parts[|ps| - 1].lo);
  }

  lemma ChainInnerBounds(s: seq<NfaState>, ps: seq<Piece>, utf8: Utf8Splitter, tr: Trace, exit: Option<nat>, bound: nat, k: nat)
    requires Chain(s, ps, utf8, tr, exit, bound) && k < |ps| - 1
    ensures |tr.parts| == |ps| && PieceSize(ps[k]) <= bound
    ensures tr.lo <= tr.parts[k].lo && tr.parts[k].hi <= tr.parts[|ps| - 1].lo <= tr.end
  {
    ChainLastPlaced(s, ps, utf8, tr, exit, bound);
    TiledOrdered(tr.parts, tr.lo, tr.hi, k, |ps| - 1);
  }

  lemma {:induction false} ChainLastPart(a: seq<NfaState>, b: seq<NfaState>, ps: seq<Piece>, utf8: Utf8Splitter, tr: Trace, before: Option<nat>, after: Option<nat>, bound: nat)
    requires Chain(a, ps, utf8, tr, before, bound) && Reframed(a, b, tr, before, after) && ps != []
    ensures PieceBuilt(b, ps[|ps| - 1], utf8, tr.parts[|ps| - 1], after)
    decreases bound, 14
  {
    var n := |ps|;
    assert ChainExit(tr.parts, n - 1, before) == before;
    assert PieceBuilt(a, ps[n - 1], utf8, tr.parts[n - 1], before);
    LastFrame(a, b, ps[n - 1], utf8, tr, tr.parts[n - 1], before, after);
  }

  /** The part holding the exit of the whole is patched with it. */
  lemma {:induction false} LastFrame(a: seq<NfaState>, b: seq<NfaState>, p: Piece, utf8: Utf8Splitter, tr: Trace, part: Trace, before: Option<nat>, after: Option<nat>)
    requires PieceBuilt(a, p, utf8, part, before) && Reframed(a, b, tr, before, after)
    requires tr.lo <= part.lo && part.hi <= tr.hi && part.end == tr.end
    ensures PieceBuilt(b, p, utf8, part, after)
    decreases PieceSize(p), 13
  {
    PiecePlaced(a, p, utf8, part, before);
    Exiting(a, b, tr, part, before, after);
    PieceFrame(a, b, p, utf8, part, before, after);
  }

  lemma ChainLastPlaced(s: seq<NfaState>, ps: seq<Piece>, utf8: Utf8Splitter, tr: Trace, exit: Option<nat>, bound: nat)
    requires Chain(s, ps, utf8, tr, exit, bound) && ps != []
    ensures tr.parts[|ps| - 1].lo <= tr.end
  {
    var n := |ps|;
    assert PieceBuilt(s, ps[n - 1], utf8, tr.parts[n - 1], ChainExit(tr.parts, n - 1, exit));
    PiecePlaced(s, ps[n - 1], utf8, tr.parts[n - 1], ChainExit(tr.parts, n - 1, exit));
  }

  /** A part that lies wholly before the exit of the whole keeps its shape. */
  lemma {:induction false} InnerFrame(a: seq<NfaState>, b: seq<NfaState>, p: Piece, utf8: Utf8Splitter, tr: Trace, part: Trace, x: Option<nat>, y: Option<nat>, before: Option<nat>, after: Option<nat>, limit: nat)
    requires PieceBuilt(a, p, utf8, part, x) && Reframed(a, b, tr, before, after) && x == y
    requires tr.lo <= part.lo && part.hi <= limit <= tr.end
    ensures PieceBuilt(b, p, utf8, part, y)
    decreases PieceSize(p), 13
  {
    PiecePlaced(a, p, utf8, part, x);
    Untouched(a, b, tr, part, before, after, x);
    PieceFrame(a, b, p, utf8, part, x, x);
  }

  lemma {:induction false} AltFrame(a: seq<NfaState>, b: seq<NfaState>, ps: seq<Piece>, utf8: Utf8Splitter, tr: Trace, before: Option<nat>, after: Option<nat>, bound: nat)
    requires Alt(a, ps, utf8, tr, before, bound) && Reframed(a, b, tr, before, after)
    ensures Alt(b, ps, utf8, tr, after, bound)
    decreases bound, 16
  {
    assert PieceBuilt(a, ps[0], utf8, tr.parts[0], Some(tr.end));
    forall k | 0 <= k < |ps|
      ensures PieceBuilt(b, ps[k], utf8, tr.parts[k], Some(tr.end))
    {
      assert PieceBuilt(a, ps[k], utf8, tr.parts[k], Some(tr.end));
      Untouched(a, b, tr, tr.parts[k], before, after, Some(tr.end));
      PieceFrame(a, b, ps[k], utf8, tr.parts[k], Some(tr.end), Some(tr.end));
    }
  }

  lemma {:induction false} RepetitionFrame(a: seq<NfaState>, b: seq<NfaState>, kind: RepetitionKind, greedy: bool, sub: Hir, utf8: Utf8Splitter, tr: Trace, before: Option<nat>, after: Option<nat>)
    requires RepetitionBuilt(a, kind, greedy, sub, utf8, tr, before) && Reframed(a, b, tr, before, after)
    ensures RepetitionBuilt(b, kind, greedy, sub, utf8, tr, after)
    decreases Size(sub) + 1, 19
  {
    match kind
    case ZeroOrOne => OptionalFrame(a, b, sub, greedy, utf8, tr, before, after);
    case ZeroOrMore => AtLeastFrame(a, b, sub, greedy, 0, utf8, tr, before, after);
    case OneOrMore => AtLeastFrame(a, b, sub, greedy, 1, utf8, tr, before, after);
    case Exactly(n) => ChainFrame(a, b, Repeat(Expr(sub), n), utf8, tr, before, after, Size(sub) + 1);
    case AtLeast(n) => AtLeastFrame(a, b, sub, greedy, n, utf8, tr, before, after);
    case Bounded(min, max) => BoundedFrame(a, b, sub, greedy, min, max, utf8, tr, before, after);
  }

  lemma {:induction false} OptionalFrame(a: seq<NfaState>, b: seq<NfaState>, sub: Hir, greedy: bool, utf8: Utf8Splitter, tr: Trace, before: Option<nat>, after: Option<nat>)
    requires OptionalBuilt(a, sub, greedy, utf8, tr, before) && Reframed(a, b, tr, before, after)
    ensures OptionalBuilt(b, sub, greedy, utf8, tr, after)
    decreases Size(sub) + 1, 11
  {
    var c := tr.parts[0];
    Untouched(a, b, tr, c, before, after, Some(tr.end));
    BuiltFrame(a, b, sub, utf8, c, Some(tr.end), Some(tr.end));
  }

  /** Patching an open repetition union adds the other alternate on the side its direction says. */
  lemma RepetitionUnionPatched(entry: nat, greedy: bool, before: Option<nat>, after: Option<nat>, u: NfaState, v: NfaState)
    requires u == RepetitionUnion(entry, greedy, before)
    requires if before == after then v == u else before.None? && after.Some? && v == Patched(u, after.value)
    ensures v == RepetitionUnion(entry, greedy, after)
  {
  }

  lemma {:induction false} AtLeastFrame(a: seq<NfaState>, b: seq<NfaState>, sub: Hir, greedy: bool, n: nat, utf8: Utf8Splitter, tr: Trace, before: Option<nat>, after: Option<nat>)
    requires AtLeastBuilt(a, sub, greedy, n, utf8, tr, before) && Reframed(a, b, tr, before, after)
    ensures AtLeastBuilt(b, sub, greedy, n, utf8, tr, after)
    decreases Size(sub) + 1, 18
  {
    if n == 0 {
      StarFrame(a, b, sub, greedy, utf8, tr, before, after);
    } else if n == 1 {
      PlusFrame(a, b, sub, greedy, utf8, tr, before, after);
    } else {
      AtLeastManyFrame(a, b, sub, greedy, n, utf8, tr, before, after);
    }
  }

  lemma {:induction false} StarFrame(a: seq<NfaState>, b: seq<NfaState>, sub: Hir, greedy: bool, utf8: Utf8Splitter, tr: Trace, before: Option<nat>, after: Option<nat>)
    requires StarBuilt(a, sub, greedy, utf8, tr, before) && Reframed(a, b, tr, before, after)
    ensures StarBuilt(b, sub, greedy, utf8, tr, after)
    decreases Size(sub) + 1, 17
  {
    var c := tr.parts[0];
    RepetitionUnionPatched(c.start, greedy, before, after, a[tr.end], b[tr.end]);
    Untouched(a, b, tr, c, before, after, Some(tr.lo));
    BuiltFrame(a, b, sub, utf8, c, Some(tr.lo), Some(tr.lo));
  }

  lemma {:induction false} PlusFrame(a: seq<NfaState>, b: seq<NfaState>, sub: Hir, greedy: bool, utf8: Utf8Splitter, tr: Trace, before: Option<nat>, after: Option<nat>)
    requires PlusBuilt(a, sub, greedy, utf8, tr, before) && Reframed(a, b, tr, before, after)
    ensures PlusBuilt(b, sub, greedy, utf8, tr, after)
    decreases Size(sub) + 1, 17
  {
    var c := tr.parts[0];
    RepetitionUnionPatched(c.start, greedy, before, after, a[tr.end], b[tr.end]);
    Untouched(a, b, tr, c, before, after, Some(tr.end));
    BuiltFrame(a, b, sub, utf8, c, Some(tr.end), Some(tr.end));
  }

  lemma {:induction false} AtLeastManyFrame(a: seq<NfaState>, b: seq<NfaState>, sub: Hir, greedy: bool, n: nat, utf8: Utf8Splitter, tr: Trace, before: Option<nat>, after: Option<nat>)
    requires n >= 2 && AtLeastManyBuilt(a, sub, greedy, n, utf8, tr, before) && Reframed(a, b, tr, before, after)
    ensures AtLeastManyBuilt(b, sub, greedy, n, utf8, tr, after)
    decreases Size(sub) + 1, 17
  {
    var p, c := tr.parts[0], tr.parts[1];
    var x := Some(c.start);
    RepetitionUnionPatched(c.start, greedy, before, after, a[tr.end], b[tr.end]);
    Untouched(a, b, tr, p, before, after, x);
    ChainFrame(a, b, Repeat(Expr(sub), n - 1), utf8, p, x, x, Size(sub) + 1);
    Untouched(a, b, tr, c, before, after, Some(tr.end));
    BuiltFrame(a, b, sub, utf8, c, Some(tr.end), Some(tr.end));
  }

  lemma {:induction false} BoundedFrame(a: seq<NfaState>, b: seq<NfaState>, sub: Hir, greedy: bool, min: nat, max: nat, utf8: Utf8Splitter, tr: Trace, before: Option<nat>, after: Option<nat>)
    requires BoundedBuilt(a, sub, greedy, min, max, utf8, tr, before) && Reframed(a, b, tr, before, after)
    ensures BoundedBuilt(b, sub, greedy, min, max, utf8, tr, after)
    decreases Size(sub) + 1, 18
  {
    if min == max {
      ChainFrame(a, b, Repeat(Expr(sub), min), utf8, tr, before, after, Size(sub) + 1);
    } else {
      var p, q := tr.parts[0], tr.parts[1];
      var x := Some(q.start);
      var count := if max > min then max - min else 0;
      Untouched(a, b, tr, p, before, after, x);
      ChainFrame(a, b, Repeat(Expr(sub), min), utf8, p, x, x, Size(sub) + 1);
      Exiting(a, b, tr, q, before, after);
      ChainFrame(a, b, Repeat(Optional(sub, greedy), count), utf8, q, before, after, Size(sub) + 1);
    }
  }

  // ---------------------------------------------------------------------------
  // The compiler

  class Nfa {
    var states: seq<NfaState>

    ghost predicate Valid()
      reads this
    {
      WellFormed(states)
    }

    constructor Init()
      ensures Valid() && states == []
    {
      states := [];
    }

    /** Appending a state whose successors already exist keeps the table well formed. */
    static lemma Append(a: seq<NfaState>, s: NfaState)
      requires WellFormed(a) && TargetsBelow(s, |a| + 1)
      ensures WellFormed(a + [s])
    {
      var b := a + [s];
      forall i | 0 <= i < |b|
        ensures TargetsBelow(b[i], |b|)
      {
        if i < |a| {
          assert b[i] == a[i] && TargetsBelow(a[i], |a|);
        }
      }
    }

    method AddEmpty() returns (id: nat)
      requires Valid()
      modifies this
      ensures Valid() && id == old(|states|) && states == old(states) + [Empty(0)]
    {
      id := |states|;
      Append(states, Empty(0));
      states := states + [Empty(0)];
    }

    method AddRange(start: byte, end: byte) returns (id: nat)
      requires Valid()
      modifies this
      ensures Valid() && id == old(|states|) && states == old(states) + [Range(start, end, 0)]
    {
      id := |states|;
      Append(states, Range(start, end, 0));
      states := states + [Range(start, end, 0)];
    }

    method AddUnion() returns (id: nat)
      requires Valid()
      modifies this
      ensures Valid() && id == old(|states|) && states == old(states) + [Union([], false)]
    {
      id := |states|;
      Append(states, Union([], false));
      states := states + [Union([], false)];
    }

    method AddReverseUnion() returns (id: nat)
      requires Valid()
      modifies this
      ensures Valid() && id == old(|states|) && states == old(states) + [Union([], true)]
    {
      id := |states|;
      Append(states, Union([], true));
      states := states + [Union([], true)];
    }

    method AddMatch() returns (id: nat)
      requires Valid()
      modifies this
      ensures Valid() && id == old(|states|) && states == old(states) + [Match]
    {
      id := |states|;
      Append(states, Match);
      states := states + [Match];
    }

    /** The union a repetition loops through: forward when greedy, reverse when lazy. */
    method AddRepetitionUnion(greedy: bool) returns (id: nat)
      requires Valid()
      modifies this
      ensures Valid() && id == old(|states|) && states == old(states) + [Union([], !greedy)]
    {
      if greedy {
        id := AddUnion();
      } else {
        id := AddReverseUnion();
      }
    }

    /**
     * Point the open exit of state `from` at `to`: overwrite the successor
     * of an `Empty` or `Range`, add an alternate at the back of a forward
     * union or at the front of a reverse one; a `Match` has no exit.
     */
    method Patch(from: nat, to: nat)
      requires Valid() && from < |states| && to < |states|
      modifies this
      ensures Valid() && states == old(states)[from := Patched(old(states)[from], to)]
    {
      var patched := Patched(states[from], to);
      assert TargetsBelow(patched, |states|);
      states := states[from := patched];
      assert forall i :: 0 <= i < |states| && i != from ==> states[i] == old(states[i]);
    }

    method CompileRange(start: byte, end: byte) returns (t: ThompsonRef)
      requires Valid()
      modifies this
      ensures Valid() && Extends(old(states), states)
      ensures t.start == t.end == old(|states|) && states == old(states) + [Range(start, end, 0)]
    {
      var id := AddRange(start, end);
      t := ThompsonRef(id, id);
    }

    method CompileEmpty() returns (t: ThompsonRef)
      requires Valid()
      modifies this
      ensures Valid() && Extends(old(states), states)
      ensures t.start == t.end == old(|states|) && states == old(states) + [Empty(0)]
    {
      var id := AddEmpty();
      t := ThompsonRef(id, id);
    }

    /**
     * Compile `e` into a fresh fragment, or report the first unsupported
     * construct. The fragment is the block of new states, shaped as `Built`
     * says, its exit still open.
     */
    method Compile(e: Hir, utf8: Utf8Splitter) returns (r: Result<ThompsonRef>, ghost tr: Trace)
      requires Valid()
      modifies this
      ensures Valid() && Extends(old(states), states)
      ensures r.Ok? ==> FragmentIn(r.value, old(|states|), |states|)
      ensures Reports(r, Failure(e, utf8))
      ensures Yields(r, tr, old(|states|), |states|) && (r.Ok? ==> Built(states, e, utf8, tr, None))
      decreases Size(e), 10
    {
      ghost var lo := |states|;
      match e
      case EmptyString =>
        var t := CompileEmpty();
        r, tr := Ok(t), Trace(t.start, t.end, lo, lo + 1, []);
      case Literal(ch) =>
        PlainPiecesSucceed(BytePieces(EncodeUtf8(ch)), utf8);
        r, tr := CompileConcat(BytePieces(EncodeUtf8(ch)), utf8, 0);
      case Byte(b) =>
        var t := CompileRange(b, b);
        r, tr := Ok(t), Trace(t.start, t.end, lo, lo + 1, []);
      case ByteClass(rs) =>
        PlainPiecesSucceed(RangePieces(rs), utf8);
        r, tr := CompileAlternation(RangePieces(rs), utf8, 0);
      case UnicodeClass(rs) =>
        r, tr := CompileUnicodeClass(rs, utf8);
      case Repetition(kind, greedy, sub) =>
        r, tr := CompileRepetition(kind, greedy, sub, utf8);
      case Group(sub) =>
        r, tr := Compile(sub, utf8);
      case Concat(subs) =>
        SizeAllBound(subs);
        ExprPiecesFailure(subs, utf8);
        r, tr := CompileConcat(ExprPieces(subs), utf8, Size(e));
      case Alternation(subs) =>
        SizeAllBound(subs);
        ExprPiecesFailure(subs, utf8);
        r, tr := CompileAlternation(ExprPieces(subs), utf8, Size(e));
      case Anchor =>
        r, tr := Err(ANCHORS_UNSUPPORTED), Trace(0, 0, 0, 0, []);
      case WordBoundary =>
        r, tr := Err(WORD_BOUNDARIES_UNSUPPORTED), Trace(0, 0, 0, 0, []);
    }

    /** Chain the pieces' fragments, each exit patched to the next entry; no pieces give an empty fragment. */
    method CompileConcat(pieces: seq<Piece>, utf8: Utf8Splitter, ghost bound: nat) returns (r: Result<ThompsonRef>, ghost tr: Trace)
      requires Valid() && PiecesBelow(pieces, bound)
      modifies this
      ensures Valid() && Extends(old(states), states)
      ensures r.Ok? ==> FragmentIn(r.value, old(|states|), |states|)
      ensures Reports(r, PiecesFailure(pieces, utf8))
      ensures Yields(r, tr, old(|states|), |states|) && (r.Ok? ==> Chain(states, pieces, utf8, tr, None, bound))
      decreases bound, 5
    {
      ghost var lo := |states|;
      if |pieces| == 0 {
        var t := CompileEmpty();
        return Ok(t), Trace(t.start, t.end, lo, lo + 1, []);
      }
      var first, ftr := CompilePiece(pieces[0], utf8);
      if first.Err? {
        return Err(first.error), ftr;
      }
      var start, end := first.value.start, first.value.end;
      ghost var parts := [ftr];
      ChainOne(states, pieces, utf8, ftr, bound);
      var i := 1;
      while i < |pieces|
        invariant 1 <= i <= |pieces|
        invariant Valid() && Extends(old(states), states)
        invariant FragmentIn(ThompsonRef(start, end), old(|states|), |states|)
        invariant PiecesFailure(pieces, utf8) == PiecesFailure(pieces[i..], utf8)
        invariant Chain(states, pieces[..i], utf8, Trace(start, end, lo, |states|, parts), None, bound)
      {
        ghost var s0 := states;
        var compiled, ctr := CompileLink(pieces, i, utf8, start, end, lo, parts, bound);
        PiecesFailureStep(pieces, i, utf8);
        if compiled.Err? {
          return Err(compiled.error), ctr;
        }
        ExtendsTrans(old(states), s0, states, lo);
        end := compiled.value.end;
        parts := parts + [ctr];
        i := i + 1;
      }
      ChainWhole(states, pieces, i, utf8, Trace(start, end, lo, |states|, parts), bound);
      return Ok(ThompsonRef(start, end)), Trace(start, end, lo, |states|, parts);
    }

    /** One turn of the concatenation's loop: compiles `pieces[i]` and patches the chain's exit to its start. */
    method CompileLink(pieces: seq<Piece>, i: nat, utf8: Utf8Splitter, start: nat, end: nat, ghost lo: nat, ghost parts: seq<Trace>, ghost bound: nat)
      returns (r: Result<ThompsonRef>, ghost ctr: Trace)
      requires Valid() && 1 <= i < |pieces| && PiecesBelow(pieces, bound)
      requires FragmentIn(ThompsonRef(start, end), lo, |states|)
      requires Chain(states, pieces[..i], utf8, Trace(start, end, lo, |states|, parts), None, bound)
      modifies this
      ensures Valid() && old(|states|) <= |states| && Extends(old(states)[..lo], states)
      ensures r.Err? ==> Extends(old(states), states)
      ensures Reports(r, PieceFailure(pieces[i], utf8))
      ensures r.Ok? ==> FragmentIn(ThompsonRef(start, r.value.end), lo, |states|) && r.value.end == ctr.end
      ensures r.Ok? ==> Chain(states, pieces[..i + 1], utf8, Trace(start, r.value.end, lo, |states|, parts + [ctr]), None, bound)
      decreases bound, 4
    {
      ghost var s0 := states;
      r, ctr := CompilePiece(pieces[i], utf8);
      if r.Err? {
        return;
      }
      ghost var s1 := states;
      Patch(end, r.value.start);
      ChainStep(s0, s1, states, pieces, i, utf8, start, end, lo, parts, ctr, bound);
    }

    /**
     * A union whose alternates are the pieces' entries, in order, and a
     * fresh `Empty` state that every piece's exit is patched to.
     */
    method CompileAlternation(pieces: seq<Piece>, utf8: Utf8Splitter, ghost bound: nat) returns (r: Result<ThompsonRef>, ghost tr: Trace)
      requires Valid() && PiecesBelow(pieces, bound)
      modifies this
      ensures Valid() && Extends(old(states), states)
      ensures r.Ok? ==> FragmentIn(r.value, old(|states|), |states|)
      ensures Reports(r, AlternationFailure(pieces, utf8))
      ensures Yields(r, tr, old(|states|), |states|) && (r.Ok? ==> Alt(states, pieces, utf8, tr, None, bound))
      decreases bound, 5
    {
      ghost var lo := |states|;
      var union := AddUnion();
      var ends: seq<nat> := [];
      ghost var parts: seq<Trace> := [];
      var i := 0;
      while i < |pieces|
        invariant 0 <= i <= |pieces| && |ends| == i && |parts| == i
        invariant Valid() && Extends(old(states), states)
        invariant union == lo < |states|
        invariant ends == Ends(parts)
        invariant AltOpen(states, pieces, utf8, parts, union)
        invariant PiecesFailure(pieces, utf8) == PiecesFailure(pieces[i..], utf8)
      {
        ghost var s0 := states;
        var compiled, ctr := CompileAlternate(pieces, i, utf8, union, parts, bound);
        PiecesFailureStep(pieces, i, utf8);
        if compiled.Err? {
          return Err(compiled.error), ctr;
        }
        ExtendsTrans(old(states), s0, states, lo);
        EndsSnoc(parts, ctr, ends, compiled.value.end);
        parts := parts + [ctr];
        ends := ends + [compiled.value.end];
        i := i + 1;
      }
      if |ends| == 0 {
        return Err(EMPTY_ALTERNATION), Trace(0, 0, 0, 0, []);
      }
      ghost var s2 := states;
      var t;
      t, tr := CloseAlternation(pieces, utf8, union, ends, parts, bound);
      ExtendsTrans(old(states), s2, states, lo);
      return Ok(t), tr;
    }

    /** The end of an alternation: a fresh `Empty` that every alternate's exit is patched to. */
    method CloseAlternation(pieces: seq<Piece>, utf8: Utf8Splitter, union: nat, ends: seq<nat>, ghost parts: seq<Trace>, ghost bound: nat)
      returns (r: ThompsonRef, ghost tr: Trace)
      requires Valid() && pieces != [] && PiecesBelow(pieces, bound) && |parts| == |pieces| && ends == Ends(parts)
      requires AltOpen(states, pieces, utf8, parts, union)
      modifies this
      ensures Valid() && |states| == old(|states|) + 1 && Extends(old(states)[..union], states)
      ensures r == ThompsonRef(union, old(|states|)) && tr == Trace(union, old(|states|), union, |states|, parts)
      ensures Alt(states, pieces, utf8, tr, None, bound)
    {
      ghost var s0 := states;
      var empty := AddEmpty();
      AltExtend(s0, states, pieces, utf8, parts, union, empty);
      var j := 0;
      while j < |ends|
        invariant 0 <= j <= |ends|
        invariant Valid() && |states| == empty + 1 && empty == |s0| && Extends(s0[..union], states)
        invariant states[union] == Union(Starts(parts), false) && states[empty] == Empty(0)
        invariant AltClosed(states, pieces, utf8, parts, j, empty)
      {
        ghost var prev := states;
        Patch(ends[j], empty);
        AltPatch(prev, states, pieces, utf8, parts, union, empty, j, ends[j]);
        j := j + 1;
      }
      AltDone(states, pieces, utf8, parts, union, empty, bound);
      return ThompsonRef(union, empty), Trace(union, empty, union, |states|, parts);
    }

    /** One turn of the alternation's first loop: compiles `pieces[i]` and adds its entry to the union. */
    method CompileAlternate(pieces: seq<Piece>, i: nat, utf8: Utf8Splitter, union: nat, ghost parts: seq<Trace>, ghost bound: nat)
      returns (r: Result<ThompsonRef>, ghost ctr: Trace)
      requires Valid() && i < |pieces| && |parts| == i && PiecesBelow(pieces, bound)
      requires AltOpen(states, pieces, utf8, parts, union)
      modifies this
      ensures Valid() && old(|states|) <= |states| && Extends(old(states)[..union], states)
      ensures r.Err? ==> Extends(old(states), states)
      ensures Reports(r, PieceFailure(pieces[i], utf8))
      ensures r.Ok? ==> r.value == Ref(ctr) && AltOpen(states, pieces, utf8, parts + [ctr], union)
      decreases bound, 4
    {
      ghost var s0 := states;
      r, ctr := CompilePiece(pieces[i], utf8);
      if r.Err? {
        return;
      }
      ghost var s1 := states;
      Patch(union, r.value.start);
      AltStep(s0, s1, states, pieces, i, utf8, parts, ctr, union);
    }

    /** Compile one item of a concatenation or an alternation. */
    method CompilePiece(p: Piece, utf8: Utf8Splitter) returns (r: Result<ThompsonRef>, ghost tr: Trace)
      requires Valid()
      modifies this
      ensures Valid() && Extends(old(states), states)
      ensures r.Ok? ==> FragmentIn(r.value, old(|states|), |states|)
      ensures Reports(r, PieceFailure(p, utf8))
      ensures Yields(r, tr, old(|states|), |states|) && (r.Ok? ==> PieceBuilt(states, p, utf8, tr, None))
      decreases PieceSize(p), 3
    {
      ghost var lo := |states|;
      match p
      case Expr(sub) =>
        r, tr := Compile(sub, utf8);
      case Bytes(start, end) =>
        var t := CompileRange(start, end);
        r, tr := Ok(t), Trace(t.start, t.end, lo, lo + 1, []);
      case Optional(sub, greedy) =>
        r, tr := CompileZeroOrOne(sub, greedy, utf8);
      case Utf8Sequence(ranges) =>
        PlainPiecesSucceed(RangePieces(ranges), utf8);
        r, tr := CompileConcat(RangePieces(ranges), utf8, 0);
    }

    /** An alternation over every UTF-8 byte-range sequence of every class range. */
    method CompileUnicodeClass(rs: seq<CharRange>, utf8: Utf8Splitter) returns (r: Result<ThompsonRef>, ghost tr: Trace)
      requires Valid()
      modifies this
      ensures Valid() && Extends(old(states), states)
      ensures r.Ok? ==> FragmentIn(r.value, old(|states|), |states|)
      ensures Reports(r, Failure(UnicodeClass(rs), utf8))
      ensures Yields(r, tr, old(|states|), |states|) && (r.Ok? ==> Alt(states, Utf8Pieces(rs, utf8), utf8, tr, None, 1))
      decreases 1, 9
    {
      var pieces := Utf8Pieces(rs, utf8);
      PlainPiecesSucceed(pieces, utf8);
      r, tr := CompileAlternation(pieces, utf8, 1);
    }

    method CompileRepetition(kind: RepetitionKind, greedy: bool, sub: Hir, utf8: Utf8Splitter)
      returns (r: Result<ThompsonRef>, ghost tr: Trace)
      requires Valid()
      modifies this
      ensures Valid() && Extends(old(states), states)
      ensures r.Ok? ==> FragmentIn(r.value, old(|states|), |states|)
      ensures Reports(r, Failure(Repetition(kind, greedy, sub), utf8))
      ensures Yields(r, tr, old(|states|), |states|) && (r.Ok? ==> RepetitionBuilt(states, kind, greedy, sub, utf8, tr, None))
      decreases Size(sub) + 1, 9
    {
      RepetitionFailure(kind, greedy, sub, utf8);
      match kind
      case ZeroOrOne =>
        r, tr := CompileZeroOrOne(sub, greedy, utf8);
      case ZeroOrMore =>
        r, tr := CompileAtLeast(sub, greedy, 0, utf8);
      case OneOrMore =>
        r, tr := CompileAtLeast(sub, greedy, 1, utf8);
      case Exactly(count) =>
        r, tr := CompileExactly(sub, count, utf8);
      case AtLeast(min) =>
        r, tr := CompileAtLeast(sub, greedy, min, utf8);
      case Bounded(min, max) =>
        r, tr := CompileBounded(sub, greedy, min, max, utf8);
    }

    /** `min` copies, then `max - min` optional copies. */
    method CompileBounded(sub: Hir, greedy: bool, min: nat, max: nat, utf8: Utf8Splitter)
      returns (r: Result<ThompsonRef>, ghost tr: Trace)
      requires Valid()
      modifies this
      ensures Valid() && Extends(old(states), states)
      ensures r.Ok? ==> FragmentIn(r.value, old(|states|), |states|)
      ensures Reports(r, if min > 0 || max > min then Failure(sub, utf8) else None)
      ensures Yields(r, tr, old(|states|), |states|) && (r.Ok? ==> BoundedBuilt(states, sub, greedy, min, max, utf8, tr, None))
      decreases Size(sub) + 1, 8
    {
      ghost var lo := |states|;
      var prefix, ptr := CompileExactly(sub, min, utf8);
      if prefix.Err? {
        return Err(prefix.error), ptr;
      }
      if min == max {
        return prefix, ptr;
      }
      ghost var s0 := states;
      r, tr := CompileOptionalCopies(sub, greedy, min, max, utf8, prefix.value, ptr);
      ExtendsTrans(old(states), s0, states, ptr.lo);
    }

    /** The second half of `sub{min,max}`: `max - min` optional copies, entered from the prefix's exit. */
    method CompileOptionalCopies(sub: Hir, greedy: bool, min: nat, max: nat, utf8: Utf8Splitter, prefix: ThompsonRef, ghost ptr: Trace)
      returns (r: Result<ThompsonRef>, ghost tr: Trace)
      requires Valid() && min != max && prefix == Ref(ptr) && ptr.hi == |states|
      requires Chain(states, Repeat(Expr(sub), min), utf8, ptr, None, Size(sub) + 1)
      modifies this
      ensures Valid() && Extends(old(states)[..ptr.lo], states)
      ensures r.Ok? ==> FragmentIn(r.value, ptr.lo, |states|)
      ensures Reports(r, if max > min then Failure(sub, utf8) else None)
      ensures Yields(r, tr, ptr.lo, |states|) && (r.Ok? ==> BoundedBuilt(states, sub, greedy, min, max, utf8, tr, None))
      decreases Size(sub) + 1, 7
    {
      ghost var s0 := states;
      ChainPlaced(s0, Repeat(Expr(sub), min), utf8, ptr, None, Size(sub) + 1);
      var count := if max > min then max - min else 0;
      RepeatedFailure(Optional(sub, greedy), count, utf8);
      var suffix, str := CompileConcat(Repeat(Optional(sub, greedy), count), utf8, Size(sub) + 1);
      if suffix.Err? {
        assert s0[..ptr.lo] == states[..ptr.lo];
        return Err(suffix.error), str;
      }
      ghost var s1 := states;
      Patch(prefix.end, suffix.value.start);
      BoundedAssembled(s0, s1, states, sub, greedy, min, max, utf8, ptr, str);
      return Ok(ThompsonRef(prefix.start, suffix.value.end)), Trace(ptr.start, str.end, ptr.lo, |states|, [ptr, str]);
    }

    /**
     * At least `n` copies: a loop through a union placed before the copy
     * (`n == 0`) or after the last copy; a lazy repetition uses a reverse union.
     */
    method CompileAtLeast(sub: Hir, greedy: bool, n: nat, utf8: Utf8Splitter) returns (r: Result<ThompsonRef>, ghost tr: Trace)
      requires Valid()
      modifies this
      ensures Valid() && Extends(old(states), states)
      ensures r.Ok? ==> FragmentIn(r.value, old(|states|), |states|)
      ensures Reports(r, Failure(sub, utf8))
      ensures Yields(r, tr, old(|states|), |states|) && (r.Ok? ==> AtLeastBuilt(states, sub, greedy, n, utf8, tr, None))
      decreases Size(sub) + 1, 8
    {
      if n == 0 {
        r, tr := CompileZeroOrMore(sub, greedy, utf8);
      } else if n == 1 {
        r, tr := CompileOneOrMore(sub, greedy, utf8);
      } else {
        r, tr := CompileAtLeastMany(sub, greedy, n, utf8);
      }
    }

    /** The union is the entry and the exit; the copy loops back to it. */
    method CompileZeroOrMore(sub: Hir, greedy: bool, utf8: Utf8Splitter) returns (r: Result<ThompsonRef>, ghost tr: Trace)
      requires Valid()
      modifies this
      ensures Valid() && Extends(old(states), states)
      ensures r.Ok? ==> FragmentIn(r.value, old(|states|), |states|)
      ensures Reports(r, Failure(sub, utf8))
      ensures Yields(r, tr, old(|states|), |states|) && (r.Ok? ==> StarBuilt(states, sub, greedy, utf8, tr, None))
      decreases Size(sub) + 1, 7
    {
      ghost var lo := |states|;
      var union := AddRepetitionUnion(greedy);
      var compiled, ctr := Compile(sub, utf8);
      if compiled.Err? {
        return Err(compiled.error), ctr;
      }
      ghost var s1 := states;
      LoopStar(union, compiled.value, sub, greedy, utf8, ctr);
      ExtendsTrans(old(states), s1, states, lo);
      return Ok(ThompsonRef(union, union)), Trace(union, union, lo, |states|, [ctr]);
    }

    /** The end of `sub*`: the union enters the copy, and the copy's exit loops back to the union. */
    method LoopStar(union: nat, compiled: ThompsonRef, ghost sub: Hir, ghost greedy: bool, ghost utf8: Utf8Splitter, ghost ctr: Trace)
      requires Valid() && union < |states| && states[union] == Union([], !greedy) && compiled == Ref(ctr)
      requires Built(states, sub, utf8, ctr, None) && ctr.lo == union + 1 && ctr.hi == |states|
      modifies this
      ensures Valid() && |states| == old(|states|) && Extends(old(states)[..union], states)
      ensures StarBuilt(states, sub, greedy, utf8, Trace(union, union, union, |states|, [ctr]), None)
    {
      ghost var s1 := states;
      BuiltPlaced(s1, sub, utf8, ctr, None);
      Patch(union, compiled.start);
      ghost var s2 := states;
      Patch(compiled.end, union);
      StarAssembled(s1, s2, states, sub, greedy, utf8, ctr, union);
    }

    /** The copy is the entry; its exit goes to a union that loops back to it. */
    method CompileOneOrMore(sub: Hir, greedy: bool, utf8: Utf8Splitter) returns (r: Result<ThompsonRef>, ghost tr: Trace)
      requires Valid()
      modifies this
      ensures Valid() && Extends(old(states), states)
      ensures r.Ok? ==> FragmentIn(r.value, old(|states|), |states|)
      ensures Reports(r, Failure(sub, utf8))
      ensures Yields(r, tr, old(|states|), |states|) && (r.Ok? ==> PlusBuilt(states, sub, greedy, utf8, tr, None))
      decreases Size(sub) + 1, 7
    {
      ghost var lo := |states|;
      var compiled, ctr := Compile(sub, utf8);
      if compiled.Err? {
        return Err(compiled.error), ctr;
      }
      ghost var s0 := states;
      var union := AddRepetitionUnion(greedy);
      ghost var s1 := states;
      Patch(compiled.value.end, union);
      ghost var s2 := states;
      Patch(union, compiled.value.start);
      PlusAssembled(s0, s1, s2, states, sub, greedy, utf8, ctr, union);
      return Ok(ThompsonRef(compiled.value.start, union)), Trace(compiled.value.start, union, lo, |states|, [ctr]);
    }

    /** `n - 1` copies, then a last copy that a union loops back to. */
    method CompileAtLeastMany(sub: Hir, greedy: bool, n: nat, utf8: Utf8Splitter) returns (r: Result<ThompsonRef>, ghost tr: Trace)
      requires Valid() && n >= 2
      modifies this
      ensures Valid() && Extends(old(states), states)
      ensures r.Ok? ==> FragmentIn(r.value, old(|states|), |states|)
      ensures Reports(r, Failure(sub, utf8))
      ensures Yields(r, tr, old(|states|), |states|) && (r.Ok? ==> AtLeastManyBuilt(states, sub, greedy, n, utf8, tr, None))
      decreases Size(sub) + 1, 7
    {
      ghost var lo := |states|;
      var prefix, ptr := CompileExactly(sub, n - 1, utf8);
      if prefix.Err? {
        return Err(prefix.error), ptr;
      }
      ghost var s0 := states;
      var last, ltr := Compile(sub, utf8);
      if last.Err? {
        // The copies before compiled the same expression without error.
        assert false;
      }
      var union := LoopLast(sub, greedy, n, utf8, prefix.value, last.value, s0, ptr, ltr);
      ExtendsTrans(old(states), s0, states, ptr.lo);
      return Ok(ThompsonRef(prefix.value.start, union)), Trace(ptr.start, union, ptr.lo, |states|, [ptr, ltr]);
    }

    /** The end of `sub{n,}`: the prefix exits to the last copy, and a union after it loops back to that copy. */
    method LoopLast(sub: Hir, greedy: bool, n: nat, utf8: Utf8Splitter, prefix: ThompsonRef, last: ThompsonRef,
                    ghost s0: seq<NfaState>, ghost ptr: Trace, ghost ltr: Trace) returns (union: nat)
      requires Valid() && n >= 2 && prefix == Ref(ptr) && last == Ref(ltr) && ptr.hi == |s0|
      requires Chain(s0, Repeat(Expr(sub), n - 1), utf8, ptr, None, Size(sub) + 1)
      requires Extends(s0, states) && Built(states, sub, utf8, ltr, None) && ltr.lo == |s0| && ltr.hi == |states|
      modifies this
      ensures Valid() && union == old(|states|) && |states| == union + 1 && Extends(s0[..ptr.lo], states)
      ensures AtLeastManyBuilt(states, sub, greedy, n, utf8, Trace(ptr.start, union, ptr.lo, |states|, [ptr, ltr]), None)
    {
      ghost var s1 := states;
      union := AddRepetitionUnion(greedy);
      ghost var s2 := states;
      ChainPlaced(s0, Repeat(Expr(sub), n - 1), utf8, ptr, None, Size(sub) + 1);
      BuiltPlaced(s1, sub, utf8, ltr, None);
      Patch(prefix.end, last.start);
      ghost var s3 := states;
      Patch(last.end, union);
      ghost var s4 := states;
      Patch(union, last.start);
      AtLeastManyLayout(s0, s1, s2, s3, s4, states, greedy, ptr, ltr, union);
      AtLeastManyAssembled(s0, s1, states, sub, greedy, n, utf8, ptr, ltr, union);
    }

    /** A union offering the copy of `sub` and a bypass, both ending in a fresh `Empty`. */
    method CompileZeroOrOne(sub: Hir, greedy: bool, utf8: Utf8Splitter) returns (r: Result<ThompsonRef>, ghost tr: Trace)
      requires Valid()
      modifies this
      ensures Valid() && Extends(old(states), states)
      ensures r.Ok? ==> FragmentIn(r.value, old(|states|), |states|)
      ensures Reports(r, Failure(sub, utf8))
      ensures Yields(r, tr, old(|states|), |states|) && (r.Ok? ==> OptionalBuilt(states, sub, greedy, utf8, tr, None))
      decreases Size(sub) + 1, 2
    {
      ghost var lo := |states|;
      var union := AddRepetitionUnion(greedy);
      var compiled, ctr := Compile(sub, utf8);
      if compiled.Err? {
        return Err(compiled.error), ctr;
      }
      ghost var s1 := states;
      var empty := CloseOptional(union, compiled.value, sub, greedy, utf8, ctr);
      ExtendsTrans(old(states), s1, states, lo);
      return Ok(ThompsonRef(union, empty)), Trace(union, empty, lo, |states|, [ctr]);
    }

    /** The end of `sub?`: a fresh `Empty`, offered by the union and reached from the copy's exit. */
    method CloseOptional(union: nat, compiled: ThompsonRef, ghost sub: Hir, ghost greedy: bool, ghost utf8: Utf8Splitter, ghost ctr: Trace)
      returns (empty: nat)
      requires Valid() && union < |states| && states[union] == Union([], !greedy) && compiled == Ref(ctr)
      requires Built(states, sub, utf8, ctr, None) && ctr.lo == union + 1 && ctr.hi == |states|
      modifies this
      ensures Valid() && empty == old(|states|) && |states| == empty + 1 && Extends(old(states)[..union], states)
      ensures OptionalBuilt(states, sub, greedy, utf8, Trace(union, empty, union, |states|, [ctr]), None)
    {
      ghost var s1 := states;
      BuiltPlaced(s1, sub, utf8, ctr, None);
      empty := AddEmpty();
      ghost var s2 := states;
      Patch(union, compiled.start);
      ghost var s3 := states;
      Patch(union, empty);
      ghost var s4 := states;
      Patch(compiled.end, empty);
      OptionalAssembled(s1, s2, s3, s4, states, sub, greedy, utf8, ctr, union, empty);
    }

    /** `n` copies of `sub` in a row. */
    method CompileExactly(sub: Hir, n: nat, utf8: Utf8Splitter) returns (r: Result<ThompsonRef>, ghost tr: Trace)
      requires Valid()
      modifies this
      ensures Valid() && Extends(old(states), states)
      ensures r.Ok? ==> FragmentIn(r.value, old(|states|), |states|)
      ensures Reports(r, if n == 0 then None else Failure(sub, utf8))
      ensures Yields(r, tr, old(|states|), |states|) && (r.Ok? ==> Chain(states, Repeat(Expr(sub), n), utf8, tr, None, Size(sub) + 1))
      decreases Size(sub) + 1, 6
    {
      RepeatedFailure(Expr(sub), n, utf8);
      r, tr := CompileConcat(Repeat(Expr(sub), n), utf8, Size(sub) + 1);
    }
  }

  /** `r` is the fragment `tr` spanning the new states `lo .. hi - 1`. */
  ghost predicate Yields(r: Result<ThompsonRef>, tr: Trace, lo: nat, hi: nat) {
    r.Ok? ==> r.value == Ref(tr) && tr.lo == lo && tr.hi == hi
  }

  /** `b` holds the same states as `a` at the ids `lo .. hi - 1`. */
  ghost predicate Agree(a: seq<NfaState>, b: seq<NfaState>, lo: nat, hi: nat) {
    hi <= |a| && hi <= |b| && forall i :: lo <= i < hi ==> b[i] == a[i]
  }

  /** A part whose block the change leaves alone keeps its shape, under any equal names. */
  lemma PartKept(a: seq<NfaState>, b: seq<NfaState>, p: Piece, q: Piece, utf8: Utf8Splitter, part: Trace, same: Trace, x: Option<nat>, y: Option<nat>, lo: nat, hi: nat)
    requires PieceBuilt(a, p, utf8, part, x) && Agree(a, b, lo, hi) && lo <= part.lo && part.hi <= hi
    requires p == q && part == same && x == y
    ensures PieceBuilt(b, q, utf8, same, y)
  {
    PiecePlaced(a, p, utf8, part, x);
    assert Reframed(a, b, part, x, x);
    PieceFrame(a, b, p, utf8, part, x, x);
  }

  /** The same shape under equal names. */
  lemma PieceRenamed(s: seq<NfaState>, p: Piece, q: Piece, utf8: Utf8Splitter, part: Trace, same: Trace, x: Option<nat>, y: Option<nat>)
    requires PieceBuilt(s, p, utf8, part, x) && p == q && part == same && x == y
    ensures PieceBuilt(s, q, utf8, same, y)
  {
  }

  lemma PiecesBelowPrefix(ps: seq<Piece>, n: nat, bound: nat)
    requires PiecesBelow(ps, bound) && n <= |ps|
    ensures PiecesBelow(ps[..n], bound)
  {
    forall k | 0 <= k < n
      ensures PieceSize(ps[..n][k]) <= bound
    {
      assert ps[..n][k] == ps[k];
    }
  }

  /** A chain of one piece. */
  lemma ChainOne(s: seq<NfaState>, pieces: seq<Piece>, utf8: Utf8Splitter, ftr: Trace, bound: nat)
    requires pieces != [] && PiecesBelow(pieces, bound) && PieceBuilt(s, pieces[0], utf8, ftr, None)
    ensures Chain(s, pieces[..1], utf8, Trace(ftr.start, ftr.end, ftr.lo, ftr.hi, [ftr]), None, bound)
  {
    PiecePlaced(s, pieces[0], utf8, ftr, None);
    var t := Trace(ftr.start, ftr.end, ftr.lo, ftr.hi, [ftr]);
    PiecesBelowPrefix(pieces, 1, bound);
    forall k | 0 <= k < |pieces[..1]|
      ensures PieceBuilt(s, pieces[..1][k], utf8, t.parts[k], ChainExit(t.parts, k, None))
    {
      PieceRenamed(s, pieces[0], pieces[..1][k], utf8, ftr, t.parts[k], None, ChainExit(t.parts, k, None));
    }
    ChainIntro(s, pieces[..1], utf8, t, None, bound);
  }

  lemma ChainIntro(s: seq<NfaState>, ps: seq<Piece>, utf8: Utf8Splitter, tr: Trace, exit: Option<nat>, bound: nat)
    requires ps != [] && PiecesBelow(ps, bound) && Placed(s, tr) && |tr.parts| == |ps| && Tiled(tr.parts, tr.lo, tr.hi)
    requires tr.start == tr.parts[0].start && tr.end == tr.parts[|ps| - 1].end
    requires forall k {:trigger ps[k]} :: 0 <= k < |ps| ==> PieceBuilt(s, ps[k], utf8, tr.parts[k], ChainExit(tr.parts, k, exit))
    ensures Chain(s, ps, utf8, tr, exit, bound)
  {
  }

  /**
   * One step of the concatenation loop: the piece compiled after the chain
   * of `pieces[..i]`, and the chain's exit patched to its entry, make the
   * chain of `pieces[..i + 1]`.
   */
  lemma ChainStep(s0: seq<NfaState>, s1: seq<NfaState>, s2: seq<NfaState>, pieces: seq<Piece>, i: nat, utf8: Utf8Splitter,
                  start: nat, end: nat, lo: nat, parts: seq<Trace>, ctr: Trace, bound: nat)
    requires 1 <= i < |pieces| && PiecesBelow(pieces, bound)
    requires Chain(s0, pieces[..i], utf8, Trace(start, end, lo, |s0|, parts), None, bound)
    requires Extends(s0, s1) && PieceBuilt(s1, pieces[i], utf8, ctr, None) && ctr.lo == |s0| && ctr.hi == |s1|
    requires end < |s1| && s2 == s1[end := Patched(s1[end], ctr.start)]
    ensures Chain(s2, pieces[..i + 1], utf8, Trace(start, ctr.end, lo, |s2|, parts + [ctr]), None, bound)
    ensures Extends(s0[..lo], s2)
  {
    var t := Trace(start, end, lo, |s0|, parts);
    ChainPlaced(s0, pieces[..i], utf8, t, None, bound);
    PiecePlaced(s1, pieces[i], utf8, ctr, None);
    ChainStepLayout(s0, s1, s2, t, ctr);
    ChainFrame(s0, s2, pieces[..i], utf8, t, None, Some(ctr.start), bound);
    PartKept(s1, s2, pieces[i], pieces[i], utf8, ctr, ctr, None, None, |s0|, |s1|);
    ChainSnoc(s2, pieces, i, utf8, t, Trace(start, ctr.end, lo, |s2|, parts + [ctr]), ctr, bound);
  }

  /** The chain of `pieces[..i]`, exiting to the piece after it, and that piece make the chain of `pieces[..i + 1]`. */
  lemma PiecesFailureStep(pieces: seq<Piece>, i: nat, utf8: Utf8Splitter)
    requires i < |pieces|
    ensures PiecesFailure(pieces[i..], utf8) ==
      if PieceFailure(pieces[i], utf8).Some? then PieceFailure(pieces[i], utf8) else PiecesFailure(pieces[i + 1..], utf8)
  {
    assert pieces[i..][1..] == pieces[i + 1..];
  }

  lemma ChainWhole(s: seq<NfaState>, pieces: seq<Piece>, i: nat, utf8: Utf8Splitter, t: Trace, bound: nat)
    requires i == |pieces| && Chain(s, pieces[..i], utf8, t, None, bound)
    ensures Chain(s, pieces, utf8, t, None, bound)
  {
    assert pieces[..i] == pieces;
  }

  lemma ChainSnoc(s: seq<NfaState>, pieces: seq<Piece>, i: nat, utf8: Utf8Splitter, t: Trace, u: Trace, ctr: Trace, bound: nat)
    requires 1 <= i < |pieces| && PiecesBelow(pieces, bound)
    requires Chain(s, pieces[..i], utf8, t, Some(ctr.start), bound) && PieceBuilt(s, pieces[i], utf8, ctr, None)
    requires t.hi == ctr.lo && ctr.hi == |s| && u == Trace(t.start, ctr.end, t.lo, |s|, t.parts + [ctr])
    ensures Chain(s, pieces[..i + 1], utf8, u, None, bound)
  {
    ChainPlaced(s, pieces[..i], utf8, t, Some(ctr.start), bound);
    PiecePlaced(s, pieces[i], utf8, ctr, None);
    ChainStepShape(s, pieces[..i], utf8, t, ctr, Some(ctr.start), bound);
    PiecesBelowPrefix(pieces, i + 1, bound);
    forall k | 0 <= k < i + 1
      ensures PieceBuilt(s, pieces[..i + 1][k], utf8, u.parts[k], ChainExit(u.parts, k, None))
    {
      if k < i {
        ChainStepOld(s, pieces, i, utf8, t, u, ctr, bound, k);
      } else {
        PieceRenamed(s, pieces[i], pieces[..i + 1][k], utf8, ctr, u.parts[k], None, ChainExit(u.parts, k, None));
      }
    }
    ChainIntro(s, pieces[..i + 1], utf8, u, None, bound);
  }

  lemma ChainStepLayout(s0: seq<NfaState>, s1: seq<NfaState>, s2: seq<NfaState>, t: Trace, ctr: Trace)
    requires Placed(s0, t) && t.hi == |s0| && Extends(s0, s1) && Placed(s1, ctr) && ctr.lo == |s0| && ctr.hi == |s1|
    requires s2 == s1[t.end := Patched(s1[t.end], ctr.start)]
    ensures Reframed(s0, s2, t, None, Some(ctr.start)) && Agree(s1, s2, |s0|, |s1|)
  {
  }

  /** What the chain's own facts give about the longer chain: its parts, their tiling and its ends. */
  lemma ChainStepShape(s: seq<NfaState>, ps: seq<Piece>, utf8: Utf8Splitter, t: Trace, ctr: Trace, exit: Option<nat>, bound: nat)
    requires ps != [] && Chain(s, ps, utf8, t, exit, bound) && t.hi == ctr.lo <= ctr.hi
    ensures |t.parts| == |ps| && Tiled(t.parts + [ctr], t.lo, ctr.hi) && t.start == (t.parts + [ctr])[0].start
  {
    TiledSnoc(t.parts, ctr, t.lo, t.hi);
  }

  /** A part of the shorter chain, now exiting to the next part, as a part of the longer chain. */
  lemma ChainStepOld(s: seq<NfaState>, pieces: seq<Piece>, i: nat, utf8: Utf8Splitter, t: Trace, u: Trace, ctr: Trace, bound: nat, k: nat)
    requires k < i < |pieces| && Chain(s, pieces[..i], utf8, t, Some(ctr.start), bound) && u.parts == t.parts + [ctr]
    ensures PieceBuilt(s, pieces[..i + 1][k], utf8, u.parts[k], ChainExit(u.parts, k, None))
  {
    assert PieceBuilt(s, pieces[..i][k], utf8, t.parts[k], ChainExit(t.parts, k, Some(ctr.start)));
    PieceRenamed(s, pieces[..i][k], pieces[..i + 1][k], utf8, t.parts[k], u.parts[k], ChainExit(t.parts, k, Some(ctr.start)), ChainExit(u.parts, k, None));
  }

  lemma TiledSnoc(parts: seq<Trace>, p: Trace, lo: nat, hi: nat)
    requires Tiled(parts, lo, hi) && p.lo == hi <= p.hi
    ensures Tiled(parts + [p], lo, p.hi)
  {
  }

  /** One step of the alternation's first loop: one more alternate compiled and added to the union. */
  lemma AltStep(s0: seq<NfaState>, s1: seq<NfaState>, s2: seq<NfaState>, pieces: seq<Piece>, i: nat, utf8: Utf8Splitter, parts: seq<Trace>, ctr: Trace, lo: nat)
    requires i < |pieces| && |parts| == i && lo < |s0| && s0[lo] == Union(Starts(parts), false) && Tiled(parts, lo + 1, |s0|)
    requires forall k :: 0 <= k < i ==> PieceBuilt(s0, pieces[k], utf8, parts[k], None)
    requires Extends(s0, s1) && PieceBuilt(s1, pieces[i], utf8, ctr, None) && ctr.lo == |s0| && ctr.hi == |s1|
    requires s2 == s1[lo := Patched(s1[lo], ctr.start)]
    ensures |s2| == |s1| && s2[lo] == Union(Starts(parts + [ctr]), false) && Tiled(parts + [ctr], lo + 1, |s2|)
    ensures forall k :: 0 <= k < i + 1 ==> PieceBuilt(s2, pieces[k], utf8, (parts + [ctr])[k], None)
    ensures Extends(s0[..lo], s2)
  {
    assert Starts(parts + [ctr]) == Starts(parts) + [ctr.start];
    PiecePlaced(s1, pieces[i], utf8, ctr, None);
    TiledSnoc(parts, ctr, lo + 1, |s0|);
    AltStepLayout(s0, s1, s2, lo, ctr.start);
    AltStepParts(s0, s1, s2, pieces, i, utf8, parts, ctr, lo);
  }

  lemma AltStepParts(s0: seq<NfaState>, s1: seq<NfaState>, s2: seq<NfaState>, pieces: seq<Piece>, i: nat, utf8: Utf8Splitter, parts: seq<Trace>, ctr: Trace, lo: nat)
    requires i < |pieces| && |parts| == i && Tiled(parts, lo + 1, |s0|)
    requires forall k :: 0 <= k < i ==> PieceBuilt(s0, pieces[k], utf8, parts[k], None)
    requires PieceBuilt(s1, pieces[i], utf8, ctr, None) && ctr.lo == |s0| && ctr.hi == |s1|
    requires Agree(s0, s2, lo + 1, |s0|) && Agree(s1, s2, |s0|, |s1|)
    ensures forall k :: 0 <= k < i + 1 ==> PieceBuilt(s2, pieces[k], utf8, (parts + [ctr])[k], None)
  {
    forall k | 0 <= k < i + 1
      ensures PieceBuilt(s2, pieces[k], utf8, (parts + [ctr])[k], None)
    {
      if k < i {
        AltStepOld(s0, s2, pieces, utf8, parts, ctr, lo, k);
      } else {
        PartKept(s1, s2, pieces[i], pieces[k], utf8, ctr, (parts + [ctr])[k], None, None, |s0|, |s1|);
      }
    }
  }

  lemma AltStepLayout(s0: seq<NfaState>, s1: seq<NfaState>, s2: seq<NfaState>, lo: nat, to: nat)
    requires lo < |s0| && Extends(s0, s1) && s2 == s1[lo := Patched(s1[lo], to)]
    ensures Agree(s0, s2, lo + 1, |s0|) && Agree(s1, s2, |s0|, |s1|)
  {
  }

  lemma AltStepOld(s0: seq<NfaState>, s2: seq<NfaState>, pieces: seq<Piece>, utf8: Utf8Splitter, parts: seq<Trace>, ctr: Trace, lo: nat, k: nat)
    requires k < |parts| && k < |pieces| && Tiled(parts, lo + 1, |s0|) && Agree(s0, s2, lo + 1, |s0|)
    requires PieceBuilt(s0, pieces[k], utf8, parts[k], None)
    ensures PieceBuilt(s2, pieces[k], utf8, (parts + [ctr])[k], None)
  {
    PartKept(s0, s2, pieces[k], pieces[k], utf8, parts[k], (parts + [ctr])[k], None, None, lo + 1, |s0|);
  }

  /** The alternates' exits, `j` of them patched so far to the alternation's `Empty`. */
  /** An alternation under construction: the union at `union` enters every part built so far, and the parts tile the states after it. */
  ghost predicate AltOpen(s: seq<NfaState>, ps: seq<Piece>, utf8: Utf8Splitter, parts: seq<Trace>, union: nat) {
    |parts| <= |ps| && union < |s| && s[union] == Union(Starts(parts), false) && Tiled(parts, union + 1, |s|)
    && forall k :: 0 <= k < |parts| ==> PieceBuilt(s, ps[k], utf8, parts[k], None)
  }

  ghost predicate AltClosed(s: seq<NfaState>, ps: seq<Piece>, utf8: Utf8Splitter, parts: seq<Trace>, j: nat, empty: nat) {
    |ps| == |parts| && forall k :: 0 <= k < |ps| ==> PieceBuilt(s, ps[k], utf8, parts[k], if k < j then Some(empty) else None)
  }

  /** Appending the alternation's `Empty` leaves the alternates as they were. */
  lemma AltExtend(s0: seq<NfaState>, s1: seq<NfaState>, ps: seq<Piece>, utf8: Utf8Splitter, parts: seq<Trace>, lo: nat, empty: nat)
    requires |ps| == |parts| && Tiled(parts, lo + 1, |s0|) && Extends(s0, s1)
    requires forall k :: 0 <= k < |ps| ==> PieceBuilt(s0, ps[k], utf8, parts[k], None)
    ensures AltClosed(s1, ps, utf8, parts, 0, empty)
  {
    forall k | 0 <= k < |ps|
      ensures PieceBuilt(s1, ps[k], utf8, parts[k], if k < 0 then Some(empty) else None)
    {
      PartKept(s0, s1, ps[k], ps[k], utf8, parts[k], parts[k], None, if k < 0 then Some(empty) else None, lo + 1, |s0|);
    }
  }

  /** Patching the `j`th alternate's exit to the `Empty` closes that alternate and leaves the others alone. */
  lemma AltPatch(s0: seq<NfaState>, s1: seq<NfaState>, ps: seq<Piece>, utf8: Utf8Splitter, parts: seq<Trace>, lo: nat, empty: nat, j: nat, e: nat)
    requires j < |parts| && Tiled(parts, lo + 1, empty) && empty < |s0| && AltClosed(s0, ps, utf8, parts, j, empty)
    requires e == parts[j].end && e < |s0| && s1 == s0[e := Patched(s0[e], empty)]
    ensures AltClosed(s1, ps, utf8, parts, j + 1, empty)
  {
    assert PieceBuilt(s0, ps[j], utf8, parts[j], if j < j then Some(empty) else None);
    PiecePlaced(s0, ps[j], utf8, parts[j], if j < j then Some(empty) else None);
    forall k | 0 <= k < |ps|
      ensures PieceBuilt(s1, ps[k], utf8, parts[k], if k < j + 1 then Some(empty) else None)
    {
      assert PieceBuilt(s0, ps[k], utf8, parts[k], if k < j then Some(empty) else None);
      if k == j {
        AltPatchOwn(s0, s1, ps[k], utf8, parts[k], if k < j then Some(empty) else None, if k < j + 1 then Some(empty) else None, empty);
      } else {
        if k < j {
          TiledOrdered(parts, lo + 1, empty, k, j);
        } else {
          TiledOrdered(parts, lo + 1, empty, j, k);
        }
        AltPatchOther(s0, s1, ps[k], utf8, parts[k], if k < j then Some(empty) else None, if k < j + 1 then Some(empty) else None, e, empty);
      }
    }
  }

  lemma AltPatchOwn(s0: seq<NfaState>, s1: seq<NfaState>, p: Piece, utf8: Utf8Splitter, part: Trace, x: Option<nat>, y: Option<nat>, empty: nat)
    requires PieceBuilt(s0, p, utf8, part, x) && x == None && y == Some(empty)
    requires part.end < |s0| && s1 == s0[part.end := Patched(s0[part.end], empty)]
    ensures PieceBuilt(s1, p, utf8, part, y)
  {
    PiecePlaced(s0, p, utf8, part, x);
    assert Reframed(s0, s1, part, None, Some(empty));
    PieceFrame(s0, s1, p, utf8, part, None, Some(empty));
  }

  lemma AltPatchOther(s0: seq<NfaState>, s1: seq<NfaState>, p: Piece, utf8: Utf8Splitter, part: Trace, x: Option<nat>, y: Option<nat>, e: nat, empty: nat)
    requires PieceBuilt(s0, p, utf8, part, x) && x == y && !(part.lo <= e < part.hi)
    requires e < |s0| && s1 == s0[e := Patched(s0[e], empty)]
    ensures PieceBuilt(s1, p, utf8, part, y)
  {
    PiecePlaced(s0, p, utf8, part, x);
    assert Agree(s0, s1, part.lo, part.hi);
    PartKept(s0, s1, p, p, utf8, part, part, x, y, part.lo, part.hi);
  }

  /** The finished alternation. */
  lemma AltDone(s: seq<NfaState>, ps: seq<Piece>, utf8: Utf8Splitter, parts: seq<Trace>, lo: nat, empty: nat, bound: nat)
    requires ps != [] && PiecesBelow(ps, bound) && AltClosed(s, ps, utf8, parts, |parts|, empty)
    requires lo < empty && empty + 1 == |s| && Tiled(parts, lo + 1, empty)
    requires s[lo] == Union(Starts(parts), false) && s[empty] == Empty(0)
    ensures Alt(s, ps, utf8, Trace(lo, empty, lo, |s|, parts), None, bound)
  {
    forall k | 0 <= k < |ps|
      ensures PieceBuilt(s, ps[k], utf8, parts[k], Some(empty))
    {
      assert PieceBuilt(s, ps[k], utf8, parts[k], if k < |parts| then Some(empty) else None);
    }
  }

  /** `sub*` as the compiler lays it out: the union, the copy, the two patches. */
  lemma StarAssembled(s1: seq<NfaState>, s2: seq<NfaState>, s3: seq<NfaState>, sub: Hir, greedy: bool, utf8: Utf8Splitter, ctr: Trace, u: nat)
    requires Built(s1, sub, utf8, ctr, None) && ctr.lo == u + 1 && ctr.hi == |s1| && s1[u] == Union([], !greedy)
    requires s2 == s1[u := Patched(s1[u], ctr.start)] && s3 == s2[ctr.end := Patched(s2[ctr.end], u)]
    ensures StarBuilt(s3, sub, greedy, utf8, Trace(u, u, u, |s3|, [ctr]), None)
  {
    BuiltPlaced(s1, sub, utf8, ctr, None);
    StarLayout(s1, s2, s3, greedy, ctr, u);
    BuiltFrame(s1, s3, sub, utf8, ctr, None, Some(u));
  }

  lemma StarLayout(s1: seq<NfaState>, s2: seq<NfaState>, s3: seq<NfaState>, greedy: bool, ctr: Trace, u: nat)
    requires Placed(s1, ctr) && ctr.lo == u + 1 && ctr.hi == |s1| && s1[u] == Union([], !greedy)
    requires s2 == s1[u := Patched(s1[u], ctr.start)] && s3 == s2[ctr.end := Patched(s2[ctr.end], u)]
    ensures |s3| == |s1| && s3[u] == RepetitionUnion(ctr.start, greedy, None) && Tiled([ctr], u + 1, |s3|)
    ensures Reframed(s1, s3, ctr, None, Some(u))
  {
  }

  /** `sub+` as the compiler lays it out: the copy, the union, the two patches. */
  lemma PlusAssembled(s0: seq<NfaState>, s1: seq<NfaState>, s2: seq<NfaState>, s3: seq<NfaState>, sub: Hir, greedy: bool, utf8: Utf8Splitter, ctr: Trace, u: nat)
    requires Built(s0, sub, utf8, ctr, None) && ctr.hi == |s0| && u == |s0| && s1 == s0 + [Union([], !greedy)]
    requires s2 == s1[ctr.end := Patched(s1[ctr.end], u)] && s3 == s2[u := Patched(s2[u], ctr.start)]
    ensures PlusBuilt(s3, sub, greedy, utf8, Trace(ctr.start, u, ctr.lo, |s3|, [ctr]), None)
  {
    BuiltPlaced(s0, sub, utf8, ctr, None);
    PlusLayout(s0, s1, s2, s3, greedy, ctr, u);
    BuiltFrame(s0, s3, sub, utf8, ctr, None, Some(u));
  }

  lemma PlusLayout(s0: seq<NfaState>, s1: seq<NfaState>, s2: seq<NfaState>, s3: seq<NfaState>, greedy: bool, ctr: Trace, u: nat)
    requires Placed(s0, ctr) && ctr.hi == |s0| && u == |s0| && s1 == s0 + [Union([], !greedy)]
    requires s2 == s1[ctr.end := Patched(s1[ctr.end], u)] && s3 == s2[u := Patched(s2[u], ctr.start)]
    ensures |s3| == u + 1 && s3[u] == RepetitionUnion(ctr.start, greedy, None) && Tiled([ctr], ctr.lo, u)
    ensures Reframed(s0, s3, ctr, None, Some(u))
  {
  }

  /** `sub{n,}` for `n >= 2` as the compiler lays it out, once `AtLeastManyLayout` has placed its states. */
  lemma AtLeastManyAssembled(s0: seq<NfaState>, s1: seq<NfaState>, s5: seq<NfaState>,
                             sub: Hir, greedy: bool, n: nat, utf8: Utf8Splitter, ptr: Trace, ltr: Trace, u: nat)
    requires n >= 2 && Chain(s0, Repeat(Expr(sub), n - 1), utf8, ptr, None, Size(sub) + 1)
    requires Built(s1, sub, utf8, ltr, None)
    requires |s5| == u + 1 && s5[u] == RepetitionUnion(ltr.start, greedy, None) && Tiled([ptr, ltr], ptr.lo, u)
    requires Reframed(s0, s5, ptr, None, Some(ltr.start)) && Reframed(s1, s5, ltr, None, Some(u))
    ensures AtLeastManyBuilt(s5, sub, greedy, n, utf8, Trace(ptr.start, u, ptr.lo, |s5|, [ptr, ltr]), None)
  {
    ChainPlaced(s0, Repeat(Expr(sub), n - 1), utf8, ptr, None, Size(sub) + 1);
    BuiltPlaced(s1, sub, utf8, ltr, None);
    ChainFrame(s0, s5, Repeat(Expr(sub), n - 1), utf8, ptr, None, Some(ltr.start), Size(sub) + 1);
    BuiltFrame(s1, s5, sub, utf8, ltr, None, Some(u));
    AtLeastManyIntro(s5, sub, greedy, n, utf8, Trace(ptr.start, u, ptr.lo, |s5|, [ptr, ltr]), None);
  }

  lemma AtLeastManyIntro(s: seq<NfaState>, sub: Hir, greedy: bool, n: nat, utf8: Utf8Splitter, tr: Trace, exit: Option<nat>)
    requires n >= 2 && Placed(s, tr) && |tr.parts| == 2 && tr.start == tr.parts[0].start && tr.end == tr.hi - 1
    requires Tiled(tr.parts, tr.lo, tr.hi - 1) && s[tr.end] == RepetitionUnion(tr.parts[1].start, greedy, exit)
    requires Chain(s, Repeat(Expr(sub), n - 1), utf8, tr.parts[0], Some(tr.parts[1].start), Size(sub) + 1)
    requires Built(s, sub, utf8, tr.parts[1], Some(tr.end))
    ensures AtLeastManyBuilt(s, sub, greedy, n, utf8, tr, exit)
  {
  }

  lemma AtLeastManyLayout(s0: seq<NfaState>, s1: seq<NfaState>, s2: seq<NfaState>, s3: seq<NfaState>, s4: seq<NfaState>, s5: seq<NfaState>,
                          greedy: bool, ptr: Trace, ltr: Trace, u: nat)
    requires Placed(s0, ptr) && ptr.hi == |s0| && Extends(s0, s1) && Placed(s1, ltr) && ltr.lo == |s0| && ltr.hi == |s1|
    requires u == |s1| && s2 == s1 + [Union([], !greedy)]
    requires s3 == s2[ptr.end := Patched(s2[ptr.end], ltr.start)]
    requires s4 == s3[ltr.end := Patched(s3[ltr.end], u)] && s5 == s4[u := Patched(s4[u], ltr.start)]
    ensures |s5| == u + 1 && s5[u] == RepetitionUnion(ltr.start, greedy, None) && Tiled([ptr, ltr], ptr.lo, u)
    ensures Reframed(s0, s5, ptr, None, Some(ltr.start)) && Reframed(s1, s5, ltr, None, Some(u))
    ensures Extends(s0[..ptr.lo], s5)
  {
  }

  /** `sub?` as the compiler lays it out: the union, the copy, the `Empty`, the three patches. */
  lemma OptionalAssembled(s1: seq<NfaState>, s2: seq<NfaState>, s3: seq<NfaState>, s4: seq<NfaState>, s5: seq<NfaState>,
                          sub: Hir, greedy: bool, utf8: Utf8Splitter, ctr: Trace, u: nat, m: nat)
    requires Built(s1, sub, utf8, ctr, None) && ctr.lo == u + 1 && ctr.hi == |s1| && s1[u] == Union([], !greedy)
    requires m == |s1| && s2 == s1 + [Empty(0)]
    requires s3 == s2[u := Patched(s2[u], ctr.start)] && s4 == s3[u := Patched(s3[u], m)]
    requires s5 == s4[ctr.end := Patched(s4[ctr.end], m)]
    ensures OptionalBuilt(s5, sub, greedy, utf8, Trace(u, m, u, |s5|, [ctr]), None)
  {
    BuiltPlaced(s1, sub, utf8, ctr, None);
    OptionalLayout(s1, s2, s3, s4, s5, greedy, ctr, u, m);
    BuiltFrame(s1, s5, sub, utf8, ctr, None, Some(m));
  }

  lemma OptionalLayout(s1: seq<NfaState>, s2: seq<NfaState>, s3: seq<NfaState>, s4: seq<NfaState>, s5: seq<NfaState>,
                       greedy: bool, ctr: Trace, u: nat, m: nat)
    requires Placed(s1, ctr) && ctr.lo == u + 1 && ctr.hi == |s1| && s1[u] == Union([], !greedy)
    requires m == |s1| && s2 == s1 + [Empty(0)]
    requires s3 == s2[u := Patched(s2[u], ctr.start)] && s4 == s3[u := Patched(s3[u], m)]
    requires s5 == s4[ctr.end := Patched(s4[ctr.end], m)]
    ensures |s5| == m + 1 && s5[u] == RepetitionUnion(ctr.start, greedy, Some(m)) && s5[m] == Empty(0)
    ensures Tiled([ctr], u + 1, m) && Reframed(s1, s5, ctr, None, Some(m))
  {
  }

  /** `sub{min,max}` with `min != max`: the copies, the optional copies, the patch between them. */
  lemma BoundedAssembled(s0: seq<NfaState>, s1: seq<NfaState>, s2: seq<NfaState>, sub: Hir, greedy: bool, min: nat, max: nat, utf8: Utf8Splitter, ptr: Trace, str: Trace)
    requires min != max && Chain(s0, Repeat(Expr(sub), min), utf8, ptr, None, Size(sub) + 1) && ptr.hi == |s0|
    requires Extends(s0, s1) && str.lo == |s0| && str.hi == |s1|
    requires Chain(s1, Repeat(Optional(sub, greedy), if max > min then max - min else 0), utf8, str, None, Size(sub) + 1)
    requires s2 == s1[ptr.end := Patched(s1[ptr.end], str.start)]
    ensures BoundedBuilt(s2, sub, greedy, min, max, utf8, Trace(ptr.start, str.end, ptr.lo, |s2|, [ptr, str]), None)
    ensures Extends(s0[..ptr.lo], s2)
  {
    var count := if max > min then max - min else 0;
    ChainPlaced(s0, Repeat(Expr(sub), min), utf8, ptr, None, Size(sub) + 1);
    ChainPlaced(s1, Repeat(Optional(sub, greedy), count), utf8, str, None, Size(sub) + 1);
    BoundedLayout(s0, s1, s2, ptr, str);
    ChainFrame(s0, s2, Repeat(Expr(sub), min), utf8, ptr, None, Some(str.start), Size(sub) + 1);
    ChainFrame(s1, s2, Repeat(Optional(sub, greedy), count), utf8, str, None, None, Size(sub) + 1);
  }

  lemma BoundedLayout(s0: seq<NfaState>, s1: seq<NfaState>, s2: seq<NfaState>, ptr: Trace, str: Trace)
    requires Placed(s0, ptr) && ptr.hi == |s0| && Extends(s0, s1) && Placed(s1, str) && str.lo == |s0| && str.hi == |s1|
    requires s2 == s1[ptr.end := Patched(s1[ptr.end], str.start)]
    ensures |s2| == |s1| && Tiled([ptr, str], ptr.lo, |s2|)
    ensures Reframed(s0, s2, ptr, None, Some(str.start)) && Reframed(s1, s2, str, None, None)
    ensures Extends(s0[..ptr.lo], s2)
  {
  }

  lemma ExtendsTrans(a: seq<NfaState>, b: seq<NfaState>, c: seq<NfaState>, n: nat)
    requires n == |a| && Extends(a, b) && Extends(b[..n], c)
    ensures Extends(a, c)
  {
  }

  lemma PiecePlaced(s: seq<NfaState>, p: Piece, utf8: Utf8Splitter, tr: Trace, exit: Option<nat>)
    requires PieceBuilt(s, p, utf8, tr, exit)
    ensures Placed(s, tr)
  {
  }

  lemma ChainPlaced(s: seq<NfaState>, ps: seq<Piece>, utf8: Utf8Splitter, tr: Trace, exit: Option<nat>, bound: nat)
    requires Chain(s, ps, utf8, tr, exit, bound)
    ensures Placed(s, tr)
  {
  }

  /** The whole NFA: the leading `Empty`, the expression, the `Match`, the two patches. */
  lemma WholeAssembled(s0: seq<NfaState>, s1: seq<NfaState>, s2: seq<NfaState>, s3: seq<NfaState>, s4: seq<NfaState>, e: Hir, utf8: Utf8Splitter, ctr: Trace)
    requires s0 == [Empty(0)] && Extends(s0, s1) && Built(s1, e, utf8, ctr, None) && ctr.lo == 1 && ctr.hi == |s1|
    requires s2 == s1 + [Match] && s3 == s2[0 := Patched(s2[0], ctr.start)]
    requires s4 == s3[ctr.end := Patched(s3[ctr.end], |s1|)]
    ensures |s4| == |s1| + 1 >= 3 && s4[0] == Empty(ctr.start) && s4[|s1|] == Match
    ensures Built(s4, e, utf8, ctr, Some(|s1|))
  {
    BuiltPlaced(s1, e, utf8, ctr, None);
    WholeFrame(s1, s2, s3, s4, ctr);
    BuiltFrame(s1, s4, e, utf8, ctr, None, Some(|s1|));
  }

  lemma WholeFrame(s1: seq<NfaState>, s2: seq<NfaState>, s3: seq<NfaState>, s4: seq<NfaState>, ctr: Trace)
    requires |s1| >= 1 && s1[0] == Empty(0) && Placed(s1, ctr) && ctr.lo == 1 && ctr.hi == |s1|
    requires s2 == s1 + [Match] && s3 == s2[0 := Patched(s2[0], ctr.start)]
    requires s4 == s3[ctr.end := Patched(s3[ctr.end], |s1|)]
    ensures |s4| == |s1| + 1 >= 3 && s4[0] == Empty(ctr.start) && s4[|s1|] == Match
    ensures Reframed(s1, s4, ctr, None, Some(|s1|))
  {
  }

  lemma BuiltPlaced(s: seq<NfaState>, e: Hir, utf8: Utf8Splitter, tr: Trace, exit: Option<nat>)
    requires Built(s, e, utf8, tr, exit)
    ensures Placed(s, tr)
  {
  }

  /**
   * The NFA of `e`: state 0 is an `Empty` leading into the compiled
   * expression, which fills the states in between and exits to the final
   * `Match` state.
   */
  method FromHir(e: Hir, utf8: Utf8Splitter) returns (r: Result<Nfa>, ghost tr: Trace)
    ensures r.Err? <==> Failure(e, utf8).Some?
    ensures r.Err? ==> r.error == Failure(e, utf8).value
    ensures r.Ok? ==> fresh(r.value) && r.value.Valid()
    ensures r.Ok? ==> var s := r.value.states;
      |s| == tr.hi + 1 >= 3 && tr.lo == 1 && s[0] == Empty(tr.start) && s[tr.hi] == Match &&
      Built(s, e, utf8, tr, Some(tr.hi))
  {
    var nfa := new Nfa.Init();
    var start := nfa.AddEmpty();
    ghost var s0 := nfa.states;
    var compiled, ctr := nfa.Compile(e, utf8);
    if compiled.Err? {
      return Err(compiled.error), ctr;
    }
    ghost var s1 := nfa.states;
    var matchId := nfa.AddMatch();
    ghost var s2 := nfa.states;
    nfa.Patch(start, compiled.value.start);
    ghost var s3 := nfa.states;
    nfa.Patch(compiled.value.end, matchId);
    WholeAssembled(s0, s1, s2, s3, nfa.states, e, utf8, ctr);
    return Ok(nfa), ctr;
  }
}
