# ucd-generate core, modelled in Dafny

`ucd-generate` turns the Unicode Character Database into Rust (and C) source
tables. This project models four parts of it and proves properties of them:

- **The regex compiler of `src/dfa.rs`.** It covers four stages:
  - Thompson construction of an NFA from a regex syntax tree (`Hir`).
  - Subset construction of a byte DFA. This uses an epsilon closure over a sparse set and a cache from builder states to DFA ids, where id 0 is the dead state.
  - Hopcroft-style minimization. Blocks are refined against incoming-transition sets, then the states are renumbered, swapped and truncated in place.
  - The leftmost-longest matcher `find`, plus the range compression of a state's 256 transitions.
- **Hangul syllables (`ucd-util/src/hangul.rs`).** This is the arithmetic decomposition of section 3.12 of The Unicode Standard (Conjoining Jamo Behavior), and the syllable-name rule of section 4.8 (Table 4-13).
- **The small encoders of `src/writer.rs`.** These are packing a short byte string into a `u64`, the big-endian FST key, the smallest unsigned type, name mangling and codepoint literals. It also has the column-wrapping `LineWriter`.
- **Default Bidi_Class assignment (`src/bidi_class.rs`).** Codepoints listed in UnicodeData.txt keep their class. Every other codepoint gets the class of the first default range holding it, else BN for default-ignorable and noncharacter codepoints, else L. This follows the notes of DerivedBidiClass.txt (UAX #44).

How the code is laid out:
- Imperative code stays imperative. The NFA, the DFA builder, the DFA, the sparse set, the minimizer and the line writer are classes whose methods update their fields. Each method is proved against specification functions and predicates.
- Pure code (Hangul, the encoders, the range lookup) is functions and lemmas.
- Files: `wrappers.dfy` (Option and Result), `nfa.dfy`, `sparse_set.dfy`, `dfa.dfy`, `dfa_builder.dfy`, `state_set.dfy`, `partitions.dfy`, `renumber.dfy` and `minimizer.dfy` for `src/dfa.rs`; then `hangul.dfy`, `writer.dfy` and `bidi_class.dfy`.

Where the model follows the code rather than the general description of the system:
- A DFA state's NFA ids are kept in sparse-set insertion order and not sorted.
- Collecting a builder state stops at the first `Match` (`new_state`).
- `epsilon_closure` inserts a non-epsilon start without checking whether it is present. The sparse set can therefore hold an id twice, and `insert`'s capacity assertion can fire once a successor's set outgrows the number of NFA states. The model carries that panic as a failure flag up to `FromNfa`, which then returns `None`. It proves that this happens exactly when some builder state has a successor whose set does not fit. The closure of the start state repeats no id, so it always fits.
- The closure is modelled in the source's own insertion order (`Closure`, a depth-first search), because the builder state cuts it at the first `Match`.
- An empty alternation or an empty class stops the source on an assertion. The model reports it as an error that carries the assertion's message.

## Model

| member | source | states |
|---|---|---|
| Nfas.FromHir | src/dfa.rs:575-583 | the result is an error exactly when compiling meets an anchor, a word boundary, or an empty class or alternation, and the error is the first one met. Otherwise it is a well-formed NFA: state 0 is an `Empty` pointing at the compiled fragment's entry, the states after it are Thompson's fragment for the expression with its exit patched to the last state, and the last state is `Match` |
| Nfas.Nfa.Compile | src/dfa.rs:585-631 | compiling only appends states and fails exactly with the first error met. On success the new states are Thompson's fragment for the expression (`Built`): an `Empty` for the empty string, the chained `Range` states of a literal's UTF-8 bytes, one `Range` for a byte, an alternation of `Range` states for a byte class, a group's own fragment, a chain for a concatenation and an alternation for an alternation |
| Nfas.UnsupportedFails | src/dfa.rs:624-629 | a tree containing an `Anchor` or `WordBoundary` always fails to compile |
| Nfas.RepetitionFailure | src/dfa.rs:674-702 | a repetition fails exactly as its sub-expression does when its kind compiles a copy, and never otherwise |
| Nfas.Nfa.CompileConcat | src/dfa.rs:633-649 | fails exactly when a piece fails, with the first failure. Otherwise the pieces' fragments lie one after another, each exit patched to the next piece's entry, with the first entry and the last exit as the chain's own; no pieces give one `Empty` |
| Nfas.Nfa.CompileLink | src/dfa.rs:643-647 | one turn of the loop: compiles the next piece and patches the chain's exit to its entry, which gives the chain of one more piece |
| Nfas.Nfa.CompileAlternation | src/dfa.rs:651-672 | fails when there are no alternates or one of them fails, with the error of the first failure. Otherwise a forward `Union` comes first, whose alternates are the alternates' entries in order; then the alternates' fragments; then one `Empty` that every alternate exits to |
| Nfas.Nfa.CompileAlternate | src/dfa.rs:660-664 | one turn of the first loop: compiles an alternate and appends its entry to the union's alternates |
| Nfas.Nfa.CloseAlternation | src/dfa.rs:667-671 | appends one `Empty` and patches every alternate's exit to it, closing the alternation |
| Nfas.Nfa.CompileRepetition | src/dfa.rs:674-702 | each kind builds its own form: `?` the optional form, `*`, `+` and `{n,}` the loop forms, `{n}` a chain of copies, `{min,max}` the bounded form. It fails exactly when a copy is compiled and it fails |
| Nfas.Nfa.CompileBounded | src/dfa.rs:704-724 | `min` chained copies, then, when `min != max`, `max - min` chained optional copies entered from the prefix's exit. Fails exactly when at least one copy is compiled and the sub-expression fails |
| Nfas.Nfa.CompileOptionalCopies | src/dfa.rs:716-723 | the optional copies of `{min,max}` chained after the prefix, whose exit is patched to their entry |
| Nfas.Nfa.AddRepetitionUnion | src/dfa.rs:733-738 | appends a forward union when greedy and a reverse one when lazy |
| Nfas.Nfa.CompileAtLeast | src/dfa.rs:726-768 | `{n,}` fails exactly when the sub-expression fails, and builds the form for `n` = 0, 1 or larger |
| Nfas.Nfa.CompileZeroOrMore | src/dfa.rs:732-742 | `*`: the union is entry and exit, offers the copy and, once patched, the way out (the copy first exactly when greedy), and the copy loops back to it |
| Nfas.Nfa.LoopStar | src/dfa.rs:740-742 | the union's first alternate is the copy's entry and the copy's exit goes back to the union |
| Nfas.Nfa.CompileOneOrMore | src/dfa.rs:743-753 | `+`: the copy is the entry; its exit goes to a union that is the fragment's exit and loops back to the copy, the copy first exactly when greedy |
| Nfas.Nfa.CompileAtLeastMany | src/dfa.rs:754-767 | `{n,}` for `n >= 2`: `n - 1` chained copies, then a last copy whose exit goes to a union that loops back to the last copy |
| Nfas.Nfa.LoopLast | src/dfa.rs:763-766 | the prefix exits to the last copy, the last copy exits to the appended union, and the union offers the last copy |
| Nfas.Nfa.CompileZeroOrOne | src/dfa.rs:770-787 | `?`: a union comes first, offering the copy and a final `Empty` (the copy first exactly when greedy); then the copy, which exits to that `Empty`. Fails exactly when the sub-expression fails |
| Nfas.Nfa.CloseOptional | src/dfa.rs:782-786 | appends the final `Empty`, lets the union offer the copy and then the `Empty` in its own order, and patches the copy's exit to the `Empty` |
| Nfas.Nfa.CompileExactly | src/dfa.rs:789-794 | `{n}` is `n` chained copies of the sub-expression, one `Empty` for `n` = 0; it fails exactly when `n > 0` and the sub-expression fails |
| Nfas.Nfa.CompileUnicodeClass | src/dfa.rs:796-812 | fails exactly when the class has no UTF-8 byte sequences. Otherwise it is the alternation of the chains of `Range` states of every byte-range sequence of every class range, in order |
| Nfas.Nfa.CompileRange | src/dfa.rs:814-817 | appends exactly one `Range` state and returns it as both ends |
| Nfas.Nfa.CompileEmpty | src/dfa.rs:819-822 | appends exactly one `Empty` state and returns it as both ends |
| Nfas.Nfa.Patch | src/dfa.rs:824-840 | `Empty` and `Range` get the new successor; a forward `Union` appends it and a reverse `Union` prepends it; `Match` is unchanged; no other state changes |
| Nfas.Nfa.AddEmpty | src/dfa.rs:842-846 | appends an `Empty` state and returns the previous length |
| Nfas.Nfa.AddRange | src/dfa.rs:848-853 | appends a `Range` state and returns the previous length |
| Nfas.Nfa.AddUnion | src/dfa.rs:855-860 | appends a forward `Union` with no alternates and returns the previous length |
| Nfas.Nfa.AddReverseUnion | src/dfa.rs:862-867 | appends a reverse `Union` with no alternates and returns the previous length |
| Nfas.Nfa.AddMatch | src/dfa.rs:869-873 | appends `Match` and returns the previous length |
| Nfas.EncodeUtf8 | src/dfa.rs:591-598 | a character's UTF-8 form is one to four bytes, as many as its range needs: a lead byte of the form for that count, then continuation bytes |
| Nfas.DecodeEncode | src/dfa.rs:591-598 | decoding the encoding (the lead byte's payload, then six bits per continuation byte) gives the character back |
| Nfas.EncodeUtf8Injective | src/dfa.rs:591-598 | two characters with the same encoding are the same character |
| SparseSets.SparseSet.constructor | src/dfa.rs:908-913 | a new set has the given capacity and is empty |
| SparseSets.SparseSet.Len | src/dfa.rs:915-917 | the number of elements inserted since the last clear |
| SparseSets.SparseSet.IsEmpty | src/dfa.rs:919-921 | true exactly when nothing has been inserted since the last clear |
| SparseSets.SparseSet.Capacity | src/dfa.rs:923-925 | the capacity fixed at construction |
| SparseSets.SparseSet.Insert | src/dfa.rs:927-932 | requires spare capacity; the value is appended to the contents, in insertion order |
| SparseSets.SparseSet.Contains | src/dfa.rs:934-937 | true exactly when the value is among the contents |
| SparseSets.SparseSet.Clear | src/dfa.rs:939-941 | the set becomes empty |
| Dfas.EmptyState | src/dfa.rs:70-75 | a non-matching state whose 256 transitions all go to the dead state |
| Dfas.Dfa.Empty | src/dfa.rs:36-44 | the DFA holding only the dead state, which is also its start |
| Dfas.Dfa.SetTransition | src/dfa.rs:50-52 | exactly one transition of one state changes |
| Dfas.Dfa.Find | src/dfa.rs:54-66 | returns the largest `i` with `1 <= i <= len` at which the walk from the start is in a matching state without having died; `None` when no such `i` exists |
| Dfas.SparseTransitions | src/dfa.rs:77-98 | the ranges cover 0..=255 in order, no two neighbours share a target, and expanding them gives back the 256 transitions |
| Dfas.ExpandAt | src/dfa.rs:77-98 | the expansion has 256 entries, and every byte lies in a compressed range whose target is the byte's transition |
| DfaBuilders.DfaBuilder.constructor | src/dfa.rs:129-142 | the builder starts with the dead builder state, cached under id 0, and the one-state empty DFA |
| DfaBuilders.DfaBuilder.Build | src/dfa.rs:144-163 | the builder states start with the dead state and the start state. On success the start is 1 and every DFA state's 256 transitions go to its successors. Failure happens only when some builder state's successor does not fit in the scratch set |
| DfaBuilders.DfaBuilder.Run | src/dfa.rs:148-158 | the worklist loop only appends builder states; it ends with every state compiled, or fails when a successor does not fit |
| DfaBuilders.DfaBuilder.Step | src/dfa.rs:148-158 | one pop of the worklist either queues a new id or shrinks the worklist; failure means a successor does not fit |
| DfaBuilders.DfaBuilder.CompileState | src/dfa.rs:149-157 | the transitions of the popped state on every byte go to its successors, and every target not queued before is pushed |
| DfaBuilders.DfaBuilder.CompileTransition | src/dfa.rs:150-156 | one byte: the transition goes to the successor, and the target is pushed unless queued |
| DfaBuilders.DfaBuilder.Transition | src/dfa.rs:150-151 | exactly the transition on `b` changes, to an existing or just-added state that is the successor on `b` |
| DfaBuilders.DfaBuilder.SetTransition | src/dfa.rs:50-52 | exactly one transition of one DFA state changes; the builder states and the cache stay |
| DfaBuilders.DfaBuilder.CachedState | src/dfa.rs:165-179 | not `ok` exactly when the successor's set does not fit, and then no state is added. Otherwise it returns the cached id when the collected state is known, or adds exactly one new state with the next id; either way that state is `Target`, the builder state collected from `StepClosure` |
| DfaBuilders.DfaBuilder.Next | src/dfa.rs:181-201 | the set ends as `StepClosure`: the source's closures of the `Range` targets on `b` of the state's NFA ids, taken in order. Not `ok` exactly when that does not fit, and the set is then full |
| DfaBuilders.DfaBuilder.NextStep | src/dfa.rs:186-199 | one id of the loop adds the closure of its target when it is a `Range` holding `b` |
| DfaBuilders.DfaBuilder.EpsilonClosure | src/dfa.rs:203-231 | adds exactly the ids of `Closure` in its order: a non-epsilon start with no membership test, otherwise the depth first search that skips members, follows an `Empty`'s target and a union's first alternate and stacks the others in reverse. Not `ok` exactly when that exceeds the capacity, and the set is then full |
| DfaBuilders.DfaBuilder.Drain | src/dfa.rs:211-230 | the outer loop ends with the set holding the goal, the depth-first search `Dfs` from the set and stack it started with; it fails only when that goal is longer than the capacity, with the set full |
| DfaBuilders.Dfs | src/dfa.rs:211-230 | the depth-first search only appends to the ids it starts from and stays inside the NFA |
| DfaBuilders.ClosureCloses | src/dfa.rs:203-231 | the source's closure of one more seed turns a closure of the earlier seeds into a closure of them all: closed under epsilon edges, and every new id reachable from a seed |
| DfaBuilders.DfsDistinct | src/dfa.rs:211-230 | the depth-first search never inserts an id twice |
| DfaBuilders.StartFits | src/dfa.rs:233-239 | the closure of NFA state 0 fits in the scratch set, so starting never fails |
| DfaBuilders.StartCloses | src/dfa.rs:233-239 | the start state's set is an epsilon closure of NFA state 0 |
| DfaBuilders.DfaBuilder.AddStart | src/dfa.rs:233-239 | the builder states become the dead state and the collected closure of NFA state 0, which gets DFA id 1 and becomes the start |
| DfaBuilders.DfaBuilder.StartClosure | src/dfa.rs:233-235 | collects the closure of NFA state 0 into the empty set, which always succeeds |
| DfaBuilders.DfaBuilder.AddState | src/dfa.rs:241-252 | appends an empty DFA state with the builder state's match flag, caches it and returns the previous length |
| DfaBuilders.DfaBuilder.NewState | src/dfa.rs:254-274 | the builder state collected from the closure, in insertion order and stopping at the first `Match` |
| DfaBuilders.CollectMatch | src/dfa.rs:254-274 | a collected state matches exactly when a `Match` id is in the closure |
| DfaBuilders.CollectFirstMatch | src/dfa.rs:254-274 | its NFA ids are the `Range` ids before the first `Match`, in insertion order |
| DfaBuilders.StepClosure | src/dfa.rs:181-201 | the closures collected for byte `b` stay inside the NFA |
| DfaBuilders.StepClosurePrefix | src/dfa.rs:186-199 | what the first ids of a state collect is a prefix of what all of them collect, so a set that is too full early stays too full |
| DfaBuilders.StepClosureCloses | src/dfa.rs:181-201 | what `next` collects is an epsilon closure of the `Range` targets on `b` |
| DfaBuilders.ClosureUnique | src/dfa.rs:203-231 | two closures of the same seeds hold the same ids |
| DfaBuilders.SuccessorMatch | src/dfa.rs:181-201 | a successor matches exactly when any closure of its seeds holds a `Match` |
| DfaBuilders.DfaBuilder.SizeBound | src/dfa.rs:144-163 | the number of builder states is bounded by the number of distinct builder states, so the worklist terminates |
| DfaBuilders.DfaBuilder.DeadCached | src/dfa.rs:129-142 | the dead builder state stays cached under id 0 |
| DfaBuilders.DeadCompiled | src/dfa.rs:129-142 | the dead state's transitions all lead back to the dead state |
| DfaBuilders.FromNfa | src/dfa.rs:46-48 | the builder states start with the dead state and the state of the source's closure of NFA state 0. `None` only when some builder state's successor does not fit in the scratch set. Otherwise a well-formed DFA with start 1 and dead state 0, whose states match as their builder states do and whose every transition goes to the subset construction's successor |
| StateSets.Canonicalize | src/dfa.rs:443-446 | the result is strictly sorted and has the same elements |
| StateSets.Intersection | src/dfa.rs:471-504 | on sorted inputs, the strictly sorted set intersection |
| StateSets.Subtract | src/dfa.rs:506-542 | on sorted inputs, the strictly sorted set difference |
| StateSets.FilterIff | src/dfa.rs:471-542 | keeping the members of a sorted list that are inside (or outside) another keeps it sorted and keeps exactly those members |
| StateSets.SortedUnique | src/dfa.rs:443-446 | a strictly sorted list is determined by its members |
| Minimizers.IncomingTransitions | src/dfa.rs:415-427 | `incoming[t][b]` holds `s`, in increasing order, exactly when `s` goes to `t` on `b` |
| Minimizers.IntoIff | src/dfa.rs:415-427 | the reference list of sources of `t` on `b` is sorted and holds exactly those sources |
| Minimizers.InitialPartitions | src/dfa.rs:394-413 | `None` exactly when no state matches (the source's assertion); otherwise the matching and non-matching blocks, the empty one dropped and the shorter first, forming a partition that respects matching |
| Minimizers.MatchingIff | src/dfa.rs:394-413 | the block of matching (or non-matching) states holds exactly those states, in increasing order |
| Minimizers.Position | src/dfa.rs:334 | the index of the first occurrence of a block in the waiting list, or `None` when it is absent |
| Minimizers.Minimizer.constructor | src/dfa.rs:300-309 | the waiting list starts with the first initial block |
| Minimizers.Minimizer.FindIncomingTo | src/dfa.rs:379-392 | the sorted set of states that go into the target block on `b` |
| Minimizers.PiecesIff | src/dfa.rs:320-333 | a sorted block stays whole exactly when it lies inside or outside the incoming set; otherwise its halves split it |
| Minimizers.Minimizer.Halves | src/dfa.rs:320-330 | `x` is the sorted part of the block inside the incoming set; `y` is the sorted part outside it, computed only when `x` is not empty; when both are non-empty they split the block |
| Minimizers.Minimizer.Queue | src/dfa.rs:334-346 | the new waiting list is `Queued`: a waiting copy of the block (the first one) is replaced by one half and the other half is appended; otherwise the smaller half is appended, the first on a tie |
| Minimizers.Minimizer.Split | src/dfa.rs:318-348 | the new blocks are `Refined`: each old block in order, replaced by its two halves when both are non-empty. The waiting list is `SplitWaiting`: `Queued` applied at each split. The blocks still refine the old ones and form a partition that respects matching |
| Minimizers.Minimizer.SplitAll | src/dfa.rs:318-346 | the loop over the blocks builds `Refined` and updates the waiting list to `SplitWaiting`, one waiting set per split |
| Minimizers.Minimizer.SplitAt | src/dfa.rs:319-346 | one block of the loop keeps the invariant: the blocks made and the waiting list are those of splitting one more block |
| Minimizers.Minimizer.Refine | src/dfa.rs:314-351 | the loop ends with an empty waiting list and a partition that refines the initial one and respects matching |
| Minimizers.Minimizer.Pop | src/dfa.rs:314 | removes and returns the last waiting block |
| Minimizers.Minimizer.RenameTransitions | src/dfa.rs:371-373 | each transition of the state is replaced by the new id of its target's class; no other state changes |
| Minimizers.Minimizer.Renumber | src/dfa.rs:367-376 | after the swaps and the truncation, each class's new id holds its representative with renamed transitions |
| Minimizers.Minimizer.Run | src/dfa.rs:311-377 | the new table is the quotient of the old one by the final blocks |
| Minimizers.Minimize | src/dfa.rs:1024 | fails exactly when no state matches and then changes nothing. Otherwise the table becomes its quotient: well formed, no longer, matching preserved, states merged exactly when they share a block, every new state a renamed old one, dead state 0 kept. When the start is 1 and state 0 does not match, the DFA stays valid |
| Partitions.SplitStep | src/dfa.rs:332-333 | replacing a block by two halves that split it keeps a partition that respects matching and refines the coarse one |
| Partitions.SplitRefines | src/dfa.rs:332-333 | the blocks after a split refine those before it |
| Partitions.SplitPartition | src/dfa.rs:332-333 | after a split the blocks are still sorted, disjoint and cover every state |
| Partitions.RefinesTrans | src/dfa.rs:348 | refinement is transitive, so blocks are only ever split over the whole loop |
| Partitions.TotalBound | src/dfa.rs:314-351 | there are never more blocks than states, which bounds the number of splits |
| Renumberings.StateToPart | src/dfa.rs:352-355 | every state maps to the first member of its block |
| Renumberings.FirstOfCanonical | src/dfa.rs:352-355 | that first member is the block's least member, and a representative maps to itself |
| Renumberings.FirstOfSame | src/dfa.rs:352-355 | two states share a representative exactly when they share a block |
| Renumberings.MinimalIds | src/dfa.rs:357-365 | each representative gets the number of representatives before it as its new id, and the count is the number of representatives |
| Renumberings.RepCountStrict | src/dfa.rs:357-365 | new ids are increasing among representatives and never exceed the old id, so every swap moves a state left |
| Renumberings.RepCountOnto | src/dfa.rs:357-365 | every new id below the count belongs to some representative |
| Renumberings.NumberingSame | src/dfa.rs:367-376 | two states get the same new id exactly when they share a representative |
| Renumberings.FirstOfMatch | src/dfa.rs:352-355 | a representative matches exactly when the states of its block do |
| Renumberings.PlacedQuotient | src/dfa.rs:367-376 | the renumbered table is the quotient of the old one by the blocks, with state 0 kept dead and at least two states when state 0 does not match and some state does |
| Hangul.FullCanonicalDecomposition | ucd-util/src/hangul.rs:53-69 | `None` exactly outside U+AC00..U+D7A3; otherwise parts within the leading, vowel and trailing jamo ranges that recompose to the codepoint |
| Hangul.DecomposeCompose | ucd-util/src/hangul.rs:53-69 | valid parts compose to a syllable that decomposes back to them |
| Hangul.DecomposeD4DB | ucd-util/src/hangul.rs:85-90 | U+D4DB decomposes to U+1111, U+1171 and U+11B6 |
| Hangul.JamoShortName | ucd-util/src/hangul.rs:73-76 | on a sorted table that holds the codepoint, the binary search returns that codepoint's entry |
| Hangul.JamoShortNameIsEntry | ucd-util/src/hangul.rs:73-76 | each entry of a sorted table is found under its own codepoint |
| Hangul.HangulName | ucd-util/src/hangul.rs:27-41 | `None` exactly for non-syllables; otherwise "HANGUL SYLLABLE " followed by the short names of the parts |
| Hangul.SyllableNameUnique | ucd-util/src/hangul.rs:27-41 | a syllable has at most one such name |
| Hangul.JamoTableCoversSyllables | ucd-util/src/hangul.rs:27-41 | the jamo table is sorted and names every part a syllable can decompose into, so the lookups never panic |
| Hangul.HangulNameExamples | ucd-util/src/hangul.rs:93-110 | U+D4DB is named HANGUL SYLLABLE PWILH, and codepoint 0 has no name |
| Writer.RustConstName | src/writer.rs:1232-1241 | every `.` becomes `_` and ASCII letters are upper-cased, character by character |
| Writer.RustModuleName | src/writer.rs:1244-1251 | ASCII letters are lower-cased, character by character |
| Writer.RustConstNameIdempotent | src/writer.rs:1232-1241 | mangling a constant name again changes nothing |
| Writer.RustModuleNameIdempotent | src/writer.rs:1244-1251 | mangling a module name again changes nothing |
| Writer.RustConstNameAppend | src/writer.rs:1232-1241 | the mangling works character by character, so it distributes over concatenation |
| Writer.CConstName | src/writer.rs:185-199 | the C identifier is the table name, `_` and the mangled name exactly when the table name is non-empty and does not start with the mangled name; otherwise (empty table name, or one starting with the mangled name) it is the mangled name alone |
| Writer.CConstNameEndsWithName | src/writer.rs:185-199 | the C identifier always ends with the mangled name |
| Writer.CConstNamePrefixesTwice | src/writer.rs:185-199 | as written, mangling "cr" for table "GC" gives "GC_CR", and mangling that again gives "GC_GC_CR" |
| Writer.CConstNameGuardedIdempotent | src/writer.rs:185-199 | with the guard reversed, mangling twice equals mangling once, and the main table's own name is left alone |
| Writer.SmallestUnsignedType | src/writer.rs:1294-1304 | the chosen type holds `n`, and every narrower type does not |
| Writer.RustUintType | src/writer.rs:1255-1263 | for sizes of 1, 2, 4 and 8 bytes, the unsigned type of that size |
| Writer.RustCodepoint | src/writer.rs:1156-1162 | `None` exactly when char literals are asked for and the codepoint is a surrogate or above U+10FFFF; otherwise that char, or decimal digits that read back as the codepoint |
| Writer.ParseDecimalOfDecimal | src/writer.rs:1156-1162 | the decimal text of a number reads back as that number |
| Writer.U32Key | src/writer.rs:1266-1270 | four bytes whose big-endian value is the codepoint |
| Writer.U32KeyOrder | src/writer.rs:1266-1270 | keys compare lexicographically exactly as the codepoints compare numerically, as an FST needs |
| Writer.PackStr | src/writer.rs:1277-1290 | an error exactly when the string is longer than 8 bytes or holds a NUL; otherwise byte `i` at bits `8i..8i+7`, and unpacking gives the string back |
| Writer.UnpackPacked | src/writer.rs:1310-1317 | unpacking the packed value of a NUL-free string gives the string back |
| Writer.PackStrExamples | src/writer.rs:1319-1328 | the packed values of the source's test strings, and the round trip of the empty string |
| Writer.TrimEnd | src/writer.rs:1208-1216 | the longest prefix not ending in White_Space, everything cut off being White_Space |
| Writer.TrimEndIdempotent | src/writer.rs:1208-1216 | trimming twice is trimming once |
| Writer.LineWriter.constructor | src/writer.rs:1184-1191 | an empty line, 79 columns and a two-space indent |
| Writer.LineWriter.WriteStr | src/writer.rs:1193-1202 | the line is flushed first when its byte length plus that of `s` exceeds the columns; an empty line starts with the indent; `s` is appended; a line that fits stays within the columns |
| Writer.LineWriter.Indent | src/writer.rs:1204-1206 | only the indent changes |
| Writer.LineWriter.FlushLine | src/writer.rs:1208-1216 | an empty line writes nothing; otherwise the line without trailing whitespace and a newline is written, and the line is cleared |
| Writer.LineWriter.Write | src/writer.rs:1220-1223 | the pending line is flushed, then the bytes pass straight through to the sink |
| BidiClass.LookupUnassigned | src/bidi_class.rs:154-162 | `None` exactly when no range holds the codepoint; otherwise the class of the first range that holds it |
| BidiClass.DefaultClassAssignmentsDisjoint | src/bidi_class.rs:45-69 | the default ranges do not overlap, so first and only match agree |
| BidiClass.LookupDisjoint | src/bidi_class.rs:154-162 | in a table of disjoint ranges, the lookup returns the class of the one range holding the codepoint |
| BidiClass.CurrencySymbolsDefaultToET | src/bidi_class.rs:68 | unlisted codepoints in U+20A0..U+20CF default to ET |
| BidiClass.DefaultRangeBeforeBoundaryNeutral | src/bidi_class.rs:126-130 | a default range's class wins over BN |
| BidiClass.OutsideDefaultRanges | src/bidi_class.rs:129-134 | outside the default ranges, BN candidates get BN and everything else gets L |
| BidiClass.Naming.Name | src/bidi_class.rs:77-83 | with short names the name itself; otherwise the canonical name, an error when there is none |
| BidiClass.CollectRows | src/bidi_class.rs:94-101 | fails exactly when some row's class has no name; otherwise each bucket holds exactly the rows of its class, and the listed set is the rows' codepoints |
| BidiClass.CollectBoundaryNeutral | src/bidi_class.rs:108-116 | exactly the codepoints of the Default_Ignorable_Code_Point and Noncharacter_Code_Point records |
| BidiClass.DefaultName | src/bidi_class.rs:125-134 | the written name of an unlisted codepoint's default class |
| BidiClass.ClassifyUnassigned | src/bidi_class.rs:118-135 | succeeds exactly when L and BN have names and every unlisted codepoint's class has a bucket; then each unlisted codepoint is added to the bucket of its default class and listed ones are untouched; a `Failed` outcome means that L or BN has no name, or that some unlisted codepoint's class has no name while every earlier one resolves; a `Panicked` outcome names the first unlisted codepoint whose class has a name but no bucket |
| BidiClass.Classify | src/bidi_class.rs:71-135 | on success every listed codepoint is in exactly the buckets of its rows' classes, and every unlisted codepoint in `0..=0x10FFFF` is in exactly one bucket, that of its default class |

## Left out

- Regex parsing and the UTF-8 range splitter are foreign crates. The syntax tree is a datatype, and the splitting of a character class into UTF-8 byte sequences is a function parameter (`Utf8Splitter`).
- `Rc`/`RefCell` sharing of NFA and state-set values is modelled as plain values held in sequences. Aliasing is not modelled.
- `is_epsilon` is a predicate used inside the closure proofs; it has no row of its own.
- Nfas.FromHir: an empty alternation or an empty class stops the source on the assertion "alternations must be non-empty". The model returns an error carrying that message instead of modelling the panic.
- Nfas.Nfa.Compile: the empty-alternation assertion of a byte class, a Unicode class or an alternation is returned as an error, as for `FromHir`.
- Nfas.Nfa.CompileAlternation: the assertion that it has alternates is returned as an error carrying its message.
- Nfas.Nfa.CompileUnicodeClass: a class without UTF-8 byte sequences reaches the same assertion, returned as the same error.
- The `fmt::Debug` impls, `escape`, and the tests that need data files or timing.
- Minimizers.Minimizer.Refine: it proves that the result is a partition that refines the initial one and whose blocks agree on matching. It does not prove that the final partition is stable (that every block has all its states' transitions on each byte in one block), nor that the minimized DFA accepts the same language.
- Minimizers.Minimizer.Run: it states the renumbered transitions only for the representative each new state came from. That they agree for every member of a class would follow from stability, which is not proved.
- Minimizers.Minimize: its ghost `blocks` are shown only to be a partition that respects matching, and the new table their quotient. That they are the coarsest such partition, so that the DFA is minimal, and that the new table accepts the same language are not proved.
- Minimizers.Minimize: the source never remaps `dfa.start`. The model keeps it unchanged, and proves it still names a state only when it is 1 (as `FromNfa` leaves it) and state 0 does not match.
- Widths: the model uses unbounded naturals for `u32` DFA and NFA ids and for `usize` indices. The casts `i as DFAStateID` are not modelled as wrapping, because tables of 2^32 states cannot arise.
- `LineWriter::flush` is `flush_line` followed by flushing the sink. The sink is the text written to it so far, so flushing the sink changes nothing in the model. Write errors of the sink are not modelled.
- Writer.LineWriter.WriteStr: it measures `line.len()` and `s.len()` as UTF-8 byte lengths, as the source does. The trimming of a flushed line uses the 25 White_Space codepoints, as `str::trim_end` does.
- Writer.LineWriter.Write: the sink takes every byte, so the count returned is the whole buffer's length. A short write of the underlying writer is not modelled.
- Writer.RustCodepoint: the Debug rendering of a char literal (`format!("{:?}", c)`, with its quotes and escapes such as `'\u{301}'`) is abstracted; the model returns the char itself.
- Writer.RustUintType: the source panics on any other size; the model requires one of the four sizes instead of modelling the panic.
- Writer.PackStr: it combines the byte lanes with OR, which the model writes as addition over disjoint lanes. The source's test unpacks into `char`s, so its round trip holds as strings only for ASCII. The model states the round trip on bytes.
- The Jamo short-name table in `ucd-util/src/unicode_tables/jamo_short_name.rs` is not part of this model. It is reconstructed from Jamo.txt of the Unicode Character Database as the three jamo blocks that syllables use.
- The `Writer` table-emitting methods (`ranges`, `fst`, `trie_set`, `header` and the rest), file and stdout I/O, command-line handling, and the UCD file parsers. In `bidi_class.rs` the parsed UnicodeData rows, the core-property records and the property-value aliases are inputs, and the emitted table is the bucket map.
- The other `command` functions that give unlisted codepoints a default value; `bidi_class.rs` stands for that pattern.

## Findings

| source | as written | input that shows it | evidently intended | confidence | as-written member | corrected member |
|---|---|---|---|---|---|---|
| src/writer.rs:195 | the guard tests `table_name.starts_with(&name)`, so a name that already carries the table prefix is prefixed again, although the comment says repeated calls are protected against | table name "GC", name "cr": the first call gives "GC_CR", and a second call on that gives "GC_GC_CR" | test `name.starts_with(table_name)`, so that a second call changes nothing and the main table keeps its own name | medium, not executed | Writer.CConstNamePrefixesTwice | Writer.CConstNameGuardedIdempotent |
