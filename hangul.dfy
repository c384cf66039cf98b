/**
 * Hangul syllable decomposition and naming, after section 3.12 (Conjoining
 * Jamo Behavior) and section 4.8 (Table 4-13) of The Unicode Standard.
 *
 * A precomposed syllable `cp` in AC00..D7A3 is a leading consonant L, a vowel
 * V and an optional trailing consonant T, packed as
 *   cp = 0xAC00 + (L - 0x1100) * 588 + (V - 0x1161) * 28 + (T - 0x11A7 or 0).
 */
module Hangul {
  import opened Wrappers

  type u32 = x: int | 0 <= x < 0x1_0000_0000

  const S_BASE: u32 := 0xAC00
  const L_BASE: u32 := 0x1100
  const V_BASE: u32 := 0x1161
  const T_BASE: u32 := 0x11A7
  const T_COUNT: u32 := 28
  const N_COUNT: u32 := 588

  /** The prefix of every algorithmically derived syllable name. */
  const NAME_PREFIX: string := "HANGUL SYLLABLE "

  /** The three jamo a syllable decomposes into; `t` is absent when there is no trailing consonant. */
  datatype Decomposition = Decomposition(l: u32, v: u32, t: Option<u32>)

  predicate IsSyllable(cp: int) {
    0xAC00 <= cp <= 0xD7A3
  }

  predicate IsLeading(cp: int) { 0x1100 <= cp <= 0x1112 }
  predicate IsVowel(cp: int) { 0x1161 <= cp <= 0x1175 }
  predicate IsTrailing(cp: int) { 0x11A8 <= cp <= 0x11C2 }

  /** The jamo of a decomposition are each in their own block range. */
  predicate ValidParts(d: Decomposition) {
    IsLeading(d.l) && IsVowel(d.v) && (d.t.Some? ==> IsTrailing(d.t.value))
  }

  /** Canonical composition of a leading consonant, a vowel and an optional trailing consonant. */
  function Compose(d: Decomposition): int {
    S_BASE + (d.l - L_BASE) * N_COUNT + (d.v - V_BASE) * T_COUNT
      + (match d.t case None => 0 case Some(t) => t - T_BASE)
  }

  /** Full canonical decomposition of a precomposed Hangul syllable, or None outside AC00..D7A3. */
  function FullCanonicalDecomposition(cp: u32): (r: Option<Decomposition>)
    ensures r.None? <==> !IsSyllable(cp)
    ensures r.Some? ==> ValidParts(r.value)
    ensures r.Some? ==> Compose(r.value) == cp
  {
    if !(0xAC00 <= cp && cp <= 0xD7A3) then
      None
    else
      var sIndex := cp - S_BASE;
      var lIndex := sIndex / N_COUNT;
      var vIndex := (sIndex % N_COUNT) / T_COUNT;
      var tIndex := sIndex % T_COUNT;
      var lPart := L_BASE + lIndex;
      var vPart := V_BASE + vIndex;
      var tPart := if tIndex == 0 then None else Some(T_BASE + tIndex);
      Some(Decomposition(lPart, vPart, tPart))
  }

  /** Decomposing the composition of valid jamo gives those jamo back. */
  lemma DecomposeCompose(d: Decomposition)
    requires ValidParts(d)
    ensures IsSyllable(Compose(d))
    ensures FullCanonicalDecomposition(Compose(d) as u32) == Some(d)
  {
    var li, vi := d.l - 0x1100, d.v - 0x1161;
    var ti := match d.t case None => 0 case Some(t) => t - 0x11A7;
    var s := li * 588 + vi * 28 + ti;
    assert Compose(d) == 0xAC00 + s;
    assert s / 588 == li && s % 588 == vi * 28 + ti;
    assert (vi * 28 + ti) / 28 == vi;
    assert s % 28 == ti;
  }

  /** The syllable U+D4DB decomposes to U+1111, U+1171 and U+11B6. */
  lemma DecomposeD4DB()
    ensures FullCanonicalDecomposition(0xD4DB) == Some(Decomposition(0x1111, 0x1171, Some(0x11B6)))
  {
  }

  // ---------------------------------------------------------------------------
  // Jamo short names

  /** A map from codepoint to Jamo short name, as a slice of pairs. */
  type JamoTable = seq<(u32, string)>

  /** The table is strictly sorted by codepoint (so every codepoint occurs at most once). */
  predicate Sorted(table: JamoTable) {
    forall i, j :: 0 <= i < j < |table| ==> table[i].0 < table[j].0
  }

  predicate HasKey(table: JamoTable, cp: int) {
    exists i :: 0 <= i < |table| && table[i].0 == cp
  }

  /**
   * Binary search for the entry with key `cp` in `table[lo..hi]`. The library
   * search the source calls returns any index whose key matches; on a strictly
   * sorted table that index is unique.
   */
  function Search(table: JamoTable, cp: u32, lo: nat, hi: nat): (r: nat)
    requires lo <= hi <= |table| && Sorted(table)
    requires exists i :: lo <= i < hi && table[i].0 == cp
    ensures lo <= r < hi && table[r].0 == cp
    decreases hi - lo
  {
    var mid := lo + (hi - lo) / 2;
    if table[mid].0 == cp then
      mid
    else if table[mid].0 < cp then
      Search(table, cp, mid + 1, hi)
    else
      Search(table, cp, lo, mid)
  }

  /**
   * The Jamo short name of `cp`. The source unwraps the search result, so a
   * table without `cp` (or not sorted by codepoint) makes it panic.
   */
  function JamoShortName(table: JamoTable, cp: u32): (r: string)
    requires Sorted(table) && HasKey(table, cp)
    ensures (cp, r) in table
  {
    var i := Search(table, cp, 0, |table|);
    table[i].1
  }

  /** On a sorted table the name found is the one recorded for `cp`. */
  lemma JamoShortNameIsEntry(table: JamoTable, i: nat)
    requires Sorted(table) && i < |table|
    ensures HasKey(table, table[i].0)
    ensures JamoShortName(table, table[i].0) == table[i].1
  {
    var r := JamoShortName(table, table[i].0);
    var j :| 0 <= j < |table| && table[j] == (table[i].0, r);
    assert !(i < j) && !(j < i);
  }

  /** The table holds a name for each jamo of `d`. */
  predicate HasParts(table: JamoTable, d: Decomposition) {
    HasKey(table, d.l) && HasKey(table, d.v) && (d.t.Some? ==> HasKey(table, d.t.value))
  }

  /** `name` is the syllable name the table gives to `cp`: the prefix and the short names of L, V and T. */
  ghost predicate IsSyllableName(table: JamoTable, cp: u32, name: string) {
    match FullCanonicalDecomposition(cp)
    case None => false
    case Some(d) =>
      exists nl, nv, nt ::
        (d.l, nl) in table && (d.v, nv) in table && TrailingNamed(table, d.t, nt) &&
        name == NAME_PREFIX + nl + nv + nt
  }

  /** `n` is the short name of the trailing consonant, or empty when there is none. */
  predicate TrailingNamed(table: JamoTable, t: Option<u32>, n: string) {
    match t
    case None => n == ""
    case Some(cp) => (cp, n) in table
  }

  /**
   * The character name of a precomposed Hangul syllable, or None for any
   * other codepoint.
   */
  function HangulName(table: JamoTable, cp: u32): (r: Option<string>)
    requires Sorted(table)
    requires FullCanonicalDecomposition(cp).Some? ==> HasParts(table, FullCanonicalDecomposition(cp).value)
    ensures r.None? <==> !IsSyllable(cp)
    ensures r.Some? ==> IsSyllableName(table, cp, r.value)
  {
    match FullCanonicalDecomposition(cp)
    case None => None
    case Some(d) =>
      var nl := JamoShortName(table, d.l);
      var nv := JamoShortName(table, d.v);
      var nt := match d.t case None => "" case Some(t) => JamoShortName(table, t);
      assert (d.l, nl) in table && (d.v, nv) in table && TrailingNamed(table, d.t, nt);
      assert IsSyllableName(table, cp, NAME_PREFIX + nl + nv + nt);
      Some(NAME_PREFIX + nl + nv + nt)
  }

  /** On a sorted table a syllable has at most one name. */
  lemma SyllableNameUnique(table: JamoTable, cp: u32, n1: string, n2: string)
    requires Sorted(table)
    requires IsSyllableName(table, cp, n1) && IsSyllableName(table, cp, n2)
    ensures n1 == n2
  {
    var d := FullCanonicalDecomposition(cp).value;
    var l1, v1, t1 :| (d.l, l1) in table && (d.v, v1) in table &&
      TrailingNamed(table, d.t, t1) && n1 == NAME_PREFIX + l1 + v1 + t1;
    var l2, v2, t2 :| (d.l, l2) in table && (d.v, v2) in table &&
      TrailingNamed(table, d.t, t2) && n2 == NAME_PREFIX + l2 + v2 + t2;
    EntryUnique(table, d.l, l1, l2);
    EntryUnique(table, d.v, v1, v2);
    if d.t.Some? {
      EntryUnique(table, d.t.value, t1, t2);
    }
  }

  lemma EntryUnique(table: JamoTable, cp: u32, a: string, b: string)
    requires Sorted(table) && (cp, a) in table && (cp, b) in table
    ensures a == b
  {
    var i :| 0 <= i < |table| && table[i] == (cp, a);
    var j :| 0 <= j < |table| && table[j] == (cp, b);
    assert !(i < j) && !(j < i);
  }

  // ---------------------------------------------------------------------------
  // The Jamo short names of Jamo.txt in the Unicode Character Database, laid
  // out as the three contiguous blocks that the syllable algorithm uses.

  const LEADING_NAMES: seq<string> :=
    ["G", "GG", "N", "D", "DD", "R", "M", "B", "BB", "S", "SS", "", "J", "JJ",
     "C", "K", "T", "P", "H"]
  const VOWEL_NAMES: seq<string> :=
    ["A", "AE", "YA", "YAE", "EO", "E", "YEO", "YE", "O", "WA", "WAE", "OE",
     "YO", "U", "WEO", "WE", "WI", "YU", "EU", "YI", "I"]
  const TRAILING_NAMES: seq<string> :=
    ["G", "GG", "GS", "N", "NJ", "NH", "D", "L", "LG", "LM", "LB", "LS", "LT",
     "LP", "LH", "M", "B", "BS", "S", "SS", "NG", "J", "C", "K", "T", "P", "H"]

  /** The table the name generator emits for Jamo_Short_Name: codepoints 1100..1112, 1161..1175, 11A8..11C2. */
  const JAMO_SHORT_NAMES: JamoTable :=
    seq(19, i requires 0 <= i < 19 => (0x1100 + i, LEADING_NAMES[i]))
    + seq(21, i requires 0 <= i < 21 => (0x1161 + i, VOWEL_NAMES[i]))
    + seq(27, i requires 0 <= i < 27 => (0x11A8 + i, TRAILING_NAMES[i]))

  /** The Jamo table is sorted and names every jamo a syllable can decompose into. */
  lemma JamoTableCoversSyllables(cp: u32)
    ensures Sorted(JAMO_SHORT_NAMES)
    ensures FullCanonicalDecomposition(cp).Some? ==> HasParts(JAMO_SHORT_NAMES, FullCanonicalDecomposition(cp).value)
  {
    var t := JAMO_SHORT_NAMES;
    assert |t| == 67;
    forall i | 0 <= i < 67 ensures t[i].0 == JamoKey(i) {
    }
    if FullCanonicalDecomposition(cp).Some? {
      var d := FullCanonicalDecomposition(cp).value;
      assert t[d.l - 0x1100].0 == d.l;
      assert t[19 + d.v - 0x1161].0 == d.v;
      if d.t.Some? {
        assert t[40 + d.t.value - 0x11A8].0 == d.t.value;
      }
    }
  }

  /** The codepoint at position `i` of the Jamo table. */
  function JamoKey(i: int): int {
    if i < 19 then 0x1100 + i else if i < 40 then 0x1161 + (i - 19) else 0x11A8 + (i - 40)
  }

  /** The test in the source: U+D4DB is named HANGUL SYLLABLE PWILH, and codepoint 0 has no Hangul name. */
  lemma HangulNameExamples()
    ensures Sorted(JAMO_SHORT_NAMES)
    ensures HasParts(JAMO_SHORT_NAMES, Decomposition(0x1111, 0x1171, Some(0x11B6)))
    ensures HangulName(JAMO_SHORT_NAMES, 0xD4DB) == Some("HANGUL SYLLABLE PWILH")
    ensures HangulName(JAMO_SHORT_NAMES, 0).None?
  {
    JamoTableCoversSyllables(0xD4DB);
    JamoTableCoversSyllables(0);
    var t := JAMO_SHORT_NAMES;
    DecomposeD4DB();
    assert t[17] == (0x1111, "P");
    assert t[19 + 16] == (0x1171, "WI");
    assert t[40 + 14] == (0x11B6, "LH");
    JamoShortNameIsEntry(t, 17);
    JamoShortNameIsEntry(t, 35);
    JamoShortNameIsEntry(t, 54);
    assert JamoShortName(t, 0x1111) == "P";
    assert JamoShortName(t, 0x1171) == "WI";
    assert JamoShortName(t, 0x11B6) == "LH";
    assert NAME_PREFIX + "P" + "WI" + "LH" == "HANGUL SYLLABLE PWILH";
  }
}
