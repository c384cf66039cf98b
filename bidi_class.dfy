/**
 * The Bidi_Class table generator: every codepoint listed in UnicodeData.txt
 * keeps its listed class, and every unlisted codepoint gets the default class
 * of the notes of DerivedBidiClass.txt (UAX #44): a class from the table of
 * right-to-left and currency blocks, else BN for default-ignorable and
 * noncharacter codepoints, else L.
 */
module BidiClass {
  import opened Wrappers

  /** A Unicode codepoint, as the UCD parser produces them. */
  type Codepoint = c: nat | c <= 0x10FFFF

  /** One entry of the default table: every codepoint in `start..=end` defaults to `class`. */
  datatype DefaultRange = DefaultRange(start: nat, end: nat, bidiClass: string)

  predicate InRange(cp: nat, r: DefaultRange) {
    r.start <= cp <= r.end
  }

  const DEFAULT_CLASS_ASSIGNMENTS: seq<DefaultRange> := [
    DefaultRange(0x0600, 0x07BF, "AL"),
    DefaultRange(0x0860, 0x086F, "AL"),
    DefaultRange(0x08A0, 0x08FF, "AL"),
    DefaultRange(0xFB50, 0xFDCF, "AL"),
    DefaultRange(0xFDF0, 0xFDFF, "AL"),
    DefaultRange(0xFE70, 0xFEFF, "AL"),
    DefaultRange(0x0001_0D00, 0x0001_0D3F, "AL"),
    DefaultRange(0x0001_0F30, 0x0001_0F6F, "AL"),
    DefaultRange(0x0001_EC70, 0x0001_ECBF, "AL"),
    DefaultRange(0x0001_ED00, 0x0001_ED4F, "AL"),
    DefaultRange(0x0001_EE00, 0x0001_EEFF, "AL"),
    DefaultRange(0x0590, 0x05FF, "R"),
    DefaultRange(0x07C0, 0x085F, "R"),
    DefaultRange(0x0870, 0x089F, "R"),
    DefaultRange(0xFB1D, 0xFB4F, "R"),
    DefaultRange(0x0001_0800, 0x0001_0CFF, "R"),
    DefaultRange(0x0001_0D40, 0x0001_0F2F, "R"),
    DefaultRange(0x0001_0F70, 0x0001_0FFF, "R"),
    DefaultRange(0x0001_E800, 0x0001_EC6F, "R"),
    DefaultRange(0x0001_ECC0, 0x0001_ECFF, "R"),
    DefaultRange(0x0001_ED50, 0x0001_EDFF, "R"),
    DefaultRange(0x0001_EF00, 0x0001_EFFF, "R"),
    DefaultRange(0x20A0, 0x20CF, "ET")
  ]

  /** Entry `i` is the first entry of `defaults` whose range holds `cp`. */
  predicate FirstMatch(cp: nat, defaults: seq<DefaultRange>, i: int) {
    0 <= i < |defaults| && InRange(cp, defaults[i]) && forall j :: 0 <= j < i ==> !InRange(cp, defaults[j])
  }

  /** The class of the first entry of `defaults` whose range holds `cp`. */
  function LookupUnassigned(cp: nat, defaults: seq<DefaultRange>): (r: Option<string>)
    ensures r.None? <==> forall i :: 0 <= i < |defaults| ==> !InRange(cp, defaults[i])
    ensures r.Some? ==> exists i :: FirstMatch(cp, defaults, i) && defaults[i].bidiClass == r.value
  {
    if defaults == [] then None
    else if InRange(cp, defaults[0]) then
      assert FirstMatch(cp, defaults, 0);
      Some(defaults[0].bidiClass)
    else
      var r := LookupUnassigned(cp, defaults[1..]);
      assert r.Some? ==> exists i :: FirstMatch(cp, defaults, i) && defaults[i].bidiClass == r.value by {
        if r.Some? {
          var i :| FirstMatch(cp, defaults[1..], i) && defaults[1..][i].bidiClass == r.value;
          forall j | 0 <= j < i + 1 ensures !InRange(cp, defaults[j]) {
            if j > 0 {
              assert defaults[j] == defaults[1..][j - 1];
            }
          }
          assert FirstMatch(cp, defaults, i + 1);
        }
      }
      r
  }

  /** No two entries of `defaults` share a codepoint. */
  predicate Disjoint(defaults: seq<DefaultRange>) {
    forall i, j :: 0 <= i < j < |defaults| ==>
      defaults[i].end < defaults[j].start || defaults[j].end < defaults[i].start
  }

  lemma DefaultClassAssignmentsDisjoint()
    ensures Disjoint(DEFAULT_CLASS_ASSIGNMENTS)
  {
    RowsApart(0, 4);
    RowsApart(4, 9);
    RowsApart(9, 15);
    RowsApart(15, 23);
  }

  /** The entries of rows `lo..hi` of the default table share no codepoint with any later entry. */
  lemma RowsApart(lo: nat, hi: nat)
    requires (lo, hi) in {(0, 4), (4, 9), (9, 15), (15, 23)}
    ensures forall i, j :: lo <= i < hi && i < j < |DEFAULT_CLASS_ASSIGNMENTS| ==>
      DEFAULT_CLASS_ASSIGNMENTS[i].end < DEFAULT_CLASS_ASSIGNMENTS[j].start ||
      DEFAULT_CLASS_ASSIGNMENTS[j].end < DEFAULT_CLASS_ASSIGNMENTS[i].start
  {
  }

  /** In a table whose ranges do not overlap, the lookup finds the one entry holding `cp`, wherever it is. */
  lemma LookupDisjoint(cp: nat, defaults: seq<DefaultRange>, i: int)
    requires Disjoint(defaults)
    requires 0 <= i < |defaults| && InRange(cp, defaults[i])
    ensures LookupUnassigned(cp, defaults) == Some(defaults[i].bidiClass)
  {
    var r := LookupUnassigned(cp, defaults);
    var k :| FirstMatch(cp, defaults, k) && defaults[k].bidiClass == r.value;
  }

  /**
   * What decides the default class of an unlisted codepoint: the table of
   * default ranges, the BN candidates, and how class names are written.
   */
  datatype Defaults = Defaults(table: seq<DefaultRange>, maybeBoundaryNeutral: set<Codepoint>, naming: Naming) {
    /** The short name of the default class of `cp`: its range's class, else BN for a candidate, else L. */
    function Class(cp: nat): string {
      match LookupUnassigned(cp, table)
      case Some(bidiClass) => bidiClass
      case None => if cp in maybeBoundaryNeutral then "BN" else "L"
    }

    /** The written name of the default class of `cp`. */
    function Name(cp: nat): Result<string> {
      naming.Name(Class(cp))
    }
  }

  /** Unassigned codepoints of the Currency Symbols block default to ET, even when they are BN candidates. */
  lemma CurrencySymbolsDefaultToET(cp: nat, d: Defaults)
    requires d.table == DEFAULT_CLASS_ASSIGNMENTS
    requires 0x20A0 <= cp <= 0x20CF
    ensures d.Class(cp) == "ET"
  {
    DefaultClassAssignmentsDisjoint();
    LookupDisjoint(cp, DEFAULT_CLASS_ASSIGNMENTS, 22);
  }

  /** The class of a default range takes precedence over BN. */
  lemma DefaultRangeBeforeBoundaryNeutral(cp: nat, i: nat, d: Defaults)
    requires d.table == DEFAULT_CLASS_ASSIGNMENTS
    requires i < |DEFAULT_CLASS_ASSIGNMENTS| && InRange(cp, DEFAULT_CLASS_ASSIGNMENTS[i])
    ensures d.Class(cp) == DEFAULT_CLASS_ASSIGNMENTS[i].bidiClass
  {
    DefaultClassAssignmentsDisjoint();
    LookupDisjoint(cp, DEFAULT_CLASS_ASSIGNMENTS, i);
  }

  /** Outside every default range, a BN candidate gets BN and every other codepoint gets L. */
  lemma OutsideDefaultRanges(cp: nat, d: Defaults)
    requires forall i :: 0 <= i < |d.table| ==> !InRange(cp, d.table[i])
    ensures d.Class(cp) == if cp in d.maybeBoundaryNeutral then "BN" else "L"
  {
  }

  // ---------------------------------------------------------------------------
  // Class names

  /**
   * How class names are written: the short names themselves, or the
   * canonical (long) names that the property value aliases give them; a
   * short name without an alias is an error.
   */
  datatype Naming = Naming(useShortNames: bool, canonical: map<string, string>) {
    function Name(shortName: string): (r: Result<string>)
      ensures useShortNames ==> r == Ok(shortName)
      ensures !useShortNames ==> (r.Ok? <==> shortName in canonical)
      ensures !useShortNames && r.Ok? ==> r.value == canonical[shortName]
    {
      if useShortNames then Ok(shortName)
      else if shortName in canonical then Ok(canonical[shortName])
      else Err("unrecognized property value")
    }
  }

  // ---------------------------------------------------------------------------
  // The parsed inputs

  /** The part of a UnicodeData.txt row the generator uses. */
  datatype UnicodeDataRow = UnicodeDataRow(codepoint: Codepoint, bidiClass: string)

  /** One row of PropList.txt / DerivedCoreProperties.txt: a property and the codepoints that have it. */
  datatype CoreProperty = CoreProperty(codepoints: seq<Codepoint>, property: string)

  type ByType = map<string, set<Codepoint>>

  /** The codepoints listed in UnicodeData.txt. */
  function Listed(rows: seq<UnicodeDataRow>): set<Codepoint> {
    set i | 0 <= i < |rows| :: rows[i].codepoint
  }

  /** Bucket every listed codepoint under the name of its listed class. */
  method CollectRows(rows: seq<UnicodeDataRow>, naming: Naming) returns (r: Result<ByType>, listedCodepoints: set<Codepoint>)
    ensures r.Ok? <==> forall i :: 0 <= i < |rows| ==> naming.Name(rows[i].bidiClass).Ok?
    ensures r.Ok? ==> listedCodepoints == Listed(rows)
    ensures r.Ok? ==> forall n :: n in r.value <==> exists i :: 0 <= i < |rows| && naming.Name(rows[i].bidiClass) == Ok(n)
    ensures r.Ok? ==> forall n, c :: n in r.value ==>
      (c in r.value[n] <==> exists i :: 0 <= i < |rows| && rows[i].codepoint == c && naming.Name(rows[i].bidiClass) == Ok(n))
  {
    var byType: ByType := map[];
    listedCodepoints := {};
    var k := 0;
    while k < |rows|
      invariant 0 <= k <= |rows|
      invariant forall i :: 0 <= i < k ==> naming.Name(rows[i].bidiClass).Ok?
      invariant listedCodepoints == Listed(rows[..k])
      invariant RowBuckets(rows, k, naming, byType)
    {
      var row := rows[k];
      assert Listed(rows[..k + 1]) == Listed(rows[..k]) + {row.codepoint} by {
        assert forall i :: 0 <= i < k ==> rows[..k + 1][i] == rows[..k][i];
        assert rows[..k + 1][k] == row;
      }
      listedCodepoints := listedCodepoints + {row.codepoint};
      var bc := naming.Name(row.bidiClass);
      if bc.Err? {
        return Err(bc.error), listedCodepoints;
      }
      var old_set := if bc.value in byType then byType[bc.value] else {};
      RowBucketsStep(rows, k, naming, byType, bc.value);
      byType := byType[bc.value := old_set + {row.codepoint}];
      k := k + 1;
    }
    assert rows[..k] == rows;
    return Ok(byType), listedCodepoints;
  }

  /** The buckets of the first `k` rows: one per class name written for them, holding their codepoints. */
  ghost predicate RowBuckets(rows: seq<UnicodeDataRow>, k: nat, naming: Naming, byType: ByType)
    requires k <= |rows|
  {
    (forall n :: n in byType <==> exists i :: 0 <= i < k && naming.Name(rows[i].bidiClass) == Ok(n)) &&
    forall n, c :: n in byType ==>
      (c in byType[n] <==> exists i :: 0 <= i < k && rows[i].codepoint == c && naming.Name(rows[i].bidiClass) == Ok(n))
  }

  lemma RowBucketsStep(rows: seq<UnicodeDataRow>, k: nat, naming: Naming, byType: ByType, name: string)
    requires k < |rows| && RowBuckets(rows, k, naming, byType)
    requires naming.Name(rows[k].bidiClass) == Ok(name)
    ensures RowBuckets(rows, k + 1, naming,
                       byType[name := (if name in byType then byType[name] else {}) + {rows[k].codepoint}])
  {
    var m := byType[name := (if name in byType then byType[name] else {}) + {rows[k].codepoint}];
    forall n, c | n in m
      ensures c in m[n] <==> exists i :: 0 <= i < k + 1 && rows[i].codepoint == c && naming.Name(rows[i].bidiClass) == Ok(n)
    {
      if n == name && c == rows[k].codepoint {
        assert rows[k].codepoint == c && naming.Name(rows[k].bidiClass) == Ok(n);
      }
    }
  }

  /** The codepoints having Default_Ignorable_Code_Point or Noncharacter_Code_Point. */
  method CollectBoundaryNeutral(props: seq<CoreProperty>) returns (s: set<Codepoint>)
    ensures forall c :: c in s <==> exists i :: 0 <= i < |props| && IsBoundaryNeutralProperty(props[i].property) && c in props[i].codepoints
  {
    s := {};
    var k := 0;
    while k < |props|
      invariant 0 <= k <= |props|
      invariant forall c :: c in s <==> exists i :: 0 <= i < k && IsBoundaryNeutralProperty(props[i].property) && c in props[i].codepoints
    {
      var x := props[k];
      if IsBoundaryNeutralProperty(x.property) {
        s := s + set c | c in x.codepoints;
      }
      k := k + 1;
    }
  }

  predicate IsBoundaryNeutralProperty(property: string) {
    property == "Default_Ignorable_Code_Point" || property == "Noncharacter_Code_Point"
  }

  // ---------------------------------------------------------------------------
  // Classifying the unassigned codepoints

  /**
   * How classification ends: with the finished buckets, with an error from
   * naming a class, or with the panic of the source's `unwrap` when the
   * bucket for the default class of `cp` does not exist.
   */
  datatype Outcome = Classified(byType: ByType) | Failed(error: string) | Panicked(cp: Codepoint)

  /** Either `cp` is listed or the name of its default class is that of an existing bucket. */
  predicate Resolves(cp: Codepoint, byType: ByType, listedCodepoints: set<Codepoint>, d: Defaults) {
    cp !in listedCodepoints ==> d.Name(cp).Ok? && d.Name(cp).value in byType
  }

  /**
   * `m` holds the listed buckets, plus every unlisted codepoint below `bound`
   * in the bucket of its default class.
   */
  predicate Bucketed(m: ByType, byType: ByType, listedCodepoints: set<Codepoint>, d: Defaults, bound: nat) {
    m.Keys == byType.Keys &&
    forall n, c: Codepoint :: n in m ==>
      (c in m[n] <==> c in byType[n] || (c < bound && c !in listedCodepoints && d.Name(c) == Ok(n)))
  }

  lemma BucketedSkip(m: ByType, byType: ByType, listedCodepoints: set<Codepoint>, d: Defaults, cp: Codepoint)
    requires Bucketed(m, byType, listedCodepoints, d, cp)
    requires cp in listedCodepoints
    ensures Bucketed(m, byType, listedCodepoints, d, cp + 1)
  {
  }

  lemma BucketedStep(m: ByType, byType: ByType, listedCodepoints: set<Codepoint>, d: Defaults, cp: Codepoint, name: string)
    requires Bucketed(m, byType, listedCodepoints, d, cp)
    requires cp !in listedCodepoints && d.Name(cp) == Ok(name) && name in m
    ensures Bucketed(m[name := m[name] + {cp}], byType, listedCodepoints, d, cp + 1)
  {
  }

  /** The written name of the default class of `cp`, given those of L and BN. */
  method DefaultName(cp: Codepoint, d: Defaults, leftToRight: string, boundaryNeutral: string) returns (r: Result<string>)
    requires d.naming.Name("L") == Ok(leftToRight) && d.naming.Name("BN") == Ok(boundaryNeutral)
    ensures r == d.Name(cp)
  {
    var found := LookupUnassigned(cp, d.table);
    if found.Some? {
      r := d.naming.Name(found.value);
    } else if cp in d.maybeBoundaryNeutral {
      r := Ok(boundaryNeutral);
    } else {
      r := Ok(leftToRight);
    }
  }

  /** Put every unlisted codepoint into the bucket of its default class. */
  method ClassifyUnassigned(byType: ByType, listedCodepoints: set<Codepoint>, d: Defaults) returns (o: Outcome)
    ensures o.Classified? <==>
      d.naming.Name("L").Ok? && d.naming.Name("BN").Ok? &&
      forall c: Codepoint :: Resolves(c, byType, listedCodepoints, d)
    ensures o.Classified? ==> o.byType.Keys == byType.Keys
    ensures o.Classified? ==> forall n, c: Codepoint :: n in byType ==>
      (c in o.byType[n] <==> c in byType[n] || (c !in listedCodepoints && d.Name(c) == Ok(n)))
    ensures o.Panicked? ==>
      d.naming.Name("L").Ok? && d.naming.Name("BN").Ok? &&
      o.cp !in listedCodepoints && d.Name(o.cp).Ok? && d.Name(o.cp).value !in byType &&
      forall c: Codepoint :: c < o.cp ==> Resolves(c, byType, listedCodepoints, d)
    ensures o.Failed? ==>
      d.naming.Name("L").Err? || d.naming.Name("BN").Err? ||
      exists cp: Codepoint :: cp !in listedCodepoints && d.Name(cp).Err? &&
        forall c: Codepoint :: c < cp ==> Resolves(c, byType, listedCodepoints, d)
  {
    var leftToRight := d.naming.Name("L");
    if leftToRight.Err? {
      return Failed(leftToRight.error);
    }
    var boundaryNeutral := d.naming.Name("BN");
    if boundaryNeutral.Err? {
      return Failed(boundaryNeutral.error);
    }
    var m := byType;
    var cp: nat := 0;
    while cp <= 0x10FFFF
      invariant 0 <= cp <= 0x110000
      invariant forall c: Codepoint :: c < cp ==> Resolves(c, byType, listedCodepoints, d)
      invariant Bucketed(m, byType, listedCodepoints, d, cp)
    {
      if cp in listedCodepoints {
        BucketedSkip(m, byType, listedCodepoints, d, cp);
        cp := cp + 1;
        continue;
      }
      var r := DefaultName(cp, d, leftToRight.value, boundaryNeutral.value);
      if r.Err? {
        assert !Resolves(cp, byType, listedCodepoints, d);
        return Failed(r.error);
      }
      var name := r.value;
      if name !in m {
        assert !Resolves(cp, byType, listedCodepoints, d);
        return Panicked(cp);
      }
      BucketedStep(m, byType, listedCodepoints, d, cp, name);
      m := m[name := m[name] + {cp}];
      cp := cp + 1;
    }
    return Classified(m);
  }

  /** The defaults the generator uses: the fixed table, the collected BN candidates, and the chosen naming. */
  function Standard(props: seq<CoreProperty>, naming: Naming): Defaults {
    Defaults(DEFAULT_CLASS_ASSIGNMENTS, BoundaryNeutral(props), naming)
  }

  /**
   * The whole classification: bucket the listed codepoints, collect the BN
   * candidates, then classify everything else. It succeeds exactly when every
   * class name can be written and every default class of an unlisted
   * codepoint is also the class of some listed codepoint; then every listed
   * codepoint sits exactly in the buckets its rows name, and every other
   * codepoint in `0..=0x10FFFF` sits in exactly one bucket, that of its
   * default class.
   */
  method Classify(rows: seq<UnicodeDataRow>, props: seq<CoreProperty>, naming: Naming) returns (o: Outcome)
    ensures o.Classified? <==>
      (forall i :: 0 <= i < |rows| ==> naming.Name(rows[i].bidiClass).Ok?) &&
      naming.Name("L").Ok? && naming.Name("BN").Ok? &&
      forall c: Codepoint :: c !in Listed(rows) ==>
        exists i :: 0 <= i < |rows| && naming.Name(rows[i].bidiClass) == Standard(props, naming).Name(c) &&
          naming.Name(rows[i].bidiClass).Ok?
    ensures o.Classified? ==> forall n, c: Codepoint :: c in Listed(rows) ==>
      (n in o.byType && c in o.byType[n] <==>
        exists i :: 0 <= i < |rows| && rows[i].codepoint == c && naming.Name(rows[i].bidiClass) == Ok(n))
    ensures o.Classified? ==> forall n, c: Codepoint :: c !in Listed(rows) ==>
      (n in o.byType && c in o.byType[n] <==> Standard(props, naming).Name(c) == Ok(n))
    ensures o.Classified? ==> forall c: Codepoint :: c !in Listed(rows) ==>
      Standard(props, naming).Name(c).Ok? && Standard(props, naming).Name(c).value in o.byType
  {
    var byType, listedCodepoints := CollectRows(rows, naming);
    if byType.Err? {
      return Failed(byType.error);
    }
    var maybeBoundaryNeutral := CollectBoundaryNeutral(props);
    assert maybeBoundaryNeutral == BoundaryNeutral(props);
    var d := Defaults(DEFAULT_CLASS_ASSIGNMENTS, maybeBoundaryNeutral, naming);
    o := ClassifyUnassigned(byType.value, listedCodepoints, d);
    if !o.Classified? && naming.Name("L").Ok? && naming.Name("BN").Ok? {
      var c: Codepoint :| !Resolves(c, byType.value, listedCodepoints, d);
      assert c !in Listed(rows);
    }
    if o.Classified? {
      forall c: Codepoint | c !in Listed(rows)
        ensures exists i :: 0 <= i < |rows| && naming.Name(rows[i].bidiClass) == d.Name(c) && naming.Name(rows[i].bidiClass).Ok?
      {
        assert Resolves(c, byType.value, listedCodepoints, d);
      }
    }
  }

  /** The BN candidates, as a set. */
  function BoundaryNeutral(props: seq<CoreProperty>): set<Codepoint> {
    set i, c | 0 <= i < |props| && IsBoundaryNeutralProperty(props[i].property) && c in props[i].codepoints :: c
  }

}
