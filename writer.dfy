/**
 * The small pure encoders and the column-wrapping line buffer used by the
 * table writer: name mangling for Rust and C identifiers, integer type
 * selection, codepoint literals, big-endian FST keys and the packing of short
 * strings into a u64.
 */
module Writer {
  import opened Wrappers

  type byte = x: int | 0 <= x < 0x100
  type u32 = x: int | 0 <= x < 0x1_0000_0000
  type u64 = x: int | 0 <= x < 0x1_0000_0000_0000_0000

  // ---------------------------------------------------------------------------
  // Identifier mangling

  predicate IsAsciiLower(c: char) { 'a' <= c <= 'z' }
  predicate IsAsciiUpper(c: char) { 'A' <= c <= 'Z' }

  function AsciiUpper(c: char): char {
    if IsAsciiLower(c) then (c as int - 32) as char else c
  }

  function AsciiLower(c: char): char {
    if IsAsciiUpper(c) then (c as int + 32) as char else c
  }

  /** A heuristic constant name: every `.` becomes `_` and ASCII letters are uppercased. */
  function RustConstName(s: string): (r: string)
    ensures |r| == |s|
    ensures forall i :: 0 <= i < |s| ==> r[i] == (if s[i] == '.' then '_' else AsciiUpper(s[i]))
    ensures forall c :: c in r ==> c != '.' && !IsAsciiLower(c)
  {
    var replaced := seq(|s|, i requires 0 <= i < |s| => if s[i] == '.' then '_' else s[i]);
    seq(|replaced|, i requires 0 <= i < |replaced| => AsciiUpper(replaced[i]))
  }

  /** A heuristic module name: ASCII letters are lowercased, everything else is kept. */
  function RustModuleName(s: string): (r: string)
    ensures |r| == |s|
    ensures forall i :: 0 <= i < |s| ==> r[i] == AsciiLower(s[i])
    ensures forall c :: c in r ==> !IsAsciiUpper(c)
  {
    seq(|s|, i requires 0 <= i < |s| => AsciiLower(s[i]))
  }

  /** Mangling a constant name twice is the same as mangling it once. */
  lemma RustConstNameIdempotent(s: string)
    ensures RustConstName(RustConstName(s)) == RustConstName(s)
  {
  }

  lemma RustModuleNameIdempotent(s: string)
    ensures RustModuleName(RustModuleName(s)) == RustModuleName(s)
  {
  }

  /** Constant-name mangling works character by character, so it distributes over concatenation. */
  lemma RustConstNameAppend(a: string, b: string)
    ensures RustConstName(a + b) == RustConstName(a) + RustConstName(b)
  {
    assert RustConstName(a + b) == RustConstName(a) + RustConstName(b);
  }

  predicate StartsWith(s: string, prefix: string) {
    |prefix| <= |s| && s[..|prefix|] == prefix
  }

  /**
   * The C identifier of the table `name`: prefixed with the writer's table
   * name and `_`, unless the table name is empty or starts with the mangled
   * name.
   */
  function CConstName(tableName: string, name: string): (r: string)
    ensures r == RustConstName(name) || r == tableName + "_" + RustConstName(name)
    ensures tableName == "" ==> r == RustConstName(name)
    ensures StartsWith(tableName, RustConstName(name)) ==> r == RustConstName(name)
    ensures tableName != "" && !StartsWith(tableName, RustConstName(name)) ==>
      r == tableName + "_" + RustConstName(name)
  {
    var n := RustConstName(name);
    if tableName != "" && !StartsWith(tableName, n) then tableName + "_" + n else n
  }

  /** Whatever the table name, the C identifier ends with the mangled name. */
  lemma CConstNameEndsWithName(tableName: string, name: string)
    ensures var r := CConstName(tableName, name); var n := RustConstName(name);
      |n| <= |r| && r[|r| - |n|..] == n
  {
  }

  /**
   * As written, the guard does not stop a second application from prefixing
   * again, although the comment beside it says it protects against this
   * getting called multiple times.
   */
  lemma CConstNamePrefixesTwice()
    ensures CConstName("GC", "cr") == "GC_CR"
    ensures CConstName("GC", CConstName("GC", "cr")) == "GC_GC_CR"
  {
    assert CConstName("GC", "cr") == "GC_CR" by {
      assert RustConstName("cr") == "CR";
      assert "GC"[..2] == "GC" != "CR";
      assert !StartsWith("GC", "CR");
      assert "GC" + "_" + "CR" == "GC_CR";
    }
    assert CConstName("GC", "GC_CR") == "GC_GC_CR" by {
      assert RustConstName("GC_CR") == "GC_CR";
      assert !StartsWith("GC", "GC_CR");
      assert "GC" + "_" + "GC_CR" == "GC_GC_CR";
    }
  }

  /**
   * The evidently intended guard: leave the name alone when it already starts
   * with the table name (which also covers the main table itself).
   */
  function CConstNameGuarded(tableName: string, name: string): string
  {
    var n := RustConstName(name);
    if tableName != "" && !StartsWith(n, tableName) then tableName + "_" + n else n
  }

  /**
   * With the corrected guard, applying the mangling again changes nothing,
   * for a table name that is itself a constant name (as the default, an
   * upper-cased name, is); and the main table's own name is left unprefixed.
   */
  lemma CConstNameGuardedIdempotent(tableName: string, name: string)
    requires RustConstName(tableName) == tableName
    ensures CConstNameGuarded(tableName, CConstNameGuarded(tableName, name)) == CConstNameGuarded(tableName, name)
    ensures CConstNameGuarded(tableName, tableName) == tableName
  {
    var n := RustConstName(name);
    RustConstNameIdempotent(name);
    var r := CConstNameGuarded(tableName, name);
    if tableName != "" && !StartsWith(n, tableName) {
      RustConstNameAppend(tableName + "_", n);
      RustConstNameAppend(tableName, "_");
      assert RustConstName("_") == "_";
      assert RustConstName(r) == r;
      assert StartsWith(r, tableName) by {
        assert r[..|tableName|] == tableName;
      }
    } else {
      assert RustConstName(r) == r;
    }
    assert StartsWith(RustConstName(tableName), tableName) by {
      assert tableName[..|tableName|] == tableName;
    }
  }

  // ---------------------------------------------------------------------------
  // Integer types

  /** The unsigned Rust integer types a table can use. */
  datatype UintType = U8 | U16 | U32 | U64 {
    /** Its width in bytes. */
    function Width(): nat {
      match this case U8 => 1 case U16 => 2 case U32 => 4 case U64 => 8
    }
    /** The largest value it holds. */
    function MaxValue(): int {
      match this
      case U8 => 0xFF
      case U16 => 0xFFFF
      case U32 => 0xFFFF_FFFF
      case U64 => 0xFFFF_FFFF_FFFF_FFFF
    }
    /** Its name in Rust source. */
    function Name(): string {
      match this case U8 => "u8" case U16 => "u16" case U32 => "u32" case U64 => "u64"
    }
  }

  /** The smallest unsigned integer type that can hold `n`. */
  function SmallestUnsignedType(n: u64): (r: UintType)
    ensures n <= r.MaxValue()
    ensures forall t: UintType :: t.Width() < r.Width() ==> t.MaxValue() < n
  {
    if n <= 0xFF then U8
    else if n <= 0xFFFF then U16
    else if n <= 0xFFFF_FFFF then U32
    else U64
  }

  /**
   * The unsigned type whose size is `size` bytes (the size of a DFA state
   * identifier type). The source panics on any other size.
   */
  function RustUintType(size: nat): (r: UintType)
    requires size == 1 || size == 2 || size == 4 || size == 8
    ensures r.Width() == size
  {
    match size
    case 1 => U8
    case 2 => U16
    case 4 => U32
    case 8 => U64
  }

  // ---------------------------------------------------------------------------
  // Codepoint literals

  /** A Unicode scalar value: not a surrogate and at most U+10FFFF. */
  predicate IsScalarValue(cp: int) {
    0 <= cp < 0xD800 || 0xE000 <= cp < 0x11_0000
  }

  /**
   * Rust source for a codepoint: a `char` literal (its escaping is left to
   * the formatter) or a decimal `u32` literal.
   */
  datatype CodepointLiteral = CharLiteral(c: char) | U32Literal(digits: string)

  function DigitChar(d: nat): char
    requires d < 10
  {
    ('0' as int + d) as char
  }

  predicate IsDigit(c: char) { '0' <= c <= '9' }

  /** Decimal digits of `n`, most significant first, without leading zeros. */
  function Decimal(n: nat): (r: string)
    ensures |r| >= 1 && forall c :: c in r ==> IsDigit(c)
    ensures r[0] == '0' ==> n == 0
  {
    if n < 10 then [DigitChar(n)] else Decimal(n / 10) + [DigitChar(n % 10)]
  }

  /** The value of a string of decimal digits. */
  function ParseDecimal(s: string): nat
    requires forall c :: c in s ==> IsDigit(c)
  {
    if s == [] then 0
    else
      assert s[|s| - 1] in s && IsDigit(s[|s| - 1]);
      assert forall c :: c in s[..|s| - 1] ==> c in s;
      var d: nat := s[|s| - 1] as int - '0' as int;
      ParseDecimal(s[..|s| - 1]) * 10 + d
  }

  lemma {:induction false} ParseDecimalOfDecimal(n: nat)
    ensures ParseDecimal(Decimal(n)) == n
  {
    var r := Decimal(n);
    if n >= 10 {
      ParseDecimalOfDecimal(n / 10);
      assert r[..|r| - 1] == Decimal(n / 10);
    }
  }

  /**
   * The literal for `cp`. With `charLiterals` set, a codepoint that is not a
   * scalar value has no `char` literal and the result is None.
   */
  function RustCodepoint(charLiterals: bool, cp: u32): (r: Option<CodepointLiteral>)
    ensures r.None? <==> charLiterals && !IsScalarValue(cp)
    ensures r.Some? && charLiterals ==> r.value.CharLiteral? && r.value.c as int == cp
    ensures r.Some? && !charLiterals ==>
      r.value.U32Literal? && (forall c :: c in r.value.digits ==> IsDigit(c)) && ParseDecimal(r.value.digits) == cp
  {
    if charLiterals then
      if IsScalarValue(cp) then Some(CharLiteral(cp as char)) else None
    else
      ParseDecimalOfDecimal(cp);
      Some(U32Literal(Decimal(cp)))
  }

  // ---------------------------------------------------------------------------
  // FST keys

  /** The big-endian 4-byte encoding of a u32. */
  function U32Key(cp: u32): (r: seq<byte>)
    ensures |r| == 4
    ensures BigEndian(r) == cp
  {
    var k := [cp / 0x100_0000, (cp / 0x1_0000) % 0x100, (cp / 0x100) % 0x100, cp % 0x100];
    BigEndian4(k);
    k
  }

  /** The value of a big-endian byte string. */
  function BigEndian(s: seq<byte>): nat {
    if s == [] then 0 else BigEndian(s[..|s| - 1]) * 0x100 + s[|s| - 1]
  }

  lemma BigEndian4(k: seq<byte>)
    requires |k| == 4
    ensures BigEndian(k) == k[0] as int * 0x100_0000 + k[1] as int * 0x1_0000 + k[2] as int * 0x100 + k[3]
  {
    assert k[..1][..0] == [];
    assert BigEndian(k[..1]) == k[0];
    assert k[..2][..1] == k[..1];
    assert BigEndian(k[..2]) == k[0] as int * 0x100 + k[1];
    assert k[..3][..2] == k[..2];
    assert BigEndian(k[..3]) == (k[0] as int * 0x100 + k[1]) * 0x100 + k[2];
    assert k[..4] == k;
  }

  /** Lexicographic order on byte strings, as the FST builder requires of its keys. */
  predicate LexLess(a: seq<byte>, b: seq<byte>) {
    exists k :: 0 <= k <= |a| && k <= |b| && a[..k] == b[..k] &&
      ((k == |a| && k < |b|) || (k < |a| && k < |b| && a[k] < b[k]))
  }

  /** Big-endian keys sort lexicographically exactly as their codepoints sort numerically. */
  lemma U32KeyOrder(a: u32, b: u32)
    ensures a < b <==> LexLess(U32Key(a), U32Key(b))
  {
    var ka, kb := U32Key(a), U32Key(b);
    BigEndian4(ka);
    BigEndian4(kb);
    if a < b {
      var k := if ka[0] != kb[0] then 0 else if ka[1] != kb[1] then 1 else if ka[2] != kb[2] then 2 else 3;
      assert ka[..k] == kb[..k];
      assert k < 4 && ka[k] < kb[k];
    }
    if LexLess(ka, kb) {
      var k :| 0 <= k <= |ka| && k <= |kb| && ka[..k] == kb[..k] &&
        ((k == |ka| && k < |kb|) || (k < |ka| && k < |kb| && ka[k] < kb[k]));
      assert k < 4 && ka[k] < kb[k];
      assert forall j :: 0 <= j < k ==> ka[j] == kb[j] by {
        forall j | 0 <= j < k ensures ka[j] == kb[j] {
          assert ka[..k][j] == kb[..k][j];
        }
      }
    }
  }

  // ---------------------------------------------------------------------------
  // Packing strings into a u64

  function Pow256(i: nat): (r: nat)
    ensures r >= 1
  {
    if i == 0 then 1 else 0x100 * Pow256(i - 1)
  }

  /** The little-end-first value of a byte string: byte `i` contributes `s[i] * 256^i`. */
  function PackedValue(s: seq<byte>): nat {
    if s == [] then 0 else s[0] + 0x100 * PackedValue(s[1..])
  }

  /** The packed value of `s` needs at most `8 * |s|` bits. */
  lemma {:induction false} PackedValueBound(s: seq<byte>)
    ensures PackedValue(s) < Pow256(|s|)
  {
    if s != [] {
      PackedValueBound(s[1..]);
    }
  }

  /**
   * Byte `i` of `s` sits at bits `8i .. 8i+7` of the packed value: below it
   * are the bytes before it, above it the bytes after it.
   */
  lemma {:induction false} PackedValueByte(s: seq<byte>, i: nat)
    requires i < |s|
    ensures PackedValue(s[..i]) < Pow256(i)
    ensures PackedValue(s) == PackedValue(s[..i]) + s[i] * Pow256(i) + PackedValue(s[i + 1..]) * Pow256(i + 1)
  {
    PackedValueBound(s[..i]);
    if i > 0 {
      PackedValueByte(s[1..], i - 1);
      assert s[1..][..i - 1] == s[..i][1..];
      assert s[1..][i - 1 + 1..] == s[i + 1..];
      var lo, hi := PackedValue(s[..i][1..]), PackedValue(s[i + 1..]);
      assert PackedValue(s[1..]) == lo + s[i] * Pow256(i - 1) + hi * Pow256(i);
      assert PackedValue(s[..i]) == s[0] + 0x100 * lo;
      MulAssoc(s[i], Pow256(i - 1));
      MulAssoc(hi, Pow256(i));
    } else {
      assert s[..0] == [];
      assert s[1..] == s[i + 1..];
    }
  }

  lemma MulAssoc(x: nat, y: nat)
    ensures 0x100 * (x * y) == x * (0x100 * y)
  {
  }

  /** Packing `s[..i+1]` adds byte `i` at position `i` to the packing of `s[..i]`. */
  lemma {:induction false} PackedValueSnoc(s: seq<byte>, i: nat)
    requires i < |s|
    ensures PackedValue(s[..i + 1]) == PackedValue(s[..i]) + s[i] * Pow256(i)
  {
    if i > 0 {
      PackedValueSnoc(s[1..], i - 1);
      assert s[1..][..i] == s[..i + 1][1..];
      assert s[1..][..i - 1] == s[..i][1..];
      var lo := PackedValue(s[..i][1..]);
      assert PackedValue(s[..i + 1][1..]) == lo + s[i] * Pow256(i - 1);
      assert PackedValue(s[..i + 1]) == s[0] + 0x100 * (lo + s[i] * Pow256(i - 1));
      assert PackedValue(s[..i]) == s[0] + 0x100 * lo;
      MulAssoc(s[i], Pow256(i - 1));
    } else {
      assert s[..0] == [] && s[..1] == [s[0]];
    }
  }

  /**
   * The decoder of the source's test: take the low byte while the value is
   * non-zero, so a NUL byte ends the string.
   */
  function UnpackStr(encoded: nat): seq<byte>
  {
    if encoded == 0 then [] else [encoded % 0x100] + UnpackStr(encoded / 0x100)
  }

  /** Unpacking the packing of a NUL-free string gives the string back, also for the empty string. */
  lemma {:induction false} UnpackPacked(s: seq<byte>)
    requires 0 !in s
    ensures UnpackStr(PackedValue(s)) == s
  {
    if s != [] {
      assert s[0] in s;
      assert forall b :: b in s[1..] ==> b in s;
      UnpackPacked(s[1..]);
      var v := PackedValue(s);
      assert v % 0x100 == s[0] && v / 0x100 == PackedValue(s[1..]);
    }
  }

  /**
   * Pack a string of at most 8 bytes, none of them NUL, into a u64 whose
   * least significant byte is the first byte of the string. OR-ing a byte
   * into bits that are still zero is written as an addition.
   */
  method PackStr(s: seq<byte>) returns (r: Result<u64>)
    ensures r.Err? <==> |s| > 8 || 0 in s
    ensures r.Ok? ==> r.value == PackedValue(s) && UnpackStr(r.value) == s
  {
    if |s| > 8 {
      return Err("cannot encode string (too long)");
    }
    if 0 in s {
      return Err("cannot encode string (contains NUL byte)");
    }
    var value: nat := 0;
    var i := 0;
    while i < |s|
      invariant 0 <= i <= |s|
      invariant value == PackedValue(s[..i])
    {
      assert i <= 7;
      PackedValueSnoc(s, i);
      value := value + s[i] * Pow256(i);
      i := i + 1;
    }
    assert s[..|s|] == s;
    PackedValueBound(s);
    assert Pow256(|s|) <= Pow256(8) by {
      Pow256Monotone(|s|, 8);
    }
    UnpackPacked(s);
    return Ok(value);
  }

  lemma {:induction false} Pow256Monotone(i: nat, j: nat)
    requires i <= j
    ensures Pow256(i) <= Pow256(j)
  {
    if i < j {
      Pow256Monotone(i, j - 1);
    }
  }

  /** The cases of the source's test of `pack_str`. */
  lemma PackStrExamples()
    ensures PackedValue([0x47]) == 0x47
    ensures PackedValue([0x59, 0x45, 0x4F]) == 0x4F4559
    ensures UnpackStr(PackedValue([])) == []
  {
  }

  // ---------------------------------------------------------------------------
  // The line buffer

  /** Rust's `char::is_whitespace`: the White_Space property of the Unicode Character Database. */
  predicate IsWhitespace(c: char) {
    ('\U{0009}' <= c <= '\U{000D}') || c == '\U{0020}' || c == '\U{0085}' || c == '\U{00A0}' ||
    c == '\U{1680}' || ('\U{2000}' <= c <= '\U{200A}') || c == '\U{2028}' || c == '\U{2029}' ||
    c == '\U{202F}' || c == '\U{205F}' || c == '\U{3000}'
  }

  /** `s` with its trailing whitespace removed (Rust's `str::trim_end`). */
  function TrimEnd(s: string): (r: string)
    ensures |r| <= |s| && r == s[..|r|]
    ensures r == "" || !IsWhitespace(r[|r| - 1])
    ensures forall i :: |r| <= i < |s| ==> IsWhitespace(s[i])
  {
    if s != [] && IsWhitespace(s[|s| - 1]) then TrimEnd(s[..|s| - 1]) else s
  }

  lemma TrimEndIdempotent(s: string)
    ensures TrimEnd(TrimEnd(s)) == TrimEnd(s)
  {
  }

  /** The number of bytes of the UTF-8 encoding of `c`. */
  function Utf8Width(c: char): nat {
    if c as int < 0x80 then 1 else if c as int < 0x800 then 2 else if c as int < 0x1_0000 then 3 else 4
  }

  /** Rust's `str::len`: the length of a string in UTF-8 bytes. */
  function Utf8Length(s: string): (r: nat)
    ensures |s| <= r <= 4 * |s|
  {
    if s == [] then 0 else Utf8Length(s[..|s| - 1]) + Utf8Width(s[|s| - 1])
  }

  lemma {:induction false} Utf8LengthAppend(a: string, b: string)
    ensures Utf8Length(a + b) == Utf8Length(a) + Utf8Length(b)
  {
    if b == [] {
      assert a + b == a;
    } else {
      assert (a + b)[..|a + b| - 1] == a + b[..|b| - 1];
      assert (a + b)[|a + b| - 1] == b[|b| - 1];
      Utf8LengthAppend(a, b[..|b| - 1]);
    }
  }

  /**
   * A buffer for the current output line: pieces are appended until the next
   * one would pass the column limit; a full line is written to the sink with
   * its trailing whitespace removed. The sink is modelled as the text written
   * to it so far.
   */
  class LineWriter {
    var out: string
    var line: string
    var columns: nat
    var indent: string

    constructor ()
      ensures out == "" && line == "" && columns == 79 && indent == "  "
    {
      out := "";
      line := "";
      columns := 79;
      indent := "  ";
    }

    /**
     * Append `s` to the current line, first flushing the line when `s` would
     * take it past the column limit; an empty line starts with the indent.
     */
    method WriteStr(s: string)
      modifies this
      ensures columns == old(columns) && indent == old(indent)
      ensures var full := Utf8Length(old(line)) + Utf8Length(s) > columns;
        out == old(out) + (if full && old(line) != "" then TrimEnd(old(line)) + "\n" else "") &&
        line == (if full || old(line) == "" then indent else old(line)) + s
      ensures Utf8Length(old(line)) <= columns && Utf8Length(indent) + Utf8Length(s) <= columns ==>
        Utf8Length(line) <= columns
    {
      if Utf8Length(line) + Utf8Length(s) > columns {
        FlushLine();
      }
      if line == "" {
        line := indent;
      }
      Utf8LengthAppend(line, s);
      line := line + s;
    }

    /** Set the indent that starts every new line. */
    method Indent(s: string)
      modifies this
      ensures indent == s && out == old(out) && line == old(line) && columns == old(columns)
    {
      indent := s;
    }

    /** Write the current line, without trailing whitespace and with a newline, and clear it; an empty line writes nothing. */
    method FlushLine()
      modifies this
      ensures columns == old(columns) && indent == old(indent) && line == ""
      ensures out == old(out) + (if old(line) == "" then "" else TrimEnd(old(line)) + "\n")
    {
      if line == "" {
        return;
      }
      out := out + TrimEnd(line) + "\n";
      line := "";
    }

    /** Raw output (the `io::Write` impl): flush the current line, then pass `buf` through. */
    method Write(buf: string) returns (n: nat)
      modifies this
      ensures n == |buf| && line == "" && columns == old(columns) && indent == old(indent)
      ensures out == old(out) + (if old(line) == "" then "" else TrimEnd(old(line)) + "\n") + buf
    {
      FlushLine();
      out := out + buf;
      n := |buf|;
    }
  }
}
