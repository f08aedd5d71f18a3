/**
 * String semantics the core relies on, written out for the three runtimes involved:
 * Java (`toLowerCase`, `\s`, `trim`), SQL `LOWER`/`LIKE '%..%'` and JavaScript `trim`.
 * Lower-casing is ASCII only; see README.
 */
module Text {

  // ---------------------------------------------------------------- characters

  predicate IsAsciiUpper(c: char) { 'A' <= c <= 'Z' }
  predicate IsAsciiLower(c: char) { 'a' <= c <= 'z' }
  predicate IsDigit(c: char) { '0' <= c <= '9' }
  predicate IsAlnum(c: char) { IsAsciiLower(c) || IsDigit(c) }

  /** Java's predefined class `\s`: [ \t\n\x0B\f\r]. */
  predicate IsJavaSpace(c: char) {
    c == ' ' || c == '\t' || c == '\n' || c == '\U{000B}' || c == '\U{000C}' || c == '\r'
  }

  /** The characters Java's `String.trim` removes: every code point up to U+0020. */
  predicate IsJavaTrimmed(c: char) { c <= ' ' }

  /** ECMAScript WhiteSpace and LineTerminator, the characters `String.prototype.trim` removes. */
  predicate IsJsSpace(c: char) {
    c == '\t' || c == '\n' || c == '\U{000B}' || c == '\U{000C}' || c == '\r' || c == ' '
    || c == '\U{00A0}' || c == '\U{1680}' || ('\U{2000}' <= c <= '\U{200A}')
    || c == '\U{2028}' || c == '\U{2029}' || c == '\U{202F}' || c == '\U{205F}'
    || c == '\U{3000}' || c == '\U{FEFF}'
  }

  function LowerChar(c: char): (d: char)
    ensures !IsAsciiUpper(d)
    ensures IsAsciiUpper(c) || d == c
  {
    if IsAsciiUpper(c) then (c as int + 32) as char else c
  }

  /** ASCII lower-casing (Java `toLowerCase`, SQL `LOWER`). */
  function Lower(s: string): (r: string)
    ensures |r| == |s|
    ensures forall i :: 0 <= i < |s| ==> r[i] == LowerChar(s[i])
  {
    if s == [] then [] else [LowerChar(s[0])] + Lower(s[1..])
  }

  // ---------------------------------------------------------------- blankness and trim

  /** Bean Validation's `@NotBlank` rejects a string whose Java `trim()` is empty. */
  predicate IsJavaBlank(s: string) {
    forall i :: 0 <= i < |s| ==> IsJavaTrimmed(s[i])
  }

  function DropJsSpace(s: string): (r: string)
    ensures |r| <= |s| && r == s[|s| - |r|..]
    ensures r != [] ==> !IsJsSpace(r[0])
    ensures forall i :: 0 <= i < |s| - |r| ==> IsJsSpace(s[i])
  {
    if s != [] && IsJsSpace(s[0]) then DropJsSpace(s[1..]) else s
  }

  function DropJsSpaceRight(s: string): (r: string)
    ensures |r| <= |s| && r == s[..|r|]
    ensures r != [] ==> !IsJsSpace(r[|r| - 1])
    ensures forall i :: |r| <= i < |s| ==> IsJsSpace(s[i])
  {
    if s != [] && IsJsSpace(s[|s| - 1]) then DropJsSpaceRight(s[..|s| - 1]) else s
  }

  /** JavaScript `String.prototype.trim`. */
  function JsTrim(s: string): string {
    DropJsSpaceRight(DropJsSpace(s))
  }

  /** The trimmed string is empty exactly when every character is JavaScript white space. */
  lemma JsTrimEmpty(s: string)
    ensures JsTrim(s) == "" <==> forall i :: 0 <= i < |s| ==> IsJsSpace(s[i])
  {
    var d := DropJsSpace(s);
    if JsTrim(s) == "" {
      forall i | 0 <= i < |s| ensures IsJsSpace(s[i]) {
        if i >= |s| - |d| {
          assert s[i] == d[i - (|s| - |d|)];
        }
      }
    } else {
      var t := JsTrim(s);
      assert !IsJsSpace(t[0]);
      assert t[0] == d[0] == s[|s| - |d|];
    }
  }

  /** The trimmed string carries no white space at either end. */
  lemma JsTrimEnds(s: string)
    ensures var t := JsTrim(s); t != [] ==> !IsJsSpace(t[0]) && !IsJsSpace(t[|t| - 1])
  {
    var d := DropJsSpace(s);
    var t := JsTrim(s);
    if t != [] {
      assert t[0] == d[0];
    }
  }

  // ---------------------------------------------------------------- substring search

  /** SQL `x LIKE CONCAT('%', y, '%')` read as plain substring containment. */
  predicate Contains(hay: string, needle: string)
    decreases |hay|
  {
    needle <= hay || (hay != [] && Contains(hay[1..], needle))
  }

  /** `needle` occurs in `hay` starting at index `i`. */
  predicate OccursAt(hay: string, needle: string, i: nat) {
    i + |needle| <= |hay| && hay[i..i + |needle|] == needle
  }

  /** `Contains` agrees with the positional definition of a substring. */
  lemma {:induction false} ContainsAt(hay: string, needle: string)
    ensures Contains(hay, needle) <==> exists i: nat :: OccursAt(hay, needle, i)
    decreases |hay|
  {
    if needle <= hay {
      assert OccursAt(hay, needle, 0);
    } else if hay == [] {
    } else {
      ContainsAt(hay[1..], needle);
      if Contains(hay[1..], needle) {
        var i: nat :| OccursAt(hay[1..], needle, i);
        assert hay[1..][i..i + |needle|] == hay[i + 1..i + 1 + |needle|];
        assert OccursAt(hay, needle, i + 1);
      } else {
        forall i: nat | OccursAt(hay, needle, i) ensures false {
          if i > 0 {
            assert hay[i..i + |needle|] == hay[1..][i - 1..i - 1 + |needle|];
            assert OccursAt(hay[1..], needle, i - 1);
          }
        }
      }
    }
  }

  // ---------------------------------------------------------------- decimal numerals

  function DigitChar(d: nat): (c: char)
    requires d < 10
    ensures IsDigit(c)
  {
    ['0', '1', '2', '3', '4', '5', '6', '7', '8', '9'][d]
  }

  function DigitValue(c: char): nat
    requires IsDigit(c)
  {
    c as int - '0' as int
  }

  /** Java's `"" + n` for a non-negative `n`: no sign, no leading zeros. */
  function Decimal(n: nat): (r: string)
    ensures r != [] && forall i :: 0 <= i < |r| ==> IsDigit(r[i])
    ensures n >= 10 ==> r[0] != '0'
  {
    if n < 10 then [DigitChar(n)] else Decimal(n / 10) + [DigitChar(n % 10)]
  }

  /** Reads a string of digits back as a number. */
  function ParseDecimal(s: string): nat
    requires forall i :: 0 <= i < |s| ==> IsDigit(s[i])
  {
    if s == [] then 0 else ParseDecimal(s[..|s| - 1]) * 10 + DigitValue(s[|s| - 1])
  }

  lemma {:induction false} ParseDecimalOfDecimal(n: nat)
    ensures ParseDecimal(Decimal(n)) == n
  {
    if n >= 10 {
      var s := Decimal(n);
      assert s[..|s| - 1] == Decimal(n / 10);
      ParseDecimalOfDecimal(n / 10);
    } else {
      var s := Decimal(n);
      assert s[..|s| - 1] == [];
    }
  }

  /** Distinct numbers print differently. */
  lemma DecimalInjective(m: nat, n: nat)
    ensures Decimal(m) == Decimal(n) ==> m == n
  {
    ParseDecimalOfDecimal(m);
    ParseDecimalOfDecimal(n);
  }

  /** Java's `"" + id` for a `Long` id, with the minus sign of a negative one. */
  function IntToString(i: int): (r: string)
    ensures r != []
    ensures (r[0] == '-') <==> i < 0
  {
    if i < 0 then "-" + Decimal(-i) else Decimal(i)
  }
}
