/**
 Character-level helpers used by the page enhancements: lower-casing, substring
 search (`String.prototype.includes`), preview truncation and the decimal
 rendering of an index inside a template literal.
 */
module Text {

  /** Default `maxLength` of the preview truncation. */
  const MaxPreview: nat := 150

  /** Marker appended to a truncated preview. */
  const Ellipsis: string := "..."

  // ---------------------------------------------------------------------------
  // Lower-casing (ASCII letters only)

  predicate IsUpper(c: char) {
    'A' <= c <= 'Z'
  }

  function LowerChar(c: char): (r: char)
    ensures !IsUpper(r)
    ensures IsUpper(c) ==> r as int == c as int + 32
    ensures !IsUpper(c) ==> r == c
  {
    if IsUpper(c) then (c as int + 32) as char else c
  }

  /** `toLowerCase`, restricted to the ASCII letters. */
  function Lower(s: string): (r: string)
    ensures |r| == |s|
    ensures forall i :: 0 <= i < |s| ==> r[i] == LowerChar(s[i])
  {
    if |s| == 0 then [] else Lower(s[..|s| - 1]) + [LowerChar(s[|s| - 1])]
  }

  /** Lower-casing twice is lower-casing once, and leaves no upper-case letter. */
  lemma LowerIdempotent(s: string)
    ensures Lower(Lower(s)) == Lower(s)
    ensures forall i :: 0 <= i < |s| ==> !IsUpper(Lower(s)[i])
  {
  }

  // ---------------------------------------------------------------------------
  // Substring search

  /** `q` occurs in `s` starting at position `i`. */
  predicate OccursAt(s: string, q: string, i: int) {
    0 <= i && i + |q| <= |s| && s[i..i + |q|] == q
  }

  /** `s.includes(q)`, written as a scan from the front. */
  predicate Contains(s: string, q: string)
    ensures Contains(s, q) ==> |q| <= |s|
    ensures |q| == 0 ==> Contains(s, q)
    decreases |s|
  {
    q <= s || (|s| > 0 && Contains(s[1..], q))
  }

  /** An occurrence at any position is found by the scan. */
  lemma {:induction false} OccursImpliesContains(s: string, q: string, i: int)
    requires OccursAt(s, q, i)
    ensures Contains(s, q)
    decreases i
  {
    if i > 0 {
      assert s[1..][i - 1..i - 1 + |q|] == s[i..i + |q|];
      OccursImpliesContains(s[1..], q, i - 1);
    }
  }

  /** The scan finds `q` exactly when it occurs at some position of `s`. */
  lemma {:induction false} ContainsIffOccurs(s: string, q: string)
    ensures Contains(s, q) <==> exists i :: OccursAt(s, q, i)
    decreases |s|
  {
    forall i | OccursAt(s, q, i) {
      OccursImpliesContains(s, q, i);
    }
    if q <= s {
      assert OccursAt(s, q, 0);
    } else if Contains(s, q) {
      ContainsIffOccurs(s[1..], q);
      var i :| OccursAt(s[1..], q, i);
      assert s[i + 1..i + 1 + |q|] == s[1..][i..i + |q|];
      assert OccursAt(s, q, i + 1);
    }
  }

  // ---------------------------------------------------------------------------
  // Preview truncation

  /**
   The preview of a search hit: text longer than `MaxPreview` keeps its first
   `MaxPreview` characters followed by the ellipsis; shorter text is kept whole.
   */
  function Truncate(text: string): (r: string)
    ensures |r| <= MaxPreview + |Ellipsis|
    ensures |text| <= MaxPreview ==> r == text
    ensures |text| > MaxPreview ==>
      |r| == MaxPreview + |Ellipsis| && text[..MaxPreview] <= r && r[MaxPreview..] == Ellipsis
  {
    if |text| > MaxPreview then text[..MaxPreview] + Ellipsis else text
  }

  /** Truncating a preview again changes nothing. */
  lemma TruncateIdempotent(text: string)
    ensures Truncate(Truncate(text)) == Truncate(text)
  {
  }

  /**
   The texts a preview leaves as they are: the short ones, and the ones of
   exactly `MaxPreview + 3` characters that already end in the ellipsis.
   */
  lemma TruncateFixedPoints(text: string)
    ensures Truncate(text) == text <==>
      |text| <= MaxPreview || (|text| == MaxPreview + |Ellipsis| && text[MaxPreview..] == Ellipsis)
  {
  }

  /** Two long texts with the same first `MaxPreview` characters get the same preview. */
  lemma TruncateDependsOnPrefix(a: string, b: string)
    requires |a| > MaxPreview && |b| > MaxPreview
    requires a[..MaxPreview] == b[..MaxPreview]
    ensures Truncate(a) == Truncate(b)
  {
  }

  // ---------------------------------------------------------------------------
  // Decimal rendering of a natural number

  predicate IsDigit(c: char) {
    '0' <= c <= '9'
  }

  function DigitChar(d: nat): (c: char)
    requires d < 10
    ensures IsDigit(c)
  {
    (d + '0' as int) as char
  }

  function DigitValue(c: char): (d: nat)
    requires IsDigit(c)
    ensures d < 10
  {
    c as int - '0' as int
  }

  /** `${n}` for a non-negative integer: its decimal digits, most significant first. */
  function NatToString(n: nat): (r: string)
    ensures |r| >= 1
    ensures forall i :: 0 <= i < |r| ==> IsDigit(r[i])
    ensures r[0] == '0' <==> n == 0
    ensures n == 0 ==> r == "0"
    decreases n
  {
    if n < 10 then [DigitChar(n)] else NatToString(n / 10) + [DigitChar(n % 10)]
  }

  /** Reads a string of decimal digits back as a number. */
  function ParseNat(s: string): nat
    requires forall i :: 0 <= i < |s| ==> IsDigit(s[i])
  {
    if |s| == 0 then 0 else ParseNat(s[..|s| - 1]) * 10 + DigitValue(s[|s| - 1])
  }

  /** Parsing the decimal rendering gives the number back. */
  lemma {:induction false} ParseNatToString(n: nat)
    ensures ParseNat(NatToString(n)) == n
    decreases n
  {
    var s := NatToString(n);
    if n >= 10 {
      ParseNatToString(n / 10);
      assert s[..|s| - 1] == NatToString(n / 10);
    }
  }

  /** Distinct numbers render as distinct strings. */
  lemma NatToStringInjective(m: nat, n: nat)
    ensures NatToString(m) == NatToString(n) ==> m == n
  {
    ParseNatToString(m);
    ParseNatToString(n);
  }
}
