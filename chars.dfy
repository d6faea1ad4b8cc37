/**
 * The parts of .NET's `System.Char` and `String.ToLowerInvariant` that the
 * name mapper relies on. They follow the Unicode character database exactly
 * for U+0000..U+00FF (ASCII and Latin-1); every character above that range is
 * treated as neither upper case nor white space and is left unchanged by
 * lower-casing. A `char` here is a Unicode scalar value, not a UTF-16 code
 * unit as in .NET, so positions and lengths differ for text above U+FFFF.
 */
module Chars {

  /** `char.MinValue`, the initial "previous character" of the word splitter. */
  const MinValue: char := '\0'

  /** `char.IsUpper`: A-Z and the Latin-1 capitals U+00C0..U+00DE except U+00D7 (the multiplication sign). */
  predicate IsUpper(c: char) {
    ('A' <= c <= 'Z') || ('\U{C0}' <= c <= '\U{DE}' && c != '\U{D7}')
  }

  /** `char.IsWhiteSpace`: space, U+0009..U+000D, U+0085 (next line) and U+00A0 (no-break space). */
  predicate IsWhiteSpace(c: char) {
    c == ' ' || ('\t' <= c <= '\r') || c == '\U{85}' || c == '\U{A0}'
  }

  /** Invariant-culture lower-casing of one character; every capital above maps 32 code points up. */
  function ToLowerChar(c: char): (r: char)
    ensures !IsUpper(r)
    ensures r == c <==> !IsUpper(c)
    ensures r == '-' <==> c == '-'
    ensures r == '_' <==> c == '_'
  {
    if IsUpper(c) then (c as int + 32) as char else c
  }

  /** `String.ToLowerInvariant`: lower-cases every character and keeps the length. */
  function ToLowerInvariant(s: string): (r: string)
    ensures |r| == |s|
    ensures NoUpper(r)
  {
    seq(|s|, i requires 0 <= i < |s| => ToLowerChar(s[i]))
  }

  /** No character of `s` is upper case. */
  predicate NoUpper(s: string) {
    forall i :: 0 <= i < |s| ==> !IsUpper(s[i])
  }

  /** Case-insensitive equality, as the enum name match uses it. */
  predicate EqualsIgnoreCase(a: string, b: string) {
    ToLowerInvariant(a) == ToLowerInvariant(b)
  }

  /** Lower-casing an already lower-cased string changes nothing. */
  lemma LowerIdempotent(s: string)
    ensures ToLowerInvariant(ToLowerInvariant(s)) == ToLowerInvariant(s)
  {
    var once := ToLowerInvariant(s);
    assert forall i :: 0 <= i < |once| ==> ToLowerChar(once[i]) == once[i];
  }

  /** Lower-casing neither adds nor removes a `-`. */
  lemma LowerKeepsDashes(s: string)
    ensures '-' in ToLowerInvariant(s) <==> '-' in s
  {
    var r := ToLowerInvariant(s);
    if '-' in r {
      var i :| 0 <= i < |r| && r[i] == '-';
      assert s[i] == '-';
    }
    if '-' in s {
      var i :| 0 <= i < |s| && s[i] == '-';
      assert r[i] == '-';
    }
  }
}
