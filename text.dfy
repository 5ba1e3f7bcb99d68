/**
 * The string primitives the review classifier relies on, as Rust's standard
 * library defines them: `str::trim_start`, `str::starts_with` and
 * `str::eq_ignore_ascii_case`. Strings are sequences of Unicode scalar values.
 */
module Text {

  /** Rust's `char::is_whitespace`: the characters with the Unicode White_Space property. */
  predicate IsWhitespace(c: char)
  {
    ('\t' <= c <= '\r') || c == ' ' || c == '\U{0085}' || c == '\U{00A0}' ||
    c == '\U{1680}' || ('\U{2000}' <= c <= '\U{200A}') || c == '\U{2028}' ||
    c == '\U{2029}' || c == '\U{202F}' || c == '\U{205F}' || c == '\U{3000}'
  }

  predicate AllWhitespace(s: string)
  {
    forall i :: 0 <= i < |s| ==> IsWhitespace(s[i])
  }

  /** The number of whitespace characters that start `s`. */
  function LeadingWhitespace(s: string): (n: nat)
    ensures n <= |s| && AllWhitespace(s[..n])
    ensures n < |s| ==> !IsWhitespace(s[n])
  {
    if s != [] && IsWhitespace(s[0]) then 1 + LeadingWhitespace(s[1..]) else 0
  }

  /** `str::trim_start`: the suffix left after dropping all leading whitespace. */
  function TrimStart(s: string): string
  {
    s[LeadingWhitespace(s)..]
  }

  /** `str::starts_with` for a string pattern. */
  predicate StartsWith(s: string, prefix: string)
  {
    |prefix| <= |s| && s[..|prefix|] == prefix
  }

  /** `u8::to_ascii_lowercase` lifted to characters: only 'A'..'Z' change. */
  function AsciiLower(c: char): (r: char)
    ensures 'A' <= c <= 'Z' ==> 'a' <= r <= 'z'
    ensures !('A' <= c <= 'Z') ==> r == c
  {
    if 'A' <= c <= 'Z' then (c as int + 32) as char else c
  }

  function AsciiLowercase(s: string): (r: string)
    ensures |r| == |s|
    ensures forall i :: 0 <= i < |s| ==> r[i] == AsciiLower(s[i])
  {
    seq(|s|, i requires 0 <= i < |s| => AsciiLower(s[i]))
  }

  /** `str::eq_ignore_ascii_case`: equal lengths and equal characters up to ASCII case. */
  predicate EqIgnoreAsciiCase(a: string, b: string)
  {
    |a| == |b| && (a == [] || (AsciiLower(a[0]) == AsciiLower(b[0]) && EqIgnoreAsciiCase(a[1..], b[1..])))
  }

  /** Comparing up to ASCII case is comparing character by character after lowering. */
  lemma {:induction false} EqIgnoreAsciiCaseAt(a: string, b: string)
    ensures EqIgnoreAsciiCase(a, b) <==> |a| == |b| && forall i :: 0 <= i < |a| ==> AsciiLower(a[i]) == AsciiLower(b[i])
  {
    if |a| == |b| && a != [] {
      EqIgnoreAsciiCaseAt(a[1..], b[1..]);
      assert forall i :: 1 <= i < |a| ==> a[i] == a[1..][i - 1] && b[i] == b[1..][i - 1];
    }
  }

  lemma {:induction false} EqIgnoreAsciiCaseReflexive(a: string)
    ensures EqIgnoreAsciiCase(a, a)
  {
    if a != [] {
      EqIgnoreAsciiCaseReflexive(a[1..]);
    }
  }

  /** Comparing up to ASCII case is comparing the ASCII-lowercased strings. */
  lemma EqIgnoreAsciiCaseIsLowercaseEquality(a: string, b: string)
    ensures EqIgnoreAsciiCase(a, b) <==> AsciiLowercase(a) == AsciiLowercase(b)
  {
    EqIgnoreAsciiCaseAt(a, b);
    if AsciiLowercase(a) == AsciiLowercase(b) {
      forall i | 0 <= i < |a| ensures AsciiLower(a[i]) == AsciiLower(b[i]) {
        assert AsciiLowercase(a)[i] == AsciiLowercase(b)[i];
      }
    }
  }

  /** Leading whitespace never matters to `trim_start`. */
  lemma {:induction false} TrimStartSkipsWhitespace(ws: string, s: string)
    requires AllWhitespace(ws)
    ensures TrimStart(ws + s) == TrimStart(s)
  {
    if ws == [] {
      assert ws + s == s;
    } else {
      assert (ws + s)[0] == ws[0] && (ws + s)[1..] == ws[1..] + s;
      TrimStartSkipsWhitespace(ws[1..], s);
    }
  }

  /** Trimming twice is trimming once. */
  lemma TrimStartIdempotent(s: string)
    ensures TrimStart(TrimStart(s)) == TrimStart(s)
  {
  }
}
