/**
  ASCII case folding and white space.

  The program compares, lowercases and trims byte strings with Rust's ASCII-only operations. A
  byte is modelled as a `char`; nothing below depends on a character being under 256, so every
  statement holds in particular for all byte strings.
 */
module Ascii {
  function LowerChar(c: char): char {
    if 'A' <= c <= 'Z' then (c as int + 32) as char else c
  }

  /** `to_ascii_lowercase`. */
  function Lower(s: string): (r: string)
    ensures |r| == |s|
  {
    seq(|s|, i requires 0 <= i < |s| => LowerChar(s[i]))
  }

  /** `eq_ignore_ascii_case`. */
  predicate EqIgnoreCase(a: string, b: string) {
    Lower(a) == Lower(b)
  }

  lemma LowerConcat(a: string, b: string)
    ensures Lower(a + b) == Lower(a) + Lower(b)
  {
  }

  lemma LowerSlice(s: string, i: nat, j: nat)
    requires i <= j <= |s|
    ensures Lower(s[i..j]) == Lower(s)[i..j]
  {
  }

  lemma LowerTwice(s: string)
    ensures Lower(Lower(s)) == Lower(s)
  {
  }

  /** `u8::is_ascii_whitespace`: space, tab, line feed, form feed, carriage return. */
  predicate IsSpace(c: char) {
    c == ' ' || c == '\t' || c == '\n' || c == '\U{0C}' || c == '\r'
  }

  /** `trim_ascii_start`. */
  function TrimStart(s: string): (r: string)
    ensures |r| <= |s|
  {
    if |s| > 0 && IsSpace(s[0]) then TrimStart(s[1..]) else s
  }

  /** `trim_ascii_end`. */
  function TrimEnd(s: string): (r: string)
    ensures |r| <= |s|
  {
    if |s| > 0 && IsSpace(s[|s| - 1]) then TrimEnd(s[..|s| - 1]) else s
  }

  lemma {:induction false} TrimStartExact(s: string)
    ensures var k := |s| - |TrimStart(s)|;
      && TrimStart(s) == s[k..]
      && (forall i :: 0 <= i < k ==> IsSpace(s[i]))
      && (TrimStart(s) != "" ==> !IsSpace(TrimStart(s)[0]))
  {
    if |s| > 0 && IsSpace(s[0]) {
      TrimStartExact(s[1..]);
      var k := |s| - |TrimStart(s)|;
      assert s[1..][k - 1..] == s[k..];
      assert forall i :: 0 < i < k ==> s[i] == s[1..][i - 1];
    }
  }

  lemma {:induction false} TrimEndExact(s: string)
    ensures var k := |TrimEnd(s)|;
      && TrimEnd(s) == s[..k]
      && (forall i :: k <= i < |s| ==> IsSpace(s[i]))
      && (k > 0 ==> !IsSpace(s[k - 1]))
  {
    if |s| > 0 && IsSpace(s[|s| - 1]) {
      TrimEndExact(s[..|s| - 1]);
    }
  }

  /** `trim_ascii`. */
  function Trim(s: string): string {
    TrimEnd(TrimStart(s))
  }

  /** Case-folding a whole list of labels. */
  function LowerAll(labels: seq<string>): (r: seq<string>)
    ensures |r| == |labels|
  {
    seq(|labels|, i requires 0 <= i < |labels| => Lower(labels[i]))
  }
}
