/** Character classes of Python's `re` module and small string helpers. */
module Text {
  import opened Dicts

  /** `\s` for a `str` pattern: ASCII whitespace, the separators U+001C to
      U+001F and the Unicode white space characters. */
  predicate IsSpace(c: char) {
    c == ' ' || c == '\t' || c == '\n' || c == '\r' || c == '\U{B}' || c == '\U{C}'
    || ('\U{1C}' <= c <= '\U{1F}') || c == '\U{85}' || c == '\U{A0}' || c == '\U{1680}'
    || ('\U{2000}' <= c <= '\U{200A}') || c == '\U{2028}' || c == '\U{2029}'
    || c == '\U{202F}' || c == '\U{205F}' || c == '\U{3000}'
  }

  predicate IsAsciiLetter(c: char) {
    ('a' <= c <= 'z') || ('A' <= c <= 'Z')
  }

  predicate IsDigit(c: char) {
    '0' <= c <= '9'
  }

  /** `\w`, restricted to ASCII: letters, digits and the underscore. */
  predicate IsWordChar(c: char) {
    IsAsciiLetter(c) || IsDigit(c) || c == '_'
  }

  function UpperChar(c: char): char {
    if 'a' <= c <= 'z' then (c as int - 32) as char else c
  }

  function LowerChar(c: char): char {
    if 'A' <= c <= 'Z' then (c as int + 32) as char else c
  }

  /** `str.upper()` on ASCII letters. */
  function Upper(s: string): (r: string)
    ensures |r| == |s|
    ensures forall i :: 0 <= i < |s| ==> r[i] == UpperChar(s[i])
  {
    if s == [] then [] else [UpperChar(s[0])] + Upper(s[1..])
  }

  /** `str.lower()` on ASCII letters. */
  function Lower(s: string): (r: string)
    ensures |r| == |s|
    ensures forall i :: 0 <= i < |s| ==> r[i] == LowerChar(s[i])
  {
    if s == [] then [] else [LowerChar(s[0])] + Lower(s[1..])
  }

  /** `s.replace(c, "")` for a single character `c`. */
  function Erase(s: string, c: char): (r: string)
    ensures forall i :: 0 <= i < |r| ==> r[i] != c
    ensures |r| <= |s|
  {
    if s == [] then [] else (if s[0] == c then [] else [s[0]]) + Erase(s[1..], c)
  }

  lemma {:induction false} EraseAppend(a: string, b: string, c: char)
    ensures Erase(a + b, c) == Erase(a, c) + Erase(b, c)
  {
    if a != [] {
      var h := if a[0] == c then [] else [a[0]];
      assert (a + b)[0] == a[0];
      assert (a + b)[1..] == a[1..] + b;
      EraseAppend(a[1..], b, c);
      calc {
        Erase(a + b, c);
        h + Erase(a[1..] + b, c);
        h + (Erase(a[1..], c) + Erase(b, c));
        (h + Erase(a[1..], c)) + Erase(b, c);
        Erase(a, c) + Erase(b, c);
      }
    } else {
      assert a + b == b;
    }
  }

  /** Whether the literal `lit` occurs in `s` at position `i`. */
  predicate At(s: string, i: nat, lit: string) {
    i + |lit| <= |s| && s[i..i + |lit|] == lit
  }

  predicate Contains(s: string, c: char) {
    exists i :: 0 <= i < |s| && s[i] == c
  }

  /** A character absent from `s` is absent from each of its suffixes. */
  lemma {:induction false} AbsentFromSuffix(s: string, c: char, k: nat)
    requires !Contains(s, c) && k <= |s|
    ensures !Contains(s[k..], c)
  {
    forall i | 0 <= i < |s[k..]| ensures s[k..][i] != c {
      assert s[k..][i] == s[k + i];
    }
  }

  /** A literal whose first character is absent from `s` occurs nowhere in it. */
  lemma {:induction false} AbsentLead(s: string, lit: string)
    requires |lit| > 0 && !Contains(s, lit[0])
    ensures forall i: nat :: !At(s, i, lit)
  {
    forall i: nat ensures !At(s, i, lit) {
      if i + |lit| <= |s| {
        assert s[i..i + |lit|][0] == s[i];
      }
    }
  }

  /** First occurrence of `lit` at or after `i`: what `.*?lit` with DOTALL
      reaches, and the search of `str.index`. */
  function FindLit(s: string, lit: string, i: nat): (r: Option<nat>)
    ensures r.Some? ==> i <= r.value && At(s, r.value, lit)
    ensures r.Some? ==> forall k :: i <= k < r.value ==> !At(s, k, lit)
    ensures r.None? ==> forall k :: i <= k ==> !At(s, k, lit)
    decreases |s| - i
  {
    if i + |lit| > |s| then None
    else if At(s, i, lit) then Some(i)
    else FindLit(s, lit, i + 1)
  }

  /** The first occurrence at or after `i` is found. */
  lemma {:induction false} FindLitFirst(s: string, lit: string, i: nat, k: nat)
    requires i <= k && At(s, k, lit)
    requires forall j :: i <= j < k ==> !At(s, j, lit)
    ensures FindLit(s, lit, i) == Some(k)
    decreases k - i
  {
    if i < k {
      FindLitFirst(s, lit, i + 1, k);
    }
  }

  /** Searching from `off` where `s` reads `x + lit`, and `lit` does not
      occur earlier in `x + lit`, finds `lit` right after `x`. */
  lemma {:induction false} FindLitAfter(s: string, x: string, lit: string, off: nat)
    requires off + |x| + |lit| <= |s| && s[off..off + |x| + |lit|] == x + lit
    requires forall k :: 0 <= k < |x| ==> !At(x + lit, k, lit)
    ensures FindLit(s, lit, off) == Some(off + |x|)
  {
    AtWithin(s, x + lit, off, |x|, lit);
    forall k | off <= k < off + |x| ensures !At(s, k, lit) {
      AtWithin(s, x + lit, off, k - off, lit);
    }
    FindLitFirst(s, lit, off, off + |x|);
  }

  /** Inside a stretch `u` of `s`, a literal occurs in `s` exactly where it
      occurs in `u`. */
  lemma {:induction false} AtWithin(s: string, u: string, off: nat, j: nat, lit: string)
    requires off + |u| <= |s| && s[off..off + |u|] == u && j + |lit| <= |u|
    ensures At(s, off + j, lit) == At(u, j, lit)
  {
    var x, y := s[off + j..off + j + |lit|], u[j..j + |lit|];
    forall q | 0 <= q < |lit| ensures x[q] == y[q] {
      assert s[off..off + |u|][j + q] == s[off + j + q];
    }
    assert x == y;
  }
}
