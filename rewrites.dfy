/** The string rewrites that turn LabVIEW's exported VI strings into XML,
    each a single `re.subn` pass written out as a left-to-right scan: a
    match is replaced and scanning resumes after it, otherwise one character
    is copied. A lazy `.*?` stops at the first chance to finish and, without
    DOTALL, never crosses a newline. */
module Rewrites {
  import opened Dicts
  import opened Text

  // ---------------------------------------------------------------------
  // Scanning helpers

  /** First occurrence of `lit` at or after `i` that `.*?lit` can reach
      without crossing a newline. */
  function FindInLine(s: string, lit: string, i: nat): (r: Option<nat>)
    requires |lit| > 0 && lit[0] != '\n'
    ensures r.Some? ==> i <= r.value && At(s, r.value, lit)
    ensures r.Some? ==> forall k :: i <= k < r.value ==> s[k] != '\n' && !At(s, k, lit)
    decreases |s| - i
  {
    if i >= |s| then None
    else if At(s, i, lit) then Some(i)
    else if s[i] == '\n' then None
    else FindInLine(s, lit, i + 1)
  }

  /** `t` is `s` with copies of `lit` inserted at some places. */
  predicate InsertsOnly(s: string, t: string, lit: string)
    decreases |t|
  {
    if t == [] then s == []
    else
      (|lit| > 0 && At(t, 0, lit) && InsertsOnly(s, t[|lit|..], lit))
      || (s != [] && s[0] == t[0] && InsertsOnly(s[1..], t[1..], lit))
  }

  lemma {:induction false} InsertsOnlyCommon(a: string, s: string, t: string, lit: string)
    requires InsertsOnly(s, t, lit)
    ensures InsertsOnly(a + s, a + t, lit)
    decreases |a|
  {
    if a != [] {
      InsertsOnlyCommon(a[1..], s, t, lit);
      assert (a + s)[1..] == a[1..] + s;
      assert (a + t)[1..] == a[1..] + t;
    } else {
      assert a + s == s && a + t == t;
    }
  }

  lemma {:induction false} InsertsOnlyInsert(s: string, t: string, lit: string)
    requires |lit| > 0 && InsertsOnly(s, t, lit)
    ensures InsertsOnly(s, lit + t, lit)
  {
    assert (lit + t)[|lit|..] == t;
    assert At(lit + t, 0, lit) by { assert (lit + t)[..|lit|] == lit; }
  }

  /** `t` keeps some of the characters of `s`, in order. */
  predicate IsSubsequence(t: string, s: string)
    decreases |s|
  {
    if t == [] then true
    else s != [] && ((t[0] == s[0] && IsSubsequence(t[1..], s[1..])) || IsSubsequence(t, s[1..]))
  }

  lemma {:induction false} SubsequenceCommon(a: string, t: string, s: string)
    requires IsSubsequence(t, s)
    ensures IsSubsequence(a + t, a + s)
    decreases |a|
  {
    if a != [] {
      SubsequenceCommon(a[1..], t, s);
      assert (a + t)[1..] == a[1..] + t;
      assert (a + s)[1..] == a[1..] + s;
    } else {
      assert a + t == t && a + s == s;
    }
  }

  lemma {:induction false} SubsequenceDrop(a: string, t: string, s: string)
    requires IsSubsequence(t, s)
    ensures IsSubsequence(t, a + s)
    decreases |a|
  {
    if a != [] {
      SubsequenceDrop(a[1..], t, s);
      assert (a + s)[1..] == a[1..] + s;
    } else {
      assert a + s == s;
    }
  }

  lemma {:induction false} SubsequenceRefl(s: string)
    ensures IsSubsequence(s, s)
    decreases |s|
  {
    if s != [] {
      SubsequenceRefl(s[1..]);
    }
  }

  lemma {:induction false} AtTail(s: string, i: nat, lit: string)
    requires s != []
    ensures At(s[1..], i, lit) == At(s, i + 1, lit)
  {
    if i + |lit| <= |s| - 1 {
      assert s[1..][i..i + |lit|] == s[i + 1..i + 1 + |lit|];
    }
  }

  /** A longer literal can only occur where its prefix does. */
  lemma {:induction false} AtPrefix(s: string, p: string, q: string)
    ensures At(s, 0, p + q) ==> At(s, 0, p)
  {
    if At(s, 0, p + q) {
      assert s[..|p|] == s[..|p + q|][..|p|] == (p + q)[..|p|] == p;
    }
  }

  /** Length of the run of digits that starts `s`. */
  function DigitRun(s: string): (n: nat)
    ensures n <= |s|
    ensures forall i :: 0 <= i < n ==> IsDigit(s[i])
    ensures n < |s| ==> !IsDigit(s[n])
  {
    if s == [] || !IsDigit(s[0]) then 0 else 1 + DigitRun(s[1..])
  }

  // ---------------------------------------------------------------------
  // _removeparttext

  const TextPartEnd: string := "type=\"Text\">"

  /** Where `(<PART .*?type="Text">)(.*?)(</PART>)` with DOTALL matches at
      the start of `s`: the end `e` of its first group and the start `b` of
      its last. The first `type="Text">` is taken; a later one cannot help
      when no `</PART>` follows the first. */
  function TextPart(s: string): (r: Option<(nat, nat)>)
    ensures r.Some? ==> r.value.0 <= r.value.1 && At(s, r.value.1, "</PART>")
  {
    if !At(s, 0, "<PART ") then None
    else match FindLit(s, TextPartEnd, 6)
      case None => None
      case Some(a) =>
        match FindLit(s, "</PART>", a + |TextPartEnd|)
        case None => None
        case Some(b) => Some((a + |TextPartEnd|, b))
  }

  /** `_removeparttext`: the body of every Text part is dropped. */
  function RemovePartText(s: string): (r: string)
    ensures |r| <= |s|
    decreases |s|
  {
    if s == [] then []
    else match TextPart(s)
      case Some((e, b)) => s[..e] + "</PART>" + RemovePartText(s[b + 7..])
      case None => [s[0]] + RemovePartText(s[1..])
  }

  /** Removing Text-part bodies only deletes characters. */
  lemma {:induction false} RemovePartTextDeletesOnly(s: string)
    ensures IsSubsequence(RemovePartText(s), s)
    decreases |s|
  {
    if s != [] {
      match TextPart(s)
      case Some((e, b)) =>
        RemovePartTextDeletesOnly(s[b + 7..]);
        TextPartDeletesOnly(s, e, b);
      case None =>
        RemovePartTextDeletesOnly(s[1..]);
        SubsequenceCommon([s[0]], RemovePartText(s[1..]), s[1..]);
        assert s == [s[0]] + s[1..];
    }
  }

  /** Dropping one Text part's body only deletes characters. */
  lemma {:induction false} TextPartDeletesOnly(s: string, e: nat, b: nat)
    requires TextPart(s) == Some((e, b)) && s != []
    requires IsSubsequence(RemovePartText(s[b + 7..]), s[b + 7..])
    ensures IsSubsequence(RemovePartText(s), s)
  {
    TextPartStep(s, e, b);
    Splice(s, e, b, 7, RemovePartText(s[b + 7..]));
  }

  /** One step of `RemovePartText` at a Text part, with the closing tag
      taken from the input. */
  lemma {:induction false} TextPartStep(s: string, e: nat, b: nat)
    requires TextPart(s) == Some((e, b)) && s != []
    ensures b + 7 <= |s|
    ensures RemovePartText(s) == s[..e] + s[b..b + 7] + RemovePartText(s[b + 7..])
  {
    assert s[b..b + 7] == "</PART>";
  }

  /** Keeping a prefix and a later piece of `s`, then a subsequence of what
      follows the piece, gives a subsequence of `s`. */
  lemma {:induction false} Splice(s: string, e: nat, b: nat, w: nat, t: string)
    requires e <= b && b + w <= |s| && IsSubsequence(t, s[b + w..])
    ensures IsSubsequence(s[..e] + s[b..b + w] + t, s)
  {
    KeepEnds(s[..e], s[e..b], s[b..b + w], t, s[b + w..]);
    assert s == s[..e] + s[e..b] + s[b..b + w] + s[b + w..];
  }

  lemma {:induction false} KeepEnds(p: string, m: string, c: string, t: string, r: string)
    requires IsSubsequence(t, r)
    ensures IsSubsequence(p + c + t, p + m + c + r)
  {
    SubsequenceCommon(c, t, r);
    SubsequenceDrop(m, c + t, c + r);
    SubsequenceCommon(p, c + t, m + (c + r));
    assert p + c + t == p + (c + t);
    assert p + m + c + r == p + (m + (c + r));
  }

  /** Text without a `<PART ` tag passes unchanged. */
  lemma {:induction false} RemovePartTextUntouched(s: string)
    requires forall i: nat :: !At(s, i, "<PART ")
    ensures RemovePartText(s) == s
    decreases |s|
  {
    if s != [] {
      assert TextPart(s) == None;
      forall i: nat ensures !At(s[1..], i, "<PART ") {
        AtTail(s, i, "<PART ");
      }
      RemovePartTextUntouched(s[1..]);
    }
  }

  /** A Text part loses its body: `<PART a type="Text">b</PART>` becomes
      `<PART a type="Text"></PART>`, when `a` holds no `type="Text">` and
      `b` no `</PART>`, and the scan goes on after the part. */
  lemma {:induction false} RemovePartTextBody(a: string, b: string, rest: string)
    requires forall k :: 0 <= k < |a| ==> !At(a + TextPartEnd, k, TextPartEnd)
    requires forall k :: 0 <= k < |b| ==> !At(b + "</PART>", k, "</PART>")
    ensures RemovePartText("<PART " + a + TextPartEnd + b + "</PART>" + rest)
            == "<PART " + a + TextPartEnd + "</PART>" + RemovePartText(rest)
  {
    var s := "<PART " + a + TextPartEnd + b + "</PART>" + rest;
    var e := 6 + |a| + |TextPartEnd|;
    assert s[..6] == "<PART ";
    assert s[6..e] == a + TextPartEnd;
    assert s[e..e + |b| + 7] == b + "</PART>";
    TextPartOf(s, a, b, e);
    assert s[..e] == "<PART " + a + TextPartEnd;
    assert s[e + |b| + 7..] == rest;
  }

  /** The text part of a `<PART` element that reads `a`, `type="Text">`,
      `b`, `</PART>` is the `b` between its first `type="Text">` and the
      first `</PART>` after it. */
  lemma TextPartOf(s: string, a: string, b: string, e: nat)
    requires e == 6 + |a| + |TextPartEnd| && e + |b| + 7 <= |s|
    requires s[..6] == "<PART " && s[6..e] == a + TextPartEnd
    requires s[e..e + |b| + 7] == b + "</PART>"
    requires forall k :: 0 <= k < |a| ==> !At(a + TextPartEnd, k, TextPartEnd)
    requires forall k :: 0 <= k < |b| ==> !At(b + "</PART>", k, "</PART>")
    ensures TextPart(s) == Some((e, e + |b|))
  {
    FindLitAfter(s, a, TextPartEnd, 6);
    FindLitAfter(s, b, "</PART>", e);
    TextPartFound(s, 6 + |a|, e + |b|);
  }

  /** `TextPart` reads off the two searches it makes. */
  lemma TextPartFound(s: string, a: nat, b: nat)
    requires At(s, 0, "<PART ")
    requires FindLit(s, TextPartEnd, 6) == Some(a)
    requires FindLit(s, "</PART>", a + |TextPartEnd|) == Some(b)
    ensures TextPart(s) == Some((a + |TextPartEnd|, b))
  {
  }

  // ---------------------------------------------------------------------
  // _quote and _addquotes

  /** Characters that end an unquoted attribute value: `[\s>]`. */
  predicate EndsValue(c: char) {
    IsSpace(c) || c == '>'
  }

  /** The first position at or after `i` that ends a value. */
  function ValueEnd(s: string, i: nat): (r: Option<nat>)
    ensures r.Some? ==> i <= r.value < |s| && EndsValue(s[r.value])
    ensures r.Some? ==> forall k :: i <= k < r.value ==> !EndsValue(s[k])
    ensures r.None? ==> forall k :: i <= k < |s| ==> !EndsValue(s[k])
    decreases |s| - i
  {
    if i >= |s| then None
    else if EndsValue(s[i]) then Some(i)
    else ValueEnd(s, i + 1)
  }

  /** `_quote`: the replacement `="attr"end`. */
  function Quote(attr: string, end: char): (r: string)
    ensures |r| == |attr| + 4 && r[..2] == "=\"" && r[2..|attr| + 2] == attr
    ensures r[|attr| + 2] == '"' && r[|attr| + 3] == end
  {
    "=\"" + attr + "\"" + [end]
  }

  /** `re.subn(r'=(?!")(.*?)([\s>])', _quote, s)`: an `=` not followed by a
      quote has the text up to the next white space or `>` put in quotes. */
  function AddQuotes(s: string): (r: string)
    ensures |r| >= |s|
    decreases |s|
  {
    if s == [] then []
    else if s[0] == '=' && !(|s| > 1 && s[1] == '"') && ValueEnd(s, 1).Some? then
      var j := ValueEnd(s, 1).value;
      Quote(s[1..j], s[j]) + AddQuotes(s[j + 1..])
    else [s[0]] + AddQuotes(s[1..])
  }

  /** Adding quotes only inserts quote characters. */
  lemma {:induction false} AddQuotesInsertsOnlyQuotes(s: string)
    ensures InsertsOnly(s, AddQuotes(s), "\"")
    decreases |s|
  {
    if s != [] {
      if s[0] == '=' && !(|s| > 1 && s[1] == '"') && ValueEnd(s, 1).Some? {
        var j := ValueEnd(s, 1).value;
        AddQuotesInsertsOnlyQuotes(s[j + 1..]);
        QuoteInsertsOnly(s[1..j], s[j], s[j + 1..], AddQuotes(s[j + 1..]));
        assert s == "=" + s[1..j] + [s[j]] + s[j + 1..];
      } else {
        AddQuotesInsertsOnlyQuotes(s[1..]);
        InsertsOnlyCommon([s[0]], s[1..], AddQuotes(s[1..]), "\"");
        assert [s[0]] + s[1..] == s;
      }
    }
  }

  lemma {:induction false} QuoteInsertsOnly(attr: string, end: char, s: string, t: string)
    requires InsertsOnly(s, t, "\"")
    ensures InsertsOnly("=" + attr + [end] + s, Quote(attr, end) + t, "\"")
  {
    var q := "\"";
    InsertsOnlyCommon([end], s, t, q);
    InsertsAfter(attr, [end] + s, [end] + t, q);
    InsertsAfter("=", attr + ([end] + s), attr + q + ([end] + t), q);
    Regroup("=", attr, [end], s);
    assert "=\"" == "=" + q;
    RegroupQuoted("=", q, attr, [end], t);
  }

  lemma Regroup(a: string, b: string, c: string, d: string)
    ensures a + b + c + d == a + (b + (c + d))
  {
  }

  lemma RegroupQuoted(a: string, q: string, b: string, c: string, d: string)
    ensures a + q + b + q + c + d == a + q + (b + q + (c + d))
  {
  }

  /** An unquoted value is put in quotes: `=v` followed by the white space
      or `>` that ends it becomes `="v"` followed by that same character,
      and the scan goes on after it. */
  lemma {:induction false} AddQuotesValue(v: string, t: char, rest: string)
    requires EndsValue(t)
    requires forall i :: 0 <= i < |v| ==> !EndsValue(v[i])
    requires v != [] ==> v[0] != '"'
    ensures AddQuotes("=" + v + [t] + rest) == Quote(v, t) + AddQuotes(rest)
  {
    var s := "=" + v + [t] + rest;
    var j := 1 + |v|;
    assert s[1..j] == v && s[j] == t && s[j + 1..] == rest;
    assert s[1] == if v != [] then v[0] else t;
    ValueEndFirst(s, 1, j);
  }

  lemma {:induction false} ValueEndFirst(s: string, i: nat, k: nat)
    requires i <= k < |s| && EndsValue(s[k])
    requires forall j :: i <= j < k ==> !EndsValue(s[j])
    ensures ValueEnd(s, i) == Some(k)
    decreases k - i
  {
    if i < k {
      ValueEndFirst(s, i + 1, k);
    }
  }

  /** Text in which every `=` is followed by a quote passes unchanged. */
  lemma {:induction false} AddQuotesUntouched(s: string)
    requires forall i :: 0 <= i < |s| && s[i] == '=' ==> i + 1 < |s| && s[i + 1] == '"'
    ensures AddQuotes(s) == s
    decreases |s|
  {
    if s != [] {
      assert forall i :: 0 <= i < |s| - 1 && s[1..][i] == '=' ==> s[i + 1] == '=';
      AddQuotesUntouched(s[1..]);
    }
  }

  // ---------------------------------------------------------------------
  // _de_embed_elements

  const EmbeddedElements: seq<string> := ["B", "append"]

  /** `re.subn(f"<(</?{e}>)>", group 1, s)`: `<<e>>` becomes `<e>` and
      `<</e>>` becomes `</e>`. */
  function DeEmbedElement(s: string, e: string): (r: string)
    ensures |r| <= |s|
    decreases |s|
  {
    if s == [] then []
    else if At(s, 0, "<<" + e + ">>") then ("<" + e + ">") + DeEmbedElement(s[|e| + 4..], e)
    else if At(s, 0, "<</" + e + ">>") then ("</" + e + ">") + DeEmbedElement(s[|e| + 5..], e)
    else [s[0]] + DeEmbedElement(s[1..], e)
  }

  /** The number of digits when `<<([0-9]+)>>` matches at the start of `s`. */
  function NumberTag(s: string): (r: Option<nat>)
    ensures r.Some? ==> 0 < r.value && 4 + r.value <= |s| && At(s, 0, "<<") && At(s, 2 + r.value, ">>")
    ensures r.Some? ==> forall i :: 2 <= i < 2 + r.value ==> IsDigit(s[i])
  {
    if At(s, 0, "<<") && 0 < DigitRun(s[2..]) && At(s, 2 + DigitRun(s[2..]), ">>") then Some(DigitRun(s[2..]))
    else None
  }

  /** `re.subn("<<([0-9]+)>>", "__" + digits + "__", s)`. */
  function DeEmbedNumbers(s: string): (r: string)
    ensures |r| == |s|
    decreases |s|
  {
    if s == [] then []
    else match NumberTag(s)
      case Some(d) => "__" + s[2..2 + d] + "__" + DeEmbedNumbers(s[4 + d..])
      case None => [s[0]] + DeEmbedNumbers(s[1..])
  }

  /** `_de_embed_elements` after the first `k` element names of its loop. */
  function DeEmbedThrough(s: string, k: nat): (r: string)
    requires k <= |EmbeddedElements|
    ensures |r| <= |s|
  {
    if k == 0 then s else DeEmbedElement(DeEmbedThrough(s, k - 1), EmbeddedElements[k - 1])
  }

  /** `_de_embed_elements`: the `B` and `append` tags, then the numbers. */
  function DeEmbedElements(s: string): (r: string)
    ensures |r| <= |s|
  {
    DeEmbedNumbers(DeEmbedThrough(s, |EmbeddedElements|))
  }

  /** `<<e>>` becomes `<e>`, and the scan goes on after it. */
  lemma {:induction false} DeEmbedOpen(e: string, rest: string)
    ensures DeEmbedElement("<<" + e + ">>" + rest, e) == "<" + e + ">" + DeEmbedElement(rest, e)
  {
    var s := "<<" + e + ">>" + rest;
    assert s[..|e| + 4] == "<<" + e + ">>";
    assert s[|e| + 4..] == rest;
  }

  /** `<</e>>` becomes `</e>`, and the scan goes on after it. */
  lemma {:induction false} DeEmbedClose(e: string, rest: string)
    requires e == [] || e[0] != '/'
    ensures DeEmbedElement("<</" + e + ">>" + rest, e) == "</" + e + ">" + DeEmbedElement(rest, e)
  {
    var s := "<</" + e + ">>" + rest;
    assert s[..|e| + 5] == "<</" + e + ">>";
    assert s[|e| + 5..] == rest;
    assert !At(s, 0, "<<" + e + ">>") by {
      if |e| + 4 <= |s| {
        assert s[..|e| + 4][2] == '/';
        assert ("<<" + e + ">>")[2] != '/';
      }
    }
  }

  /** `<<digits>>` becomes `__digits__`, and the scan goes on after it. */
  lemma {:induction false} DeEmbedNumber(d: string, rest: string)
    requires d != [] && forall i :: 0 <= i < |d| ==> IsDigit(d[i])
    ensures DeEmbedNumbers("<<" + d + ">>" + rest) == "__" + d + "__" + DeEmbedNumbers(rest)
  {
    var s := "<<" + d + ">>" + rest;
    assert s[2..] == d + (">>" + rest);
    DigitRunOf(d, ">>" + rest);
    assert s[..2] == "<<";
    assert s[2 + |d|..4 + |d|] == ">>";
    assert NumberTag(s) == Some(|d|);
    assert s[2..2 + |d|] == d && s[4 + |d|..] == rest;
  }

  /** The run of digits of `d + t` is `d` when `t` does not start with one. */
  lemma {:induction false} DigitRunOf(d: string, t: string)
    requires forall i :: 0 <= i < |d| ==> IsDigit(d[i])
    requires t == [] || !IsDigit(t[0])
    ensures DigitRun(d + t) == |d|
    decreases |d|
  {
    if d == [] {
      assert d + t == t;
    } else {
      assert (d + t)[1..] == d[1..] + t;
      DigitRunOf(d[1..], t);
    }
  }

  method DeEmbedElementsLoop(s: string) returns (r: string)
    ensures r == DeEmbedElements(s)
  {
    r := s;
    for k := 0 to |EmbeddedElements|
      invariant r == DeEmbedThrough(s, k)
    {
      r := DeEmbedElement(r, EmbeddedElements[k]);
    }
    r := DeEmbedNumbers(r);
  }

  /** De-embedding a tag only deletes its extra angle brackets. */
  lemma {:induction false} DeEmbedElementDeletesOnly(s: string, e: string)
    ensures IsSubsequence(DeEmbedElement(s, e), s)
    decreases |s|
  {
    if s != [] {
      if At(s, 0, "<<" + e + ">>") {
        var tag := "<" + e + ">";
        var rest := s[|e| + 4..];
        DeEmbedElementDeletesOnly(rest, e);
        UnwrapDeletesOnly(tag, DeEmbedElement(rest, e), rest);
        assert s[..|e| + 4] == "<" + tag + ">";
        assert s == s[..|e| + 4] + rest;
      } else if At(s, 0, "<</" + e + ">>") {
        var tag := "</" + e + ">";
        var rest := s[|e| + 5..];
        DeEmbedElementDeletesOnly(rest, e);
        UnwrapDeletesOnly(tag, DeEmbedElement(rest, e), rest);
        assert s[..|e| + 5] == "<" + tag + ">";
        assert s == s[..|e| + 5] + rest;
      } else {
        DeEmbedElementDeletesOnly(s[1..], e);
        SubsequenceCommon([s[0]], DeEmbedElement(s[1..], e), s[1..]);
        assert [s[0]] + s[1..] == s;
      }
    }
  }

  lemma {:induction false} UnwrapDeletesOnly(tag: string, t: string, s: string)
    requires IsSubsequence(t, s)
    ensures IsSubsequence(tag + t, "<" + tag + ">" + s)
  {
    SubsequenceDrop(">", t, s);
    SubsequenceCommon(tag, t, ">" + s);
    SubsequenceDrop("<", tag + t, tag + (">" + s));
    assert "<" + tag + ">" + s == "<" + (tag + (">" + s));
  }

  /** Text without `<<` passes through de-embedding unchanged. */
  lemma {:induction false} DeEmbedUntouched(s: string)
    requires forall i: nat :: !At(s, i, "<<")
    ensures DeEmbedElements(s) == s
  {
    assert DeEmbedThrough(s, 1) == DeEmbedElement(s, "B");
    assert DeEmbedThrough(s, 2) == DeEmbedElement(DeEmbedElement(s, "B"), "append");
    DeEmbedElementUntouched(s, "B");
    DeEmbedElementUntouched(s, "append");
    DeEmbedNumbersUntouched(s);
  }

  lemma {:induction false} DeEmbedElementUntouched(s: string, e: string)
    requires forall i: nat :: !At(s, i, "<<")
    ensures DeEmbedElement(s, e) == s
    decreases |s|
  {
    if s != [] {
      assert !At(s, 0, "<<");
      AtPrefix(s, "<<", e + ">>");
      AtPrefix(s, "<<", "/" + e + ">>");
      assert "<<" + (e + ">>") == "<<" + e + ">>";
      assert "<<" + ("/" + e + ">>") == "<</" + e + ">>";
      forall i: nat ensures !At(s[1..], i, "<<") {
        AtTail(s, i, "<<");
      }
      DeEmbedElementUntouched(s[1..], e);
    }
  }

  lemma {:induction false} DeEmbedNumbersUntouched(s: string)
    requires forall i: nat :: !At(s, i, "<<")
    ensures DeEmbedNumbers(s) == s
    decreases |s|
  {
    if s != [] {
      assert !At(s, 0, "<<");
      forall i: nat ensures !At(s[1..], i, "<<") {
        AtTail(s, i, "<<");
      }
      DeEmbedNumbersUntouched(s[1..]);
    }
  }

  lemma {:induction false} DeEmbedBoldExample()
    ensures DeEmbedElement("<</B>>", "B") == "</B>"
  {
    assert "<</B>>"[0..5][2] != "<<B>>"[2];
    assert At("<</B>>", 0, "<</B>>");
  }

  lemma {:induction false} DeEmbedNumberExample()
    ensures DeEmbedNumbers("<<12>>") == "__12__"
  {
    assert DigitRun("12>>") == 2;
    assert At("<<12>>", 4, ">>");
    assert NumberTag("<<12>>") == Some(2);
  }

  // ---------------------------------------------------------------------
  // _close_elements

  const UnclosedElements: seq<string> :=
    ["NO_TITLE", "FONT", "LF", "CRLF", "SAME_AS_LABEL", "append", "NON_STRING", "SEP"]

  /** Where `<e.*?>` ends when it matches at the start of `s`: the first `>`
      after `<e` on the same line. */
  function OpenTagEnd(s: string, e: string): (r: Option<nat>)
    ensures r.Some? ==> |e| + 1 <= r.value < |s| && s[r.value] == '>'
  {
    if At(s, 0, "<" + e) then FindInLine(s, ">", |e| + 1) else None
  }

  /** `re.subn(f"<{e}.*?>", m.group() + f"</{e}>", s)`. */
  function CloseElement(s: string, e: string): (r: string)
    ensures |r| >= |s|
    decreases |s|
  {
    if s == [] then []
    else match OpenTagEnd(s, e)
      case Some(j) => s[..j + 1] + ("</" + e + ">") + CloseElement(s[j + 1..], e)
      case None => [s[0]] + CloseElement(s[1..], e)
  }

  /** `_close_elements` after the first `k` element names of its loop. */
  function CloseThrough(s: string, k: nat): (r: string)
    requires k <= |UnclosedElements|
    ensures |r| >= |s|
  {
    if k == 0 then s else CloseElement(CloseThrough(s, k - 1), UnclosedElements[k - 1])
  }

  function CloseElements(s: string): (r: string)
    ensures |r| >= |s|
  {
    CloseThrough(s, |UnclosedElements|)
  }

  method CloseElementsLoop(s: string) returns (r: string)
    ensures r == CloseElements(s)
  {
    r := s;
    for k := 0 to |UnclosedElements|
      invariant r == CloseThrough(s, k)
    {
      r := CloseElement(r, UnclosedElements[k]);
    }
  }

  /** Closing an element only inserts copies of its closing tag. */
  lemma {:induction false} CloseElementInsertsOnly(s: string, e: string)
    ensures InsertsOnly(s, CloseElement(s, e), "</" + e + ">")
    decreases |s|
  {
    var lit := "</" + e + ">";
    if s != [] {
      match OpenTagEnd(s, e)
      case Some(j) =>
        CloseElementInsertsOnly(s[j + 1..], e);
        InsertsAfter(s[..j + 1], s[j + 1..], CloseElement(s[j + 1..], e), lit);
        assert s[..j + 1] + s[j + 1..] == s;
      case None =>
        CloseElementInsertsOnly(s[1..], e);
        InsertsOnlyCommon([s[0]], s[1..], CloseElement(s[1..], e), lit);
        assert [s[0]] + s[1..] == s;
    }
  }

  /** Every opening `<e a>` on one line is followed by `</e>`, and the scan
      goes on after it. */
  lemma {:induction false} CloseElementTag(e: string, a: string, rest: string)
    requires forall i :: 0 <= i < |a| ==> a[i] != '>' && a[i] != '\n'
    ensures CloseElement("<" + e + a + ">" + rest, e) == "<" + e + a + ">" + ("</" + e + ">") + CloseElement(rest, e)
  {
    var s := "<" + e + a + ">" + rest;
    var j := |e| + 1 + |a|;
    assert s[..|e| + 1] == "<" + e;
    assert s[j] == '>';
    forall k | |e| + 1 <= k < j ensures s[k] != '\n' && !At(s, k, ">") {
      assert s[k] == a[k - |e| - 1];
      assert s[k..k + 1][0] == s[k];
    }
    assert At(s, j, ">") by { assert s[j..j + 1] == ">"; }
    FindInLineFirst(s, ">", |e| + 1, j);
    assert s[..j + 1] == "<" + e + a + ">" && s[j + 1..] == rest;
  }

  lemma {:induction false} InsertsAfter(p: string, s: string, t: string, lit: string)
    requires |lit| > 0 && InsertsOnly(s, t, lit)
    ensures InsertsOnly(p + s, p + lit + t, lit)
  {
    InsertsOnlyInsert(s, t, lit);
    InsertsOnlyCommon(p, s, lit + t, lit);
    assert p + lit + t == p + (lit + t);
  }

  /** Text without the opening `<e` passes unchanged. */
  lemma {:induction false} CloseElementUntouched(s: string, e: string)
    requires forall i: nat :: !At(s, i, "<" + e)
    ensures CloseElement(s, e) == s
    decreases |s|
  {
    if s != [] {
      forall i: nat ensures !At(s[1..], i, "<" + e) {
        AtTail(s, i, "<" + e);
      }
      CloseElementUntouched(s[1..], e);
    }
  }

  /** In text without `<` the whole close pass changes nothing. */
  lemma {:induction false} CloseThroughUntouched(s: string, k: nat)
    requires k <= |UnclosedElements| && !Contains(s, '<')
    ensures CloseThrough(s, k) == s
  {
    if k > 0 {
      CloseThroughUntouched(s, k - 1);
      AbsentLead(s, "<" + UnclosedElements[k - 1]);
      CloseElementUntouched(s, UnclosedElements[k - 1]);
    }
  }

  lemma {:induction false} CloseElementExample()
    ensures CloseElement("<LF>", "LF") == "<LF></LF>"
  {
    assert At("<LF>", 0, "<LF");
    assert FindInLine("<LF>", ">", 3) == Some(3);
    assert CloseElement([], "LF") == [];
  }

  // ---------------------------------------------------------------------
  // _styledtext

  /** `re.subn("<B>(.*?)</B>", "<![CDATA[" + inner + "]]>", s)`. */
  function StyledText(s: string): (r: string)
    ensures |r| >= |s|
    decreases |s|
  {
    if s == [] then []
    else if At(s, 0, "<B>") && FindInLine(s, "</B>", 3).Some? then
      var k := FindInLine(s, "</B>", 3).value;
      "<![CDATA[" + s[3..k] + "]]>" + StyledText(s[k + 4..])
    else [s[0]] + StyledText(s[1..])
  }

  /** Text without `<B>` passes unchanged. */
  lemma {:induction false} StyledTextUntouched(s: string)
    requires forall i: nat :: !At(s, i, "<B>")
    ensures StyledText(s) == s
    decreases |s|
  {
    if s != [] {
      forall i: nat ensures !At(s[1..], i, "<B>") {
        AtTail(s, i, "<B>");
      }
      StyledTextUntouched(s[1..]);
    }
  }

  /** A bold span on one line becomes a CDATA section holding its text. */
  lemma {:induction false} StyledTextSpan(inner: string, rest: string)
    requires forall i :: 0 <= i < |inner| ==> inner[i] != '\n'
    requires forall i: nat :: !At(inner, i, "</B>")
    ensures StyledText("<B>" + inner + "</B>" + rest) == "<![CDATA[" + inner + "]]>" + StyledText(rest)
  {
    var s := "<B>" + inner + "</B>" + rest;
    var n := 3 + |inner|;
    Pieces("<B>", inner, "</B>", rest);
    assert s[n] == '<';
    forall k | 3 <= k < n ensures s[k] != '\n' && !At(s, k, "</B>") {
      if k + 4 <= n {
        assert s[k..k + 4] == inner[k - 3..k + 1];
        assert !At(inner, k - 3, "</B>");
      } else {
        assert s[k..k + 4][n - k] == s[n];
      }
    }
    FindInLineFirst(s, "</B>", 3, n);
  }

  /** The four parts of a concatenation. */
  lemma Pieces(a: string, b: string, c: string, d: string)
    ensures |a + b + c + d| == |a| + |b| + |c| + |d|
    ensures (a + b + c + d)[..|a|] == a
    ensures (a + b + c + d)[|a|..|a| + |b|] == b
    ensures (a + b + c + d)[|a| + |b|..|a| + |b| + |c|] == c
    ensures (a + b + c + d)[|a| + |b| + |c|..] == d
    ensures forall k :: |a| <= k < |a| + |b| ==> (a + b + c + d)[k] == b[k - |a|]
    ensures forall k :: |a| + |b| <= k < |a| + |b| + |c| ==> (a + b + c + d)[k] == c[k - |a| - |b|]
  {
  }

  lemma {:induction false} FindInLineFirst(s: string, lit: string, i: nat, k: nat)
    requires |lit| > 0 && lit[0] != '\n' && i <= k && At(s, k, lit)
    requires forall j :: i <= j < k ==> s[j] != '\n' && !At(s, j, lit)
    ensures FindInLine(s, lit, i) == Some(k)
    decreases k - i
  {
    if i < k {
      FindInLineFirst(s, lit, i + 1, k);
    }
  }
}
