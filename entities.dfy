/** `_predefinedentities`: XML's predefined entities for the characters that
    LabVIEW leaves bare. Doubled angle brackets become `&lt;` and `&gt;`;
    then, outside every tag, a bare `&` becomes `&amp;` and a doubled quote
    `""` becomes `&quot;`, spliced in position order with a running offset. */
module Entities {
  import opened Dicts
  import opened Text

  // ---------------------------------------------------------------------
  // The bracket passes

  /** `re.subn("<<", "&lt;", s)`: no `<<` is left, since the matches do
      not overlap and a lone `<` is never followed by another. */
  function EscapeLt(s: string): (r: string)
    ensures |r| >= |s|
    ensures s != [] ==> r[0] == (if At(s, 0, "<<") then '&' else s[0])
    ensures forall i: nat :: !At(r, i, "<<")
    decreases |s|
  {
    if s == [] then []
    else if At(s, 0, "<<") then
      NoPairIn("&lt;", '<');
      NoPairJoin("&lt;", EscapeLt(s[2..]), '<');
      "&lt;" + EscapeLt(s[2..])
    else
      NoPairIn([s[0]], '<');
      assert |s| > 1 ==> s[..2] == [s[0], s[1]];
      NoPairJoin([s[0]], EscapeLt(s[1..]), '<');
      [s[0]] + EscapeLt(s[1..])
  }

  /** Text shorter than two characters, or one without `c` at all but its
      last place, holds no `cc`. */
  lemma {:induction false} NoPairIn(a: string, c: char)
    requires forall i :: 0 <= i < |a| - 1 ==> a[i] != c
    ensures forall i: nat :: !At(a, i, [c, c])
  {
    forall i: nat ensures !At(a, i, [c, c]) {
      if i + 2 <= |a| {
        assert a[i..i + 2][0] == a[i];
      }
    }
  }

  /** Two texts without `cc` joined where they do not both show `c`. */
  lemma {:induction false} NoPairJoin(a: string, b: string, c: char)
    requires forall i: nat :: !At(a, i, [c, c])
    requires forall i: nat :: !At(b, i, [c, c])
    requires a == [] || b == [] || a[|a| - 1] != c || b[0] != c
    ensures forall i: nat :: !At(a + b, i, [c, c])
  {
    forall i: nat ensures !At(a + b, i, [c, c]) {
      if i + 2 <= |a + b| {
        var w := (a + b)[i..i + 2];
        if i + 2 <= |a| {
          assert a[i..i + 2] == w && !At(a, i, [c, c]);
        } else if i >= |a| {
          assert b[i - |a|..i - |a| + 2] == w && !At(b, i - |a|, [c, c]);
        } else {
          assert w[0] == a[|a| - 1] && w[1] == b[0];
        }
        assert w != [c, c];
      }
    }
  }

  /** `re.subn(">>(?!>)", "&gt;", s)`: a `>>` that is followed by a third
      `>` is left for the next position. */
  function EscapeGt(s: string): (r: string)
    ensures |r| >= |s|
    decreases |s|
  {
    if s == [] then []
    else if At(s, 0, ">>") && !At(s, 2, ">") then "&gt;" + EscapeGt(s[2..])
    else [s[0]] + EscapeGt(s[1..])
  }

  /** Reading `&lt;` back as `<<`. */
  function UnescapeLt(t: string): string
    decreases |t|
  {
    if t == [] then []
    else if At(t, 0, "&lt;") then "<<" + UnescapeLt(t[4..])
    else [t[0]] + UnescapeLt(t[1..])
  }

  /** Reading `&gt;` back as `>>`. */
  function UnescapeGt(t: string): string
    decreases |t|
  {
    if t == [] then []
    else if At(t, 0, "&gt;") then ">>" + UnescapeGt(t[4..])
    else [t[0]] + UnescapeGt(t[1..])
  }

  lemma {:induction false} NoAmpAfter(s: string, k: nat)
    requires !Contains(s, '&') && k <= |s|
    ensures !Contains(s[k..], '&')
  {
    forall i | 0 <= i < |s[k..]| ensures s[k..][i] != '&' {
      assert s[k..][i] == s[k + i];
    }
  }

  /** In text without `&`, the `<<` pass loses nothing. */
  lemma {:induction false} EscapeLtInverse(s: string)
    requires !Contains(s, '&')
    ensures UnescapeLt(EscapeLt(s)) == s
    decreases |s|
  {
    if s != [] {
      NoAmpAfter(s, 1);
      if At(s, 0, "<<") {
        NoAmpAfter(s, 2);
        EscapeLtInverse(s[2..]);
        var t := "&lt;" + EscapeLt(s[2..]);
        assert At(t, 0, "&lt;") && t[4..] == EscapeLt(s[2..]);
        assert s == "<<" + s[2..] by { assert s[..2] == "<<"; }
      } else {
        EscapeLtInverse(s[1..]);
        var t := [s[0]] + EscapeLt(s[1..]);
        assert !At(t, 0, "&lt;") by { assert t[0] == s[0] != '&'; }
        assert t[1..] == EscapeLt(s[1..]);
      }
    }
  }

  /** In text without `&`, the `>>` pass loses nothing. */
  lemma {:induction false} EscapeGtInverse(s: string)
    requires !Contains(s, '&')
    ensures UnescapeGt(EscapeGt(s)) == s
    decreases |s|
  {
    if s != [] {
      NoAmpAfter(s, 1);
      if At(s, 0, ">>") && !At(s, 2, ">") {
        NoAmpAfter(s, 2);
        EscapeGtInverse(s[2..]);
        UnescapeGtPair(EscapeGt(s[2..]));
        assert s == ">>" + s[2..] by { assert s[..2] == ">>"; }
      } else {
        EscapeGtInverse(s[1..]);
        UnescapeGtKeep(s[0], EscapeGt(s[1..]));
      }
    }
  }

  lemma {:induction false} UnescapeGtPair(u: string)
    ensures UnescapeGt("&gt;" + u) == ">>" + UnescapeGt(u)
  {
    var t := "&gt;" + u;
    assert At(t, 0, "&gt;") && t[4..] == u;
  }

  lemma {:induction false} UnescapeGtKeep(c: char, u: string)
    requires c != '&'
    ensures UnescapeGt([c] + u) == [c] + UnescapeGt(u)
  {
    var t := [c] + u;
    assert !At(t, 0, "&gt;") by { assert t[0] == c; }
    assert t[1..] == u;
  }


  /** A run of `n` closing brackets. */
  function Gts(n: nat): (r: string)
    ensures |r| == n && forall i :: 0 <= i < n ==> r[i] == '>'
  {
    if n == 0 then [] else ">" + Gts(n - 1)
  }

  /** A run of two or more `>` not followed by another becomes the run less
      two, then `&gt;`: the pattern matches only at the run's last pair. */
  lemma {:induction false} EscapeGtRun(n: nat, rest: string)
    requires n >= 2 && !At(rest, 0, ">")
    ensures EscapeGt(Gts(n) + rest) == Gts(n - 2) + "&gt;" + EscapeGt(rest)
    decreases n
  {
    if n == 2 {
      assert Gts(2) + rest == ">>" + rest;
      EscapeGtLastPair(rest);
    } else {
      var s, g := Gts(n) + rest, Gts(n - 1) + rest;
      assert s[1..] == g;
      EscapeGtLeading(s);
      EscapeGtRun(n - 1, rest);
      assert Gts(n - 2) == ">" + Gts(n - 3);
      assert EscapeGt(s) == ">" + (Gts(n - 3) + "&gt;" + EscapeGt(rest));
    }
  }

  /** The last pair of a run is replaced. */
  lemma {:induction false} EscapeGtLastPair(rest: string)
    requires !At(rest, 0, ">")
    ensures EscapeGt(">>" + rest) == "&gt;" + EscapeGt(rest)
  {
    var s := ">>" + rest;
    assert s[..2] == ">>";
    assert s[2..] == rest;
    assert !At(s, 2, ">") by {
      if 3 <= |s| { assert s[2..3] == rest[0..1]; }
    }
  }

  /** A `>` followed by two more is kept as it is. */
  lemma {:induction false} EscapeGtLeading(s: string)
    requires 3 <= |s| && s[0] == '>' && s[1] == '>' && s[2] == '>'
    ensures EscapeGt(s) == [s[0]] + EscapeGt(s[1..])
  {
    assert s[2..3] == ">";
  }

  /** A run of three: only the last two brackets form `&gt;`. */
  lemma {:induction false} EscapeGtTriple()
    ensures EscapeGt(">>>") == ">&gt;"
  {
    assert At(">>>", 2, ">");
    assert ">>>"[1..] == ">>";
    assert At(">>", 0, ">>") && !At(">>", 2, ">");
  }

  // ---------------------------------------------------------------------
  // Tag spans

  /** `ClosedInterval(span)`: the half-open span `[start, stop)` stored as
      the closed interval `[start, stop - 1]`. */
  datatype ClosedInterval = ClosedInterval(start: int, stop: int) {
    predicate Contains(v: int) {
      start <= v <= stop
    }
  }

  function IntervalOf(span: (nat, nat)): (r: ClosedInterval)
    ensures forall v :: r.Contains(v) <==> span.0 <= v < span.1
  {
    ClosedInterval(span.0, span.1 - 1)
  }

  /** Where `.*?[^>]>` beginning at `j` ends: the lazy run cannot cross a
      newline, but the `[^>]` may be one. */
  function LazyTail(t: string, j: nat): (r: Option<nat>)
    ensures r.Some? ==> j + 2 <= r.value <= |t| && t[r.value - 1] == '>'
    decreases |t| - j
  {
    if j + 1 >= |t| then None
    else if t[j] != '>' && t[j + 1] == '>' then Some(j + 2)
    else if t[j] == '\n' then None
    else LazyTail(t, j + 1)
  }

  /** End of the match of `<[^<]/?.*?[^>]>` at `p`. The `/?` first tries to
      take a slash and gives it back only when that fails. */
  function TagAt(t: string, p: nat): (r: Option<nat>)
    ensures r.Some? ==> p + 4 <= r.value <= |t| && t[p] == '<' && t[r.value - 1] == '>'
  {
    if p + 1 < |t| && t[p] == '<' && t[p + 1] != '<' then
      if p + 2 < |t| && t[p + 2] == '/' && LazyTail(t, p + 3).Some? then LazyTail(t, p + 3)
      else LazyTail(t, p + 2)
    else None
  }

  /** The spans of `re.finditer("<[^<]/?.*?[^>]>", t)` from `p` on. */
  function TagMatches(t: string, p: nat): (r: seq<(nat, nat)>)
    ensures forall i :: 0 <= i < |r| ==> p <= r[i].0 && r[i].0 + 4 <= r[i].1 <= |t| && t[r[i].0] == '<'
    decreases |t| - p
  {
    if p >= |t| then []
    else match TagAt(t, p)
      case Some(e) => [(p, e)] + TagMatches(t, e)
      case None => TagMatches(t, p + 1)
  }

  /** The intervals built for a list of spans, in order. */
  function Intervals(spans: seq<(nat, nat)>): (r: seq<ClosedInterval>)
    ensures |r| == |spans|
    ensures forall i :: 0 <= i < |r| ==> r[i] == IntervalOf(spans[i])
  {
    if spans == [] then [] else Intervals(spans[..|spans| - 1]) + [IntervalOf(spans[|spans| - 1])]
  }

  predicate InAnySpan(v: int, spans: seq<ClosedInterval>) {
    exists i :: 0 <= i < |spans| && spans[i].Contains(v)
  }

  // ---------------------------------------------------------------------
  // The entity substitutions

  /** The entries of `PREDEFINEDS`: the entity name and how many characters
      of the text its pattern matches. */
  datatype Entity = Amp | Quot {
    function Name(): string {
      if Amp? then "amp" else "quot"
    }

    function Width(): nat {
      if Amp? then 1 else 2
    }
  }

  /** `PREDEFINEDS` in its dict order. */
  const Predefineds: seq<Entity> := [Amp, Quot]

  /** `&(?!lt;|gt;)` and `""` matching at `p`. */
  predicate EntityAt(t: string, x: Entity, p: nat) {
    match x
    case Amp => p < |t| && t[p] == '&' && !At(t, p + 1, "lt;") && !At(t, p + 1, "gt;")
    case Quot => At(t, p, "\"\"")
  }

  /** Match starts at least `w` apart: `finditer` resumes after each match. */
  predicate Spaced(locs: seq<nat>, w: nat) {
    forall i, j :: 0 <= i < j < |locs| ==> locs[i] + w <= locs[j]
  }

  /** The starts of `re.finditer` of the entity's pattern from `p` on. */
  function Matches(t: string, x: Entity, p: nat): (r: seq<nat>)
    ensures forall i :: 0 <= i < |r| ==> p <= r[i] && r[i] + x.Width() <= |t| && EntityAt(t, x, r[i])
    ensures Spaced(r, x.Width())
    decreases |t| - p
  {
    if p >= |t| then []
    else if EntityAt(t, x, p) then [p] + Matches(t, x, p + x.Width())
    else Matches(t, x, p + 1)
  }

  /** One entry of `tag_span_subs`: `(loc, (s, l))`. */
  datatype Substitution = Sub(loc: nat, entity: Entity)

  function End(x: Substitution): nat {
    x.loc + x.entity.Width()
  }

  /** The matched texts of the substitutions follow one another without
      overlapping. */
  predicate Apart(subs: seq<Substitution>) {
    forall i, j :: 0 <= i < j < |subs| ==> End(subs[i]) <= subs[j].loc
  }

  /** The substitutions of one entity at the given match starts that lie in
      no tag span, in order. */
  function Outside(locs: seq<nat>, x: Entity, spans: seq<ClosedInterval>): (r: seq<Substitution>)
    requires Spaced(locs, x.Width())
    ensures |r| <= |locs|
    ensures forall i :: 0 <= i < |r| ==> r[i].entity == x && r[i].loc in locs && !InAnySpan(r[i].loc, spans)
    ensures forall i :: 0 <= i < |locs| && !InAnySpan(locs[i], spans) ==> Sub(locs[i], x) in r
    ensures Apart(r)
  {
    if locs == [] then []
    else
      var rest := Outside(locs[..|locs| - 1], x, spans);
      OutsideGrows(locs, x, spans, rest);
      if InAnySpan(locs[|locs| - 1], spans) then rest else rest + [Sub(locs[|locs| - 1], x)]
  }

  /** What `Outside` promises: `r` holds, in order and without overlap, the
      substitutions at exactly those of `locs` that lie in no tag span. */
  predicate OutsideOf(r: seq<Substitution>, locs: seq<nat>, x: Entity, spans: seq<ClosedInterval>) {
    && |r| <= |locs|
    && (forall i :: 0 <= i < |r| ==> r[i].entity == x && r[i].loc in locs && !InAnySpan(r[i].loc, spans))
    && (forall i :: 0 <= i < |locs| && !InAnySpan(locs[i], spans) ==> Sub(locs[i], x) in r)
    && Apart(r)
  }

  /** One step of `Outside`: the last start is dropped when a tag span holds
      it and appended otherwise. */
  lemma {:induction false} OutsideGrows(locs: seq<nat>, x: Entity, spans: seq<ClosedInterval>, rest: seq<Substitution>)
    requires |locs| > 0 && Spaced(locs, x.Width())
    requires OutsideOf(rest, locs[..|locs| - 1], x, spans)
    ensures InAnySpan(locs[|locs| - 1], spans) ==> OutsideOf(rest, locs, x, spans)
    ensures !InAnySpan(locs[|locs| - 1], spans) ==> OutsideOf(rest + [Sub(locs[|locs| - 1], x)], locs, x, spans)
  {
    var init, last := locs[..|locs| - 1], locs[|locs| - 1];
    forall i | 0 <= i < |locs| - 1 && !InAnySpan(locs[i], spans) ensures Sub(locs[i], x) in rest {
      assert locs[i] == init[i];
    }
    forall i | 0 <= i < |rest| ensures rest[i].loc in locs && End(rest[i]) <= last {
      var a :| 0 <= a < |init| && init[a] == rest[i].loc;
      assert locs[a] + x.Width() <= locs[|locs| - 1];
    }
    if !InAnySpan(last, spans) {
      OutsideAppend(locs, x, spans, rest);
    }
  }

  lemma {:induction false} OutsideAppend(locs: seq<nat>, x: Entity, spans: seq<ClosedInterval>, rest: seq<Substitution>)
    requires |locs| > 0 && !InAnySpan(locs[|locs| - 1], spans)
    requires |rest| < |locs| && Apart(rest)
    requires forall i :: 0 <= i < |rest| ==> rest[i].entity == x && rest[i].loc in locs && !InAnySpan(rest[i].loc, spans)
    requires forall i :: 0 <= i < |rest| ==> End(rest[i]) <= locs[|locs| - 1]
    requires forall i :: 0 <= i < |locs| - 1 && !InAnySpan(locs[i], spans) ==> Sub(locs[i], x) in rest
    ensures OutsideOf(rest + [Sub(locs[|locs| - 1], x)], locs, x, spans)
  {
    var r := rest + [Sub(locs[|locs| - 1], x)];
    assert forall i :: 0 <= i < |rest| ==> r[i] == rest[i];
  }

  /** `tag_span_subs` after the first `n` entries of `PREDEFINEDS`. */
  function OutsideThrough(t: string, spans: seq<ClosedInterval>, n: nat): (r: seq<Substitution>)
    requires n <= |Predefineds|
    ensures forall a :: a in r ==> a.entity in Predefineds[..n] && a.loc in Matches(t, a.entity, 0) && !InAnySpan(a.loc, spans)
    ensures forall k, p :: 0 <= k < n && p in Matches(t, Predefineds[k], 0) && !InAnySpan(p, spans) ==> Sub(p, Predefineds[k]) in r
  {
    if n == 0 then []
    else OutsideThrough(t, spans, n - 1) + Outside(Matches(t, Predefineds[n - 1], 0), Predefineds[n - 1], spans)
  }

  /** `tag_span_subs` for the text `t`: exactly the matches of either
      pattern whose start lies in no tag span. */
  function Substitutions(t: string): (r: seq<Substitution>)
    ensures forall a :: a in r ==> a.loc in Matches(t, a.entity, 0) && !InAnySpan(a.loc, Intervals(TagMatches(t, 0)))
    ensures forall p :: p in Matches(t, Amp, 0) && !InAnySpan(p, Intervals(TagMatches(t, 0))) ==> Sub(p, Amp) in r
    ensures forall p :: p in Matches(t, Quot, 0) && !InAnySpan(p, Intervals(TagMatches(t, 0))) ==> Sub(p, Quot) in r
  {
    var r := OutsideThrough(t, Intervals(TagMatches(t, 0)), |Predefineds|);
    assert Predefineds[0] == Amp && Predefineds[1] == Quot;
    r
  }

  /** `finditer` misses a match of the pattern only inside an earlier
      match: for `""` on a run of quotes, one position after the start of
      a match. */
  lemma {:induction false} MatchesComplete(t: string, x: Entity, p: nat, q: nat)
    requires p <= q && EntityAt(t, x, q)
    ensures q in Matches(t, x, p) || (x == Quot && p < q && q - 1 in Matches(t, x, p))
    decreases |t| - p
  {
    if p < |t| {
      if EntityAt(t, x, p) {
        if p + x.Width() <= q {
          MatchesComplete(t, x, p + x.Width(), q);
        }
      } else {
        if p < q {
          MatchesComplete(t, x, p + 1, q);
        }
      }
    }
  }

  /** A bare `&` outside every tag span is substituted, so it shows as
      `&amp;` in the output (`SubstitutionsShown`). */
  lemma {:induction false} AmpSubstituted(t: string, p: nat)
    requires EntityAt(t, Amp, p) && !InAnySpan(p, Intervals(TagMatches(t, 0)))
    ensures Sub(p, Amp) in Substitutions(t) && Sub(p, Amp) in SortedSubstitutions(t)
  {
    MatchesComplete(t, Amp, 0, p);
    assert Sub(p, Amp) in multiset(SortedSubstitutions(t));
  }

  /** A `""` outside every tag span is substituted, unless its first quote
      is the second one of an earlier `""` match. */
  lemma {:induction false} QuotSubstituted(t: string, p: nat)
    requires EntityAt(t, Quot, p) && !InAnySpan(p, Intervals(TagMatches(t, 0)))
    ensures Sub(p, Quot) in Substitutions(t) || (p > 0 && p - 1 in Matches(t, Quot, 0))
  {
    MatchesComplete(t, Quot, 0, p);
  }

  // ---------------------------------------------------------------------
  // sorted()

  predicate Ascending(xs: seq<Substitution>) {
    forall i, j :: 0 <= i < j < |xs| ==> xs[i].loc < xs[j].loc
  }

  predicate DistinctLocs(xs: seq<Substitution>) {
    forall i, j :: 0 <= i < j < |xs| ==> xs[i].loc != xs[j].loc
  }

  /** Inserting into a list ordered by location. */
  function Insert(x: Substitution, ys: seq<Substitution>): (r: seq<Substitution>)
    ensures multiset(r) == multiset(ys) + multiset{x}
  {
    if ys == [] then [x]
    else if x.loc < ys[0].loc then [x] + ys
    else
      assert ys == [ys[0]] + ys[1..];
      [ys[0]] + Insert(x, ys[1..])
  }

  lemma {:induction false} InsertAscending(x: Substitution, ys: seq<Substitution>)
    requires Ascending(ys)
    requires forall y :: y in ys ==> y.loc != x.loc
    ensures Ascending(Insert(x, ys))
    decreases |ys|
  {
    if ys != [] && !(x.loc < ys[0].loc) {
      var rest := Insert(x, ys[1..]);
      InsertAscending(x, ys[1..]);
      forall i | 0 <= i < |rest| ensures ys[0].loc < rest[i].loc {
        assert rest[i] in multiset(rest);
        if rest[i] != x {
          assert rest[i] in multiset(ys[1..]);
          var j :| 0 <= j < |ys[1..]| && ys[1..][j] == rest[i];
          assert ys[j + 1] == rest[i];
        }
      }
    }
  }

  lemma {:induction false} DistinctTail(xs: seq<Substitution>)
    requires DistinctLocs(xs) && xs != []
    ensures DistinctLocs(xs[1..])
    ensures forall y :: y in xs[1..] ==> y.loc != xs[0].loc
  {
    forall y | y in xs[1..] ensures y.loc != xs[0].loc {
      var k :| 0 <= k < |xs| - 1 && xs[1..][k] == y;
      assert xs[k + 1] == y;
    }
  }

  /** Inserting the head into the sorted tail sorts the whole list. */
  lemma {:induction false} SortStep(xs: seq<Substitution>, ys: seq<Substitution>)
    requires DistinctLocs(xs) && xs != []
    requires Ascending(ys) && multiset(ys) == multiset(xs[1..])
    ensures Ascending(Insert(xs[0], ys))
    ensures multiset(Insert(xs[0], ys)) == multiset(xs)
  {
    DistinctTail(xs);
    assert forall y :: y in ys ==> y in multiset(xs[1..]);
    InsertAscending(xs[0], ys);
    assert xs == [xs[0]] + xs[1..];
  }

  /** `sorted(tag_span_subs)`. The locations are distinct, so ordering the
      tuples is ordering by location. */
  function SortByLoc(xs: seq<Substitution>): (r: seq<Substitution>)
    requires DistinctLocs(xs)
    ensures Ascending(r)
    ensures multiset(r) == multiset(xs)
  {
    if xs == [] then []
    else
      DistinctTail(xs);
      var ys := SortByLoc(xs[1..]);
      SortStep(xs, ys);
      Insert(xs[0], ys)
  }

  // ---------------------------------------------------------------------
  // The splice

  /** Substitutions in increasing order whose matched text lies inside `t`
      and does not overlap. */
  predicate Placed(t: string, subs: seq<Substitution>) {
    (forall i :: 0 <= i < |subs| ==> End(subs[i]) <= |t|) && Apart(subs)
  }

  /** The same condition, read from the last substitution backwards: it lies
      inside `t`, and the others inside the text before it. */
  predicate WellPlaced(t: string, subs: seq<Substitution>)
    decreases |subs|
  {
    subs == []
    || (End(subs[|subs| - 1]) <= |t| && WellPlaced(t[..subs[|subs| - 1].loc], subs[..|subs| - 1]))
  }

  /** The substitutions from `from` on: each starts at or after the end of
      the one before it and ends inside `t`. */
  predicate InOrder(t: string, from: nat, subs: seq<Substitution>)
    decreases |subs|
  {
    subs == [] || (from <= subs[0].loc && End(subs[0]) <= |t| && InOrder(t, End(subs[0]), subs[1..]))
  }

  lemma {:induction false} PlacedInOrder(t: string, from: nat, subs: seq<Substitution>)
    requires Placed(t, subs) && (subs != [] ==> from <= subs[0].loc)
    ensures InOrder(t, from, subs)
    decreases |subs|
  {
    if subs != [] {
      var rest := subs[1..];
      assert Placed(t, rest) by {
        forall i, j | 0 <= i < j < |rest| ensures End(rest[i]) <= rest[j].loc {
          assert rest[i] == subs[i + 1] && rest[j] == subs[j + 1];
        }
      }
      PlacedInOrder(t, End(subs[0]), rest);
    }
  }

  lemma {:induction false} PlacedIsWellPlaced(t: string, subs: seq<Substitution>)
    requires Placed(t, subs)
    ensures WellPlaced(t, subs)
    decreases |subs|
  {
    if subs != [] {
      var x := subs[|subs| - 1];
      var init := subs[..|subs| - 1];
      assert Placed(t[..x.loc], init) by {
        forall i | 0 <= i < |init| ensures End(init[i]) <= x.loc {
          assert End(subs[i]) <= subs[|subs| - 1].loc;
        }
      }
      PlacedIsWellPlaced(t[..x.loc], init);
    }
  }

  /** More text after the last substitution keeps them well placed. */
  lemma {:induction false} WellPlacedAppend(u: string, w: string, subs: seq<Substitution>)
    requires WellPlaced(u, subs)
    ensures WellPlaced(u + w, subs)
  {
    if subs != [] {
      var x := subs[|subs| - 1];
      assert (u + w)[..x.loc] == u[..x.loc];
    }
  }

  /** `f"&{s};"` */
  function Reference(x: Entity): (r: string)
    ensures |r| == x.Width() + 4
  {
    "&" + x.Name() + ";"
  }

  /** The text with every substitution applied: the text before the last
      one rendered in the same way, its reference, then the text after it. */
  function Render(t: string, subs: seq<Substitution>): (r: string)
    requires WellPlaced(t, subs)
    ensures |r| == |t| + 4 * |subs|
    decreases |subs|
  {
    if subs == [] then t
    else
      var x := subs[|subs| - 1];
      Render(t[..x.loc], subs[..|subs| - 1]) + Reference(x.entity) + t[End(x)..]
  }

  /** Text appended after the last substitution is carried over as it is. */
  lemma {:induction false} RenderAppend(u: string, w: string, subs: seq<Substitution>)
    requires WellPlaced(u, subs)
    ensures WellPlaced(u + w, subs)
    ensures Render(u + w, subs) == Render(u, subs) + w
  {
    WellPlacedAppend(u, w, subs);
    if subs != [] {
      var x := subs[|subs| - 1];
      assert (u + w)[..x.loc] == u[..x.loc];
      assert (u + w)[End(x)..] == u[End(x)..] + w;
    }
  }

  /** How many substitutions start before position `p`. */
  function CountBefore(subs: seq<Substitution>, p: int): (n: nat)
    ensures n <= |subs|
  {
    if subs == [] then 0
    else CountBefore(subs[..|subs| - 1], p) + (if subs[|subs| - 1].loc < p then 1 else 0)
  }

  /** Whether a substitution's matched text covers position `p`. */
  predicate Covered(subs: seq<Substitution>, p: int)
    decreases |subs|
  {
    subs != []
    && ((subs[|subs| - 1].loc <= p < End(subs[|subs| - 1])) || Covered(subs[..|subs| - 1], p))
  }

  /** A character no substitution covers is kept, moved right by four for
      each substitution before it. */
  lemma {:induction false} RenderKeeps(t: string, subs: seq<Substitution>, p: nat)
    requires WellPlaced(t, subs) && p < |t| && !Covered(subs, p)
    ensures p + 4 * CountBefore(subs, p) < |Render(t, subs)|
    ensures Render(t, subs)[p + 4 * CountBefore(subs, p)] == t[p]
    decreases |subs|
  {
    if subs != [] {
      var x := subs[|subs| - 1];
      var init := subs[..|subs| - 1];
      var head := Render(t[..x.loc], init);
      assert Render(t, subs) == head + Reference(x.entity) + t[End(x)..];
      if p < x.loc {
        RenderKeeps(t[..x.loc], init, p);
      } else {
        PlacedBefore(t, subs);
        CountAllBefore(subs, p);
      }
    }
  }

  /** Well placed substitutions all start no later than the last one. */
  lemma {:induction false} PlacedBefore(t: string, subs: seq<Substitution>)
    requires WellPlaced(t, subs)
    ensures forall i :: 0 <= i < |subs| ==> subs[i].loc <= subs[|subs| - 1].loc
    decreases |subs|
  {
    if |subs| > 1 {
      var init := subs[..|subs| - 1];
      PlacedBefore(t[..subs[|subs| - 1].loc], init);
      assert End(init[|init| - 1]) <= subs[|subs| - 1].loc;
    }
  }

  lemma {:induction false} CountAllBefore(subs: seq<Substitution>, p: int)
    requires forall i :: 0 <= i < |subs| ==> subs[i].loc < p
    ensures CountBefore(subs, p) == |subs|
    decreases |subs|
  {
    if subs != [] {
      CountAllBefore(subs[..|subs| - 1], p);
    }
  }

  /** Each substitution point shows its reference, moved right by four for
      each substitution before it. */
  lemma {:induction false} RenderReplaces(t: string, subs: seq<Substitution>, k: nat)
    requires WellPlaced(t, subs) && k < |subs|
    ensures subs[k].loc + 4 * k + |Reference(subs[k].entity)| <= |Render(t, subs)|
    ensures Render(t, subs)[subs[k].loc + 4 * k..subs[k].loc + 4 * k + |Reference(subs[k].entity)|]
      == Reference(subs[k].entity)
    decreases |subs|
  {
    var x := subs[|subs| - 1];
    var init := subs[..|subs| - 1];
    var head := Render(t[..x.loc], init);
    if k == |subs| - 1 {
      MiddleSlice(head, Reference(x.entity), t[End(x)..]);
    } else {
      RenderReplaces(t[..x.loc], init, k);
      var a := subs[k].loc + 4 * k;
      PrefixSlice(head, Reference(x.entity), t[End(x)..], a, a + |Reference(subs[k].entity)|);
    }
  }

  lemma MiddleSlice(a: string, b: string, c: string)
    ensures (a + b + c)[|a|..|a| + |b|] == b
  {
  }

  lemma PrefixSlice(a: string, b: string, c: string, i: nat, j: nat)
    requires i <= j <= |a|
    ensures (a + b + c)[i..j] == a[i..j]
  {
  }

  /** The splice loop of `_predefinedentities`: each substitution is cut
      into the current text at its location plus the running offset `x`. */
  method Splice(t: string, subs: seq<Substitution>) returns (r: string)
    requires InOrder(t, 0, subs)
    ensures WellPlaced(t, subs)
    ensures r == Render(t, subs)
  {
    r := t;
    var x: int := 0;
    var done: nat := 0;
    for k := 0 to |subs|
      invariant SpliceInvariant(t, subs, k, done, r, x)
    {
      SpliceAdvance(t, subs, k, done, r, x);
      r := Cut(r, subs[k].loc + x, subs[k].entity.Width(), Reference(subs[k].entity));
      x := x + |Reference(subs[k].entity)| - subs[k].entity.Width();
      done := End(subs[k]);
    }
    assert subs[..|subs|] == subs;
    SpliceFinish(t, subs, done, r);
  }

  /** After the last substitution the rest of the text is copied. */
  lemma {:induction false} SpliceFinish(t: string, subs: seq<Substitution>, done: nat, r: string)
    requires done <= |t| && WellPlaced(t[..done], subs)
    requires r == Render(t[..done], subs) + t[done..]
    ensures WellPlaced(t, subs) && r == Render(t, subs)
  {
    var u, w := t[..done], t[done..];
    assert u + w == t;
    RenderAppend(u, w, subs);
  }

  /** `r[:at] + ref + r[at + l:]` */
  function Cut(r: string, at: nat, l: nat, ref: string): string
    requires at + l <= |r|
  {
    r[..at] + ref + r[at + l..]
  }

  lemma SliceThree(t: string, a: nat, b: nat, c: nat)
    requires a <= b <= c <= |t|
    ensures t[a..] == t[a..b] + t[b..c] + t[c..]
    ensures |t[b..c]| == c - b
  {
  }

  /** Cutting a reference into `head + tail` inside `tail`. */
  lemma {:induction false} CutIn(r: string, head: string, pre: string, mid: string, post: string, at: nat, l: nat, ref: string)
    requires r == head + (pre + mid + post) && at == |head| + |pre| && l == |mid|
    ensures at + l <= |r| && Cut(r, at, l, ref) == head + pre + ref + post
  {
    assert r[..at] == head + pre;
    assert r[at + l..] == post;
  }

  /** What the splice loop keeps: the first `k` substitutions are applied
      to the text up to `done`, the rest is copied, and `x` is the growth. */
  ghost predicate SpliceInvariant(t: string, subs: seq<Substitution>, k: nat, done: nat, r: string, x: int) {
    k <= |subs| && done <= |t| && InOrder(t, done, subs[k..])
    && WellPlaced(t[..done], subs[..k])
    && r == Render(t[..done], subs[..k]) + t[done..] && x == 4 * k
  }

  /** The splice statement turns the text rendered up to `done` into the
      text rendered up to the end of substitution `k`. */
  lemma {:induction false} SpliceAdvance(t: string, subs: seq<Substitution>, k: nat, done: nat, r: string, x: int)
    requires SpliceInvariant(t, subs, k, done, r, x) && k < |subs|
    ensures subs[k].loc + x + subs[k].entity.Width() <= |r|
    ensures SpliceInvariant(t, subs, k + 1, End(subs[k]),
      Cut(r, subs[k].loc + x, subs[k].entity.Width(), Reference(subs[k].entity)),
      x + |Reference(subs[k].entity)| - subs[k].entity.Width())
  {
    assert subs[k..][0] == subs[k] && subs[k..][1..] == subs[k + 1..];
    SpliceStep(t, subs, k, done);
    SpliceText(t, subs, k, done, r, x);
  }

  /** The text after the splice statement. */
  lemma {:induction false} SpliceText(t: string, subs: seq<Substitution>, k: nat, done: nat, r: string, x: int)
    requires k < |subs| && done <= subs[k].loc <= End(subs[k]) <= |t|
    requires WellPlaced(t[..done], subs[..k])
    requires r == Render(t[..done], subs[..k]) + t[done..] && x == 4 * k
    ensures subs[k].loc + x + subs[k].entity.Width() <= |r|
    ensures WellPlaced(t[..End(subs[k])], subs[..k + 1])
    ensures Cut(r, subs[k].loc + x, subs[k].entity.Width(), Reference(subs[k].entity))
      == Render(t[..End(subs[k])], subs[..k + 1]) + t[End(subs[k])..]
  {
    var loc := subs[k].loc;
    var e := End(subs[k]);
    var head := Render(t[..done], subs[..k]);
    var ref := Reference(subs[k].entity);
    SpliceStep(t, subs, k, done);
    SliceThree(t, done, loc, e);
    CutIn(r, head, t[done..loc], t[loc..e], t[e..], loc + x, subs[k].entity.Width(), ref);
    ghost var a := Cut(r, loc + x, subs[k].entity.Width(), ref);
    ghost var b := head + t[done..loc] + ref + t[e..];
    ghost var c := Render(t[..e], subs[..k + 1]) + t[e..];
    assert a == b && c == b;
  }

  /** One step of the splice: the substitution `k` extends the rendered part. */
  lemma {:induction false} SpliceStep(t: string, subs: seq<Substitution>, k: nat, done: nat)
    requires k < |subs| && done <= subs[k].loc <= End(subs[k]) <= |t|
    requires WellPlaced(t[..done], subs[..k])
    ensures WellPlaced(t[..End(subs[k])], subs[..k + 1])
    ensures Render(t[..End(subs[k])], subs[..k + 1]) + t[End(subs[k])..]
      == Render(t[..done], subs[..k]) + t[done..subs[k].loc] + Reference(subs[k].entity) + t[End(subs[k])..]
  {
    var loc := subs[k].loc;
    WellPlacedAppend(t[..done], t[done..loc], subs[..k]);
    assert t[..done] + t[done..loc] == t[..loc];
    assert subs[..k + 1][..k] == subs[..k];
    assert t[..End(subs[k])][..loc] == t[..loc];
    assert Render(t[..End(subs[k])], subs[..k + 1]) == Render(t[..loc], subs[..k]) + Reference(subs[k].entity);
    RenderAppend(t[..done], t[done..loc], subs[..k]);
  }

  // ---------------------------------------------------------------------
  // The whole of _predefinedentities

  /** Every substitution of `subs` sits on a match of its entity in `t`
      and starts in no tag span. */
  ghost predicate AtMatches(t: string, spans: seq<ClosedInterval>, subs: seq<Substitution>) {
    forall a :: a in subs ==> End(a) <= |t| && EntityAt(t, a.entity, a.loc) && !InAnySpan(a.loc, spans)
  }

  /** Of any two substitutions, the earlier one ends before the later one
      starts. */
  ghost predicate NonOverlapping(subs: seq<Substitution>) {
    forall a, b :: a in subs && b in subs && a.loc < b.loc ==> End(a) <= b.loc
  }

  lemma {:induction false} ApartNonOverlapping(subs: seq<Substitution>)
    requires Apart(subs)
    ensures NonOverlapping(subs) && DistinctLocs(subs)
  {
    forall a, b | a in subs && b in subs && a.loc < b.loc ensures End(a) <= b.loc {
      var i :| 0 <= i < |subs| && subs[i] == a;
      var j :| 0 <= j < |subs| && subs[j] == b;
      assert i < j;
    }
  }

  /** The substitutions of one entity. */
  lemma {:induction false} OutsideFacts(t: string, x: Entity, spans: seq<ClosedInterval>)
    ensures AtMatches(t, spans, Outside(Matches(t, x, 0), x, spans))
    ensures NonOverlapping(Outside(Matches(t, x, 0), x, spans))
    ensures DistinctLocs(Outside(Matches(t, x, 0), x, spans))
    ensures forall a :: a in Outside(Matches(t, x, 0), x, spans) ==> a.entity == x
  {
    var ms := Matches(t, x, 0);
    var r := Outside(ms, x, spans);
    forall a | a in r
      ensures a.entity == x && End(a) <= |t| && EntityAt(t, a.entity, a.loc) && !InAnySpan(a.loc, spans)
    {
      var i :| 0 <= i < |r| && r[i] == a;
      var k :| 0 <= k < |ms| && ms[k] == a.loc;
    }
    ApartNonOverlapping(r);
  }

  /** The `&` substitutions followed by the `""` ones: no two at the same
      place, and none overlapping another. */
  lemma {:induction false} MergedFacts(t: string, spans: seq<ClosedInterval>, amps: seq<Substitution>, quots: seq<Substitution>)
    requires AtMatches(t, spans, amps) && NonOverlapping(amps) && DistinctLocs(amps)
    requires AtMatches(t, spans, quots) && NonOverlapping(quots) && DistinctLocs(quots)
    requires forall a :: a in amps ==> a.entity == Amp
    requires forall a :: a in quots ==> a.entity == Quot
    ensures AtMatches(t, spans, amps + quots)
    ensures NonOverlapping(amps + quots)
    ensures DistinctLocs(amps + quots)
  {
    var subs := amps + quots;
    forall a | a in subs ensures a in amps || a in quots {
    }
    forall a, b | a in amps && b in quots ensures a.loc != b.loc && (a.loc < b.loc ==> End(a) <= b.loc)
      && (b.loc < a.loc ==> End(b) <= a.loc)
    {
      assert t[b.loc + 1] == '"' by {
        assert t[b.loc..b.loc + 2] == "\"\"";
      }
      assert t[b.loc] == '"' && t[a.loc] == '&';
    }
    forall i, j | 0 <= i < j < |subs| ensures subs[i].loc != subs[j].loc {
      assert subs[i] in amps || subs[i] in quots;
      assert subs[j] in amps || subs[j] in quots;
      if j < |amps| {
        assert subs[i] == amps[i] && subs[j] == amps[j];
      } else if |amps| <= i {
        assert subs[i] == quots[i - |amps|] && subs[j] == quots[j - |amps|];
      }
    }
  }

  /** The substitutions of a text never overlap, lie inside it, and start
      outside every tag span. */
  lemma {:induction false} SubstitutionsPlaced(t: string)
    ensures AtMatches(t, Intervals(TagMatches(t, 0)), Substitutions(t))
    ensures NonOverlapping(Substitutions(t))
    ensures DistinctLocs(Substitutions(t))
  {
    var spans := Intervals(TagMatches(t, 0));
    var amps := Outside(Matches(t, Amp, 0), Amp, spans);
    var quots := Outside(Matches(t, Quot, 0), Quot, spans);
    assert Substitutions(t) == amps + quots by {
      assert OutsideThrough(t, spans, 1) == amps;
    }
    OutsideFacts(t, Amp, spans);
    OutsideFacts(t, Quot, spans);
    MergedFacts(t, spans, amps, quots);
  }

  /** Sorting keeps the substitutions and puts them in place. */
  lemma {:induction false} SortedFacts(t: string, spans: seq<ClosedInterval>, xs: seq<Substitution>)
    requires AtMatches(t, spans, xs) && NonOverlapping(xs) && DistinctLocs(xs)
    ensures AtMatches(t, spans, SortByLoc(xs))
    ensures Placed(t, SortByLoc(xs))
  {
    var r := SortByLoc(xs);
    forall a | a in r ensures a in xs {
      assert a in multiset(r);
    }
    forall i, j | 0 <= i < j < |r| ensures End(r[i]) <= r[j].loc {
      assert r[i] in r && r[j] in r;
    }
    forall i | 0 <= i < |r| ensures End(r[i]) <= |t| {
      assert r[i] in r;
    }
  }

  /** `sorted(tag_span_subs)` for the text `t`: a permutation of the
      substitutions, in increasing order, each on its match and outside
      every tag span. */
  function SortedSubstitutions(t: string): (r: seq<Substitution>)
    ensures multiset(r) == multiset(Substitutions(t))
    ensures Ascending(r)
    ensures Placed(t, r) && WellPlaced(t, r)
    ensures AtMatches(t, Intervals(TagMatches(t, 0)), r)
  {
    SubstitutionsPlaced(t);
    SortedFacts(t, Intervals(TagMatches(t, 0)), Substitutions(t));
    var r := SortByLoc(Substitutions(t));
    PlacedIsWellPlaced(t, r);
    r
  }

  /** `_predefinedentities` */
  function PredefinedEntities(s: string): (r: string)
    ensures |r| == |EscapeGt(EscapeLt(s))| + 4 * |Substitutions(EscapeGt(EscapeLt(s)))|
  {
    var t := EscapeGt(EscapeLt(s));
    var subs := SortedSubstitutions(t);
    assert |subs| == |multiset(subs)| == |multiset(Substitutions(t))| == |Substitutions(t)|;
    Render(t, subs)
  }

  /** Text without `<` has no `<<` to escape. */
  lemma {:induction false} EscapeLtUntouched(s: string)
    requires !Contains(s, '<')
    ensures EscapeLt(s) == s
    decreases |s|
  {
    if s != [] {
      AbsentFromSuffix(s, '<', 1);
      EscapeLtUntouched(s[1..]);
      assert !At(s, 0, "<<") by { assert s[0] != '<'; }
    }
  }

  /** Text without `>` has no `>>` to escape. */
  lemma {:induction false} EscapeGtUntouched(s: string)
    requires !Contains(s, '>')
    ensures EscapeGt(s) == s
    decreases |s|
  {
    if s != [] {
      AbsentFromSuffix(s, '>', 1);
      EscapeGtUntouched(s[1..]);
      assert !At(s, 0, ">>") by { assert s[0] != '>'; }
    }
  }

  /** Text with none of `<`, `>`, `&` and `"` passes through unchanged. */
  lemma {:induction false} PredefinedEntitiesUntouched(s: string)
    requires !Contains(s, '<') && !Contains(s, '>') && !Contains(s, '&') && !Contains(s, '"')
    ensures PredefinedEntities(s) == s
  {
    EscapeLtUntouched(s);
    EscapeGtUntouched(s);
    NoSubstitutions(s);
  }

  /** Without `&` and `"` there is nothing to substitute. */
  lemma {:induction false} NoSubstitutions(t: string)
    requires !Contains(t, '&') && !Contains(t, '"')
    ensures SortedSubstitutions(t) == []
  {
    var r := SortedSubstitutions(t);
    if r != [] {
      NoEntityAt(t, r[0].entity, r[0].loc);
      assert false;
    }
  }

  /** Neither pattern matches in text without `&` and `"`. */
  lemma {:induction false} NoEntityAt(t: string, x: Entity, p: nat)
    requires !Contains(t, '&') && !Contains(t, '"')
    ensures !EntityAt(t, x, p)
  {
    if x.Quot? && p + 2 <= |t| {
      assert t[p..p + 2][0] == t[p];
    }
  }

  /** A substitution that starts outside a tag span covers no position of
      it: a `""` just before the span would end on its `<`. */
  lemma {:induction false} OutsideCoversNoSpan(t: string, span: (nat, nat), a: Substitution, p: nat)
    requires span.0 <= p < span.1 && span.0 < |t| && t[span.0] == '<'
    requires End(a) <= |t| && EntityAt(t, a.entity, a.loc) && !IntervalOf(span).Contains(a.loc)
    ensures p < a.loc || End(a) <= p
  {
    if a.entity == Quot {
      assert t[a.loc + 1] == '"' by {
        assert t[a.loc..a.loc + 2] == "\"\"";
      }
    }
  }

  lemma {:induction false} NotCovered(subs: seq<Substitution>, p: int)
    requires forall i :: 0 <= i < |subs| ==> p < subs[i].loc || End(subs[i]) <= p
    ensures !Covered(subs, p)
    decreases |subs|
  {
    if subs != [] {
      NotCovered(subs[..|subs| - 1], p);
    }
  }

  /** Every character inside a tag span is kept (shifted by the
      substitutions before it). */
  lemma {:induction false} TagCharactersPreserved(s: string, k: nat, p: nat)
    requires k < |TagMatches(EscapeGt(EscapeLt(s)), 0)|
    requires TagMatches(EscapeGt(EscapeLt(s)), 0)[k].0 <= p < TagMatches(EscapeGt(EscapeLt(s)), 0)[k].1
    ensures var t := EscapeGt(EscapeLt(s));
      var n := CountBefore(SortedSubstitutions(t), p);
      p + 4 * n < |PredefinedEntities(s)| && PredefinedEntities(s)[p + 4 * n] == t[p]
  {
    var t := EscapeGt(EscapeLt(s));
    var subs := SortedSubstitutions(t);
    var found := TagMatches(t, 0);
    assert Intervals(found)[k] == IntervalOf(found[k]);
    forall i | 0 <= i < |subs| ensures p < subs[i].loc || End(subs[i]) <= p {
      assert subs[i] in subs;
      OutsideCoversNoSpan(t, found[k], subs[i], p);
    }
    NotCovered(subs, p);
    RenderKeeps(t, subs, p);
  }

  /** Each substitution shows its reference in the output. */
  lemma {:induction false} SubstitutionsShown(s: string, k: nat)
    requires k < |SortedSubstitutions(EscapeGt(EscapeLt(s)))|
    ensures var t := EscapeGt(EscapeLt(s));
      var x := SortedSubstitutions(t)[k];
      x.loc + 4 * k + |Reference(x.entity)| <= |PredefinedEntities(s)|
      && PredefinedEntities(s)[x.loc + 4 * k..x.loc + 4 * k + |Reference(x.entity)|] == Reference(x.entity)
  {
    var t := EscapeGt(EscapeLt(s));
    RenderReplaces(t, SortedSubstitutions(t), k);
  }

  lemma {:induction false} IntervalsStep(found: seq<(nat, nat)>, k: nat)
    requires k < |found|
    ensures Intervals(found[..k + 1]) == Intervals(found[..k]) + [IntervalOf(found[k])]
  {
    assert found[..k + 1][..k] == found[..k];
  }

  lemma {:induction false} OutsideStep(locs: seq<nat>, x: Entity, spans: seq<ClosedInterval>, k: nat)
    requires Spaced(locs, x.Width()) && k < |locs|
    ensures Spaced(locs[..k], x.Width()) && Spaced(locs[..k + 1], x.Width())
    ensures Outside(locs[..k + 1], x, spans)
      == Outside(locs[..k], x, spans) + (if InAnySpan(locs[k], spans) then [] else [Sub(locs[k], x)])
  {
    assert locs[..k + 1][..k] == locs[..k];
  }

  /** The inner loop of `tag_span_subs`: the matches of one entity that lie
      in no tag span. */
  method OutsideLoop(locs: seq<nat>, x: Entity, spans: seq<ClosedInterval>) returns (r: seq<Substitution>)
    requires Spaced(locs, x.Width())
    ensures r == Outside(locs, x, spans)
  {
    r := [];
    for k := 0 to |locs|
      invariant Spaced(locs[..k], x.Width())
      invariant r == Outside(locs[..k], x, spans)
    {
      OutsideStep(locs, x, spans, k);
      if !InAnySpan(locs[k], spans) {
        r := r + [Sub(locs[k], x)];
      }
    }
    assert locs[..|locs|] == locs;
  }

  /** `_predefinedentities` as its loops run. */
  method PredefinedEntitiesLoop(s: string) returns (r: string)
    ensures r == PredefinedEntities(s)
  {
    var t := EscapeLt(s);
    t := EscapeGt(t);
    var found := TagMatches(t, 0);
    var spans: seq<ClosedInterval> := [];
    for k := 0 to |found|
      invariant spans == Intervals(found[..k])
    {
      IntervalsStep(found, k);
      spans := spans + [IntervalOf(found[k])];
    }
    assert found[..|found|] == found;
    var subs: seq<Substitution> := [];
    for n := 0 to |Predefineds|
      invariant subs == OutsideThrough(t, spans, n)
    {
      var x := Predefineds[n];
      var found := OutsideLoop(Matches(t, x, 0), x, spans);
      subs := subs + found;
    }
    SubstitutionsPlaced(t);
    var sorted := SortByLoc(subs);
    SortedFacts(t, spans, subs);
    PlacedInOrder(t, 0, sorted);
    r := Splice(t, sorted);
  }
}
