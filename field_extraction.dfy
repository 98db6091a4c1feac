/**
 * `extract_field(text, field_name)` of Task3's ingestion script: three regular
 * expressions, compiled with IGNORECASE and DOTALL, are tried in order with
 * `re.search`; the first whose group, stripped and with trailing periods removed,
 * is not empty gives the field's value.
 *
 * Each pattern is `<field>:\s*(<group>)<stop>`. The functions below follow
 * Python's backtracking matcher: `re.search` takes the leftmost start at which the
 * pattern matches; the greedy `\s*` first takes the whole run of whitespace and
 * gives it back one character at a time; the lazy group grows one character at a
 * time until what follows it matches.
 */
module FieldExtraction {
  import opened Wrappers
  import opened Text

  /** The three patterns, in the order they are tried:
      `<field>:\s*(.*?)(?=\s+(?:Treatment|Follow-up))`,
      `<field>:\s*(.*?)(?:\.|$)` and
      `<field>:\s*([^.]*?)(?:\s*\.\s*(?:Treatment|Follow-up)|$)`. */
  datatype FieldPattern = NextFieldAhead | UpToPeriod | PeriodThenNextField

  const Patterns: seq<FieldPattern> := [NextFieldAhead, UpToPeriod, PeriodThenNextField]

  /** The bounds of a capture group in the text. */
  datatype Span = Span(start: nat, end: nat)

  /** The literal `lit` at index `i`, ignoring case. */
  predicate LiteralAt(text: string, lit: string, i: int) {
    && 0 <= i && i + |lit| <= |text|
    && forall j :: 0 <= j < |lit| ==> LowerChar(text[i + j]) == LowerChar(lit[j])
  }

  /** `(?:Treatment|Follow-up)` at index `i`, ignoring case. */
  predicate NextFieldAt(text: string, i: int) {
    LiteralAt(text, "Treatment", i) || LiteralAt(text, "Follow-up", i)
  }

  /** `$` without MULTILINE: the end of the text, or just before a final newline. */
  predicate AtEnd(text: string, x: int) {
    x == |text| || (x == |text| - 1 && 0 <= x && text[x] == '\n')
  }

  /** `\s+(?:Treatment|Follow-up)` at `x`. The greedy `\s+` takes the whole run of
      whitespace; giving any of it back leaves a whitespace character where a field
      name's first letter would have to be, so only the whole run can work. */
  predicate SpacesThenNextField(text: string, x: nat)
    requires x <= |text|
  {
    x < |text| && IsSpace(text[x]) && NextFieldAt(text, SpaceRunEnd(text, x))
  }

  /** `\s*\.\s*(?:Treatment|Follow-up)` at `x`, where for the same reason each `\s*`
      can only match its whole run. */
  predicate PeriodThenFieldAt(text: string, x: nat)
    requires x <= |text|
  {
    var dot := SpaceRunEnd(text, x);
    dot < |text| && text[dot] == '.' && NextFieldAt(text, SpaceRunEnd(text, dot + 1))
  }

  /** What must follow the group for the pattern to match at `x`. */
  predicate Stop(pat: FieldPattern, text: string, x: nat)
    requires x <= |text|
  {
    match pat
    case NextFieldAhead => SpacesThenNextField(text, x)
    case UpToPeriod => (x < |text| && text[x] == '.') || AtEnd(text, x)
    case PeriodThenNextField => PeriodThenFieldAt(text, x) || AtEnd(text, x)
  }

  /** The characters the group may hold: anything under DOTALL, except in `[^.]*?`. */
  predicate GroupChar(pat: FieldPattern, c: char) {
    pat != PeriodThenNextField || c != '.'
  }

  /** Where the rest of the pattern matches after a group ending at `e`, for every
      `e` from `from` to `|text|`. */
  function StopsFrom(pat: FieldPattern, text: string, from: nat): (t: seq<bool>)
    requires from <= |text| + 1
    ensures |t| == |text| + 1 - from
    decreases |text| + 1 - from
  {
    if from == |text| + 1 then [] else [Stop(pat, text, from)] + StopsFrom(pat, text, from + 1)
  }

  function StopTable(pat: FieldPattern, text: string): seq<bool> {
    StopsFrom(pat, text, 0)
  }

  lemma {:induction false} StopsFromAt(pat: FieldPattern, text: string, from: nat, e: nat)
    requires from <= e <= |text|
    ensures StopsFrom(pat, text, from)[e - from] == Stop(pat, text, e)
    decreases e - from
  {
    var t := StopsFrom(pat, text, from);
    if from < e {
      StopsFromAt(pat, text, from + 1, e);
      assert t[e - from] == t[1..][e - from - 1];
    }
  }

  /** Entry `e` of the table is whether the rest of the pattern matches at `e`. */
  lemma StopTableAt(pat: FieldPattern, text: string, e: nat)
    requires e <= |text|
    ensures StopTable(pat, text)[e] == Stop(pat, text, e)
  {
    StopsFromAt(pat, text, 0, e);
  }

  /** Which characters of the text the group may hold. */
  function FitTable(pat: FieldPattern, text: string): seq<bool> {
    seq(|text|, m requires 0 <= m < |text| => GroupChar(pat, text[m]))
  }

  /** The group may run over indices `i` to `j`. */
  predicate Fits(fits: seq<bool>, i: nat, j: nat)
    requires j <= |fits|
  {
    forall m :: i <= m < j ==> fits[m]
  }

  /** The lazy group, grown one character at a time from `x` until the rest of the
      pattern matches (`None` when it cannot grow that far). */
  function LazyEnd(stops: seq<bool>, fits: seq<bool>, x: nat): (r: Option<nat>)
    requires |stops| == |fits| + 1 && x < |stops|
    ensures r.Some? ==> x <= r.value < |stops|
    decreases |stops| - x
  {
    if stops[x] then Some(x)
    else if x < |fits| && fits[x] then LazyEnd(stops, fits, x + 1)
    else None
  }

  /** The lazy group ends at the first place where the rest of the pattern matches,
      having grown only over characters it may hold; without such a place it fails. */
  lemma {:induction false} LazyEndIsFirstStop(stops: seq<bool>, fits: seq<bool>, x: nat)
    requires |stops| == |fits| + 1 && x < |stops|
    ensures var r := LazyEnd(stops, fits, x);
      && (r.Some? ==> stops[r.value] && Fits(fits, x, r.value)
                      && forall k :: x <= k < r.value ==> !stops[k])
      && (r.None? ==> forall k :: x <= k < |stops| && Fits(fits, x, k) ==> !stops[k])
    decreases |stops| - x
  {
    if !stops[x] && x < |fits| && fits[x] {
      LazyEndIsFirstStop(stops, fits, x + 1);
    }
  }

  /** `\s*` has taken `n` characters after index `g` and gives them back one at a
      time until the rest of the pattern matches. */
  function GreedyThenLazy(stops: seq<bool>, fits: seq<bool>, g: nat, n: nat): (r: Option<Span>)
    requires |stops| == |fits| + 1 && g + n < |stops|
    ensures r.Some? ==> g <= r.value.start <= g + n && r.value.start <= r.value.end < |stops|
    decreases n
  {
    match LazyEnd(stops, fits, g + n)
    case Some(e) => Some(Span(g + n, e))
    case None => if n == 0 then None else GreedyThenLazy(stops, fits, g, n - 1)
  }

  /** The group starts after the largest count of whitespace for which the rest
      matches. */
  lemma {:induction false} GreedyTakesMost(stops: seq<bool>, fits: seq<bool>, g: nat, n: nat)
    requires |stops| == |fits| + 1 && g + n < |stops|
    ensures var r := GreedyThenLazy(stops, fits, g, n);
      && (r.Some? ==> LazyEnd(stops, fits, r.value.start) == Some(r.value.end)
                      && forall k :: r.value.start < k <= g + n ==> LazyEnd(stops, fits, k).None?)
      && (r.None? ==> forall k :: g <= k <= g + n ==> LazyEnd(stops, fits, k).None?)
    decreases n
  {
    if LazyEnd(stops, fits, g + n).None? && n > 0 {
      GreedyTakesMost(stops, fits, g, n - 1);
    }
  }

  /** The label `<field>:`. */
  function Label(field: string): string {
    field + ":"
  }

  /** The pattern matched from index `p`: the label, `\s*`, the group and the rest. */
  function MatchAt(pat: FieldPattern, text: string, field: string, p: nat): (r: Option<Span>)
    ensures r.Some? ==> LiteralAt(text, Label(field), p) && r.value.start <= r.value.end <= |text|
  {
    if p > |text| || !LiteralAt(text, Label(field), p) then None
    else
      var g := p + |Label(field)|;
      GreedyThenLazy(StopTable(pat, text), FitTable(pat, text), g, SpaceRunEnd(text, g) - g)
  }

  /** The start of the group at a match: after the label, `\s*` has taken only
      whitespace. */
  lemma MatchAtSpaces(pat: FieldPattern, text: string, field: string, p: nat)
    requires MatchAt(pat, text, field, p).Some?
    ensures var sp := MatchAt(pat, text, field, p).value;
      var g := p + |Label(field)|;
      g <= sp.start <= SpaceRunEnd(text, g) && AllSpace(text[g..sp.start])
  {
    var g := p + |Label(field)|;
    SpaceRunEndFacts(text, g);
  }

  /** The group at a match holds only characters it may, and ends at the first
      index where the rest of the pattern matches. */
  lemma MatchAtGroup(pat: FieldPattern, text: string, field: string, p: nat)
    requires MatchAt(pat, text, field, p).Some?
    ensures var sp := MatchAt(pat, text, field, p).value;
      && Stop(pat, text, sp.end)
      && (forall m :: sp.start <= m < sp.end ==> GroupChar(pat, text[m]))
      && (forall e :: sp.start <= e < sp.end ==> !Stop(pat, text, e))
  {
    var sp := MatchAt(pat, text, field, p).value;
    var g := p + |Label(field)|;
    var stops, fits := StopTable(pat, text), FitTable(pat, text);
    GreedyTakesMost(stops, fits, g, SpaceRunEnd(text, g) - g);
    LazyEndIsFirstStop(stops, fits, sp.start);
    StopTableAt(pat, text, sp.end);
    forall m | sp.start <= m < sp.end
      ensures GroupChar(pat, text[m])
    {
      assert fits[m];
    }
    forall e | sp.start <= e < sp.end
      ensures !Stop(pat, text, e)
    {
      StopTableAt(pat, text, e);
    }
  }

  /** `\s*` is greedy: starting the group after any more of the whitespace run,
      the rest of the pattern matches at no end the group can reach from there. */
  lemma MatchAtGreedy(pat: FieldPattern, text: string, field: string, p: nat, k: nat, e: nat)
    requires MatchAt(pat, text, field, p).Some?
    requires MatchAt(pat, text, field, p).value.start < k <= SpaceRunEnd(text, p + |Label(field)|)
    requires k <= e <= |text| && forall m :: k <= m < e ==> GroupChar(pat, text[m])
    ensures !Stop(pat, text, e)
  {
    var g := p + |Label(field)|;
    var stops, fits := StopTable(pat, text), FitTable(pat, text);
    var run := SpaceRunEnd(text, g);
    GreedyTakesMost(stops, fits, g, run - g);
    LazyEndIsFirstStop(stops, fits, k);
    assert Fits(fits, k, e);
    StopTableAt(pat, text, e);
  }

  /** The outcome of matching at every start index from `from` to `|text|`. */
  function MatchesFrom(pat: FieldPattern, text: string, field: string, from: nat): (t: seq<Option<Span>>)
    requires from <= |text| + 1
    ensures |t| == |text| + 1 - from
    ensures forall k :: 0 <= k < |t| && t[k].Some? ==> t[k].value.start <= t[k].value.end <= |text|
    decreases |text| + 1 - from
  {
    if from == |text| + 1 then [] else [MatchAt(pat, text, field, from)] + MatchesFrom(pat, text, field, from + 1)
  }

  function MatchTable(pat: FieldPattern, text: string, field: string): seq<Option<Span>> {
    MatchesFrom(pat, text, field, 0)
  }

  lemma {:induction false} MatchesFromAt(pat: FieldPattern, text: string, field: string, from: nat, p: nat)
    requires from <= p <= |text|
    ensures MatchesFrom(pat, text, field, from)[p - from] == MatchAt(pat, text, field, p)
    decreases p - from
  {
    var t := MatchesFrom(pat, text, field, from);
    if from < p {
      MatchesFromAt(pat, text, field, from + 1, p);
      assert t[p - from] == t[1..][p - from - 1];
    }
  }

  /** `re.search` tries the start indices in turn: the first outcome from `p` on
      that is a match. */
  function Leftmost(matches: seq<Option<Span>>, p: nat): (r: Option<Span>)
    ensures r.Some? ==> r in matches
    decreases |matches| - p
  {
    if p >= |matches| then None
    else if matches[p].Some? then matches[p]
    else Leftmost(matches, p + 1)
  }

  lemma {:induction false} LeftmostIsFirst(matches: seq<Option<Span>>, p: nat)
    ensures var r := Leftmost(matches, p);
      && (r.Some? ==> exists q :: p <= q < |matches| && matches[q] == r
                                  && forall k :: p <= k < q ==> matches[k].None?)
      && (r.None? ==> forall k :: p <= k < |matches| ==> matches[k].None?)
    decreases |matches| - p
  {
    if p < |matches| && matches[p].None? {
      LeftmostIsFirst(matches, p + 1);
    }
  }

  /** `re.search(pattern, text, re.IGNORECASE | re.DOTALL)`. */
  function Search(pat: FieldPattern, text: string, field: string): (r: Option<Span>)
    ensures r.Some? ==> r.value.start <= r.value.end <= |text|
  {
    Leftmost(MatchTable(pat, text, field), 0)
  }

  /** `re.search` reports the match at the leftmost start, and fails only when the
      pattern matches at no start. */
  lemma SearchIsLeftmost(pat: FieldPattern, text: string, field: string)
    ensures var r := Search(pat, text, field);
      && (r.Some? ==> exists q :: 0 <= q <= |text| && MatchAt(pat, text, field, q) == r
                                  && forall k :: 0 <= k < q ==> MatchAt(pat, text, field, k).None?)
      && (r.None? ==> forall k :: 0 <= k <= |text| ==> MatchAt(pat, text, field, k).None?)
  {
    var table := MatchTable(pat, text, field);
    var r := Search(pat, text, field);
    LeftmostIsFirst(table, 0);
    if r.Some? {
      var q :| 0 <= q < |table| && table[q] == r && forall k :: 0 <= k < q ==> table[k].None?;
      MatchesFromAt(pat, text, field, 0, q);
      forall k | 0 <= k < q
        ensures MatchAt(pat, text, field, k).None?
      {
        MatchesFromAt(pat, text, field, 0, k);
      }
    } else {
      forall k | 0 <= k <= |text|
        ensures MatchAt(pat, text, field, k).None?
      {
        MatchesFromAt(pat, text, field, 0, k);
      }
    }
  }

  /** `match.group(1).strip().rstrip('.')`. */
  function GroupContent(text: string, sp: Span): string
    requires sp.start <= sp.end <= |text|
  {
    TrimEndChar(Strip(text[sp.start..sp.end]), '.')
  }

  /** What one pattern contributes: its content, or "" when it does not match. */
  function PatternContent(pat: FieldPattern, text: string, field: string): string {
    match Search(pat, text, field)
    case None => ""
    case Some(sp) => GroupContent(text, sp)
  }

  /** Content that does not end the search over the patterns. */
  predicate NoContent(c: string) {
    c == "" || c == "."
  }

  /** What each pattern contributes, for one note and one field. */
  function ContentsOf(text: string, field: string): FieldPattern -> string {
    pat => PatternContent(pat, text, field)
  }

  /** The loop of `extract_field` over the patterns still to try. */
  function FirstContent(pats: seq<FieldPattern>, content: FieldPattern -> string): string {
    if pats == [] then ""
    else if !NoContent(content(pats[0])) then content(pats[0])
    else FirstContent(pats[1..], content)
  }

  /** `extract_field(text, field_name)`. */
  function ExtractField(text: string, field: string): string {
    FirstContent(Patterns, ContentsOf(text, field))
  }

  // ---------------------------------------------------------------------------
  // Properties
  // ---------------------------------------------------------------------------

  /** Stripping and dropping trailing periods leaves a piece of the group that
      starts with no whitespace and ends with no period. */
  lemma TrimmedShape(g: string)
    ensures var c := TrimEndChar(Strip(g), '.');
      c != "" ==> !IsSpace(c[0]) && c[|c| - 1] != '.' && OccursAt(g, c, LeadingSpaces(g))
  {
    var s := Strip(g);
    var c := TrimEndChar(s, '.');
    if c != "" {
      PrefixOfSlice(g, LeadingSpaces(g), s, c);
    }
  }

  /** A group's content is a slice of the text that does not start with whitespace
      and does not end with a period. */
  lemma GroupContentShape(text: string, sp: Span)
    requires sp.start <= sp.end <= |text|
    ensures var c := GroupContent(text, sp);
      c != "" ==> !IsSpace(c[0]) && c[|c| - 1] != '.' && Contains(text, c)
  {
    var g := text[sp.start..sp.end];
    var c := GroupContent(text, sp);
    TrimmedShape(g);
    if c != "" {
      OccursInSlice(text, sp.start, sp.end, c, LeadingSpaces(g));
      ContainsIff(text, c);
    }
  }

  /** Patterns are tried in order; one whose content is empty (or a lone period)
      does not end the search; the result is the first other content, or "". */
  lemma {:induction false} FirstContentIsFirst(pats: seq<FieldPattern>, content: FieldPattern -> string)
    ensures var r := FirstContent(pats, content);
      && (r == "" <==> forall k :: 0 <= k < |pats| ==> NoContent(content(pats[k])))
      && (r != "" ==> exists k :: 0 <= k < |pats| && content(pats[k]) == r
                                  && forall j :: 0 <= j < k ==> NoContent(content(pats[j])))
  {
    if pats != [] {
      var rest := pats[1..];
      FirstContentIsFirst(rest, content);
      var r := FirstContent(pats, content);
      if NoContent(content(pats[0])) {
        assert forall k :: 1 <= k < |pats| ==> pats[k] == rest[k - 1];
        if r != "" {
          var k :| 0 <= k < |rest| && content(rest[k]) == r
                   && forall j :: 0 <= j < k ==> NoContent(content(rest[j]));
          assert content(pats[k + 1]) == r;
        }
      }
    }
  }

  /** `extract_field` returns the content of the first of the three patterns whose
      content is neither empty nor a lone period, and "" when there is none. */
  lemma ExtractFieldFirstNonEmpty(text: string, field: string)
    ensures var r := ExtractField(text, field);
      && (r == "" <==> forall k :: 0 <= k < 3 ==> NoContent(PatternContent(Patterns[k], text, field)))
      && (r != "" ==> exists k :: 0 <= k < 3 && PatternContent(Patterns[k], text, field) == r
                                  && forall j :: 0 <= j < k ==> NoContent(PatternContent(Patterns[j], text, field)))
  {
    FirstContentIsFirst(Patterns, ContentsOf(text, field));
  }

  /** What one pattern contributes is "" or a slice of the note that starts with
      no whitespace and ends with no period. */
  lemma PatternContentShape(pat: FieldPattern, text: string, field: string)
    ensures var c := PatternContent(pat, text, field);
      c != "" ==> !IsSpace(c[0]) && c[|c| - 1] != '.' && Contains(text, c)
  {
    match Search(pat, text, field)
    case None =>
    case Some(sp) =>
      GroupContentShape(text, sp);
  }

  /** `extract_field` returns "" or a slice of the note that starts with no
      whitespace and ends with no period. */
  lemma ExtractFieldShape(text: string, field: string)
    ensures var r := ExtractField(text, field);
      r != "" ==> !IsSpace(r[0]) && r[|r| - 1] != '.' && Contains(text, r)
  {
    var r := ExtractField(text, field);
    FirstContentIsFirst(Patterns, ContentsOf(text, field));
    if r != "" {
      var k :| 0 <= k < |Patterns| && ContentsOf(text, field)(Patterns[k]) == r;
      PatternContentShape(Patterns[k], text, field);
    }
  }

  /** Without the label `<field>:` anywhere in the note (ignoring case), no pattern
      matches and the field is "". */
  lemma NoLabelNoField(text: string, field: string)
    requires forall p :: 0 <= p <= |text| ==> !LiteralAt(text, Label(field), p)
    ensures ExtractField(text, field) == ""
  {
    forall pat | pat in Patterns
      ensures PatternContent(pat, text, field) == ""
    {
      SearchIsLeftmost(pat, text, field);
    }
    FirstContentIsFirst(Patterns, ContentsOf(text, field));
  }
}
