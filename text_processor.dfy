/**
 * Task1's TextProcessor: `clean_text`, which normalises the whitespace of OCR
 * output, and the post-processing tail of `extract_keywords`, which removes a
 * Markdown code fence from the model's answer and keeps at most 20 keywords.
 * The model call and Python's `eval` are parameters.
 */
module TextProcessor {
  import opened Wrappers
  import opened Text

  // ---------------------------------------------------------------------------
  // clean_text
  // ---------------------------------------------------------------------------

  /** `re.sub(r'\s+', ' ', s)`: each maximal run of whitespace becomes one space. */
  function CollapseSpaces(s: string): string
    decreases |s|
  {
    if s == [] then []
    else if IsSpace(s[0]) then " " + CollapseSpaces(TrimStart(s))
    else [s[0]] + CollapseSpaces(s[1..])
  }

  /** `clean_text(raw_text)`. */
  function CleanText(raw: string): string {
    if raw == "" then "" else CollapseSpaces(Strip(raw))
  }

  /** Every whitespace character is a plain space and no two of them are adjacent. */
  predicate SingleSpaced(s: string) {
    && (forall i :: 0 <= i < |s| && IsSpace(s[i]) ==> s[i] == ' ')
    && (forall i :: 0 <= i < |s| - 1 && IsSpace(s[i]) ==> !IsSpace(s[i + 1]))
  }

  /** The text with all its whitespace deleted. */
  function DropSpaces(s: string): string {
    if s == [] then [] else (if IsSpace(s[0]) then [] else [s[0]]) + DropSpaces(s[1..])
  }

  lemma {:induction false} DropSpacesAppend(a: string, b: string)
    ensures DropSpaces(a + b) == DropSpaces(a) + DropSpaces(b)
    decreases |a|
  {
    if a == [] {
      assert a + b == b;
    } else {
      assert (a + b)[0] == a[0];
      assert (a + b)[1..] == a[1..] + b;
      DropSpacesAppend(a[1..], b);
    }
  }

  lemma {:induction false} DropSpacesOfSpaces(s: string)
    requires AllSpace(s)
    ensures DropSpaces(s) == []
    decreases |s|
  {
    if s != [] {
      DropSpacesOfSpaces(s[1..]);
    }
  }

  /** Putting a space before text that does not start with whitespace, or a
      character that is not whitespace before any single-spaced text, keeps it
      single-spaced. */
  lemma SingleSpacedCons(c: char, rest: string)
    requires SingleSpaced(rest)
    requires c == ' ' || !IsSpace(c)
    requires IsSpace(c) && rest != [] ==> !IsSpace(rest[0])
    ensures SingleSpaced([c] + rest)
  {
    var out := [c] + rest;
    forall i | 0 < i < |out|
      ensures out[i] == rest[i - 1]
    {
    }
  }

  /** What `re.sub(r'\s+', ' ', s)` produces has single spaces only. */
  lemma {:induction false} CollapseSingleSpaced(s: string)
    ensures SingleSpaced(CollapseSpaces(s))
    decreases |s|
  {
    if s == [] {
    } else if IsSpace(s[0]) {
      var t := TrimStart(s);
      CollapseSingleSpaced(t);
      CollapseEnds(t);
      SingleSpacedCons(' ', CollapseSpaces(t));
    } else {
      CollapseSingleSpaced(s[1..]);
      SingleSpacedCons(s[0], CollapseSpaces(s[1..]));
    }
  }

  /** Collapsing leaves the text empty only when it was, and starts it with
      whitespace exactly when `s` starts with whitespace. */
  lemma CollapseEnds(s: string)
    ensures CollapseSpaces(s) == [] <==> s == []
    ensures s != [] ==> (IsSpace(CollapseSpaces(s)[0]) <==> IsSpace(s[0]))
    ensures s != [] ==> (IsSpace(CollapseSpaces(s)[|CollapseSpaces(s)| - 1]) <==> IsSpace(s[|s| - 1]))
  {
    if s != [] {
      CollapseLast(s);
    }
  }

  /** Collapsing ends the text with whitespace exactly when `s` ends with it. */
  lemma {:induction false} CollapseLast(s: string)
    requires s != []
    ensures CollapseSpaces(s) != []
    ensures IsSpace(CollapseSpaces(s)[|CollapseSpaces(s)| - 1]) <==> IsSpace(s[|s| - 1])
    decreases |s|
  {
    if IsSpace(s[0]) {
      var t := TrimStart(s);
      if t == [] {
        assert AllSpace(s);
      } else {
        CollapseLast(t);
        assert s[|s| - 1] == t[|t| - 1];
      }
    } else if s[1..] != [] {
      CollapseLast(s[1..]);
      assert s[|s| - 1] == s[1..][|s[1..]| - 1];
    }
  }

  /** Collapsing deletes and inserts whitespace only. */
  lemma {:induction false} CollapseKeepsText(s: string)
    ensures DropSpaces(CollapseSpaces(s)) == DropSpaces(s)
    decreases |s|
  {
    if s == [] {
    } else if IsSpace(s[0]) {
      var k := LeadingSpaces(s);
      CollapseKeepsText(s[k..]);
      DropSpacesAppend(" ", CollapseSpaces(s[k..]));
      assert s == s[..k] + s[k..];
      DropSpacesAppend(s[..k], s[k..]);
      DropSpacesOfSpaces(s[..k]);
    } else {
      CollapseKeepsText(s[1..]);
      DropSpacesAppend([s[0]], CollapseSpaces(s[1..]));
    }
  }

  /** Text that is already single-spaced is left unchanged by collapsing. */
  lemma {:induction false} CollapseFixesSingleSpaced(s: string)
    requires SingleSpaced(s)
    ensures CollapseSpaces(s) == s
    decreases |s|
  {
    if s != [] {
      assert SingleSpaced(s[1..]);
      if IsSpace(s[0]) {
        assert |s| > 1 ==> !IsSpace(s[1]);
        assert TrimStart(s) == s[1..];
      }
      CollapseFixesSingleSpaced(s[1..]);
    }
  }

  /** A whitespace run in front of text that does not start with whitespace
      becomes one space. */
  lemma {:induction false} CollapseRunInFront(w: string, b: string)
    requires w != [] && AllSpace(w)
    requires b == [] || !IsSpace(b[0])
    ensures CollapseSpaces(w + b) == " " + CollapseSpaces(b)
  {
    var s := w + b;
    assert forall i :: 0 <= i < |w| ==> s[i] == w[i];
    assert |w| < |s| ==> s[|w|] == b[0];
    LeadingSpacesUnique(s, |w|);
    assert TrimStart(s) == b;
  }

  /** Leading whitespace of text that holds a character other than whitespace
      stays leading whitespace when more text follows. */
  lemma {:induction false} TrimStartAppend(a: string, r: string)
    requires LeadingSpaces(a) < |a|
    ensures TrimStart(a + r) == TrimStart(a) + r
  {
    var s := a + r;
    var n := LeadingSpaces(a);
    assert forall i :: 0 <= i < |a| ==> s[i] == a[i];
    LeadingSpacesUnique(s, n);
    assert s[n..] == a[n..] + r;
  }

  /** Text that ends with a character other than whitespace is not all leading
      whitespace, and stripping its start keeps that last character. */
  lemma {:induction false} TrimStartKeepsLast(a: string)
    requires a != [] && !IsSpace(a[|a| - 1])
    ensures LeadingSpaces(a) < |a|
    ensures TrimStart(a) != [] && TrimStart(a)[|TrimStart(a)| - 1] == a[|a| - 1]
  { }

  /** Collapsing text that starts with a whitespace run followed by some other
      character: the run becomes one space, whatever follows the text. */
  lemma {:induction false} CollapseSpaceFront(a: string, w: string, b: string)
    requires a != [] && IsSpace(a[0]) && LeadingSpaces(a) < |a|
    ensures CollapseSpaces(a) == " " + CollapseSpaces(TrimStart(a))
    ensures CollapseSpaces(a + w + b) == " " + CollapseSpaces(TrimStart(a) + w + b)
  {
    TrimStartAppend(a, w + b);
    assert a + w + b == a + (w + b);
    assert TrimStart(a) + w + b == TrimStart(a) + (w + b);
  }

  /** Collapsing text that starts with a character other than whitespace keeps it. */
  lemma {:induction false} CollapseCharFront(a: string, w: string, b: string)
    requires a != [] && !IsSpace(a[0])
    ensures CollapseSpaces(a) == [a[0]] + CollapseSpaces(a[1..])
    ensures CollapseSpaces(a + w + b) == [a[0]] + CollapseSpaces(a[1..] + w + b)
  {
    assert (a + w + b)[0] == a[0];
    assert (a + w + b)[1..] == a[1..] + w + b;
  }

  /** The algebra of one step: a front `head` in front of a split text. */
  lemma {:induction false} SplitFront(x: string, xt: string, ca: string, ct: string, head: string, cb: string)
    requires x == head + xt && ca == head + ct
    requires xt == ct + " " + cb
    ensures x == ca + " " + cb
  {
  }

  /** `re.sub(r'\s+', ' ', ...)` replaces a maximal run of whitespace by one space
      and leaves the text on either side of it to be collapsed on its own. */
  lemma {:induction false} CollapseSplit(a: string, w: string, b: string)
    requires a == [] || !IsSpace(a[|a| - 1])
    requires w != [] && AllSpace(w)
    requires b == [] || !IsSpace(b[0])
    ensures CollapseSpaces(a + w + b) == CollapseSpaces(a) + " " + CollapseSpaces(b)
    decreases |a|
  {
    if a == [] {
      assert a + w + b == w + b;
      CollapseRunInFront(w, b);
    } else {
      var head: string, t: string;
      if IsSpace(a[0]) {
        TrimStartKeepsLast(a);
        CollapseSpaceFront(a, w, b);
        head, t := " ", TrimStart(a);
      } else {
        assert a[1..] != [] ==> a[1..][|a[1..]| - 1] == a[|a| - 1];
        CollapseCharFront(a, w, b);
        head, t := [a[0]], a[1..];
      }
      CollapseSplit(t, w, b);
      SplitFront(CollapseSpaces(a + w + b), CollapseSpaces(t + w + b),
                 CollapseSpaces(a), CollapseSpaces(t), head, CollapseSpaces(b));
    }
  }

  /** In `clean_text`, a whitespace run between two other characters of the
      stripped text becomes one space, and the text on either side of it is
      cleaned on its own. */
  lemma {:induction false} CleanTextSplit(raw: string, a: string, w: string, b: string)
    requires Strip(raw) == a + w + b
    requires a != [] && !IsSpace(a[|a| - 1])
    requires w != [] && AllSpace(w)
    requires b != [] && !IsSpace(b[0])
    ensures CleanText(raw) == CollapseSpaces(a) + " " + CollapseSpaces(b)
  {
    CollapseSplit(a, w, b);
  }

  /** `clean_text` maps the empty text to the empty text; otherwise its result has no
      whitespace at either end, and every whitespace character in it is a single
      space between two other characters. */
  lemma CleanTextShape(raw: string)
    ensures raw == "" ==> CleanText(raw) == ""
    ensures SingleSpaced(CleanText(raw))
    ensures CleanText(raw) != [] ==>
              !IsSpace(CleanText(raw)[0]) && !IsSpace(CleanText(raw)[|CleanText(raw)| - 1])
  {
    if raw != "" {
      CollapseSingleSpaced(Strip(raw));
      CollapseEnds(Strip(raw));
    }
  }

  /** `clean_text` keeps every non-whitespace character, in order. */
  lemma CleanTextKeepsText(raw: string)
    ensures DropSpaces(CleanText(raw)) == DropSpaces(raw)
  {
    if raw != "" {
      var a := LeadingSpaces(raw);
      var r := Strip(raw);
      CollapseKeepsText(r);
      assert raw == raw[..a] + r + raw[a + |r|..];
      DropSpacesAppend(raw[..a] + r, raw[a + |r|..]);
      DropSpacesAppend(raw[..a], r);
      DropSpacesOfSpaces(raw[..a]);
      DropSpacesOfSpaces(raw[a + |r|..]);
    }
  }

  /** `clean_text(clean_text(x)) == clean_text(x)`. */
  lemma CleanTextIdempotent(raw: string)
    ensures CleanText(CleanText(raw)) == CleanText(raw)
  {
    var c := CleanText(raw);
    CleanTextShape(raw);
    if c != "" {
      StripOfStripped(c);
      CollapseFixesSingleSpaced(c);
    }
  }

  // ---------------------------------------------------------------------------
  // extract_keywords, after the model has answered
  // ---------------------------------------------------------------------------

  /** The opening of a Markdown code fence. */
  const Fence: string := "```"

  /** The most keywords `extract_keywords` returns. */
  const MaxKeywords: nat := 20

  /** What Python's `eval` made of the cleaned answer. */
  datatype Parsed<T> = ParsedList(items: seq<T>) | ParsedOther | EvalRaised

  /** What `extract_keywords` does: return a list, or raise the IndexError of a
      fenced answer without a newline (that step is outside the `try`). */
  datatype KeywordsOutcome<T> = Keywords(items: seq<T>) | IndexErrorRaised

  /** `s.rsplit(sep, 1)[0]`: the text before the last `sep`, or all of it. */
  function BeforeLast(s: string, sep: string): string {
    match RFind(s, sep)
    case None => s
    case Some(j) => s[..j]
  }

  /** `response.split("\n", 1)[1].rsplit("```", 1)[0].strip()` when the answer
      starts with a fence, the answer itself otherwise; `None` is the IndexError
      that `[1]` raises when there is no newline. */
  function StripFence(response: string): Option<string> {
    if !(Fence <= response) then Some(response)
    else match IndexOf(response, '\n')
      case None => None
      case Some(i) => Some(Strip(BeforeLast(response[i + 1..], Fence)))
  }

  /** The tail of `extract_keywords(text)`: `answer` is the model's reply and `eval`
      Python's evaluation of the cleaned reply. */
  function ExtractKeywords<T>(text: string, answer: string, eval: string -> Parsed<T>): KeywordsOutcome<T> {
    if text == "" then Keywords([])
    else match StripFence(answer)
      case None => IndexErrorRaised
      case Some(cleaned) =>
        match eval(cleaned)
        case ParsedList(items) => Keywords(if |items| <= MaxKeywords then items else items[..MaxKeywords])
        case _ => Keywords([])
  }

  /** An answer that does not start with a fence is evaluated as it is. */
  lemma UnfencedAnswerKept(response: string)
    requires !(Fence <= response)
    ensures StripFence(response) == Some(response)
  {
  }

  /** An occurrence in a suffix is an occurrence in the whole string. */
  lemma OccursInSuffix(s: string, start: nat, sub: string, k: nat)
    requires start <= |s|
    ensures OccursAt(s[start..], sub, k) <==> OccursAt(s, sub, start + k)
  {
    if k + |sub| <= |s| - start {
      assert s[start..][k..k + |sub|] == s[start + k..start + k + |sub|];
    }
  }

  /** The text before the last `sep` that lies wholly after `start`. */
  lemma BeforeLastOfSuffix(s: string, start: nat, sep: string, e: nat)
    requires start <= e <= |s|
    requires e == |s| ==> forall k :: start <= k ==> !OccursAt(s, sep, k)
    requires e < |s| ==> OccursAt(s, sep, e) && forall k :: e < k ==> !OccursAt(s, sep, k)
    ensures BeforeLast(s[start..], sep) == s[start..e]
  {
    match RFind(s[start..], sep)
    case None =>
      if e < |s| {
        OccursInSuffix(s, start, sep, e - start);
      }
    case Some(j) =>
      OccursInSuffix(s, start, sep, j);
      assert e == start + j by {
        if e > start + j {
          OccursInSuffix(s, start, sep, e - start);
        }
      }
  }

  /** A fenced answer with a newline becomes the stripped text between its first
      newline and the last fence after that newline (or its end, if none). */
  lemma FencedAnswer(response: string, i: nat, e: nat)
    requires Fence <= response
    requires i < |response| && response[i] == '\n'
    requires forall k :: 0 <= k < i ==> response[k] != '\n'
    requires i + 1 <= e <= |response|
    requires e == |response| ==> forall k :: i + 1 <= k ==> !OccursAt(response, Fence, k)
    requires e < |response| ==>
               OccursAt(response, Fence, e) && forall k :: e < k ==> !OccursAt(response, Fence, k)
    ensures StripFence(response) == Some(Strip(response[i + 1..e]))
  {
    IndexOfFirst(response, '\n', i);
    BeforeLastOfSuffix(response, i + 1, Fence, e);
  }

  /** A fenced answer without a newline makes `extract_keywords` raise. */
  lemma FencedAnswerWithoutNewlineRaises<T>(text: string, response: string, eval: string -> Parsed<T>)
    requires text != "" && Fence <= response && '\n' !in response
    ensures ExtractKeywords(text, response, eval) == IndexErrorRaised
  {
  }

  /** `extract_keywords` returns `[]` for empty text; otherwise, unless it raises, the
      first 20 items of the evaluated list (all of them when there are fewer), or
      `[]` when the evaluated answer is not a list. It raises exactly for a fenced answer with no newline. */
  lemma ExtractKeywordsResult<T>(text: string, answer: string, eval: string -> Parsed<T>)
    ensures text == "" ==> ExtractKeywords(text, answer, eval) == Keywords([])
    ensures (ExtractKeywords(text, answer, eval).IndexErrorRaised?
             <==> text != "" && Fence <= answer && '\n' !in answer)
    ensures ExtractKeywords(text, answer, eval).Keywords? ==>
              |ExtractKeywords(text, answer, eval).items| <= MaxKeywords
    ensures text != "" && StripFence(answer).Some? ==>
              match eval(StripFence(answer).value)
              case ParsedList(items) =>
                ExtractKeywords(text, answer, eval).items <= items
                && (|items| <= MaxKeywords ==> ExtractKeywords(text, answer, eval).items == items)
                && (|items| > MaxKeywords ==> |ExtractKeywords(text, answer, eval).items| == MaxKeywords)
              case _ => ExtractKeywords(text, answer, eval) == Keywords([])
  {
  }
}
