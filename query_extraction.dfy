/**
 * `extract_diagnosis_from_query` of Task3's API: the diagnosis a question asks
 * about. Three regular expressions are tried in order on the lower-cased
 * question; the first that matches gives its captured group, stripped, with the
 * whole words "the", "a" and "an" removed, stripped again. When none matches, the
 * first of a fixed list of medical terms found in the question is the answer, and
 * failing that the empty string.
 *
 * Each pattern has the shape `LEAD.*?(?:VERB1|VERB2|VERB3)\s+([^?]+)`, and is
 * modelled as Python's backtracking engine runs it: the leftmost start, the lazy
 * `.*?` growing from nothing and never crossing a newline, the verbs tried in
 * order, `\s+` giving back one character at a time from the whole whitespace run,
 * and the greedy `[^?]+` taking all it can.
 */
module QueryExtraction {
  import opened Wrappers
  import opened Text

  /** A pattern `LEAD.*?(?:VERBS)\s+([^?]+)`. */
  datatype QueryPattern = QueryPattern(lead: string, verbs: seq<string>)

  /** The three patterns, in the order they are tried. */
  const QueryPatterns: seq<QueryPattern> := [
    QueryPattern("which patients", ["have", "had", "with"]),
    QueryPattern("patients", ["diagnosed with", "have", "had"]),
    QueryPattern("who", ["has", "have", "had"])
  ]

  /** The terms looked for when no pattern matches, in the order they are tried. */
  const MedicalTerms: seq<string> := [
    "pneumonia", "diabetes", "hypertension", "copd", "appendicitis",
    "myocardial infarction", "alzheimer", "endometriosis", "osteoarthritis",
    "anxiety", "depression", "migraine", "headache"
  ]

  // ---------------------------------------------------------------------------
  // `\s+([^?]+)`
  // ---------------------------------------------------------------------------

  /** Where the greedy `[^?]+` started at `i` stops: at the first '?' or the end. */
  function GroupEnd(s: string, i: nat): (e: nat)
    requires i <= |s|
    ensures i <= e <= |s|
    decreases |s| - i
  {
    if i < |s| && s[i] != '?' then GroupEnd(s, i + 1) else i
  }

  lemma {:induction false} GroupEndFacts(s: string, i: nat)
    requires i <= |s|
    ensures forall k :: i <= k < GroupEnd(s, i) ==> s[k] != '?'
    ensures GroupEnd(s, i) < |s| ==> s[GroupEnd(s, i)] == '?'
    decreases |s| - i
  {
    if i < |s| && s[i] != '?' {
      GroupEndFacts(s, i + 1);
    }
  }

  /** `\s+` may take the characters from `y` up to `z`, and `[^?]+` can start at
      `z`. */
  predicate GroupStartOk(s: string, y: nat, z: int)
    requires y <= |s|
  {
    y < z <= SpaceRunEnd(s, y) && z < |s| && s[z] != '?'
  }

  /** Where the group starts when `\s+([^?]+)` is tried at `y`: the greedy `\s+`
      takes the whole whitespace run if the group can follow it, and otherwise gives
      back its last character, which the group then takes. */
  function GroupStart(s: string, y: nat): (r: Option<nat>)
    requires y <= |s|
    ensures r.Some? ==> y < r.value < |s|
  {
    var e := SpaceRunEnd(s, y);
    if e == y then None
    else if e < |s| && s[e] != '?' then Some(e)
    else if e - y >= 2 then Some(e - 1)
    else None
  }

  /** The group starts at the largest split the backtracking finds, and there is
      none when no split works. */
  lemma GroupStartIsLargest(s: string, y: nat)
    requires y <= |s|
    ensures GroupStart(s, y).Some? ==>
      && GroupStartOk(s, y, GroupStart(s, y).value)
      && forall z :: GroupStartOk(s, y, z) ==> z <= GroupStart(s, y).value
    ensures GroupStart(s, y).None? ==> forall z :: !GroupStartOk(s, y, z)
  {
    SpaceRunEndFacts(s, y);
  }

  // ---------------------------------------------------------------------------
  // `(?:VERBS)` and the lazy `.*?` before it
  // ---------------------------------------------------------------------------

  /** The verb `v` occurs at `x` and the rest of the pattern matches after it. */
  predicate VerbCompletes(s: string, v: string, x: nat) {
    OccursAt(s, v, x) && GroupStart(s, x + |v|).Some?
  }

  /** The alternation tried at `x`: the group start of the first verb with which
      the rest of the pattern matches. */
  function VerbMatch(s: string, verbs: seq<string>, x: nat): (r: Option<nat>)
    ensures r.Some? ==> r.value < |s|
    decreases |verbs|
  {
    if verbs == [] then None
    else if VerbCompletes(s, verbs[0], x) then GroupStart(s, x + |verbs[0]|)
    else VerbMatch(s, verbs[1..], x)
  }

  /** The index of the first verb with which the pattern completes at `x`;
      `|verbs|` when there is none. */
  function CompletingVerb(s: string, verbs: seq<string>, x: nat): (j: nat)
    ensures j <= |verbs|
    decreases |verbs|
  {
    if verbs == [] || VerbCompletes(s, verbs[0], x) then 0
    else 1 + CompletingVerb(s, verbs[1..], x)
  }

  /** The alternation is tried in order: the first verb that completes decides
      the group start, and no verb completing means no match at `x`. */
  lemma {:induction false} VerbMatchIsFirst(s: string, verbs: seq<string>, x: nat)
    ensures CompletingVerb(s, verbs, x) < |verbs| ==>
      VerbCompletes(s, verbs[CompletingVerb(s, verbs, x)], x)
      && VerbMatch(s, verbs, x) == GroupStart(s, x + |verbs[CompletingVerb(s, verbs, x)]|)
    ensures forall i :: 0 <= i < CompletingVerb(s, verbs, x) ==> !VerbCompletes(s, verbs[i], x)
    ensures CompletingVerb(s, verbs, x) == |verbs| ==> VerbMatch(s, verbs, x).None?
    decreases |verbs|
  {
    if verbs != [] && !VerbCompletes(s, verbs[0], x) {
      VerbMatchIsFirst(s, verbs[1..], x);
      assert forall i :: 0 < i < |verbs| ==> verbs[i] == verbs[1..][i - 1];
    }
  }

  /** No newline lies between `a` and `b`: `.` may cover that stretch. */
  predicate NoNewline(s: string, a: nat, b: nat)
    requires a <= b <= |s|
  {
    forall k :: a <= k < b ==> s[k] != '\n'
  }

  /** The lazy `.*?` starting at `x`: the verbs are tried after zero characters,
      then one, and so on, as long as no newline is crossed. The result is where
      the verb that completes the match starts. */
  function LazyVerbAt(s: string, verbs: seq<string>, x: nat): (r: Option<nat>)
    requires x <= |s|
    ensures r.Some? ==> x <= r.value <= |s| && VerbMatch(s, verbs, r.value).Some?
    decreases |s| - x
  {
    if VerbMatch(s, verbs, x).Some? then Some(x)
    else if x < |s| && s[x] != '\n' then LazyVerbAt(s, verbs, x + 1)
    else None
  }

  /** The group start of the match that the lazy `.*?` reaches first. */
  function LazyMatch(s: string, verbs: seq<string>, x: nat): (r: Option<nat>)
    requires x <= |s|
    ensures r.Some? ==> r.value < |s|
  {
    var w := LazyVerbAt(s, verbs, x);
    if w.Some? then VerbMatch(s, verbs, w.value) else None
  }

  /** `.*?` stops at the first position where the rest of the pattern matches,
      and finds none when no position before a newline works. */
  lemma {:induction false} LazyVerbAtIsFirst(s: string, verbs: seq<string>, x: nat)
    requires x <= |s|
    ensures var r := LazyVerbAt(s, verbs, x);
      && (r.Some? ==>
            && NoNewline(s, x, r.value)
            && forall v :: x <= v < r.value ==> VerbMatch(s, verbs, v).None?)
      && (r.None? ==>
            forall w :: x <= w <= |s| && NoNewline(s, x, w) ==> VerbMatch(s, verbs, w).None?)
    decreases |s| - x
  {
    if VerbMatch(s, verbs, x).None? {
      if x < |s| && s[x] != '\n' {
        LazyVerbAtIsFirst(s, verbs, x + 1);
        forall w | x < w <= |s| && NoNewline(s, x, w)
          ensures NoNewline(s, x + 1, w)
        {
        }
      } else {
        forall w | x <= w <= |s| && NoNewline(s, x, w)
          ensures w == x
        {
        }
      }
    }
  }

  // ---------------------------------------------------------------------------
  // `re.search`
  // ---------------------------------------------------------------------------

  /** The pattern tried from position `p`: the group start, if it matches there. */
  function MatchAt(s: string, pat: QueryPattern, p: nat): (r: Option<nat>)
    ensures r.Some? ==> OccursAt(s, pat.lead, p) && r.value < |s|
  {
    if OccursAt(s, pat.lead, p) then LazyMatch(s, pat.verbs, p + |pat.lead|) else None
  }

  /** `re.search` from position `p` on. */
  function SearchFrom(s: string, pat: QueryPattern, p: nat): (r: Option<nat>)
    ensures r.Some? ==> r.value < |s|
    decreases |s| + 1 - p
  {
    if p > |s| then None
    else if MatchAt(s, pat, p).Some? then MatchAt(s, pat, p)
    else SearchFrom(s, pat, p + 1)
  }

  lemma {:induction false} SearchFromIsLeftmost(s: string, pat: QueryPattern, p: nat)
    ensures SearchFrom(s, pat, p).Some? ==>
      exists q :: p <= q <= |s| && MatchAt(s, pat, q) == SearchFrom(s, pat, p)
        && forall k :: p <= k < q ==> MatchAt(s, pat, k).None?
    ensures SearchFrom(s, pat, p).None? ==> forall k :: p <= k <= |s| ==> MatchAt(s, pat, k).None?
    decreases |s| + 1 - p
  {
    if p <= |s| && MatchAt(s, pat, p).None? {
      SearchFromIsLeftmost(s, pat, p + 1);
    }
  }

  /** The text `match.group(1)` of `re.search(pat, s)`, if it matches. */
  function Captured(s: string, pat: QueryPattern): (r: Option<string>)
    ensures r.Some? ==> forall c :: c in r.value ==> c != '?' && c in s
  {
    var m := SearchFrom(s, pat, 0);
    if m.None? then None
    else
      var z := m.value;
      GroupEndFacts(s, z);
      Some(s[z..GroupEnd(s, z)])
  }

  /** A match of a pattern is the leftmost one, and its group runs from where the
      backtracking put it up to the first '?' after it. */
  lemma CapturedIsLeftmost(s: string, pat: QueryPattern)
    ensures Captured(s, pat).Some? ==>
      exists p, z :: 0 <= p <= |s| && MatchAt(s, pat, p) == Some(z)
        && Captured(s, pat) == Some(s[z..GroupEnd(s, z)])
        && forall k :: 0 <= k < p ==> MatchAt(s, pat, k).None?
    ensures Captured(s, pat).None? ==> forall p :: 0 <= p <= |s| ==> MatchAt(s, pat, p).None?
  {
    SearchFromIsLeftmost(s, pat, 0);
  }

  // ---------------------------------------------------------------------------
  // `re.sub(r'\b(the|a|an)\b', '', g)`
  // ---------------------------------------------------------------------------

  /** The words removed from the group, in the order the alternation tries them. */
  const Articles: seq<string> := ["the", "a", "an"]

  /** `\w` of an ASCII character. */
  predicate IsWordChar(c: char) {
    ('a' <= c <= 'z') || ('A' <= c <= 'Z') || ('0' <= c <= '9') || c == '_'
  }

  /** `\b` at position `i`: a word character on exactly one side. */
  predicate WordBoundary(s: string, i: nat)
    requires i <= |s|
  {
    (0 < i && IsWordChar(s[i - 1])) != (i < |s| && IsWordChar(s[i]))
  }

  /** `\bw\b` matches at `i`. */
  predicate WholeWordAt(s: string, w: string, i: nat) {
    i <= |s| && WordBoundary(s, i) && OccursAt(s, w, i) && WordBoundary(s, i + |w|)
  }

  /** The length of what `\b(words)\b` matches at `i`, the first word that fits
      winning; 0 when it does not match. */
  function ArticleAt(s: string, words: seq<string>, i: nat): (n: nat)
    requires i <= |s|
    ensures i + n <= |s|
    decreases |words|
  {
    if words == [] then 0
    else if WholeWordAt(s, words[0], i) then |words[0]|
    else ArticleAt(s, words[1..], i)
  }

  lemma {:induction false} ArticleAtIsFirst(s: string, words: seq<string>, i: nat)
    requires i <= |s|
    requires forall j :: 0 <= j < |words| ==> words[j] != ""
    ensures ArticleAt(s, words, i) > 0 ==>
      exists j :: 0 <= j < |words| && WholeWordAt(s, words[j], i)
        && ArticleAt(s, words, i) == |words[j]|
        && forall k :: 0 <= k < j ==> !WholeWordAt(s, words[k], i)
    ensures ArticleAt(s, words, i) == 0 ==> forall j :: 0 <= j < |words| ==> !WholeWordAt(s, words[j], i)
    decreases |words|
  {
    if words != [] && !WholeWordAt(s, words[0], i) {
      ArticleAtIsFirst(s, words[1..], i);
      if ArticleAt(s, words, i) > 0 {
        var j :| 0 <= j < |words[1..]| && WholeWordAt(s, words[1..][j], i)
          && ArticleAt(s, words[1..], i) == |words[1..][j]|
          && forall k :: 0 <= k < j ==> !WholeWordAt(s, words[1..][k], i);
        assert forall k :: 0 < k <= j ==> words[k] == words[1..][k - 1];
        assert WholeWordAt(s, words[j + 1], i);
      } else {
        assert forall j :: 0 < j < |words| ==> words[j] == words[1..][j - 1];
      }
    }
  }

  /** The substitution of `\b(words)\b` by nothing, from position `i` on: a
      word found there is dropped and the scan resumes after it, otherwise the
      character is kept. */
  function RemoveWordsFrom(s: string, words: seq<string>, i: nat): string
    requires i <= |s|
    decreases |s| - i
  {
    if i == |s| then []
    else
      var n := ArticleAt(s, words, i);
      if n > 0 then RemoveWordsFrom(s, words, i + n) else [s[i]] + RemoveWordsFrom(s, words, i + 1)
  }

  /** `re.sub(r'\b(the|a|an)\b', '', s)`. */
  function RemoveArticles(s: string): string {
    RemoveWordsFrom(s, Articles, 0)
  }

  /** The text with its word characters deleted. */
  function NonWordChars(s: string): string {
    if s == [] then [] else (if IsWordChar(s[0]) then [] else [s[0]]) + NonWordChars(s[1..])
  }

  lemma {:induction false} NonWordCharsAppend(a: string, b: string)
    ensures NonWordChars(a + b) == NonWordChars(a) + NonWordChars(b)
    decreases |a|
  {
    if a == [] {
      assert a + b == b;
    } else {
      var h := if IsWordChar(a[0]) then [] else [a[0]];
      assert (a + b)[0] == a[0];
      assert (a + b)[1..] == a[1..] + b;
      NonWordCharsAppend(a[1..], b);
      assert NonWordChars(a + b) == h + NonWordChars(a[1..] + b);
      assert NonWordChars(a) == h + NonWordChars(a[1..]);
      assert h + (NonWordChars(a[1..]) + NonWordChars(b)) == (h + NonWordChars(a[1..])) + NonWordChars(b);
    }
  }

  predicate AllWordChars(w: string) {
    forall k :: 0 <= k < |w| ==> IsWordChar(w[k])
  }

  lemma {:induction false} NonWordCharsOfWord(w: string)
    requires AllWordChars(w)
    ensures NonWordChars(w) == []
    decreases |w|
  {
    if w != [] {
      NonWordCharsOfWord(w[1..]);
    }
  }

  lemma ArticlesAreWords()
    ensures forall w :: w in Articles ==> AllWordChars(w)
    ensures AllWords(Articles)
  {
  }

  /** What `\b(words)\b` matches is one of the words. */
  lemma {:induction false} ArticleAtIsWord(s: string, words: seq<string>, i: nat)
    requires i <= |s|
    ensures ArticleAt(s, words, i) > 0 ==> s[i..i + ArticleAt(s, words, i)] in words
    decreases |words|
  {
    if words != [] && !WholeWordAt(s, words[0], i) {
      ArticleAtIsWord(s, words[1..], i);
      assert forall w :: w in words[1..] ==> w in words;
    }
  }

  /** Dropping a word at the front loses no non-word character. */
  lemma {:induction false} DropWordKeepsNonWords(t: string, n: nat, words: seq<string>)
    requires n <= |t|
    requires t[..n] in words
    requires forall w :: w in words ==> AllWordChars(w)
    ensures NonWordChars(t) == NonWordChars(t[n..])
  {
    assert AllWordChars(t[..n]);
    NonWordCharsOfWord(t[..n]);
    assert t == t[..n] + t[n..];
    NonWordCharsAppend(t[..n], t[n..]);
  }

  /** Keeping the first character keeps it among the non-word characters. */
  lemma {:induction false} KeepCharKeepsNonWords(t: string, rest: string)
    requires t != []
    requires NonWordChars(rest) == NonWordChars(t[1..])
    ensures NonWordChars([t[0]] + rest) == NonWordChars(t)
  {
    NonWordCharsAppend([t[0]], rest);
    assert t == [t[0]] + t[1..];
    NonWordCharsAppend([t[0]], t[1..]);
  }

  /** The substitution deletes word characters only: every other character stays,
      in order. */
  lemma {:induction false} RemoveWordsKeepsNonWords(s: string, words: seq<string>, i: nat)
    requires i <= |s|
    requires forall w :: w in words ==> AllWordChars(w)
    ensures NonWordChars(RemoveWordsFrom(s, words, i)) == NonWordChars(s[i..])
    decreases |s| - i
  {
    if i < |s| {
      var n := ArticleAt(s, words, i);
      if n > 0 {
        RemoveWordsKeepsNonWords(s, words, i + n);
        DroppedWordStep(s, words, i);
        ArticleAtIsWord(s, words, i);
        assert s[i..][..n] == s[i..i + n] && s[i..][n..] == s[i + n..];
        DropWordKeepsNonWords(s[i..], n, words);
      } else {
        RemoveWordsKeepsNonWords(s, words, i + 1);
        KeptCharStep(s, words, i);
        assert s[i..][1..] == s[i + 1..];
        KeepCharKeepsNonWords(s[i..], RemoveWordsFrom(s, words, i + 1));
      }
    }
  }

  /** Removing the articles deletes word characters only. */
  lemma RemoveArticlesKeepsNonWords(s: string)
    ensures NonWordChars(RemoveArticles(s)) == NonWordChars(s)
  {
    ArticlesAreWords();
    RemoveWordsKeepsNonWords(s, Articles, 0);
    assert s[0..] == s;
  }

  /** Every character of the result comes from the text. */
  lemma {:induction false} RemoveWordsKeepsChars(s: string, words: seq<string>, i: nat)
    requires i <= |s|
    ensures forall c :: c in RemoveWordsFrom(s, words, i) ==> c in s[i..]
    decreases |s| - i
  {
    if i < |s| {
      var n := ArticleAt(s, words, i);
      if n > 0 {
        RemoveWordsKeepsChars(s, words, i + n);
        assert forall c :: c in s[i + n..] ==> c in s[i..];
      } else {
        RemoveWordsKeepsChars(s, words, i + 1);
        assert forall c :: c in s[i + 1..] ==> c in s[i..];
      }
    }
  }

  /** Text where none of the words occurs whole is left as it is. */
  lemma {:induction false} NoWordUnchanged(s: string, words: seq<string>, i: nat)
    requires i <= |s|
    requires forall j :: i <= j < |s| ==> ArticleAt(s, words, j) == 0
    ensures RemoveWordsFrom(s, words, i) == s[i..]
    decreases |s| - i
  {
    if i < |s| {
      NoWordUnchanged(s, words, i + 1);
      assert s[i..] == [s[i]] + s[i + 1..];
    }
  }

  /** Every word of the list is non-empty and made of word characters. */
  predicate AllWords(words: seq<string>) {
    forall k :: 0 <= k < |words| ==> words[k] != "" && AllWordChars(words[k])
  }

  /** No word of the list stands whole at any position after the first. */
  predicate NoWholeWordAfterStart(t: string, words: seq<string>) {
    forall j, k :: 0 < j <= |t| && 0 <= k < |words| ==> !WholeWordAt(t, words[k], j)
  }

  /** Where the run of word characters that starts at `i` ends. */
  function WordRunEnd(s: string, i: nat): (e: nat)
    requires i <= |s|
    ensures i <= e <= |s|
    decreases |s| - i
  {
    if i < |s| && IsWordChar(s[i]) then WordRunEnd(s, i + 1) else i
  }

  lemma {:induction false} WordRunEndFacts(s: string, i: nat)
    requires i <= |s|
    ensures forall k :: i <= k < WordRunEnd(s, i) ==> IsWordChar(s[k])
    ensures WordRunEnd(s, i) < |s| ==> !IsWordChar(s[WordRunEnd(s, i)])
    decreases |s| - i
  {
    if i < |s| && IsWordChar(s[i]) {
      WordRunEndFacts(s, i + 1);
    }
  }

  /** Where none of the words stands whole, the alternation matches nothing. */
  lemma {:induction false} NoWholeWordNoArticle(t: string, words: seq<string>, j: nat)
    requires j <= |t|
    requires forall k :: 0 <= k < |words| ==> !WholeWordAt(t, words[k], j)
    ensures ArticleAt(t, words, j) == 0
    decreases |words|
  {
    if words != [] {
      assert !WholeWordAt(t, words[0], j);
      NoWholeWordNoArticle(t, words[1..], j);
    }
  }

  /** Between two word characters there is no word boundary, so the
      alternation matches nothing there. */
  lemma {:induction false} NoBoundaryNoArticle(s: string, words: seq<string>, i: nat)
    requires 0 < i < |s| && IsWordChar(s[i - 1]) && IsWordChar(s[i])
    ensures ArticleAt(s, words, i) == 0
  {
    assert !WordBoundary(s, i);
    NoWholeWordNoArticle(s, words, i);
  }

  /** Where nothing matches, the character is kept and the substitution goes on
      from the next one. */
  lemma {:induction false} KeptCharStep(s: string, words: seq<string>, i: nat)
    requires i < |s| && ArticleAt(s, words, i) == 0
    ensures RemoveWordsFrom(s, words, i) == [s[i]] + RemoveWordsFrom(s, words, i + 1)
  { }

  /** Where a word matches, it is deleted and the substitution goes on after it. */
  lemma {:induction false} DroppedWordStep(s: string, words: seq<string>, i: nat)
    requires i < |s| && ArticleAt(s, words, i) > 0
    ensures RemoveWordsFrom(s, words, i) == RemoveWordsFrom(s, words, i + ArticleAt(s, words, i))
  { }

  /** Inside a run of word characters no word stands whole, so the rest of the
      run is kept as it is. */
  lemma {:induction false} InsideRunKept(s: string, words: seq<string>, i: nat)
    requires 0 < i <= |s| && IsWordChar(s[i - 1])
    ensures RemoveWordsFrom(s, words, i)
            == s[i..WordRunEnd(s, i)] + RemoveWordsFrom(s, words, WordRunEnd(s, i))
    decreases |s| - i
  {
    if i < |s| && IsWordChar(s[i]) {
      var e := WordRunEnd(s, i + 1);
      assert WordRunEnd(s, i) == e;
      NoBoundaryNoArticle(s, words, i);
      KeptCharStep(s, words, i);
      InsideRunKept(s, words, i + 1);
      assert s[i..e] == [s[i]] + s[i + 1..e];
    }
  }

  /** A word standing whole at the start of a kept run, followed by text that
      does not continue the run, stands whole in the original text. */
  lemma {:induction false} WholeAtRunStart(s: string, i: nat, e: nat, w: string, rest: string)
    requires i <= |s| && e == WordRunEnd(s, i)
    requires w != "" && AllWordChars(w)
    requires i == 0 || !IsWordChar(s[i - 1])
    requires rest == [] || !IsWordChar(rest[0])
    ensures WholeWordAt(s[i..e] + rest, w, 0) ==> WholeWordAt(s, w, i)
  {
    WordRunEndFacts(s, i);
    var out := s[i..e] + rest;
    assert forall k :: 0 <= k < e - i ==> out[k] == s[i + k];
    assert e - i < |out| ==> out[e - i] == rest[0];
    if OccursAt(out, w, 0) && WordBoundary(out, |w|) {
      assert |w| == e - i;
      assert s[i..e] == out[..|w|];
    }
  }

  /** A word standing whole after the first character of `[c] + t` stands whole
      in `t`, and at the start of `t` only when `c` is no word character. */
  lemma {:induction false} ShiftWholeWord(c: char, t: string, w: string, j: nat)
    requires w != "" && AllWordChars(w)
    requires j <= |t|
    ensures WholeWordAt([c] + t, w, j + 1) ==> WholeWordAt(t, w, j) && (j > 0 || !IsWordChar(c))
  {
    var u := [c] + t;
    assert forall m :: 0 <= m < |t| ==> u[m + 1] == t[m];
    if j + |w| <= |t| {
      assert u[j + 1..j + 1 + |w|] == t[j..j + |w|];
    }
  }

  /** Putting a character in front keeps every later position free of whole
      words, provided a character that is no word character does not front a
      whole word. */
  lemma {:induction false} ConsKeepsNoWholeWord(c: char, t: string, words: seq<string>)
    requires AllWords(words)
    requires NoWholeWordAfterStart(t, words)
    requires !IsWordChar(c) ==> NoWholeWordAtStart(t, words)
    ensures NoWholeWordAfterStart([c] + t, words)
  {
    var u := [c] + t;
    forall j, k | 0 < j <= |u| && 0 <= k < |words|
      ensures !WholeWordAt(u, words[k], j)
    {
      ShiftWholeWord(c, t, words[k], j - 1);
    }
  }

  /** No word of the list stands whole at the start of `t`. */
  predicate NoWholeWordAtStart(t: string, words: seq<string>) {
    forall k :: 0 <= k < |words| ==> !WholeWordAt(t, words[k], 0)
  }

  /** What the substitution leaves from `i` on has no whole word after its first
      position, nor at it when the text before `i` does not end in a word
      character. */
  predicate LeavesNoWholeWord(s: string, words: seq<string>, i: nat)
    requires i <= |s|
  {
    NoWholeWordAfterStart(RemoveWordsFrom(s, words, i), words) &&
    ((i == 0 || !IsWordChar(s[i - 1])) ==> NoWholeWordAtStart(RemoveWordsFrom(s, words, i), words))
  }

  /** A deleted word ends a run of word characters: the character after it is
      no word character. */
  lemma {:induction false} DroppedWordEndsRun(s: string, words: seq<string>, i: nat)
    requires i < |s| && AllWords(words)
    requires ArticleAt(s, words, i) > 0
    ensures i + ArticleAt(s, words, i) < |s| ==> !IsWordChar(s[i + ArticleAt(s, words, i)])
  {
    var n := ArticleAt(s, words, i);
    ArticleAtIsFirst(s, words, i);
    var k :| 0 <= k < |words| && WholeWordAt(s, words[k], i) && n == |words[k]|;
    assert s[i + n - 1] == s[i..i + n][n - 1];
  }

  /** What is left after a deleted word starts with a character that is no word
      character, so no word stands whole at its start. */
  lemma {:induction false} DropStepLeavesNone(s: string, words: seq<string>, i: nat)
    requires i < |s| && AllWords(words)
    requires ArticleAt(s, words, i) > 0
    requires LeavesNoWholeWord(s, words, i + ArticleAt(s, words, i))
    ensures LeavesNoWholeWord(s, words, i)
  {
    var n := ArticleAt(s, words, i);
    var out := RemoveWordsFrom(s, words, i + n);
    DroppedWordStep(s, words, i);
    DroppedWordEndsRun(s, words, i);
    if i + n < |s| {
      NoWholeWordNoArticle(s, words, i + n);
      assert out[0] == s[i + n];
    }
  }

  /** A kept character that starts a run of word characters fronts the rest of
      that run, which is kept too; a whole word there would have been a whole
      word of the original text. */
  lemma {:induction false} RunStartLeavesNone(s: string, words: seq<string>, i: nat)
    requires i < |s| && AllWords(words)
    requires IsWordChar(s[i]) && (i == 0 || !IsWordChar(s[i - 1]))
    requires ArticleAt(s, words, i) == 0
    ensures NoWholeWordAtStart(RemoveWordsFrom(s, words, i), words)
  {
    ArticleAtIsFirst(s, words, i);
    var e := WordRunEnd(s, i);
    var rest := RemoveWordsFrom(s, words, e);
    var out := RemoveWordsFrom(s, words, i);
    assert out == s[i..e] + rest by {
      RunKept(s, words, i);
    }
    if e < |s| {
      WordRunEndFacts(s, i);
      KeptAfterRun(s, words, e);
    }
    forall k | 0 <= k < |words|
      ensures !WholeWordAt(out, words[k], 0)
    {
      WholeAtRunStart(s, i, e, words[k], rest);
    }
  }

  /** A kept word character keeps the whole run it starts. */
  lemma {:induction false} RunKept(s: string, words: seq<string>, i: nat)
    requires i < |s| && IsWordChar(s[i]) && ArticleAt(s, words, i) == 0
    ensures RemoveWordsFrom(s, words, i)
            == s[i..WordRunEnd(s, i)] + RemoveWordsFrom(s, words, WordRunEnd(s, i))
  {
    var e := WordRunEnd(s, i + 1);
    assert WordRunEnd(s, i) == e;
    KeptCharStep(s, words, i);
    InsideRunKept(s, words, i + 1);
    assert s[i..e] == [s[i]] + s[i + 1..e];
    ConsInFront(RemoveWordsFrom(s, words, i), RemoveWordsFrom(s, words, i + 1), s[i],
                s[i + 1..e], RemoveWordsFrom(s, words, e), s[i..e]);
  }

  /** The algebra of keeping one character in front of a kept run. */
  lemma {:induction false} ConsInFront(r: string, r1: string, c: char, run: string, rest: string, kept: string)
    requires r == [c] + r1 && r1 == run + rest && kept == [c] + run
    ensures r == kept + rest
  { }

  /** A character that is no word character starts no word, so it is kept. */
  lemma {:induction false} KeptAfterRun(s: string, words: seq<string>, e: nat)
    requires e < |s| && AllWords(words) && !IsWordChar(s[e])
    ensures RemoveWordsFrom(s, words, e) != [] && RemoveWordsFrom(s, words, e)[0] == s[e]
  {
    NoWholeWordNoArticle(s, words, e);
    KeptCharStep(s, words, e);
  }

  /** A kept character keeps the later positions free of whole words. */
  lemma {:induction false} KeepStepLeavesNone(s: string, words: seq<string>, i: nat)
    requires i < |s| && AllWords(words)
    requires ArticleAt(s, words, i) == 0
    requires LeavesNoWholeWord(s, words, i + 1)
    ensures LeavesNoWholeWord(s, words, i)
  {
    var t := RemoveWordsFrom(s, words, i + 1);
    KeptCharStep(s, words, i);
    ConsKeepsNoWholeWord(s[i], t, words);
    if IsWordChar(s[i]) && (i == 0 || !IsWordChar(s[i - 1])) {
      RunStartLeavesNone(s, words, i);
    }
  }

  /** What the substitution leaves contains none of the words standing whole:
      every deleted span is a whole run of word characters, so the runs that are
      kept never join into a new one. */
  lemma {:induction false} RemoveWordsLeavesNone(s: string, words: seq<string>, i: nat)
    requires i <= |s|
    requires AllWords(words)
    ensures LeavesNoWholeWord(s, words, i)
    decreases |s| - i
  {
    if i < |s| {
      var n := ArticleAt(s, words, i);
      if n > 0 {
        RemoveWordsLeavesNone(s, words, i + n);
        DropStepLeavesNone(s, words, i);
      } else {
        RemoveWordsLeavesNone(s, words, i + 1);
        KeepStepLeavesNone(s, words, i);
      }
    }
  }

  /** `re.sub(r'\b(the|a|an)\b', '', s)` leaves no article standing whole: the
      pattern matches nowhere in its result. */
  lemma {:induction false} RemoveArticlesLeavesNone(s: string)
    ensures forall j :: 0 <= j <= |RemoveArticles(s)| ==> ArticleAt(RemoveArticles(s), Articles, j) == 0
  {
    ArticlesAreWords();
    RemoveWordsLeavesNone(s, Articles, 0);
    NoWholeWordMatchesNowhere(RemoveArticles(s), Articles);
  }

  // ---------------------------------------------------------------------------
  // What the substitution keeps
  // ---------------------------------------------------------------------------

  /** A whole word of word characters before a character that is no word
      character stands whole in the text before it, and conversely. */
  lemma {:induction false} WholeWordInPrefix(a: string, c: char, b: string, w: string, p: nat)
    requires w != "" && AllWordChars(w) && !IsWordChar(c) && p <= |a|
    ensures WholeWordAt(a + [c] + b, w, p) <==> WholeWordAt(a, w, p)
  {
    var s := a + [c] + b;
    assert forall m :: 0 <= m < |a| ==> s[m] == a[m];
    assert s[|a|] == c;
    if p + |w| <= |a| {
      assert s[p..p + |w|] == a[p..p + |w|];
    } else if p + |w| <= |s| {
      assert s[p..p + |w|][|a| - p] == c;
    }
  }

  /** A whole word after a character that is no word character stands whole in
      the text after it, and conversely. */
  lemma {:induction false} WholeWordInSuffix(a: string, c: char, b: string, w: string, q: nat)
    requires w != "" && AllWordChars(w) && !IsWordChar(c) && q <= |b|
    ensures WholeWordAt(a + [c] + b, w, |a| + 1 + q) <==> WholeWordAt(b, w, q)
  {
    var x := a + [c];
    var s := x + b;
    var p := |x| + q;
    assert s[p - 1] == if q == 0 then c else b[q - 1];
    if q < |b| {
      assert s[p] == b[q];
    }
    if q + |w| <= |b| {
      assert s[p..p + |w|] == b[q..q + |w|];
      assert s[p + |w| - 1] == b[q + |w| - 1];
      if q + |w| < |b| {
        assert s[p + |w|] == b[q + |w|];
      }
    }
  }

  /** The alternation matches alike at two places where the same words stand
      whole. */
  lemma {:induction false} ArticleAtSame(s: string, i: nat, t: string, j: nat, words: seq<string>)
    requires i <= |s| && j <= |t|
    requires forall k :: 0 <= k < |words| ==> (WholeWordAt(s, words[k], i) <==> WholeWordAt(t, words[k], j))
    ensures ArticleAt(s, words, i) == ArticleAt(t, words, j)
    decreases |words|
  {
    if words != [] {
      assert forall k :: 0 <= k < |words[1..]| ==> words[1..][k] == words[k + 1];
      ArticleAtSame(s, i, t, j, words[1..]);
    }
  }

  lemma {:induction false} ArticleAtInPrefix(a: string, c: char, b: string, words: seq<string>, p: nat)
    requires AllWords(words) && !IsWordChar(c) && p <= |a|
    ensures ArticleAt(a + [c] + b, words, p) == ArticleAt(a, words, p)
  {
    forall k | 0 <= k < |words|
      ensures WholeWordAt(a + [c] + b, words[k], p) <==> WholeWordAt(a, words[k], p)
    {
      WholeWordInPrefix(a, c, b, words[k], p);
    }
    ArticleAtSame(a + [c] + b, p, a, p, words);
  }

  lemma {:induction false} ArticleAtInSuffix(a: string, c: char, b: string, words: seq<string>, q: nat)
    requires AllWords(words) && !IsWordChar(c) && q <= |b|
    ensures ArticleAt(a + [c] + b, words, |a| + 1 + q) == ArticleAt(b, words, q)
  {
    forall k | 0 <= k < |words|
      ensures WholeWordAt(a + [c] + b, words[k], |a| + 1 + q) <==> WholeWordAt(b, words[k], q)
    {
      WholeWordInSuffix(a, c, b, words[k], q);
    }
    ArticleAtSame(a + [c] + b, |a| + 1 + q, b, q, words);
  }

  /** After the character that is no word character, the substitution goes on as
      it would on the text after it. */
  lemma {:induction false} RemoveWordsInSuffix(a: string, c: char, b: string, words: seq<string>, q: nat)
    requires AllWords(words) && !IsWordChar(c) && q <= |b|
    ensures RemoveWordsFrom(a + [c] + b, words, |a| + 1 + q) == RemoveWordsFrom(b, words, q)
    decreases |b| - q
  {
    var s := a + [c] + b;
    if q < |b| {
      var n := ArticleAt(b, words, q);
      ArticleAtInSuffix(a, c, b, words, q);
      if n > 0 {
        DroppedWordStep(s, words, |a| + 1 + q);
        DroppedWordStep(b, words, q);
        RemoveWordsInSuffix(a, c, b, words, q + n);
      } else {
        KeptCharStep(s, words, |a| + 1 + q);
        KeptCharStep(b, words, q);
        assert s[|a| + 1 + q] == b[q];
        RemoveWordsInSuffix(a, c, b, words, q + 1);
      }
    }
  }

  /** Before the character that is no word character, the substitution goes on
      as it would on the text before it; the character itself is kept. */
  lemma {:induction false} RemoveWordsInPrefix(a: string, c: char, b: string, words: seq<string>, p: nat)
    requires AllWords(words) && !IsWordChar(c) && p <= |a|
    ensures RemoveWordsFrom(a + [c] + b, words, p)
            == RemoveWordsFrom(a, words, p) + [c] + RemoveWordsFrom(b, words, 0)
    decreases |a| - p
  {
    var s := a + [c] + b;
    var rb := RemoveWordsFrom(b, words, 0);
    ArticleAtInPrefix(a, c, b, words, p);
    if p == |a| {
      NoWholeWordNoArticle(a, words, p);
      KeptCharStep(s, words, p);
      assert s[p] == c;
      RemoveWordsInSuffix(a, c, b, words, 0);
    } else {
      var n := ArticleAt(a, words, p);
      if n > 0 {
        DroppedWordStep(s, words, p);
        DroppedWordStep(a, words, p);
        RemoveWordsInPrefix(a, c, b, words, p + n);
      } else {
        KeptCharStep(s, words, p);
        KeptCharStep(a, words, p);
        assert s[p] == a[p];
        RemoveWordsInPrefix(a, c, b, words, p + 1);
        var ra := RemoveWordsFrom(a, words, p + 1);
        assert [a[p]] + (ra + [c] + rb) == ([a[p]] + ra) + [c] + rb;
      }
    }
  }

  /** The substitution splits at every character that is no word character: it
      keeps that character and works on either side of it independently. */
  lemma RemoveArticlesSplit(a: string, c: char, b: string)
    requires !IsWordChar(c)
    ensures RemoveArticles(a + [c] + b) == RemoveArticles(a) + [c] + RemoveArticles(b)
  {
    ArticlesAreWords();
    RemoveWordsInPrefix(a, c, b, Articles, 0);
  }

  /** In a run of word characters, a word stands whole at the start exactly when
      it is the whole run. */
  lemma {:induction false} WholeWordInRun(w: string, v: string)
    requires w != [] && AllWordChars(w)
    requires v != "" && AllWordChars(v)
    ensures WholeWordAt(w, v, 0) <==> v == w
  {
    assert |v| < |w| ==> IsWordChar(w[|v| - 1]) && IsWordChar(w[|v|]);
    assert w[0..|w|] == w;
  }

  /** A run of word characters is deleted when it is one of the words and kept
      whole otherwise. */
  lemma {:induction false} RemoveWordsOfRun(w: string, words: seq<string>)
    requires AllWords(words)
    requires w != [] && AllWordChars(w)
    ensures RemoveWordsFrom(w, words, 0) == if w in words then [] else w
  {
    forall k | 0 <= k < |words|
      ensures WholeWordAt(w, words[k], 0) <==> words[k] == w
    {
      WholeWordInRun(w, words[k]);
    }
    ArticleAtIsFirst(w, words, 0);
    var n := ArticleAt(w, words, 0);
    if w in words {
      var k :| 0 <= k < |words| && words[k] == w;
      assert WholeWordAt(w, words[k], 0);
      DroppedWordStep(w, words, 0);
    } else {
      KeptCharStep(w, words, 0);
      WordRunEndFacts(w, 1);
      InsideRunKept(w, words, 1);
      assert [w[0]] + w[1..] == w;
    }
  }

  /** A whole word is deleted exactly when it is an article: a run of word
      characters other than "the", "a" and "an" is kept as it is. */
  lemma RemoveArticlesOfRun(w: string)
    requires w != [] && AllWordChars(w)
    ensures RemoveArticles(w) == if w in Articles then [] else w
  {
    ArticlesAreWords();
    RemoveWordsOfRun(w, Articles);
  }

  // ---------------------------------------------------------------------------
  // extract_diagnosis_from_query
  // ---------------------------------------------------------------------------

  /** What the function returns for a captured group `g`. */
  function CleanGroup(g: string): string {
    Strip(RemoveArticles(Strip(g)))
  }

  /** Every character of the cleaned group comes from the group. */
  lemma CleanGroupKeepsChars(g: string)
    ensures forall c :: c in CleanGroup(g) ==> c in g
  {
    var t := Strip(g);
    StripKeepsChars(g);
    RemoveWordsKeepsChars(t, Articles, 0);
    assert t[0..] == t;
    StripKeepsChars(RemoveArticles(t));
  }

  /** A whole word of a slice that is bounded on both sides by characters that
      are no word characters is a whole word of the text. */
  lemma {:induction false} SliceWholeWord(r: string, lo: nat, t: string, w: string, j: nat)
    requires lo + |t| <= |r| && t == r[lo..lo + |t|] && j <= |t|
    requires w != "" && AllWordChars(w)
    requires lo == 0 || !IsWordChar(r[lo - 1])
    requires lo + |t| == |r| || !IsWordChar(r[lo + |t|])
    ensures WholeWordAt(t, w, j) ==> WholeWordAt(r, w, lo + j)
  {
    assert forall m :: 0 <= m < |t| ==> t[m] == r[lo + m];
    if WholeWordAt(t, w, j) {
      assert r[lo + j..lo + j + |w|] == t[j..j + |w|];
    }
  }

  /** Whitespace is no word character. */
  lemma SpaceIsNoWordChar(c: char)
    requires IsSpace(c)
    ensures !IsWordChar(c)
  { }

  /** The stripped text is bounded on both sides by whitespace or the ends of
      the text, so by characters that are no word characters. */
  lemma {:induction false} StripBoundedByNonWord(r: string)
    ensures LeadingSpaces(r) > 0 ==> !IsWordChar(r[LeadingSpaces(r) - 1])
    ensures LeadingSpaces(r) + |Strip(r)| < |r| ==> !IsWordChar(r[LeadingSpaces(r) + |Strip(r)|])
  {
    var a := LeadingSpaces(r);
    var b := a + |Strip(r)|;
    if a > 0 {
      SpaceIsNoWordChar(r[a - 1]);
    }
    if b < |r| {
      SpaceIsNoWordChar(r[b]);
    }
  }

  /** Stripping whitespace makes no new whole word. */
  lemma {:induction false} StripKeepsNoWholeWord(u: string, words: seq<string>)
    requires AllWords(words)
    requires NoWholeWordAtStart(u, words) && NoWholeWordAfterStart(u, words)
    ensures NoWholeWordAtStart(Strip(u), words) && NoWholeWordAfterStart(Strip(u), words)
  {
    var c, a := Strip(u), LeadingSpaces(u);
    StripBoundedByNonWord(u);
    forall j, k | 0 <= j <= |c| && 0 <= k < |words|
      ensures !WholeWordAt(c, words[k], j)
    {
      SliceWholeWord(u, a, c, words[k], j);
    }
  }

  /** Where no word stands whole, the alternation matches nowhere. */
  lemma {:induction false} NoWholeWordMatchesNowhere(t: string, words: seq<string>)
    requires NoWholeWordAtStart(t, words) && NoWholeWordAfterStart(t, words)
    ensures forall j :: 0 <= j <= |t| ==> ArticleAt(t, words, j) == 0
  {
    forall j | 0 <= j <= |t|
      ensures ArticleAt(t, words, j) == 0
    {
      NoWholeWordNoArticle(t, words, j);
    }
  }

  /** The cleaned group contains no article standing whole: the article
      pattern matches nowhere in it. */
  lemma {:induction false} CleanGroupLeavesNone(g: string)
    ensures forall j :: 0 <= j <= |CleanGroup(g)| ==> ArticleAt(CleanGroup(g), Articles, j) == 0
  {
    ArticlesAreWords();
    RemoveWordsLeavesNone(Strip(g), Articles, 0);
    StripKeepsNoWholeWord(RemoveArticles(Strip(g)), Articles);
    NoWholeWordMatchesNowhere(CleanGroup(g), Articles);
  }

  /** A group in which the article pattern matches nowhere is only stripped. */
  lemma CleanGroupWithoutArticles(g: string)
    requires forall j :: 0 <= j <= |g| ==> ArticleAt(g, Articles, j) == 0
    ensures CleanGroup(g) == Strip(g)
  {
    ArticlesAreWords();
    forall j, k | 0 <= j <= |g| && 0 <= k < |Articles|
      ensures !WholeWordAt(g, Articles[k], j)
    {
      ArticleAtIsFirst(g, Articles, j);
    }
    var t := Strip(g);
    StripKeepsNoWholeWord(g, Articles);
    NoWholeWordMatchesNowhere(t, Articles);
    NoWordUnchanged(t, Articles, 0);
    assert t[0..] == t;
    StripOfStripped(t);
  }

  /** The article in front of a space and a word is deleted; the rest stays. */
  lemma {:induction false} RemoveLeadingArticle(art: string, d: string)
    requires art != [] && AllWordChars(art) && art in Articles
    requires d != [] && AllWordChars(d) && d !in Articles
    ensures RemoveArticles(art + [' '] + d) == [' '] + d
  {
    RemoveArticlesSplit(art, ' ', d);
    RemoveArticlesOfRun(art);
    RemoveArticlesOfRun(d);
  }

  /** A group made of an article, a space and a word that is no article
      cleans to that word: "the flu" becomes "flu". */
  lemma {:induction false} CleanGroupDropsArticle(art: string, d: string)
    requires art in Articles
    requires d != [] && AllWordChars(d) && d !in Articles
    ensures CleanGroup(art + " " + d) == d
  {
    ArticlesAreWords();
    var g := art + [' '] + d;
    assert art + " " + d == g;
    assert IsWordChar(g[0]) && IsWordChar(g[|g| - 1]) by {
      assert g[0] == art[0] && g[|g| - 1] == d[|d| - 1];
    }
    StripOfStripped(g);
    RemoveLeadingArticle(art, d);
    assert IsWordChar(d[0]) && IsWordChar(d[|d| - 1]);
    StripOneSpace(d);
  }


  /** `re.search(pat, q)` and its group, for each pattern. */
  function CapturesIn(q: string): QueryPattern -> Option<string> {
    pat => Captured(q, pat)
  }

  /** The patterns tried in order: the group of the first that matches. */
  function FirstCapture(pats: seq<QueryPattern>, capture: QueryPattern -> Option<string>): Option<string>
    decreases |pats|
  {
    if pats == [] then None
    else if capture(pats[0]).Some? then capture(pats[0])
    else FirstCapture(pats[1..], capture)
  }

  lemma {:induction false} FirstCaptureIsFirst(pats: seq<QueryPattern>, capture: QueryPattern -> Option<string>)
    ensures FirstCapture(pats, capture).Some? ==>
      exists k :: 0 <= k < |pats| && capture(pats[k]).Some?
        && FirstCapture(pats, capture) == capture(pats[k])
        && forall j :: 0 <= j < k ==> capture(pats[j]).None?
    ensures FirstCapture(pats, capture).None? ==> forall k :: 0 <= k < |pats| ==> capture(pats[k]).None?
    decreases |pats|
  {
    if pats != [] && capture(pats[0]).None? {
      FirstCaptureIsFirst(pats[1..], capture);
      if FirstCapture(pats, capture).Some? {
        var k :| 0 <= k < |pats[1..]| && capture(pats[1..][k]).Some?
          && FirstCapture(pats[1..], capture) == capture(pats[1..][k])
          && forall j :: 0 <= j < k ==> capture(pats[1..][j]).None?;
        assert forall j :: 0 < j <= k ==> pats[j] == pats[1..][j - 1];
        assert capture(pats[k + 1]).Some?;
      } else {
        assert forall k :: 0 < k < |pats| ==> pats[k] == pats[1..][k - 1];
      }
    }
  }

  /** `for term in terms: if term in q: return term`, then `return ""`. */
  function FirstTermIn(q: string, terms: seq<string>): string
    decreases |terms|
  {
    if terms == [] then ""
    else if Contains(q, terms[0]) then terms[0]
    else FirstTermIn(q, terms[1..])
  }

  /** The answer is the first term the text contains, or "" when it contains
      none. */
  lemma {:induction false} FirstTermInIsFirst(q: string, terms: seq<string>)
    ensures var r := FirstTermIn(q, terms);
      || (exists k :: 0 <= k < |terms| && r == terms[k] && Contains(q, terms[k])
                      && forall j :: 0 <= j < k ==> !Contains(q, terms[j]))
      || (r == "" && forall k :: 0 <= k < |terms| ==> !Contains(q, terms[k]))
    decreases |terms|
  {
    if terms != [] && !Contains(q, terms[0]) {
      FirstTermInIsFirst(q, terms[1..]);
      var r := FirstTermIn(q, terms);
      if exists k :: 0 <= k < |terms[1..]| && r == terms[1..][k] && Contains(q, terms[1..][k])
                     && forall j :: 0 <= j < k ==> !Contains(q, terms[1..][j]) {
        var k :| 0 <= k < |terms[1..]| && r == terms[1..][k] && Contains(q, terms[1..][k])
                 && forall j :: 0 <= j < k ==> !Contains(q, terms[1..][j]);
        assert forall j :: 0 < j <= k ==> terms[j] == terms[1..][j - 1];
        assert r == terms[k + 1] && Contains(q, terms[k + 1]);
      } else {
        assert forall k :: 0 < k < |terms| ==> terms[k] == terms[1..][k - 1];
      }
    }
  }

  /** `extract_diagnosis_from_query(query)`. */
  function ExtractDiagnosis(query: string): string {
    var q := Lower(query);
    match FirstCapture(QueryPatterns, CapturesIn(q))
    case Some(g) => CleanGroup(g)
    case None => FirstTermIn(q, MedicalTerms)
  }

  /** A diagnosis as the function can return it: lower case, no '?', and no
      whitespace at either end. */
  predicate Settled(d: string) {
    && (forall c :: c in d ==> c != '?' && LowerChar(c) == c)
    && (d != [] ==> !IsSpace(d[0]) && !IsSpace(d[|d| - 1]))
  }

  /** A group of lower-case characters other than '?' cleans up to a settled
      diagnosis. */
  lemma CleanGroupSettled(g: string)
    requires forall c :: c in g ==> c != '?' && LowerChar(c) == c
    ensures Settled(CleanGroup(g))
  {
    CleanGroupKeepsChars(g);
  }

  /** With no empty term, nothing is found exactly when the text contains no
      term. */
  lemma {:induction false} FirstTermInEmpty(q: string, terms: seq<string>)
    requires forall t :: t in terms ==> t != ""
    ensures FirstTermIn(q, terms) == "" <==> forall t :: t in terms ==> !Contains(q, t)
    decreases |terms|
  {
    if terms != [] {
      assert terms[0] in terms;
      if !Contains(q, terms[0]) {
        assert forall t :: t in terms[1..] ==> t in terms;
        FirstTermInEmpty(q, terms[1..]);
        assert forall t :: t in terms ==> t == terms[0] || t in terms[1..];
      }
    }
  }

  /** Lower-case letters and inner spaces make a settled diagnosis. */
  lemma WordsSettled(t: string)
    requires forall i :: 0 <= i < |t| ==> ('a' <= t[i] <= 'z') || (0 < i < |t| - 1 && t[i] == ' ')
    ensures Settled(t)
  {
    forall c | c in t
      ensures c != '?' && LowerChar(c) == c
    {
      var i :| 0 <= i < |t| && t[i] == c;
    }
  }

  /** The medical terms from `lo` to `hi` are non-empty settled diagnoses. */
  lemma MedicalTermsSettledIn(lo: nat, hi: nat)
    requires lo <= hi <= |MedicalTerms|
    ensures forall k :: lo <= k < hi ==> MedicalTerms[k] != "" && Settled(MedicalTerms[k])
  {
    forall k | lo <= k < hi
      ensures MedicalTerms[k] != "" && Settled(MedicalTerms[k])
    {
      WordsSettled(MedicalTerms[k]);
    }
  }

  /** The medical terms are non-empty settled diagnoses. */
  lemma MedicalTermsSettled()
    ensures forall t :: t in MedicalTerms ==> t != "" && Settled(t)
  {
    MedicalTermsSettledIn(0, 5);
    MedicalTermsSettledIn(5, 9);
    MedicalTermsSettledIn(9, 13);
  }

  /** Whatever the question, the diagnosis is lower case, holds no '?' and has no
      whitespace at either end. */
  lemma ExtractDiagnosisSettled(query: string)
    ensures Settled(ExtractDiagnosis(query))
  {
    var q := Lower(query);
    var m := FirstCapture(QueryPatterns, CapturesIn(q));
    if m.Some? {
      FirstCaptureIsFirst(QueryPatterns, CapturesIn(q));
      var k :| 0 <= k < |QueryPatterns| && m == Captured(q, QueryPatterns[k]);
      forall c | c in m.value
        ensures c != '?' && LowerChar(c) == c
      {
        var i :| 0 <= i < |q| && q[i] == c;
        assert c == LowerChar(query[i]);
      }
      CleanGroupSettled(m.value);
    } else {
      FirstTermInIsFirst(q, MedicalTerms);
      MedicalTermsSettled();
    }
  }

  /** The first pattern that matches decides the answer, even when its cleaned
      group is empty; the medical terms are looked at only when no pattern matches,
      and the first of them found in the question is the answer. */
  lemma ExtractDiagnosisCascade(query: string)
    ensures var q := Lower(query);
      var d := ExtractDiagnosis(query);
      && (forall k :: 0 <= k < |QueryPatterns| && Captured(q, QueryPatterns[k]).Some?
            && (forall j :: 0 <= j < k ==> Captured(q, QueryPatterns[j]).None?)
            ==> d == CleanGroup(Captured(q, QueryPatterns[k]).value))
      && ((forall k :: 0 <= k < |QueryPatterns| ==> Captured(q, QueryPatterns[k]).None?)
            ==> d == FirstTermIn(q, MedicalTerms))
  {
    var q := Lower(query);
    var capture := CapturesIn(q);
    FirstCaptureIsFirst(QueryPatterns, capture);
    if FirstCapture(QueryPatterns, capture).Some? {
      var k :| 0 <= k < |QueryPatterns| && capture(QueryPatterns[k]).Some?
        && FirstCapture(QueryPatterns, capture) == capture(QueryPatterns[k])
        && forall j :: 0 <= j < k ==> capture(QueryPatterns[j]).None?;
      forall k' | 0 <= k' < |QueryPatterns| && Captured(q, QueryPatterns[k']).Some?
          && (forall j :: 0 <= j < k' ==> Captured(q, QueryPatterns[j]).None?)
        ensures k' == k
      {
        assert capture(QueryPatterns[k']).Some?;
      }
    }
  }

  /** The diagnosis comes out empty exactly when the group of the first pattern
      that matches cleans up to nothing, or when no pattern matches and the
      question holds none of the medical terms. */
  lemma ExtractDiagnosisEmpty(query: string)
    ensures var q := Lower(query);
      var m := FirstCapture(QueryPatterns, CapturesIn(q));
      ExtractDiagnosis(query) == "" <==>
        || (m.Some? && CleanGroup(m.value) == "")
        || (m.None? && forall t :: t in MedicalTerms ==> !Contains(q, t))
  {
    var q := Lower(query);
    MedicalTermsSettled();
    FirstTermInEmpty(q, MedicalTerms);
  }
}
