/**
 * `generateDefaultAnnotations`: when the model supplies too few usable
 * annotations, the first (at most five) sentences of the text longer than
 * ten characters are highlighted instead, found one after the other with a
 * forward-moving search cursor.
 */
module DefaultAnnotations {
  import opened JsString
  import opened ReportModel

  const MaxDefaults: nat := 5
  const MinSentenceLength: nat := 10
  const AiThreshold: int := 70

  predicate IsTerminator(c: char) {
    c == '.' || c == '!' || c == '?'
  }

  predicate NoTerminator(s: string) {
    forall i :: 0 <= i < |s| ==> !IsTerminator(s[i])
  }

  /** The first terminator at or after `i`, or `|s|`. */
  function NextTerminator(s: string, i: nat): (k: nat)
    requires i <= |s|
    ensures i <= k <= |s|
    ensures k < |s| ==> IsTerminator(s[k])
    decreases |s| - i
  {
    if i == |s| || IsTerminator(s[i]) then i else NextTerminator(s, i + 1)
  }

  /** No terminator comes before the one `NextTerminator` finds. */
  lemma {:induction false} NextTerminatorIsFirst(s: string, i: nat, j: nat)
    requires i <= j < |s|
    requires j < NextTerminator(s, i)
    ensures !IsTerminator(s[j])
    decreases |s| - i
  {
    if j > i {
      NextTerminatorIsFirst(s, i + 1, j);
    }
  }

  /** The end of the run of terminators starting at `i`. */
  function SkipTerminators(s: string, i: nat): (k: nat)
    requires i <= |s|
    ensures i <= k <= |s|
    ensures k < |s| ==> !IsTerminator(s[k])
    decreases |s| - i
  {
    if i == |s| || !IsTerminator(s[i]) then i else SkipTerminators(s, i + 1)
  }

  /** Everything `SkipTerminators` skips is a terminator. */
  lemma {:induction false} SkippedAreTerminators(s: string, i: nat, j: nat)
    requires i <= j < |s|
    requires j < SkipTerminators(s, i)
    ensures IsTerminator(s[j])
    decreases |s| - i
  {
    if j > i {
      SkippedAreTerminators(s, i + 1, j);
    }
  }

  /** The character range `[lo, hi)` of a string. */
  datatype Span = Span(lo: nat, hi: nat)

  /** Every span of `spans` ends before the next one starts. */
  predicate Ordered(spans: seq<Span>) {
    forall k, m :: 0 <= k < m < |spans| ==> spans[k].hi <= spans[m].lo
  }

  /** The pieces `s.slice(from).split(/[.!?]+/)` returns, as ranges of `s`:
    * maximal terminator-free stretches, separated by non-empty runs of
    * terminators, starting at `from` and ending at `|s|`. */
  function SplitSpans(s: string, from: nat): (spans: seq<Span>)
    requires from <= |s|
    ensures |spans| >= 1 && spans[0].lo == from && spans[|spans| - 1].hi == |s|
    decreases |s| - from
  {
    var k := NextTerminator(s, from);
    if k == |s| then [Span(from, |s|)]
    else
      var next := SkipTerminators(s, k);
      [Span(from, k)] + SplitSpans(s, next)
  }

  /** One step of the split: the first piece runs up to the first
    * terminator, the others are the split after that run of terminators. */
  lemma SplitSpansStep(s: string, from: nat)
    requires from <= |s|
    ensures var spans := SplitSpans(s, from);
      var k := NextTerminator(s, from);
      spans[0] == Span(from, k) && (k == |s| <==> |spans| == 1)
    ensures var spans := SplitSpans(s, from);
      var k := NextTerminator(s, from);
      k < |s| ==>
        var rest := SplitSpans(s, SkipTerminators(s, k));
        |spans| == |rest| + 1 && forall m :: 1 <= m < |spans| ==> spans[m] == rest[m - 1]
  {
  }

  /** Piece `m` of a split lies within `s`, at or after `from`. */
  lemma {:induction false} SplitSpanWithin(s: string, from: nat, m: nat)
    requires from <= |s|
    requires m < |SplitSpans(s, from)|
    ensures var span := SplitSpans(s, from)[m];
      from <= span.lo <= span.hi <= |s|
    decreases |s| - from
  {
    SplitSpansStep(s, from);
    if m > 0 {
      var next := SkipTerminators(s, NextTerminator(s, from));
      SplitSpanWithin(s, next, m - 1);
    }
  }

  /** Every piece of a split lies within `s`, at or after `from`. */
  lemma SplitSpansWithin(s: string, from: nat)
    requires from <= |s|
    ensures forall k :: 0 <= k < |SplitSpans(s, from)| ==>
      from <= SplitSpans(s, from)[k].lo <= SplitSpans(s, from)[k].hi <= |s|
  {
    var spans := SplitSpans(s, from);
    forall k | 0 <= k < |spans| ensures from <= spans[k].lo <= spans[k].hi <= |s| {
      SplitSpanWithin(s, from, k);
    }
  }

  /** No piece of a split contains a terminator. */
  predicate TerminatorFree(s: string, spans: seq<Span>) {
    forall k, j :: 0 <= k < |spans| && spans[k].lo <= j < spans[k].hi && j < |s| ==> !IsTerminator(s[j])
  }

  /** Piece `m` of a split holds no terminator. */
  lemma {:induction false} SplitSpansPieceFree(s: string, from: nat, m: nat, j: nat)
    requires from <= |s|
    requires m < |SplitSpans(s, from)|
    requires SplitSpans(s, from)[m].lo <= j < SplitSpans(s, from)[m].hi
    ensures j < |s| && !IsTerminator(s[j])
    decreases |s| - from
  {
    var spans := SplitSpans(s, from);
    var next := SkipTerminators(s, NextTerminator(s, from));
    SplitSpansStep(s, from);
    if m > 0 {
      assert spans[m] == SplitSpans(s, next)[m - 1];
      SplitSpansPieceFree(s, next, m - 1, j);
    } else {
      NextTerminatorIsFirst(s, from, j);
    }
  }

  lemma SplitSpansTerminatorFree(s: string, from: nat)
    requires from <= |s|
    ensures TerminatorFree(s, SplitSpans(s, from))
  {
    var spans := SplitSpans(s, from);
    forall m, j | 0 <= m < |spans| && spans[m].lo <= j < spans[m].hi && j < |s|
      ensures !IsTerminator(s[j])
    {
      SplitSpansPieceFree(s, from, m, j);
    }
  }

  /** Between consecutive spans there is a non-empty run of terminators. */
  predicate SeparatedByTerminators(s: string, spans: seq<Span>) {
    (forall k :: 0 <= k < |spans| - 1 ==> spans[k].hi < spans[k + 1].lo) &&
    forall k, j :: 0 <= k < |spans| - 1 && spans[k].hi <= j < spans[k + 1].lo && j < |s| ==> IsTerminator(s[j])
  }

  /** The gap after piece `m` of a split is not empty. */
  lemma {:induction false} SplitSpansGap(s: string, from: nat, m: nat)
    requires from <= |s|
    requires m + 1 < |SplitSpans(s, from)|
    ensures SplitSpans(s, from)[m].hi < SplitSpans(s, from)[m + 1].lo
    decreases |s| - from
  {
    var spans := SplitSpans(s, from);
    var next := SkipTerminators(s, NextTerminator(s, from));
    var rest := SplitSpans(s, next);
    SplitSpansStep(s, from);
    if m == 0 {
      assert spans[1] == rest[0];
    } else {
      SplitSpansGap(s, next, m - 1);
      assert spans[m] == rest[m - 1] && spans[m + 1] == rest[m];
    }
  }

  /** The gap after piece `m` of a split holds terminators only. */
  lemma {:induction false} SplitSpansGapTerminator(s: string, from: nat, m: nat, j: nat)
    requires from <= |s|
    requires m + 1 < |SplitSpans(s, from)|
    requires SplitSpans(s, from)[m].hi <= j < SplitSpans(s, from)[m + 1].lo
    ensures j < |s| && IsTerminator(s[j])
    decreases |s| - from
  {
    var spans := SplitSpans(s, from);
    var k := NextTerminator(s, from);
    var next := SkipTerminators(s, k);
    var rest := SplitSpans(s, next);
    SplitSpansStep(s, from);
    if m == 0 {
      assert spans[1] == rest[0];
      SkippedAreTerminators(s, k, j);
    } else {
      assert spans[m] == rest[m - 1] && spans[m + 1] == rest[m];
      SplitSpansGapTerminator(s, next, m - 1, j);
    }
  }

  /** What separates two consecutive pieces is a non-empty run of
    * terminators only. */
  lemma SplitSpansSeparators(s: string, from: nat)
    requires from <= |s|
    ensures SeparatedByTerminators(s, SplitSpans(s, from))
  {
    var spans := SplitSpans(s, from);
    forall m | 0 <= m < |spans| - 1 ensures spans[m].hi < spans[m + 1].lo {
      SplitSpansGap(s, from, m);
    }
    forall m, j | 0 <= m < |spans| - 1 && spans[m].hi <= j < spans[m + 1].lo && j < |s|
      ensures IsTerminator(s[j])
    {
      SplitSpansGapTerminator(s, from, m, j);
    }
  }

  /** Piece `a` of a split ends before piece `b > a` starts. */
  lemma {:induction false} SplitSpansBefore(s: string, from: nat, a: nat, b: nat)
    requires from <= |s|
    requires a < b < |SplitSpans(s, from)|
    ensures SplitSpans(s, from)[a].hi <= SplitSpans(s, from)[b].lo
    decreases |s| - from
  {
    var spans := SplitSpans(s, from);
    var k := NextTerminator(s, from);
    var next := SkipTerminators(s, k);
    var rest := SplitSpans(s, next);
    SplitSpansStep(s, from);
    assert spans[b] == rest[b - 1];
    if a > 0 {
      SplitSpansBefore(s, next, a - 1, b - 1);
      assert spans[a] == rest[a - 1];
    } else {
      SplitSpanWithin(s, next, b - 1);
    }
  }

  /** No two spans of a split overlap, and they come in text order. */
  lemma SplitSpansOrdered(s: string, from: nat)
    requires from <= |s|
    ensures Ordered(SplitSpans(s, from))
  {
    var spans := SplitSpans(s, from);
    forall a, b | 0 <= a < b < |spans| ensures spans[a].hi <= spans[b].lo {
      SplitSpansBefore(s, from, a, b);
    }
  }

  /** The strings the spans cover. */
  function Slices(s: string, spans: seq<Span>): (pieces: seq<string>)
    requires forall k :: 0 <= k < |spans| ==> spans[k].lo <= spans[k].hi <= |s|
    ensures |pieces| == |spans|
    ensures forall k :: 0 <= k < |spans| ==> pieces[k] == s[spans[k].lo..spans[k].hi]
  {
    if spans == [] then [] else [s[spans[0].lo..spans[0].hi]] + Slices(s, spans[1..])
  }

  /** Slices of terminator-free ranges contain no terminator. */
  lemma SlicesHaveNoTerminator(s: string, spans: seq<Span>)
    requires forall k :: 0 <= k < |spans| ==> spans[k].lo <= spans[k].hi <= |s|
    requires TerminatorFree(s, spans)
    ensures forall k :: 0 <= k < |spans| ==> NoTerminator(Slices(s, spans)[k])
  {
    var pieces := Slices(s, spans);
    forall k, i | 0 <= k < |pieces| && 0 <= i < |pieces[k]| ensures !IsTerminator(pieces[k][i]) {
      assert pieces[k][i] == s[spans[k].lo + i];
    }
  }

  /** `inputText.split(/[.!?]+/)`. */
  function Split(s: string): (pieces: seq<string>)
    ensures |pieces| >= 1
    ensures forall k :: 0 <= k < |pieces| ==> NoTerminator(pieces[k])
  {
    var spans := SplitSpans(s, 0);
    SplitSpansWithin(s, 0);
    SplitSpansTerminatorFree(s, 0);
    SlicesHaveNoTerminator(s, spans);
    Slices(s, spans)
  }

  /** `Array.prototype.filter`: the elements satisfying `keep`, in order. */
  function Filter<T>(xs: seq<T>, keep: T -> bool): (kept: seq<T>)
    ensures |kept| <= |xs|
  {
    if xs == [] then []
    else if keep(xs[0]) then [xs[0]] + Filter(xs[1..], keep)
    else Filter(xs[1..], keep)
  }

  /** The filter keeps exactly the elements satisfying `keep`. */
  lemma {:induction false} FilterMembers<T>(xs: seq<T>, keep: T -> bool)
    ensures forall x :: x in Filter(xs, keep) <==> x in xs && keep(x)
  {
    if xs != [] {
      FilterMembers(xs[1..], keep);
      assert forall x :: x in xs <==> x == xs[0] || x in xs[1..];
    }
  }

  /** `s => s.trim().length > 10`. */
  predicate LongEnough(sentence: string) {
    |Trim(sentence)| > MinSentenceLength
  }

  /** `.filter(s => s.trim().length > 10)`. */
  function Qualifying(sentences: seq<string>): seq<string> {
    Filter(sentences, LongEnough)
  }

  const AiTitle: string := "Potential AI Pattern"
  const AiExplanation: string := "This segment exhibits characteristics common in AI-generated text."
  const HumanTitle: string := "Human-Like Pattern"
  const HumanExplanation: string := "This segment shows natural human writing patterns."

  /** The annotation written for one found sentence. */
  function DefaultAnnotation(startIdx: int, endIdx: int, isAiLikely: bool): Annotation {
    if isAiLikely then Annotation(startIdx, endIdx, AiPattern, Red, AiTitle, AiExplanation)
    else Annotation(startIdx, endIdx, HumanPattern, Blue, HumanTitle, HumanExplanation)
  }

  /** Where the search loop stands: the annotations pushed so far and the
    * search cursor `currentPos`. */
  datatype Progress = Progress(found: seq<Annotation>, cursor: int)

  /** `sentences.map(s => s.trim())`: the loop trims each sentence before
    * looking it up. */
  function TrimEach(sentences: seq<string>): (trimmed: seq<string>)
    ensures |trimmed| == |sentences|
    ensures forall k :: 0 <= k < |sentences| ==> trimmed[k] == Trim(sentences[k])
  {
    if sentences == [] then [] else [Trim(sentences[0])] + TrimEach(sentences[1..])
  }

  /** One pass of the loop body for an already trimmed sentence: it is
    * looked up with `indexOf` from the cursor; a sentence that is not found
    * is skipped, a found one is annotated and moves the cursor to its end. */
  function PlaceSentence(text: string, trimmed: string, p: Progress, isAiLikely: bool): Progress {
    var startIdx := IndexOf(text, trimmed, p.cursor);
    if startIdx == -1 then p
    else
      var endIdx := startIdx + |trimmed|;
      Progress(p.found + [DefaultAnnotation(startIdx, endIdx, isAiLikely)], endIdx)
  }

  /** The loop after its first `n` passes, over the trimmed sentences. */
  function PlaceFirst(text: string, trimmed: seq<string>, n: nat, isAiLikely: bool): Progress
    requires n <= |trimmed|
  {
    if n == 0 then Progress([], 0)
    else PlaceSentence(text, trimmed[n - 1], PlaceFirst(text, trimmed, n - 1, isAiLikely), isAiLikely)
  }

  /** `Math.min(5, sentences.length)`: how many sentences the loop visits. */
  function VisitCount(sentences: seq<string>): (count: nat)
    ensures count <= MaxDefaults && count <= |sentences|
    ensures count == MaxDefaults || count == |sentences|
  {
    if MaxDefaults < |sentences| then MaxDefaults else |sentences|
  }

  /** `generateDefaultAnnotations(inputText, score)`. */
  function Defaults(text: string, score: int): seq<Annotation> {
    var sentences := Qualifying(Split(text));
    PlaceFirst(text, TrimEach(sentences), VisitCount(sentences), score >= AiThreshold).found
  }

  /** The body of the loop of `generateDefaultAnnotations`, statement by
    * statement (`continue` leaves the state as it was). */
  method PlaceNext(inputText: string, raw: string, annotations: seq<Annotation>,
                   currentPos: int, isAiLikely: bool)
    returns (annotations': seq<Annotation>, currentPos': int)
    ensures Progress(annotations', currentPos')
         == PlaceSentence(inputText, Trim(raw), Progress(annotations, currentPos), isAiLikely)
  {
    annotations', currentPos' := annotations, currentPos;
    var sentence := Trim(raw);
    var startIdx := IndexOf(inputText, sentence, currentPos);
    if startIdx == -1 {
      return;
    }
    var endIdx := startIdx + |sentence|;
    currentPos' := endIdx;
    annotations' := annotations' + [DefaultAnnotation(startIdx, endIdx, isAiLikely)];
  }

  /** `generateDefaultAnnotations(inputText, score)`: at most five passes
    * of the loop over the qualifying sentences, starting from no annotations
    * and cursor 0. */
  method GenerateDefaultAnnotations(inputText: string, score: int) returns (annotations: seq<Annotation>)
    ensures annotations == Defaults(inputText, score)
  {
    var sentences := Qualifying(Split(inputText));
    annotations := [];
    var isAiLikely := score >= AiThreshold;
    var currentPos := 0;
    var count := VisitCount(sentences);
    ghost var trimmed := TrimEach(sentences);
    for i := 0 to count
      invariant Progress(annotations, currentPos) == PlaceFirst(inputText, trimmed, i, isAiLikely)
    {
      annotations, currentPos := PlaceNext(inputText, sentences[i], annotations, currentPos, isAiLikely);
    }
  }

  // ---------------------------------------------------------------------
  // What the loop promises

  /** The loop's state is sound for `text`: the cursor lies in the text,
    * and the annotations pushed so far lie inside the text, end at or
    * before the cursor and come in text order without overlap. */
  predicate WellPlaced(text: string, p: Progress) {
    0 <= p.cursor <= |text| &&
    (forall j :: 0 <= j < |p.found| ==> InBounds(p.found[j], |text|) && p.found[j].endIndex <= p.cursor) &&
    (forall j, m :: 0 <= j < m < |p.found| ==> p.found[j].endIndex <= p.found[m].startIndex)
  }

  /** One pass keeps the state sound and pushes at most one annotation,
    * provided the sentence is not empty. */
  lemma PlaceSentenceKeepsWellPlaced(text: string, trimmed: string, p: Progress, isAiLikely: bool)
    requires WellPlaced(text, p)
    requires trimmed != []
    ensures var q := PlaceSentence(text, trimmed, p, isAiLikely);
      WellPlaced(text, q) && |p.found| <= |q.found| <= |p.found| + 1
  {
    if IndexOf(text, trimmed, p.cursor) != -1 {
      assert ClampIndex(text, p.cursor) == p.cursor;
    }
  }

  /** After any number of passes over non-empty sentences, the state is
    * sound and holds at most one annotation per pass. */
  lemma {:induction false} PlaceFirstWellPlaced(text: string, trimmed: seq<string>, n: nat, isAiLikely: bool)
    requires n <= |trimmed|
    requires forall k :: 0 <= k < |trimmed| ==> trimmed[k] != []
    ensures WellPlaced(text, PlaceFirst(text, trimmed, n, isAiLikely))
    ensures |PlaceFirst(text, trimmed, n, isAiLikely).found| <= n
  {
    if n > 0 {
      PlaceFirstWellPlaced(text, trimmed, n - 1, isAiLikely);
      PlaceSentenceKeepsWellPlaced(text, trimmed[n - 1], PlaceFirst(text, trimmed, n - 1, isAiLikely), isAiLikely);
    }
  }

  /** Every annotation in `p` is a default annotation that covers exactly
    * one of the first `n` trimmed sentences. */
  predicate CoversSentences(text: string, trimmed: seq<string>, n: nat, p: Progress, isAiLikely: bool)
    requires n <= |trimmed|
  {
    forall j :: 0 <= j < |p.found| ==>
      var a := p.found[j];
      a == DefaultAnnotation(a.startIndex, a.endIndex, isAiLikely) &&
      0 <= a.startIndex <= a.endIndex <= |text| &&
      exists k :: 0 <= k < n && text[a.startIndex..a.endIndex] == trimmed[k]
  }

  /** The pass over sentence `n - 1` adds at most the annotation of that
    * sentence. */
  lemma PlaceSentenceCovers(text: string, trimmed: seq<string>, n: nat, p: Progress, isAiLikely: bool)
    requires 0 < n <= |trimmed|
    requires CoversSentences(text, trimmed, n - 1, p, isAiLikely)
    ensures CoversSentences(text, trimmed, n, PlaceSentence(text, trimmed[n - 1], p, isAiLikely), isAiLikely)
  {
    var sentence := trimmed[n - 1];
    var q := PlaceSentence(text, sentence, p, isAiLikely);
    forall j | 0 <= j < |p.found|
      ensures exists k :: 0 <= k < n && text[p.found[j].startIndex..p.found[j].endIndex] == trimmed[k]
    {
      var k :| 0 <= k < n - 1 && text[p.found[j].startIndex..p.found[j].endIndex] == trimmed[k];
    }
    var startIdx := IndexOf(text, sentence, p.cursor);
    if startIdx != -1 {
      var added := DefaultAnnotation(startIdx, startIdx + |sentence|, isAiLikely);
      assert q.found == p.found + [added];
      assert text[added.startIndex..added.endIndex] == trimmed[n - 1];
    }
  }

  /** Every annotation the loop pushes is a default annotation covering
    * exactly one of the trimmed sentences visited so far. */
  lemma {:induction false} PlaceFirstCovers(text: string, trimmed: seq<string>, n: nat, isAiLikely: bool)
    requires n <= |trimmed|
    ensures CoversSentences(text, trimmed, n, PlaceFirst(text, trimmed, n, isAiLikely), isAiLikely)
  {
    if n > 0 {
      var p := PlaceFirst(text, trimmed, n - 1, isAiLikely);
      PlaceFirstCovers(text, trimmed, n - 1, isAiLikely);
      PlaceSentenceCovers(text, trimmed, n, p, isAiLikely);
    }
  }

  /** Trimming a string without terminators leaves one without terminators. */
  lemma TrimKeepsNoTerminator(s: string)
    requires NoTerminator(s)
    ensures NoTerminator(Trim(s))
  {
    var b := TrimBounds(s);
    assert forall i :: 0 <= i < b.1 - b.0 ==> Trim(s)[i] == s[b.0 + i];
  }

  /** `a` highlights a whole trimmed sentence of more than ten characters,
    * with no terminator inside. */
  predicate CoversSentence(text: string, a: Annotation) {
    0 <= a.startIndex <= a.endIndex <= |text| &&
    var segment := text[a.startIndex..a.endIndex];
    |segment| > MinSentenceLength && IsTrimmed(segment) && NoTerminator(segment)
  }

  /** A sentence the loop looks up, once trimmed: more than ten characters,
    * no whitespace at either end, no terminator. */
  predicate IsCandidate(sentence: string) {
    |sentence| > MinSentenceLength && IsTrimmed(sentence) && NoTerminator(sentence)
  }

  predicate AllCandidates(trimmed: seq<string>) {
    forall k :: 0 <= k < |trimmed| ==> IsCandidate(trimmed[k])
  }

  /** Every sentence the loop looks up is a candidate. */
  lemma TrimmedSentencesAreCandidates(text: string)
    ensures AllCandidates(TrimEach(Qualifying(Split(text))))
  {
    var sentences := Qualifying(Split(text));
    FilterMembers(Split(text), LongEnough);
    forall k | 0 <= k < |sentences| ensures IsCandidate(Trim(sentences[k])) {
      assert sentences[k] in sentences;
      TrimKeepsNoTerminator(sentences[k]);
    }
  }

  /** Passes over candidate sentences push sound annotations: inside the
    * text, in text order without overlap, labelled by `isAiLikely`, each
    * covering a whole candidate sentence. */
  lemma PlaceFirstSound(text: string, trimmed: seq<string>, n: nat, isAiLikely: bool)
    requires n <= |trimmed|
    requires AllCandidates(trimmed)
    ensures var d := PlaceFirst(text, trimmed, n, isAiLikely).found;
      |d| <= n &&
      (forall j :: 0 <= j < |d| ==> InBounds(d[j], |text|)) &&
      (forall j, m :: 0 <= j < m < |d| ==> d[j].endIndex <= d[m].startIndex) &&
      (forall j :: 0 <= j < |d| ==> d[j] == DefaultAnnotation(d[j].startIndex, d[j].endIndex, isAiLikely)) &&
      (forall j :: 0 <= j < |d| ==> CoversSentence(text, d[j]))
  {
    assert forall k :: 0 <= k < |trimmed| ==> trimmed[k] != [] by {
      forall k | 0 <= k < |trimmed| ensures trimmed[k] != [] {
        assert IsCandidate(trimmed[k]);
      }
    }
    PlaceFirstWellPlaced(text, trimmed, n, isAiLikely);
    PlaceFirstCovers(text, trimmed, n, isAiLikely);
    var p := PlaceFirst(text, trimmed, n, isAiLikely);
    forall j | 0 <= j < |p.found| ensures CoversSentence(text, p.found[j]) {
      var a := p.found[j];
      var k :| 0 <= k < n && text[a.startIndex..a.endIndex] == trimmed[k];
      assert IsCandidate(trimmed[k]);
    }
  }

  /** The fallback annotations: at most five, inside the text, in text order
    * without overlap, all labelled and coloured by the single `score >= 70`
    * test, each covering a whole trimmed sentence of more than ten
    * characters that contains no terminator. */
  lemma DefaultsWellFormed(text: string, score: int)
    ensures var d := Defaults(text, score);
      |d| <= MaxDefaults &&
      (forall j :: 0 <= j < |d| ==> InBounds(d[j], |text|)) &&
      (forall j, m :: 0 <= j < m < |d| ==> d[j].endIndex <= d[m].startIndex) &&
      (forall j :: 0 <= j < |d| ==> d[j] == DefaultAnnotation(d[j].startIndex, d[j].endIndex, score >= AiThreshold)) &&
      (forall j :: 0 <= j < |d| ==> CoversSentence(text, d[j]))
  {
    var sentences := Qualifying(Split(text));
    TrimmedSentencesAreCandidates(text);
    PlaceFirstSound(text, TrimEach(sentences), VisitCount(sentences), score >= AiThreshold);
  }

  // ---------------------------------------------------------------------
  // The search never misses

  /** The ranges whose pieces satisfy `keep`. */
  function KeepSpans(text: string, spans: seq<Span>, keep: string -> bool): (kept: seq<Span>)
    requires forall k :: 0 <= k < |spans| ==> spans[k].lo <= spans[k].hi <= |text|
    ensures |kept| <= |spans|
    ensures forall k :: 0 <= k < |kept| ==> kept[k].lo <= kept[k].hi <= |text|
  {
    if spans == [] then []
    else if keep(text[spans[0].lo..spans[0].hi]) then [spans[0]] + KeepSpans(text, spans[1..], keep)
    else KeepSpans(text, spans[1..], keep)
  }

  /** Filtering the ranges and then slicing is filtering the slices. */
  lemma {:induction false} KeepSpansSlices(text: string, spans: seq<Span>, keep: string -> bool)
    requires forall k :: 0 <= k < |spans| ==> spans[k].lo <= spans[k].hi <= |text|
    ensures Slices(text, KeepSpans(text, spans, keep)) == Filter(Slices(text, spans), keep)
  {
    if spans != [] {
      var rest := KeepSpans(text, spans[1..], keep);
      KeepSpansSlices(text, spans[1..], keep);
      var pieces := Slices(text, spans);
      assert pieces[0] == text[spans[0].lo..spans[0].hi];
      assert pieces[1..] == Slices(text, spans[1..]);
      if keep(text[spans[0].lo..spans[0].hi]) {
        assert Slices(text, [spans[0]] + rest)[1..] == Slices(text, rest);
      }
    }
  }

  /** The kept ranges start no earlier than the ranges they come from. */
  lemma {:induction false} KeepSpansAfter(text: string, spans: seq<Span>, keep: string -> bool, bound: int)
    requires forall k :: 0 <= k < |spans| ==> spans[k].lo <= spans[k].hi <= |text|
    requires forall k :: 0 <= k < |spans| ==> bound <= spans[k].lo
    ensures forall k :: 0 <= k < |KeepSpans(text, spans, keep)| ==> bound <= KeepSpans(text, spans, keep)[k].lo
  {
    if spans != [] {
      KeepSpansAfter(text, spans[1..], keep, bound);
    }
  }

  /** Keeping some of the ranges keeps them in text order. */
  lemma {:induction false} KeepSpansOrdered(text: string, spans: seq<Span>, keep: string -> bool)
    requires forall k :: 0 <= k < |spans| ==> spans[k].lo <= spans[k].hi <= |text|
    requires Ordered(spans)
    ensures Ordered(KeepSpans(text, spans, keep))
  {
    if spans != [] {
      var rest := KeepSpans(text, spans[1..], keep);
      KeepSpansOrdered(text, spans[1..], keep);
      if keep(text[spans[0].lo..spans[0].hi]) {
        KeepSpansAfter(text, spans[1..], keep, spans[0].hi);
        var kept := [spans[0]] + rest;
        forall a, b | 0 <= a < b < |kept| ensures kept[a].hi <= kept[b].lo {
          assert kept[b] == rest[b - 1];
          if a > 0 {
            assert kept[a] == rest[a - 1];
          }
        }
      }
    }
  }

  /** Each `trimmed[k]` occurs in `text` at `starts[k]`, and each of these
    * occurrences ends before the next one starts. */
  predicate OccurInOrder(text: string, trimmed: seq<string>, starts: seq<nat>) {
    |starts| == |trimmed| &&
    (forall k :: 0 <= k < |trimmed| ==> OccursAt(text, trimmed[k], starts[k])) &&
    (forall k :: 0 <= k < |trimmed| - 1 ==> starts[k] + |trimmed[k]| <= starts[k + 1])
  }

  /** When the sentences occur in the text one after the other, every pass
    * finds its sentence at or before that occurrence, so the cursor never
    * overtakes the next sentence and no pass is skipped. */
  lemma {:induction false} PlaceFirstFindsAll(text: string, trimmed: seq<string>, starts: seq<nat>, n: nat, isAiLikely: bool)
    requires n <= |trimmed|
    requires OccurInOrder(text, trimmed, starts)
    ensures var p := PlaceFirst(text, trimmed, n, isAiLikely);
      |p.found| == n && 0 <= p.cursor &&
      (n > 0 ==> p.cursor <= starts[n - 1] + |trimmed[n - 1]|)
  {
    if n > 0 {
      PlaceFirstFindsAll(text, trimmed, starts, n - 1, isAiLikely);
      var p := PlaceFirst(text, trimmed, n - 1, isAiLikely);
      var t := trimmed[n - 1];
      var at := starts[n - 1];
      if n > 1 {
        assert starts[n - 2] + |trimmed[n - 2]| <= at;
      }
      assert OccursAt(text, t, at);
      assert ClampIndex(text, p.cursor) == p.cursor;
      var startIdx := IndexOf(text, t, p.cursor);
      assert startIdx != -1;
      assert startIdx <= at;
    }
  }

  /** Where `trim` puts each piece of `spans`. */
  function TrimStarts(text: string, spans: seq<Span>): (starts: seq<nat>)
    requires forall k :: 0 <= k < |spans| ==> spans[k].lo <= spans[k].hi <= |text|
    ensures |starts| == |spans|
    ensures forall k :: 0 <= k < |spans| ==>
      starts[k] == spans[k].lo + LeadingSpace(text[spans[k].lo..spans[k].hi])
  {
    if spans == [] then []
    else [spans[0].lo + LeadingSpace(text[spans[0].lo..spans[0].hi])] + TrimStarts(text, spans[1..])
  }

  /** The trimmed piece `text[lo..hi]` occurs in `text` where `trim` put it,
    * and ends by `hi`. */
  lemma TrimmedOccurs(text: string, lo: nat, hi: nat)
    requires lo <= hi <= |text|
    ensures var at := lo + LeadingSpace(text[lo..hi]);
      OccursAt(text, Trim(text[lo..hi]), at) && at + |Trim(text[lo..hi])| <= hi
  {
    var piece := text[lo..hi];
    var b := TrimBounds(piece);
    assert OccursAt(piece, Trim(piece), b.0);
    OccursInSlice(text, Trim(piece), lo, hi, b.0);
  }

  /** The `k`-th trimmed piece occurs where `trim` put it, inside its range. */
  lemma TrimmedPieceOccurs(text: string, spans: seq<Span>, k: nat)
    requires forall k :: 0 <= k < |spans| ==> spans[k].lo <= spans[k].hi <= |text|
    requires k < |spans|
    ensures var trimmed := TrimEach(Slices(text, spans));
      var starts := TrimStarts(text, spans);
      OccursAt(text, trimmed[k], starts[k]) && starts[k] + |trimmed[k]| <= spans[k].hi
  {
    var piece := text[spans[k].lo..spans[k].hi];
    var t := Trim(piece);
    var at := spans[k].lo + LeadingSpace(piece);
    TrimmedOccurs(text, spans[k].lo, spans[k].hi);
    assert OccursAt(text, t, at);
    assert Slices(text, spans)[k] == piece;
    assert TrimEach(Slices(text, spans))[k] == t;
    assert TrimStarts(text, spans)[k] == at;
  }

  /** Each trimmed piece occurs where `trim` put it, inside its range. */
  lemma TrimmedPiecesOccur(text: string, spans: seq<Span>)
    requires forall k :: 0 <= k < |spans| ==> spans[k].lo <= spans[k].hi <= |text|
    ensures var trimmed := TrimEach(Slices(text, spans));
      var starts := TrimStarts(text, spans);
      forall k :: 0 <= k < |spans| ==>
        OccursAt(text, trimmed[k], starts[k]) && starts[k] + |trimmed[k]| <= spans[k].hi
  {
    forall k | 0 <= k < |spans| {
      TrimmedPieceOccurs(text, spans, k);
    }
  }

  /** The trimmed pieces of ordered ranges occur in order. */
  lemma TrimmedPiecesOccurInOrder(text: string, spans: seq<Span>)
    requires forall k :: 0 <= k < |spans| ==> spans[k].lo <= spans[k].hi <= |text|
    requires Ordered(spans)
    ensures OccurInOrder(text, TrimEach(Slices(text, spans)), TrimStarts(text, spans))
  {
    TrimmedPiecesOccur(text, spans);
    var trimmed := TrimEach(Slices(text, spans));
    var starts := TrimStarts(text, spans);
    forall k | 0 <= k < |spans| - 1 ensures starts[k] + |trimmed[k]| <= starts[k + 1] {
      assert spans[k].hi <= spans[k + 1].lo;
    }
  }

  /** The trimmed sentences of more than ten characters occur in the text
    * one after the other. */
  lemma SentencesOccurInOrder(text: string)
    ensures exists starts :: OccurInOrder(text, TrimEach(Qualifying(Split(text))), starts)
  {
    var spans := SplitSpans(text, 0);
    SplitSpansWithin(text, 0);
    SplitSpansOrdered(text, 0);
    var kept := KeepSpans(text, spans, LongEnough);
    KeepSpansSlices(text, spans, LongEnough);
    KeepSpansOrdered(text, spans, LongEnough);
    TrimmedPiecesOccurInOrder(text, kept);
    var sentences := Qualifying(Split(text));
    assert sentences == Slices(text, kept);
    assert OccurInOrder(text, TrimEach(sentences), TrimStarts(text, kept));
  }

  /** The search never misses: `generateDefaultAnnotations` returns exactly
    * `min(5, n)` annotations, `n` being the number of sentences longer than
    * ten characters, because each sentence is a piece of the text lying
    * after the previous one.  The `continue` branch is never taken. */
  lemma DefaultsFindEverySentence(text: string, score: int)
    ensures |Defaults(text, score)| == VisitCount(Qualifying(Split(text)))
  {
    var sentences := Qualifying(Split(text));
    SentencesOccurInOrder(text);
    var starts :| OccurInOrder(text, TrimEach(sentences), starts);
    PlaceFirstFindsAll(text, TrimEach(sentences), starts, VisitCount(sentences), score >= AiThreshold);
  }

  /** The `j`-th annotation of `d` spans exactly the `j`-th trimmed
    * sentence. */
  predicate SpansInTurn(text: string, trimmed: seq<string>, d: seq<Annotation>) {
    |d| <= |trimmed| &&
    forall j :: 0 <= j < |d| ==>
      0 <= d[j].startIndex <= d[j].endIndex <= |text| && text[d[j].startIndex..d[j].endIndex] == trimmed[j]
  }

  /** A pass that pushes an annotation pushes the one of its own sentence. */
  lemma PlaceSentenceInTurn(text: string, trimmed: seq<string>, n: nat, p: Progress, isAiLikely: bool)
    requires 0 < n <= |trimmed|
    requires |p.found| == n - 1 && SpansInTurn(text, trimmed, p.found)
    requires |PlaceSentence(text, trimmed[n - 1], p, isAiLikely).found| == n
    ensures SpansInTurn(text, trimmed, PlaceSentence(text, trimmed[n - 1], p, isAiLikely).found)
  {
    var startIdx := IndexOf(text, trimmed[n - 1], p.cursor);
    var added := DefaultAnnotation(startIdx, startIdx + |trimmed[n - 1]|, isAiLikely);
    var d := p.found + [added];
    assert text[added.startIndex..added.endIndex] == trimmed[n - 1];
    forall j | 0 <= j < |d|
      ensures 0 <= d[j].startIndex <= d[j].endIndex <= |text| && text[d[j].startIndex..d[j].endIndex] == trimmed[j]
    {
      if j < |p.found| {
        assert d[j] == p.found[j];
      }
    }
  }

  /** When the sentences occur in order, the `j`-th annotation pushed spans
    * exactly the `j`-th trimmed sentence: no sentence is highlighted twice
    * and none visited is passed over. */
  lemma {:induction false} PlaceFirstPointwise(text: string, trimmed: seq<string>, starts: seq<nat>, n: nat, isAiLikely: bool)
    requires n <= |trimmed|
    requires OccurInOrder(text, trimmed, starts)
    ensures |PlaceFirst(text, trimmed, n, isAiLikely).found| == n
    ensures SpansInTurn(text, trimmed, PlaceFirst(text, trimmed, n, isAiLikely).found)
  {
    if n > 0 {
      PlaceFirstPointwise(text, trimmed, starts, n - 1, isAiLikely);
      PlaceFirstFindsAll(text, trimmed, starts, n, isAiLikely);
      PlaceSentenceInTurn(text, trimmed, n, PlaceFirst(text, trimmed, n - 1, isAiLikely), isAiLikely);
    }
  }

  /** The `j`-th fallback annotation highlights exactly the `j`-th trimmed
    * sentence of more than ten characters. */
  lemma DefaultsPointwise(text: string, score: int)
    ensures var d := Defaults(text, score);
      var trimmed := TrimEach(Qualifying(Split(text)));
      |d| <= |trimmed| &&
      forall j :: 0 <= j < |d| ==>
        0 <= d[j].startIndex <= d[j].endIndex <= |text| && text[d[j].startIndex..d[j].endIndex] == trimmed[j]
  {
    var sentences := Qualifying(Split(text));
    SentencesOccurInOrder(text);
    var starts :| OccurInOrder(text, TrimEach(sentences), starts);
    PlaceFirstPointwise(text, TrimEach(sentences), starts, VisitCount(sentences), score >= AiThreshold);
  }
}
