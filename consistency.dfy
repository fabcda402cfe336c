/**
 * The consistency rules applied to a freshly parsed report: the verdict is
 * re-derived from the score, annotations whose span does not fit the text
 * are dropped.
 */
module Consistency {
  import opened JsString
  import opened ReportModel

  /** The score-to-verdict table the rubric fixes: 90 and above is machine
    * text, [70, 90) hybrid, [50, 70) inconclusive, below 50 human. */
  function BucketOf(score: int): (v: Verdict)
    ensures v == LikelyAi <==> 90 <= score
    ensures v == Hybrid <==> 70 <= score < 90
    ensures v == Inconclusive <==> 50 <= score < 70
    ensures v == LikelyHuman <==> score < 50
  {
    if score >= 90 then LikelyAi
    else if score >= 70 then Hybrid
    else if score >= 50 then Inconclusive
    else LikelyHuman
  }

  /** The explanation written when a score of 90 or more came with a
    * verdict other than the machine one. */
  function MismatchMeaning(score: nat): string {
    MeaningPrefix + DecimalText(score) + MeaningSuffix
  }

  const MeaningPrefix: string := "This text scores "
  const MeaningSuffix: string :=
    "% AI probability, indicating overwhelming AI-generated patterns with minimal human variance."

  /** What the correction chain leaves behind: the verdict of the score's
    * bucket, the explanation rewritten only in the "90 or more but not
    * labelled machine text" case, and every other field as it was. */
  function Corrected(data: Report): Report {
    var meaning :=
      if data.score >= 90 && data.verdict != LikelyAi.Text() then MismatchMeaning(data.score)
      else data.plainLanguageMeaning;
    data.(verdict := BucketOf(data.score).Text(), plainLanguageMeaning := meaning)
  }

  /** The else-if chain of verdict checks, each branch writing the field in
    * place when the stored verdict disagrees with its score range. */
  method CorrectVerdict(data: Report) returns (fixed: Report)
    ensures fixed == Corrected(data)
  {
    fixed := data;
    if fixed.score >= 90 && fixed.verdict != LikelyAi.Text() {
      fixed := fixed.(verdict := LikelyAi.Text());
      fixed := fixed.(plainLanguageMeaning := MismatchMeaning(fixed.score));
    } else if fixed.score >= 70 && fixed.score < 90 && fixed.verdict != Hybrid.Text() {
      fixed := fixed.(verdict := Hybrid.Text());
    } else if fixed.score >= 50 && fixed.score < 70 && fixed.verdict != Inconclusive.Text() {
      fixed := fixed.(verdict := Inconclusive.Text());
    } else if fixed.score < 50 && fixed.verdict != LikelyHuman.Text() {
      fixed := fixed.(verdict := LikelyHuman.Text());
    }
  }

  /** After the chain the verdict is the score's bucket; the explanation is
    * rewritten only when a score of 90 or more was not labelled machine
    * text; no other field changes. */
  lemma CorrectedSpec(data: Report)
    ensures Corrected(data).verdict == BucketOf(data.score).Text()
    ensures Corrected(data).plainLanguageMeaning ==
      if data.score >= 90 && data.verdict != LikelyAiText then MismatchMeaning(data.score)
      else data.plainLanguageMeaning
    ensures Corrected(data) == data.(verdict := Corrected(data).verdict,
                                     plainLanguageMeaning := Corrected(data).plainLanguageMeaning)
  {
  }

  /** Correcting twice is correcting once. */
  lemma CorrectedIdempotent(data: Report)
    ensures Corrected(Corrected(data)) == Corrected(data)
  {
  }

  /** The chain changes nothing exactly when the stored verdict already is
    * the score's bucket. */
  lemma CorrectedFixpoint(data: Report)
    ensures Corrected(data) == data <==> data.verdict == BucketOf(data.score).Text()
  {
    if data.verdict == BucketOf(data.score).Text() && data.score >= 90 {
      assert data.verdict == LikelyAi.Text();
    }
  }

  /** `xs` is `ys` with some elements deleted. */
  predicate IsSubsequence<T(==)>(xs: seq<T>, ys: seq<T>)
    decreases |ys|
  {
    if xs == [] then true
    else if ys == [] then false
    else if xs[0] == ys[0] then IsSubsequence(xs[1..], ys[1..])
    else IsSubsequence(xs, ys[1..])
  }

  /** `annotations.filter(a => a.start_index >= 0 && a.end_index <= text.length
    * && a.start_index < a.end_index)`: the in-bounds annotations, each as
    * often as it occurs, in their original order. */
  function FilterInBounds(annotations: seq<Annotation>, textLength: int): (kept: seq<Annotation>)
    ensures forall a :: a in kept ==> InBounds(a, textLength)
    ensures forall a :: multiset(kept)[a] == if InBounds(a, textLength) then multiset(annotations)[a] else 0
    ensures IsSubsequence(kept, annotations)
    ensures (forall a :: a in annotations ==> InBounds(a, textLength)) ==> kept == annotations
  {
    if annotations == [] then []
    else
      var rest := FilterInBounds(annotations[1..], textLength);
      assert annotations == [annotations[0]] + annotations[1..];
      if InBounds(annotations[0], textLength) then
        assert ([annotations[0]] + rest)[1..] == rest;
        [annotations[0]] + rest
      else rest
  }
}
