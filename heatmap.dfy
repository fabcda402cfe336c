/**
 * `renderHeatmap`: the analysed text is shown with its annotations
 * highlighted.  The annotations are sorted by start offset; walking through
 * them, the text between the previous highlight and the next one becomes a
 * plain piece, each annotation a highlighted piece with its tooltip, and
 * whatever follows the last highlight a final plain piece.
 */
module Heatmap {
  import opened Wrappers
  import opened JsString
  import opened ReportModel
  import DefaultAnnotations

  /** One `<span>` of the rendered text.  A highlight keeps the annotation's
    * colour (which picks the red or the blue classes) and its tooltip. */
  datatype Piece =
    | Plain(content: string)
    | Highlight(content: string, color: Color, tooltipTitle: string, tooltipExplanation: string)

  // ---------------------------------------------------------------------
  // Sorting

  predicate SortedByStart(xs: seq<Annotation>) {
    forall i, j :: 0 <= i < j < |xs| ==> xs[i].startIndex <= xs[j].startIndex
  }

  /** Inserts `a` in front of the first element that does not start before
    * it, so that `a` stays ahead of the elements with its own start. */
  function InsertByStart(a: Annotation, xs: seq<Annotation>): (r: seq<Annotation>)
    ensures |r| == |xs| + 1
  {
    if xs == [] || a.startIndex <= xs[0].startIndex then [a] + xs
    else [xs[0]] + InsertByStart(a, xs[1..])
  }

  lemma {:induction false} InsertByStartPermutes(a: Annotation, xs: seq<Annotation>)
    ensures multiset(InsertByStart(a, xs)) == multiset(xs) + multiset{a}
  {
    if xs != [] && a.startIndex > xs[0].startIndex {
      InsertByStartPermutes(a, xs[1..]);
      assert xs == [xs[0]] + xs[1..];
    }
  }

  lemma {:induction false} InsertByStartSorted(a: Annotation, xs: seq<Annotation>)
    requires SortedByStart(xs)
    ensures SortedByStart(InsertByStart(a, xs))
    ensures InsertByStart(a, xs)[0].startIndex == if xs == [] || a.startIndex <= xs[0].startIndex
      then a.startIndex else xs[0].startIndex
  {
    if xs != [] && a.startIndex > xs[0].startIndex {
      var rest := InsertByStart(a, xs[1..]);
      InsertByStartSorted(a, xs[1..]);
      var r := [xs[0]] + rest;
      forall i, j | 0 <= i < j < |r| ensures r[i].startIndex <= r[j].startIndex {
        if i > 0 {
          assert r[i] == rest[i - 1] && r[j] == rest[j - 1];
        } else {
          assert r[j] == rest[j - 1];
          assert rest[0].startIndex <= rest[j - 1].startIndex;
        }
      }
    }
  }

  /** `[...annotations].sort((a, b) => a.start_index - b.start_index)`:
    * each annotation is inserted into the sorted rest ahead of those with
    * its start, so that, as `Array.prototype.sort` promises, annotations
    * with the same start keep their relative order. */
  function SortByStart(xs: seq<Annotation>): (sorted: seq<Annotation>)
    ensures |sorted| == |xs|
  {
    if xs == [] then [] else InsertByStart(xs[0], SortByStart(xs[1..]))
  }

  /** The sort returns the annotations it was given, each as often. */
  lemma {:induction false} SortByStartPermutes(xs: seq<Annotation>)
    ensures multiset(SortByStart(xs)) == multiset(xs)
  {
    if xs != [] {
      SortByStartPermutes(xs[1..]);
      InsertByStartPermutes(xs[0], SortByStart(xs[1..]));
      assert xs == [xs[0]] + xs[1..];
    }
  }

  /** The sort orders the annotations by start offset. */
  lemma {:induction false} SortByStartSorted(xs: seq<Annotation>)
    ensures SortedByStart(SortByStart(xs))
  {
    if xs != [] {
      SortByStartSorted(xs[1..]);
      InsertByStartSorted(xs[0], SortByStart(xs[1..]));
    }
  }

  /** The annotations of `xs` that start at `k`, in order. */
  function StartingAt(xs: seq<Annotation>, k: int): (r: seq<Annotation>)
    ensures forall a :: a in r <==> a in xs && a.startIndex == k
  {
    if xs == [] then []
    else if xs[0].startIndex == k then [xs[0]] + StartingAt(xs[1..], k)
    else StartingAt(xs[1..], k)
  }

  lemma {:induction false} InsertByStartStable(a: Annotation, xs: seq<Annotation>, k: int)
    ensures StartingAt(InsertByStart(a, xs), k) ==
      (if a.startIndex == k then [a] else []) + StartingAt(xs, k)
  {
    if xs != [] && a.startIndex > xs[0].startIndex {
      InsertByStartStable(a, xs[1..], k);
      var rest := InsertByStart(a, xs[1..]);
      assert ([xs[0]] + rest)[1..] == rest;
    }
  }

  /** The sort is stable: for every start offset, the annotations starting
    * there come out in the order they went in. */
  lemma {:induction false} SortByStartStable(xs: seq<Annotation>, k: int)
    ensures StartingAt(SortByStart(xs), k) == StartingAt(xs, k)
  {
    if xs != [] {
      SortByStartStable(xs[1..], k);
      InsertByStartStable(xs[0], SortByStart(xs[1..]), k);
    }
  }

  /** Sorting annotations that are already in order changes nothing. */
  lemma {:induction false} SortSortedIsIdentity(xs: seq<Annotation>)
    requires SortedByStart(xs)
    ensures SortByStart(xs) == xs
  {
    if xs != [] {
      SortSortedIsIdentity(xs[1..]);
      assert xs == [xs[0]] + xs[1..];
    }
  }

  // ---------------------------------------------------------------------
  // Walking the sorted annotations

  /** The highlighted piece of annotation `a`. */
  function HighlightOf(text: string, a: Annotation): Piece {
    Highlight(Substring(text, a.startIndex, a.endIndex), a.color, a.tooltipTitle, a.tooltipExplanation)
  }

  /** The pieces pushed so far and the offset the last highlight ended at. */
  datatype Walk = Walk(pieces: seq<Piece>, lastIndex: int)

  /** One call of the `forEach` callback: a plain piece for a gap before the
    * annotation, then its highlight; the walk goes on from its end. */
  function Visit(text: string, a: Annotation, w: Walk): Walk {
    var gap := if a.startIndex > w.lastIndex then [Plain(Substring(text, w.lastIndex, a.startIndex))] else [];
    Walk(w.pieces + gap + [HighlightOf(text, a)], a.endIndex)
  }

  /** The walk after the callback has run on the first `n` annotations. */
  function VisitFirst(text: string, sorted: seq<Annotation>, n: nat): Walk
    requires n <= |sorted|
  {
    if n == 0 then Walk([], 0)
    else Visit(text, sorted[n - 1], VisitFirst(text, sorted, n - 1))
  }

  /** The trailing plain piece, pushed when the last highlight ends before
    * the end of the text. */
  function Finish(text: string, w: Walk): seq<Piece> {
    if w.lastIndex < |text| then w.pieces + [Plain(Substring(text, w.lastIndex, |text|))]
    else w.pieces
  }

  /** Nothing is rendered without a report or without text (an empty text
    * is falsy); otherwise the pieces of the walk over the sorted
    * annotations.  The report reaching the view always has its annotation
    * list set. */
  function Rendered(report: Option<Report>, text: string): (r: Option<seq<Piece>>)
    requires report.Some? ==> report.value.heatmapAnnotations.Some?
  {
    if report.None? || text == [] then None
    else
      var sorted := SortByStart(report.value.heatmapAnnotations.value);
      Some(Finish(text, VisitFirst(text, sorted, |sorted|)))
  }

  method RenderHeatmap(report: Option<Report>, text: string) returns (elements: Option<seq<Piece>>)
    requires report.Some? ==> report.value.heatmapAnnotations.Some?
    ensures elements == Rendered(report, text)
  {
    if report.None? || text == [] {
      return None;
    }
    var pieces: seq<Piece> := [];
    var lastIndex := 0;
    var sorted := SortByStart(report.value.heatmapAnnotations.value);
    for idx := 0 to |sorted|
      invariant Walk(pieces, lastIndex) == VisitFirst(text, sorted, idx)
    {
      var anno := sorted[idx];
      if anno.startIndex > lastIndex {
        pieces := pieces + [Plain(Substring(text, lastIndex, anno.startIndex))];
      }
      pieces := pieces + [Highlight(Substring(text, anno.startIndex, anno.endIndex), anno.color,
                                    anno.tooltipTitle, anno.tooltipExplanation)];
      lastIndex := anno.endIndex;
    }
    if lastIndex < |text| {
      pieces := pieces + [Plain(Substring(text, lastIndex, |text|))];
    }
    return Some(pieces);
  }

  // ---------------------------------------------------------------------
  // What the rendering shows

  /** The text the pieces display, one after the other. */
  function Contents(pieces: seq<Piece>): string {
    if pieces == [] then []
    else Contents(pieces[..|pieces| - 1]) + pieces[|pieces| - 1].content
  }

  lemma ContentsAppend(pieces: seq<Piece>, more: seq<Piece>)
    ensures Contents(pieces + more) == Contents(pieces) + Contents(more)
    decreases |more|
  {
    if more != [] {
      var last := |more| - 1;
      assert (pieces + more)[..|pieces| + last] == pieces + more[..last];
      assert (pieces + more)[|pieces| + last] == more[last];
      ContentsAppend(pieces, more[..last]);
      calc {
        Contents(pieces + more);
        Contents(pieces + more[..last]) + more[last].content;
        Contents(pieces) + Contents(more[..last]) + more[last].content;
        Contents(pieces) + Contents(more);
      }
    } else {
      assert pieces + more == pieces;
    }
  }

  /** The highlighted pieces, in order. */
  function Highlights(pieces: seq<Piece>): seq<Piece> {
    if pieces == [] then []
    else
      var last := pieces[|pieces| - 1];
      Highlights(pieces[..|pieces| - 1]) + if last.Highlight? then [last] else []
  }

  lemma HighlightsAppend(pieces: seq<Piece>, more: seq<Piece>)
    ensures Highlights(pieces + more) == Highlights(pieces) + Highlights(more)
    decreases |more|
  {
    if more != [] {
      var last := |more| - 1;
      assert (pieces + more)[..|pieces| + last] == pieces + more[..last];
      assert (pieces + more)[|pieces| + last] == more[last];
      HighlightsAppend(pieces, more[..last]);
      var tail := if more[last].Highlight? then [more[last]] else [];
      calc {
        Highlights(pieces + more);
        Highlights(pieces + more[..last]) + tail;
        Highlights(pieces) + Highlights(more[..last]) + tail;
        Highlights(pieces) + Highlights(more);
      }
    } else {
      assert pieces + more == pieces;
    }
  }

  /** The highlight of each annotation, in the order given. */
  function HighlightsOf(text: string, xs: seq<Annotation>): (r: seq<Piece>)
    ensures |r| == |xs|
  {
    if xs == [] then [] else HighlightsOf(text, xs[..|xs| - 1]) + [HighlightOf(text, xs[|xs| - 1])]
  }

  /** The `i`-th highlight is that of the `i`-th annotation. */
  lemma {:induction false} HighlightsOfAt(text: string, xs: seq<Annotation>, i: nat)
    requires i < |xs|
    ensures HighlightsOf(text, xs)[i] == HighlightOf(text, xs[i])
  {
    if i < |xs| - 1 {
      var front := xs[..|xs| - 1];
      HighlightsOfAt(text, front, i);
      assert front[i] == xs[i];
    }
  }

  /** One callback adds exactly the annotation's highlight to the
    * highlights pushed so far. */
  lemma VisitHighlights(text: string, a: Annotation, w: Walk)
    ensures Highlights(Visit(text, a, w).pieces) == Highlights(w.pieces) + [HighlightOf(text, a)]
  {
    var gap := if a.startIndex > w.lastIndex then [Plain(Substring(text, w.lastIndex, a.startIndex))] else [];
    GapThenHighlight(w.pieces, gap, HighlightOf(text, a));
  }

  /** An optional plain piece followed by a highlight adds just that
    * highlight. */
  lemma GapThenHighlight(pieces: seq<Piece>, gap: seq<Piece>, hl: Piece)
    requires |gap| <= 1 && (gap != [] ==> gap[0].Plain?)
    requires hl.Highlight?
    ensures Highlights(pieces + gap + [hl]) == Highlights(pieces) + [hl]
  {
    var front := pieces + gap;
    assert (front + [hl])[..|front|] == front;
    if gap == [] {
      assert front == pieces;
    } else {
      assert front[..|pieces|] == pieces;
    }
  }

  /** Every annotation is highlighted exactly once, in start order: walking
    * `n` annotations yields their `n` highlights and nothing else
    * highlighted. */
  lemma {:induction false} VisitFirstHighlights(text: string, sorted: seq<Annotation>, n: nat)
    requires n <= |sorted|
    ensures Highlights(VisitFirst(text, sorted, n).pieces) == HighlightsOf(text, sorted[..n])
  {
    if n > 0 {
      VisitFirstHighlights(text, sorted, n - 1);
      VisitHighlights(text, sorted[n - 1], VisitFirst(text, sorted, n - 1));
      var prefix := sorted[..n];
      assert prefix[..n - 1] == sorted[..n - 1] && prefix[n - 1] == sorted[n - 1];
      assert HighlightsOf(text, prefix) == HighlightsOf(text, sorted[..n - 1]) + [HighlightOf(text, sorted[n - 1])];
    }
  }

  /** The rendering of a report highlights each of its annotations exactly
    * once, ordered by start offset, and the trailing plain piece adds no
    * highlight. */
  lemma RenderedHighlights(report: Report, text: string)
    requires report.heatmapAnnotations.Some?
    requires text != []
    ensures var sorted := SortByStart(report.heatmapAnnotations.value);
      Highlights(Rendered(Some(report), text).value) == HighlightsOf(text, sorted)
  {
    var sorted := SortByStart(report.heatmapAnnotations.value);
    var w := VisitFirst(text, sorted, |sorted|);
    VisitFirstHighlights(text, sorted, |sorted|);
    assert sorted[..|sorted|] == sorted;
    if w.lastIndex < |text| {
      HighlightsAppend(w.pieces, [Plain(Substring(text, w.lastIndex, |text|))]);
      assert Highlights([Plain(Substring(text, w.lastIndex, |text|))]) == [];
    }
  }

  /** In-bounds, non-empty annotations, each ending before the next starts. */
  predicate InTextOrder(xs: seq<Annotation>, textLength: nat) {
    (forall i :: 0 <= i < |xs| ==> InBounds(xs[i], textLength)) &&
    (forall i, j :: 0 <= i < j < |xs| ==> xs[i].endIndex <= xs[j].startIndex)
  }

  lemma PrefixJoin(text: string, i: nat, j: nat)
    requires i <= j <= |text|
    ensures text[..i] + text[i..j] == text[..j]
  {
    assert forall k :: 0 <= k < j ==> (text[..i] + text[i..j])[k] == text[k];
  }

  /** One callback, on an annotation that starts after the previous
    * highlight, extends the displayed text to the end of the annotation. */
  lemma VisitSpells(text: string, a: Annotation, w: Walk)
    requires InBounds(a, |text|)
    requires 0 <= w.lastIndex <= a.startIndex
    requires Contents(w.pieces) == text[..w.lastIndex]
    ensures Contents(Visit(text, a, w).pieces) == text[..a.endIndex]
  {
    var gap := if a.startIndex > w.lastIndex then [Plain(Substring(text, w.lastIndex, a.startIndex))] else [];
    var hl := HighlightOf(text, a);
    assert Visit(text, a, w).pieces == w.pieces + (gap + [hl]);
    ContentsAppend(w.pieces, gap + [hl]);
    ContentsAppend(gap, [hl]);
    assert Contents([hl]) == text[a.startIndex..a.endIndex];
    assert Contents(gap) == text[w.lastIndex..a.startIndex];
    PrefixJoin(text, w.lastIndex, a.startIndex);
    PrefixJoin(text, a.startIndex, a.endIndex);
  }

  /** Walking annotations in text order spells out the text up to the end
    * of the last one. */
  lemma {:induction false} VisitFirstSpellsPrefix(text: string, sorted: seq<Annotation>, n: nat)
    requires n <= |sorted|
    requires InTextOrder(sorted, |text|)
    ensures VisitFirst(text, sorted, n).lastIndex == if n == 0 then 0 else sorted[n - 1].endIndex
    ensures 0 <= VisitFirst(text, sorted, n).lastIndex <= |text|
    ensures Contents(VisitFirst(text, sorted, n).pieces) == text[..VisitFirst(text, sorted, n).lastIndex]
  {
    if n > 0 {
      var w := VisitFirst(text, sorted, n - 1);
      VisitFirstSpellsPrefix(text, sorted, n - 1);
      assert InBounds(sorted[n - 1], |text|);
      if n > 1 {
        assert sorted[n - 2].endIndex <= sorted[n - 1].startIndex;
      }
      VisitSpells(text, sorted[n - 1], w);
    }
  }

  /** The trailing piece completes a display of the text's prefix. */
  lemma FinishSpells(text: string, w: Walk)
    requires 0 <= w.lastIndex <= |text|
    requires Contents(w.pieces) == text[..w.lastIndex]
    ensures Contents(Finish(text, w)) == text
  {
    if w.lastIndex < |text| {
      var tail := Plain(Substring(text, w.lastIndex, |text|));
      ContentsAppend(w.pieces, [tail]);
      assert Contents([tail]) == text[w.lastIndex..|text|];
      PrefixJoin(text, w.lastIndex, |text|);
      assert text[..|text|] == text;
    }
  }

  /** The spans of `a` and `b` share no character. */
  predicate Disjoint(a: Annotation, b: Annotation) {
    a.endIndex <= b.startIndex || b.endIndex <= a.startIndex
  }

  /** In-bounds, non-empty annotations, no two of which overlap, in any
    * order. */
  predicate Apart(xs: seq<Annotation>, textLength: nat) {
    (forall i :: 0 <= i < |xs| ==> InBounds(xs[i], textLength)) &&
    (forall i, j :: 0 <= i < |xs| && 0 <= j < |xs| && i != j ==> Disjoint(xs[i], xs[j]))
  }

  lemma ApartTail(xs: seq<Annotation>, textLength: nat)
    requires xs != []
    requires Apart(xs, textLength)
    ensures Apart(xs[1..], textLength)
  {
    var tail := xs[1..];
    forall i, j | 0 <= i < |tail| && 0 <= j < |tail| && i != j ensures Disjoint(tail[i], tail[j]) {
      assert tail[i] == xs[i + 1] && tail[j] == xs[j + 1];
    }
  }

  lemma ApartCons(x: Annotation, ys: seq<Annotation>, textLength: nat)
    requires Apart(ys, textLength)
    requires InBounds(x, textLength)
    requires forall k :: 0 <= k < |ys| ==> Disjoint(x, ys[k])
    ensures Apart([x] + ys, textLength)
  {
    var r := [x] + ys;
    forall i, j | 0 <= i < |r| && 0 <= j < |r| && i != j ensures Disjoint(r[i], r[j]) {
      if i == 0 {
        assert r[j] == ys[j - 1];
      } else if j == 0 {
        assert r[i] == ys[i - 1];
      } else {
        assert r[i] == ys[i - 1] && r[j] == ys[j - 1];
      }
    }
    forall i | 0 <= i < |r| ensures InBounds(r[i], textLength) {
      if i > 0 {
        assert r[i] == ys[i - 1];
      }
    }
  }

  lemma {:induction false} InsertByStartApart(a: Annotation, xs: seq<Annotation>, textLength: nat)
    requires Apart(xs, textLength)
    requires InBounds(a, textLength)
    requires forall b :: b in xs ==> Disjoint(a, b)
    ensures Apart(InsertByStart(a, xs), textLength)
  {
    if xs == [] || a.startIndex <= xs[0].startIndex {
      forall k | 0 <= k < |xs| ensures Disjoint(a, xs[k]) {
        assert xs[k] in xs;
      }
      ApartCons(a, xs, textLength);
    } else {
      var tail := xs[1..];
      ApartTail(xs, textLength);
      InsertByStartApart(a, tail, textLength);
      InsertByStartPermutes(a, tail);
      var rest := InsertByStart(a, tail);
      assert xs[0] in xs;
      forall k | 0 <= k < |rest| ensures Disjoint(xs[0], rest[k]) {
        assert rest[k] in multiset(rest);
        if rest[k] != a {
          assert rest[k] in tail;
          var m :| 0 <= m < |tail| && tail[m] == rest[k];
          assert xs[m + 1] == rest[k];
        }
      }
      ApartCons(xs[0], rest, textLength);
    }
  }

  /** Sorting annotations that do not overlap keeps them apart. */
  lemma {:induction false} SortByStartApart(xs: seq<Annotation>, textLength: nat)
    requires Apart(xs, textLength)
    ensures Apart(SortByStart(xs), textLength)
  {
    if xs != [] {
      var tail := xs[1..];
      ApartTail(xs, textLength);
      SortByStartApart(tail, textLength);
      SortByStartPermutes(tail);
      var sortedTail := SortByStart(tail);
      forall b | b in sortedTail ensures Disjoint(xs[0], b) {
        assert b in multiset(sortedTail);
        var m :| 0 <= m < |tail| && tail[m] == b;
        assert xs[m + 1] == b;
      }
      InsertByStartApart(xs[0], sortedTail, textLength);
    }
  }

  /** Sorted annotations that do not overlap each end before the next
    * starts. */
  lemma SortedApartInTextOrder(xs: seq<Annotation>, textLength: nat)
    requires SortedByStart(xs)
    requires Apart(xs, textLength)
    ensures InTextOrder(xs, textLength)
  {
    forall i, j | 0 <= i < j < |xs| ensures xs[i].endIndex <= xs[j].startIndex {
      assert Disjoint(xs[i], xs[j]);
      assert InBounds(xs[j], textLength);
    }
  }

  /** Annotations in text order do not overlap. */
  lemma InTextOrderApart(xs: seq<Annotation>, textLength: nat)
    requires InTextOrder(xs, textLength)
    ensures Apart(xs, textLength)
  {
    forall i, j | 0 <= i < |xs| && 0 <= j < |xs| && i != j ensures Disjoint(xs[i], xs[j]) {
      if i < j {
        assert xs[i].endIndex <= xs[j].startIndex;
      } else {
        assert xs[j].endIndex <= xs[i].startIndex;
      }
    }
  }

  /** When the annotations are in bounds and no two overlap, in whatever
    * order they come, the rendered pieces put back together are exactly
    * the analysed text: nothing is lost, nothing repeated. */
  lemma RenderedRestoresText(report: Report, text: string)
    requires report.heatmapAnnotations.Some?
    requires text != []
    requires Apart(report.heatmapAnnotations.value, |text|)
    ensures Contents(Rendered(Some(report), text).value) == text
  {
    var sorted := SortByStart(report.heatmapAnnotations.value);
    SortByStartApart(report.heatmapAnnotations.value, |text|);
    SortByStartSorted(report.heatmapAnnotations.value);
    SortedApartInTextOrder(sorted, |text|);
    VisitFirstSpellsPrefix(text, sorted, |sorted|);
    FinishSpells(text, VisitFirst(text, sorted, |sorted|));
  }

  /** The fallback annotations always render back to the text they came
    * from. */
  lemma DefaultsRestoreText(report: Report, text: string)
    requires text != []
    ensures var withDefaults := report.(heatmapAnnotations := Some(DefaultAnnotations.Defaults(text, report.score)));
      Contents(Rendered(Some(withDefaults), text).value) == text
  {
    DefaultAnnotations.DefaultsWellFormed(text, report.score);
    InTextOrderApart(DefaultAnnotations.Defaults(text, report.score), |text|);
    RenderedRestoresText(report.(heatmapAnnotations := Some(DefaultAnnotations.Defaults(text, report.score))), text);
  }
}
