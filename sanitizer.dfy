/**
 * `cleanJson`: the model is told to answer with bare JSON but often wraps
 * it in a Markdown code fence.  The cleaner deletes every "```json" marker,
 * then every "```" marker, then trims the result.
 */
module Sanitizer {
  import opened JsString

  const JsonFence: string := "```json"
  const Fence: string := "```"

  /** No "```" anywhere in `s`. */
  predicate FenceFree(s: string) {
    forall j :: 0 <= j < |s| ==> !OccursAt(s, Fence, j)
  }

  predicate StartsWithBacktick(s: string) {
    |s| >= 1 && s[0] == '`'
  }

  predicate StartsWithTwoBackticks(s: string) {
    |s| >= 2 && s[0] == '`' && s[1] == '`'
  }

  /** `raw.replace(/```json/g, '').replace(/```/g, '').trim()`. */
  function CleanJson(raw: string): (r: string)
    ensures |r| <= |raw|
    ensures FenceFree(r)
    ensures IsTrimmed(r)
  {
    var unfenced := RemoveAll(RemoveAll(raw, JsonFence), Fence);
    RemovingFencesLeavesNone(RemoveAll(raw, JsonFence));
    SliceOfFenceFree(unfenced, TrimBounds(unfenced).0, TrimBounds(unfenced).1);
    Trim(unfenced)
  }

  /** A "```" marker, character by character. */
  lemma FenceAtChars(s: string, k: int)
    ensures OccursAt(s, Fence, k) <==>
      0 <= k && k + 3 <= |s| && s[k] == '`' && s[k + 1] == '`' && s[k + 2] == '`'
  {
    if 0 <= k && k + 3 <= |s| {
      assert s[k..k + 3] == [s[k], s[k + 1], s[k + 2]];
    }
  }

  /** A slice of a fence-free string is fence-free. */
  lemma SliceOfFenceFree(s: string, lo: nat, hi: nat)
    requires lo <= hi <= |s|
    requires FenceFree(s)
    ensures FenceFree(s[lo..hi])
  {
    forall j | 0 <= j < hi - lo ensures !OccursAt(s[lo..hi], Fence, j) {
      OccursInSlice(s, Fence, lo, hi, j);
    }
  }

  /** Removing fences from a string that does not start with a backtick
    * leaves a string that does not start with one. */
  lemma RemovalKeepsFirstChar(s: string)
    requires !StartsWithBacktick(s)
    ensures !StartsWithBacktick(RemoveAll(s, Fence))
  {
  }

  /** Removing fences from a string that does not start with two backticks
    * leaves a string that does not start with two. */
  lemma RemovalKeepsFirstTwoChars(s: string)
    requires !StartsWithTwoBackticks(s)
    ensures !StartsWithTwoBackticks(RemoveAll(s, Fence))
  {
    if s != [] && s[0] == '`' {
      assert !OccursAt(s, Fence, 0);
      RemovalKeepsFirstChar(s[1..]);
    }
  }

  /** Deleting "```" markers left to right never glues backticks back into a
    * new "```": a run of `k` backticks keeps only its last `k % 3`. */
  lemma {:induction false} RemovingFencesLeavesNone(s: string)
    ensures FenceFree(RemoveAll(s, Fence))
    decreases |s|
  {
    if s == [] {
    } else if OccursAt(s, Fence, 0) {
      RemovingFencesLeavesNone(s[3..]);
    } else {
      var rest := RemoveAll(s[1..], Fence);
      var r := [s[0]] + rest;
      assert r[1..|r|] == rest;
      assert RemoveAll(s, Fence) == r;
      RemovingFencesLeavesNone(s[1..]);
      if s[0] == '`' {
        FenceAtChars(s, 0);
        RemovalKeepsFirstTwoChars(s[1..]);
      }
      forall j | 0 <= j < |r| ensures !OccursAt(r, Fence, j) {
        if 0 < j {
          OccursInSlice(r, Fence, 1, |r|, j - 1);
        } else {
          FenceAtChars(r, 0);
          assert |r| >= 3 ==> r[0] == s[0] && r[1] == rest[0] && r[2] == rest[1];
        }
      }
    }
  }

  /** A "```json" marker contains a "```" marker. */
  lemma JsonFenceContainsFence(s: string, j: int)
    requires OccursAt(s, JsonFence, j)
    ensures OccursAt(s, Fence, j)
  {
    assert s[j..j + 3] == s[j..j + 7][..3];
  }

  /** Cleaning is idempotent: a cleaned string has no marker left to delete
    * and no whitespace left to trim. */
  lemma CleanJsonIdempotent(raw: string)
    ensures CleanJson(CleanJson(raw)) == CleanJson(raw)
  {
    var c := CleanJson(raw);
    forall j ensures !OccursAt(c, JsonFence, j) {
      if OccursAt(c, JsonFence, j) {
        JsonFenceContainsFence(c, j);
      }
    }
    assert RemoveAll(c, JsonFence) == c;
    assert RemoveAll(c, Fence) == c;
    TrimOfTrimmed(c);
  }

  /** In `p + "```"`, with `p` fence-free and not ending in a backtick, the
    * only "```" is the closing one. */
  lemma ClosingFenceOnly(p: string, j: int)
    requires FenceFree(p)
    requires p == [] || p[|p| - 1] != '`'
    requires j < |p|
    ensures !OccursAt(p + Fence, Fence, j)
  {
    var s := p + Fence;
    if 0 <= j && j + 3 <= |p| {
      OccursInSlice(s, Fence, 0, |p|, j);
      assert s[0..|p|] == p;
    } else if 0 <= j {
      FenceAtChars(s, j);
      assert s[|p| - 1] == p[|p| - 1];
    }
  }

  /** A reply fenced as "```json" + payload + "```" cleans to the trimmed
    * payload: the markers go and nothing of the payload is lost.  The
    * payload must not end in a backtick, which would join the closing
    * marker into an earlier "```". */
  lemma CleanJsonUnwrapsFence(p: string)
    requires FenceFree(p)
    requires p == [] || p[|p| - 1] != '`'
    ensures CleanJson(JsonFence + p + Fence) == Trim(p)
  {
    var body := p + Fence;
    assert JsonFence + p + Fence == JsonFence + body;
    RemoveAllDeletesOccurrence(JsonFence, body);
    forall j ensures !OccursAt(body, JsonFence, j) {
      if OccursAt(body, JsonFence, j) {
        JsonFenceContainsFence(body, j);
        ClosingFenceOnly(p, j);
      }
    }
    assert RemoveAll(JsonFence + p + Fence, JsonFence) == body;
    forall j | 0 <= j < |p| ensures !OccursAt(body, Fence, j) {
      ClosingFenceOnly(p, j);
    }
    RemoveAllKeepsPrefix(p, Fence, Fence);
    RemoveAllDeletesOccurrence(Fence, []);
    assert Fence + [] == Fence;
    assert RemoveAll(body, Fence) == p;
  }

  /** Without any "```" in the input, cleaning is exactly `trim`: on
    * marker-free input it deletes only the outer whitespace. */
  lemma CleanJsonWithoutFencesIsTrim(raw: string)
    requires FenceFree(raw)
    ensures CleanJson(raw) == Trim(raw)
  {
    forall j ensures !OccursAt(raw, JsonFence, j) {
      if OccursAt(raw, JsonFence, j) {
        JsonFenceContainsFence(raw, j);
      }
    }
    assert RemoveAll(raw, JsonFence) == raw;
  }
}
