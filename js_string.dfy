/**
 * The ECMAScript string operations the report pipeline relies on:
 * `trim`, `indexOf`, `includes`, `substring` and a global `replace` of a
 * literal pattern by the empty string.  A string is a sequence of `char`,
 * one per character; for text within the Basic Multilingual Plane this
 * is one per UTF-16 code unit, which is what JavaScript indexes and counts.
 */
module JsString {

  /** The characters `String.prototype.trim` removes: WhiteSpace and
    * LineTerminator of the ECMAScript grammar (tab, vertical tab, form feed,
    * space, no-break space, the byte-order mark, the Unicode space separators,
    * line feed, carriage return, line and paragraph separators). */
  predicate IsWhitespace(c: char) {
    var n := c as int;
    n == 0x09 || n == 0x0A || n == 0x0B || n == 0x0C || n == 0x0D || n == 0x20 ||
    n == 0xA0 || n == 0x1680 || (0x2000 <= n <= 0x200A) || n == 0x2028 ||
    n == 0x2029 || n == 0x202F || n == 0x205F || n == 0x3000 || n == 0xFEFF
  }

  /** Neither end of `s` is whitespace (the empty string qualifies). */
  predicate IsTrimmed(s: string) {
    s == [] || (!IsWhitespace(s[0]) && !IsWhitespace(s[|s| - 1]))
  }

  /** Number of whitespace characters at the front of `s`. */
  function LeadingSpace(s: string): (n: nat)
    ensures n <= |s|
    ensures n < |s| ==> !IsWhitespace(s[n])
  {
    if s == [] || !IsWhitespace(s[0]) then 0 else 1 + LeadingSpace(s[1..])
  }

  /** Everything `LeadingSpace` counts is whitespace. */
  lemma {:induction false} LeadingSpaceIsWhitespace(s: string, i: nat)
    requires i < LeadingSpace(s)
    ensures IsWhitespace(s[i])
  {
    if i > 0 {
      LeadingSpaceIsWhitespace(s[1..], i - 1);
    }
  }

  /** Number of whitespace characters at the back of `s`. */
  function TrailingSpace(s: string): (n: nat)
    ensures n <= |s|
    ensures n < |s| ==> !IsWhitespace(s[|s| - n - 1])
  {
    if s == [] || !IsWhitespace(s[|s| - 1]) then 0 else 1 + TrailingSpace(s[..|s| - 1])
  }

  /** Everything `TrailingSpace` counts is whitespace. */
  lemma {:induction false} TrailingSpaceIsWhitespace(s: string, i: nat)
    requires |s| - TrailingSpace(s) <= i < |s|
    ensures IsWhitespace(s[i])
  {
    if i < |s| - 1 {
      TrailingSpaceIsWhitespace(s[..|s| - 1], i);
    }
  }

  /** The slice `s[lo..hi]` that `trim` keeps: it starts after the leading
    * whitespace and its two ends are not whitespace. */
  function TrimBounds(s: string): (b: (nat, nat))
    ensures b.0 == LeadingSpace(s) <= b.1 <= |s|
    ensures b.0 < b.1 ==> !IsWhitespace(s[b.0]) && !IsWhitespace(s[b.1 - 1])
  {
    var lo := LeadingSpace(s);
    var t := s[lo..];
    var tail := TrailingSpace(t);
    assert tail < |t| ==> t[|t| - tail - 1] == s[|s| - tail - 1];
    (lo, |s| - tail)
  }

  /** Everything `trim` removes is whitespace. */
  lemma TrimBoundsOutside(s: string, i: nat)
    requires i < |s|
    requires i < TrimBounds(s).0 || TrimBounds(s).1 <= i
    ensures IsWhitespace(s[i])
  {
    var lo := LeadingSpace(s);
    var t := s[lo..];
    if i < lo {
      LeadingSpaceIsWhitespace(s, i);
    } else {
      TrailingSpaceIsWhitespace(t, i - lo);
    }
  }

  /** `s.trim()`. */
  function Trim(s: string): (r: string)
    ensures |r| <= |s|
    ensures IsTrimmed(r)
  {
    var b := TrimBounds(s);
    assert b.0 < b.1 ==> s[b.0..b.1][0] == s[b.0] && s[b.0..b.1][b.1 - b.0 - 1] == s[b.1 - 1];
    s[b.0..b.1]
  }

  /** `trim` returns the empty string exactly when `s` is all whitespace. */
  lemma TrimEmpty(s: string)
    ensures Trim(s) == [] <==> forall i :: 0 <= i < |s| ==> IsWhitespace(s[i])
  {
    var b := TrimBounds(s);
    if Trim(s) == [] {
      forall i | 0 <= i < |s| ensures IsWhitespace(s[i]) {
        TrimBoundsOutside(s, i);
      }
    } else {
      assert !IsWhitespace(s[b.0]);
    }
  }

  /** Trimming a string that has no whitespace at either end changes nothing. */
  lemma TrimOfTrimmed(s: string)
    requires IsTrimmed(s)
    ensures Trim(s) == s
  {
    var b := TrimBounds(s);
    if s != [] {
      assert !IsWhitespace(s[0]) && !IsWhitespace(s[|s| - 1]);
    }
  }

  /** `pat` occurs in `s` at offset `k`. */
  predicate OccursAt(s: string, pat: string, k: int) {
    0 <= k && k + |pat| <= |s| && s[k..k + |pat|] == pat
  }

  /** Occurrences inside the slice `s[lo..hi]` are the occurrences in `s`
    * that lie within `[lo, hi)`, shifted by `lo`. */
  lemma OccursInSlice(s: string, pat: string, lo: nat, hi: nat, j: int)
    requires lo <= hi <= |s|
    ensures OccursAt(s[lo..hi], pat, j) <==>
      0 <= j && j + |pat| <= hi - lo && OccursAt(s, pat, lo + j)
  {
    var t := s[lo..hi];
    if 0 <= j && j + |pat| <= hi - lo {
      assert forall k :: j <= k < j + |pat| ==> t[k] == s[lo + k];
      assert t[j..j + |pat|] == s[lo + j..lo + j + |pat|];
    }
  }

  /** The start position `indexOf` and friends use: `from` clamped to `[0, |s|]`. */
  function ClampIndex(s: string, from: int): (k: nat)
    ensures k <= |s|
    ensures 0 <= from <= |s| ==> k == from
  {
    if from < 0 then 0 else if from > |s| then |s| else from
  }

  /** Scan for `pat` from offset `k` onwards. */
  function Search(s: string, pat: string, k: nat): (r: int)
    requires k <= |s|
    ensures r == -1 || (k <= r && OccursAt(s, pat, r))
    ensures r == -1 ==> forall j :: k <= j ==> !OccursAt(s, pat, j)
    ensures r != -1 ==> forall j :: k <= j < r ==> !OccursAt(s, pat, j)
    decreases |s| - k
  {
    if k + |pat| > |s| then -1
    else if s[k..k + |pat|] == pat then k
    else if k == |s| then -1
    else Search(s, pat, k + 1)
  }

  /** `s.indexOf(pat, from)`: the first occurrence of `pat` at or after the
    * clamped start position, or -1 when there is none. */
  function IndexOf(s: string, pat: string, from: int): (r: int)
    ensures r == -1 || (ClampIndex(s, from) <= r && OccursAt(s, pat, r))
    ensures r == -1 <==> forall j :: ClampIndex(s, from) <= j ==> !OccursAt(s, pat, j)
    ensures r != -1 ==> forall j :: ClampIndex(s, from) <= j < r ==> !OccursAt(s, pat, j)
  {
    Search(s, pat, ClampIndex(s, from))
  }

  /** `s.includes(pat)`. */
  function Includes(s: string, pat: string): (b: bool)
    ensures b <==> exists j :: OccursAt(s, pat, j)
  {
    IndexOf(s, pat, 0) != -1
  }

  /** `s.substring(a, b)`: both ends are clamped to `[0, |s|]` and swapped
    * when the first is the larger. */
  function Substring(s: string, a: int, b: int): (r: string)
    ensures |r| <= |s|
    ensures 0 <= a <= b <= |s| ==> r == s[a..b]
    ensures 0 <= b <= a <= |s| ==> r == s[b..a]
    ensures a >= |s| && b >= |s| ==> r == []
  {
    var lo, hi := ClampIndex(s, a), ClampIndex(s, b);
    if lo <= hi then s[lo..hi] else s[hi..lo]
  }

  /** `s.replace(/pat/g, '')` for a literal, non-empty `pat`: scanning left
    * to right, each occurrence that does not overlap an earlier removed one
    * is deleted. */
  function RemoveAll(s: string, pat: string): (r: string)
    requires pat != []
    ensures |r| <= |s|
    ensures (forall j :: !OccursAt(s, pat, j)) ==> r == s
    decreases |s|
  {
    if s == [] then []
    else if OccursAt(s, pat, 0) then RemoveAll(s[|pat|..], pat)
    else
      assert forall j :: OccursAt(s[1..], pat, j) ==> OccursAt(s, pat, j + 1) by {
        forall j | OccursAt(s[1..], pat, j) ensures OccursAt(s, pat, j + 1) {
          assert s[1..][j..j + |pat|] == s[j + 1..j + 1 + |pat|];
        }
      }
      [s[0]] + RemoveAll(s[1..], pat)
  }

  /** The scan deletes an occurrence at its position and goes on after it. */
  lemma RemoveAllDeletesOccurrence(pat: string, s: string)
    requires pat != []
    ensures RemoveAll(pat + s, pat) == RemoveAll(s, pat)
  {
    assert (pat + s)[..|pat|] == pat;
    assert (pat + s)[|pat|..] == s;
  }

  /** Dropping the first character shifts the occurrence-free prefix. */
  lemma NoOccurrenceInTail(s: string, pat: string, n: nat)
    requires 1 <= n <= |s|
    requires forall j :: 0 <= j < n ==> !OccursAt(s, pat, j)
    ensures forall j :: 0 <= j < n - 1 ==> !OccursAt(s[1..], pat, j)
  {
    forall j | 0 <= j < n - 1 ensures !OccursAt(s[1..], pat, j) {
      OccursInSlice(s, pat, 1, |s|, j);
      assert s[1..|s|] == s[1..];
    }
  }

  /** A position where `pat` does not occur keeps its character. */
  lemma RemoveAllKeepsFirst(a: string, b: string, pat: string)
    requires pat != [] && a != []
    requires !OccursAt(a + b, pat, 0)
    ensures RemoveAll(a + b, pat) == [a[0]] + RemoveAll(a[1..] + b, pat)
  {
    assert (a + b)[1..] == a[1..] + b;
  }

  lemma ConsAppend(a: string, r: string)
    requires a != []
    ensures [a[0]] + (a[1..] + r) == a + r
  {
    assert a == [a[0]] + a[1..];
  }

  /** Characters before the first occurrence are kept as they are. */
  lemma {:induction false} RemoveAllKeepsPrefix(a: string, b: string, pat: string)
    requires pat != []
    requires forall j :: 0 <= j < |a| ==> !OccursAt(a + b, pat, j)
    ensures RemoveAll(a + b, pat) == a + RemoveAll(b, pat)
    decreases |a|
  {
    if a == [] {
      assert a + b == b;
    } else {
      NoOccurrenceInTail(a + b, pat, |a|);
      assert (a + b)[1..] == a[1..] + b;
      RemoveAllKeepsFirst(a, b, pat);
      RemoveAllKeepsPrefix(a[1..], b, pat);
      ConsAppend(a, RemoveAll(b, pat));
    }
  }

  /** The decimal digits of `n`, as `String(n)` writes a non-negative integer. */
  function DecimalText(n: nat): (r: string)
    ensures r != []
    ensures forall i :: 0 <= i < |r| ==> '0' <= r[i] <= '9'
    ensures DigitsValue(r) == n
    ensures |r| > 1 ==> r[0] != '0'
  {
    var last := ['0' + (n % 10) as char];
    if n < 10 then last
    else
      var front := DecimalText(n / 10);
      assert (front + last)[..|front + last| - 1] == front;
      front + last
  }

  /** The number a string of decimal digits denotes. */
  function DigitsValue(d: string): nat
    requires forall i :: 0 <= i < |d| ==> '0' <= d[i] <= '9'
  {
    if d == [] then 0 else 10 * DigitsValue(d[..|d| - 1]) + (d[|d| - 1] - '0') as nat
  }
}
