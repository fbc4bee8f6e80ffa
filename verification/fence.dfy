/** Finding a mermaid block as the non-global regular expression of the code extraction
    does: an opening delimiter, a lazily matched interior of any characters, and a closing
    delimiter. The expression is tried at each index from left to right, and at the first
    index where it matches, the lazy interior ends at the first closing delimiter. */
module Fence {
  import opened Wrappers
  import opened Text

  /** The opening delimiter: three backticks, the language tag and a line feed. */
  const Open: string := "```mermaid\n"
  /** The closing delimiter: a line feed and three backticks. */
  const Close: string := "\n```"

  predicate OpenAt(s: string, i: int) {
    0 <= i && i + |Open| <= |s| && s[i..i + |Open|] == Open
  }

  predicate CloseAt(s: string, j: int) {
    0 <= j && j + |Close| <= |s| && s[j..j + |Close|] == Close
  }

  /** The regular expression matches `s` at index `i` with its closing delimiter at `j`:
      an opening at `i`, and `j` the first closing delimiter at or after the opening's end
      (the lazily matched interior stops at the earliest one). */
  ghost predicate IsMatch(s: string, i: int, j: int) {
    && OpenAt(s, i)
    && i + |Open| <= j
    && CloseAt(s, j)
    && forall k :: i + |Open| <= k < j ==> !CloseAt(s, k)
  }

  /** `(i, j)` is the match `String.prototype.match` reports: no match starts further left. */
  ghost predicate IsLeftmost(s: string, i: int, j: int) {
    IsMatch(s, i, j) && forall i', j' :: 0 <= i' < i ==> !IsMatch(s, i', j')
  }

  /** No match starts at or after index `from`. */
  ghost predicate NoMatchFrom(s: string, from: int) {
    forall i, j :: from <= i ==> !IsMatch(s, i, j)
  }

  /** Where a match lies: the opening's index and the closing delimiter's index. */
  datatype Span = Span(start: nat, close: nat) {
    /** The index just past the closing delimiter. */
    function End(): nat {
      close + |Close|
    }
  }

  /** The first closing delimiter at or after `from`. */
  function FindClose(s: string, from: nat): (r: Option<nat>)
    decreases |s| - from
    ensures r.Some? ==> from <= r.value && CloseAt(s, r.value)
    ensures r.Some? ==> forall k :: from <= k < r.value ==> !CloseAt(s, k)
    ensures r.None? ==> forall k :: from <= k ==> !CloseAt(s, k)
  {
    if from + |Close| > |s| then None
    else if CloseAt(s, from) then Some(from)
    else FindClose(s, from + 1)
  }

  /** The leftmost match starting at or after `from`, as the regular expression engine
      finds it: an opening with no closing delimiter after it is skipped. */
  function FindMatch(s: string, from: nat): (r: Option<Span>)
    decreases |s| - from
    ensures r.Some? ==> from <= r.value.start && IsMatch(s, r.value.start, r.value.close)
    ensures r.Some? ==> forall i, j :: from <= i < r.value.start ==> !IsMatch(s, i, j)
    ensures r.None? ==> NoMatchFrom(s, from)
  {
    if from + |Open| > |s| then None
    else if OpenAt(s, from) then
      match FindClose(s, from + |Open|)
      case Some(j) => Some(Span(from, j))
      case None => FindMatch(s, from + 1)
    else FindMatch(s, from + 1)
  }

  /** A match's closing delimiter is determined by its opening. */
  lemma MatchCloseUnique(s: string, i: int, j: int, j': int)
    requires IsMatch(s, i, j) && IsMatch(s, i, j')
    ensures j == j'
  {
  }

  /** A window of a slice is the same window of the whole string. */
  lemma SliceWindow(s: string, a: int, b: int, p: int, n: int)
    requires 0 <= a <= p && 0 <= n && p + n <= b <= |s|
    ensures s[a..b][p - a..p - a + n] == s[p..p + n]
  {
    var w, v := s[a..b][p - a..p - a + n], s[p..p + n];
    forall q | 0 <= q < n
      ensures w[q] == v[q]
    {
      assert w[q] == s[a..b][p - a + q];
    }
  }

  lemma CloseInSlice(s: string, a: int, b: int, k: int)
    requires 0 <= a <= b <= |s| && 0 <= k
    ensures CloseAt(s[a..b], k) <==> k + |Close| <= b - a && CloseAt(s, a + k)
  {
    if k + |Close| <= b - a {
      SliceWindow(s, a, b, a + k, |Close|);
    }
  }

  lemma OpenInSlice(s: string, a: int, b: int, k: int)
    requires 0 <= a <= b <= |s| && 0 <= k
    ensures OpenAt(s[a..b], k) <==> k + |Open| <= b - a && OpenAt(s, a + k)
  {
    if k + |Open| <= b - a {
      SliceWindow(s, a, b, a + k, |Open|);
    }
  }

  /** Whether a match lies inside a slice does not depend on what surrounds the slice. */
  lemma MatchInSlice(s: string, a: int, b: int, i: int, j: int)
    requires 0 <= a <= i <= j && j + |Close| <= b <= |s|
    ensures IsMatch(s, i, j) <==> IsMatch(s[a..b], i - a, j - a)
  {
    OpenInSlice(s, a, b, i - a);
    CloseInSlice(s, a, b, j - a);
    var t := s[a..b];
    forall k | i + |Open| <= k < j
      ensures CloseAt(s, k) <==> CloseAt(t, k - a)
    {
      CloseInSlice(s, a, b, k - a);
    }
    forall k | i - a + |Open| <= k < j - a
      ensures CloseAt(t, k) <==> CloseAt(s, a + k)
    {
      CloseInSlice(s, a, b, k);
    }
  }

  /** The text between the delimiters of a match. */
  function Interior(s: string, m: Span): string
    requires m.start + |Open| <= m.close <= |s|
  {
    s[m.start + |Open|..m.close]
  }

  /** No closing delimiter occurs anywhere in `t`. */
  ghost predicate NoClose(t: string) {
    forall k :: !CloseAt(t, k)
  }

  /** The lazy group never extends over a closing delimiter. */
  lemma InteriorHasNoClose(s: string, i: int, j: int)
    requires IsMatch(s, i, j)
    ensures NoClose(s[i + |Open|..j])
  {
    var t := s[i + |Open|..j];
    forall k | 0 <= k
      ensures !CloseAt(t, k)
    {
      CloseInSlice(s, i + |Open|, j, k);
    }
  }

  /** Trimming only shortens a string from its ends, so it adds no closing delimiter. */
  lemma TrimHasNoClose(t: string)
    requires NoClose(t)
    ensures NoClose(Trim(t))
  {
    var r := Trim(t);
    forall k | 0 <= k
      ensures !CloseAt(r, k)
    {
      CloseInSlice(t, TrimOffset(t), TrimLimit(t), k);
    }
  }

  /** The mermaid code of a reply: the trimmed interior of the first match, or the empty
      string when the reply holds no complete block. */
  function Extract(reply: string): (code: string)
    ensures NoSpaceAtEnds(code)
    ensures NoClose(code)
  {
    match FindMatch(reply, 0)
    case None => ""
    case Some(m) =>
      InteriorHasNoClose(reply, m.start, m.close);
      TrimHasNoClose(Interior(reply, m));
      Trim(Interior(reply, m))
  }

  /** Extraction returns the trimmed interior of the leftmost match, and the empty string
      exactly when no match exists (or its interior is all white space). */
  lemma ExtractSpec(s: string)
    ensures NoMatchFrom(s, 0) ==> Extract(s) == ""
    ensures forall i, j :: IsLeftmost(s, i, j) ==> Extract(s) == Trim(s[i + |Open|..j])
  {
    forall i, j | IsLeftmost(s, i, j)
      ensures Extract(s) == Trim(s[i + |Open|..j])
    {
      var m := FindMatch(s, 0);
      assert m.Some?;
      assert m.value.start == i;
      MatchCloseUnique(s, i, j, m.value.close);
    }
  }
}
