/** JavaScript's `String.prototype.trim`, on strings as sequences of characters. */
module Text {

  /** The characters `trim` strips: ECMAScript WhiteSpace (tab, vertical tab, form feed,
      space, no-break space, byte order mark and the other space separators) and
      LineTerminator (line feed, carriage return, line and paragraph separators). */
  predicate IsSpace(c: char) {
    var n := c as int;
    || n == 0x09 || n == 0x0A || n == 0x0B || n == 0x0C || n == 0x0D || n == 0x20
    || n == 0xA0 || n == 0x1680 || 0x2000 <= n <= 0x200A || n == 0x2028 || n == 0x2029
    || n == 0x202F || n == 0x205F || n == 0x3000 || n == 0xFEFF
  }

  ghost predicate AllSpace(s: string) {
    forall k :: 0 <= k < |s| ==> IsSpace(s[k])
  }

  /** Neither the first nor the last character is white space. */
  predicate NoSpaceAtEnds(s: string) {
    |s| == 0 || (!IsSpace(s[0]) && !IsSpace(s[|s| - 1]))
  }

  /** The first index at or after `i` that holds no white space (`|s|` when there is none). */
  function SkipSpace(s: string, i: nat): (a: nat)
    requires i <= |s|
    decreases |s| - i
    ensures i <= a <= |s|
    ensures forall k :: i <= k < a ==> IsSpace(s[k])
    ensures a < |s| ==> !IsSpace(s[a])
  {
    if i < |s| && IsSpace(s[i]) then SkipSpace(s, i + 1) else i
  }

  /** The least index `b` in `lo..j` such that only white space lies between `b` and `j`. */
  function SkipSpaceBack(s: string, lo: nat, j: nat): (b: nat)
    requires lo <= j <= |s|
    decreases j
    ensures lo <= b <= j
    ensures forall k :: b <= k < j ==> IsSpace(s[k])
    ensures lo < b ==> !IsSpace(s[b - 1])
  {
    if lo < j && IsSpace(s[j - 1]) then SkipSpaceBack(s, lo, j - 1) else j
  }

  /** The index of the first character `trim` keeps: only white space lies before it. */
  function TrimOffset(s: string): nat
    ensures TrimOffset(s) <= |s|
    ensures forall k :: 0 <= k < TrimOffset(s) ==> IsSpace(s[k])
  {
    SkipSpace(s, 0)
  }

  /** The index just past the last character `trim` keeps: only white space lies after it. */
  function TrimLimit(s: string): nat
    ensures TrimOffset(s) <= TrimLimit(s) <= |s|
    ensures forall k :: TrimLimit(s) <= k < |s| ==> IsSpace(s[k])
  {
    SkipSpaceBack(s, TrimOffset(s), |s|)
  }

  /** JavaScript's trim: the slice of `s` left after removing white space at both ends. */
  function Trim(s: string): (r: string)
    ensures NoSpaceAtEnds(r)
  {
    TrimKeepsEnds(s);
    s[TrimOffset(s)..TrimLimit(s)]
  }

  /** Helper: the first and the last character `trim` keeps are not white space. */
  lemma TrimKeepsEnds(s: string)
    ensures TrimOffset(s) < TrimLimit(s) ==> !IsSpace(s[TrimOffset(s)]) && !IsSpace(s[TrimLimit(s) - 1])
    ensures TrimOffset(s) < |s| ==> TrimOffset(s) < TrimLimit(s)
  {
    var a := TrimOffset(s);
    if a < |s| {
      // the scan back from the end stops at the latest at `a + 1`, as `s[a]` is no space
      assert !IsSpace(s[a]);
    }
  }

  /** A trimmed string is empty exactly when the input is all white space
      (the falsy case of `if (code)` and of `cleaned || fallback`). */
  lemma TrimEmptyIffAllSpace(s: string)
    ensures Trim(s) == "" <==> AllSpace(s)
  {
    TrimKeepsEnds(s);
  }

  /** Helper: the forward scan stops at the first character that is not white space. */
  lemma {:induction false} SkipSpaceStops(s: string, i: nat, a: nat)
    requires i <= a <= |s|
    requires forall k :: i <= k < a ==> IsSpace(s[k])
    requires a < |s| ==> !IsSpace(s[a])
    ensures SkipSpace(s, i) == a
    decreases a - i
  {
    if i < a {
      SkipSpaceStops(s, i + 1, a);
    }
  }

  /** Helper: the backward scan stops just past the last character that is not white space. */
  lemma {:induction false} SkipSpaceBackStops(s: string, lo: nat, j: nat, b: nat)
    requires lo <= b <= j <= |s|
    requires forall k :: b <= k < j ==> IsSpace(s[k])
    requires lo < b ==> !IsSpace(s[b - 1])
    ensures SkipSpaceBack(s, lo, j) == b
    decreases j - b
  {
    if b < j {
      SkipSpaceBackStops(s, lo, j - 1, b);
    }
  }

  /** Trim is characterised by its result: whatever text without white space at its ends
      is padded by white space on either side, trimming gives that text back. */
  lemma TrimPadded(p: string, t: string, q: string)
    requires AllSpace(p) && AllSpace(q) && NoSpaceAtEnds(t)
    ensures Trim(p + t + q) == t
  {
    var s := p + t + q;
    var a, b := |p|, |p| + |t|;
    forall k | 0 <= k < a
      ensures IsSpace(s[k])
    {
      assert s[k] == p[k];
    }
    forall k | b <= k < |s|
      ensures IsSpace(s[k])
    {
      assert s[k] == q[k - b];
    }
    if t == "" {
      SkipSpaceStops(s, 0, |s|);
      SkipSpaceBackStops(s, |s|, |s|, |s|);
    } else {
      assert s[a] == t[0] && s[b - 1] == t[|t| - 1];
      SkipSpaceStops(s, 0, a);
      SkipSpaceBackStops(s, a, |s|, b);
      assert s[a..b] == t;
    }
  }

  /** Trimming leaves text without white space at its ends unchanged. */
  lemma TrimUnpadded(t: string)
    requires NoSpaceAtEnds(t)
    ensures Trim(t) == t
  {
    assert "" + t + "" == t;
    TrimPadded("", t, "");
  }
}
