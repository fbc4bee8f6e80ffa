/** The reply text shown in the chat: every mermaid block removed by a global replace with
    the same regular expression as extraction, the rest trimmed, and a fixed sentence when
    nothing is left. */
module Cleanup {
  import opened Text
  import opened Fence

  /** The sentence shown when the reply held nothing but diagram code and white space. Its
      first letter is a literal of its own: the verifier reads a literal's characters from
      the end, and this way both ends of the sentence are at hand. */
  const Fallback: string := "I" + "'ve created a diagram for you based on your request."

  /** The global replace from index `from`: the engine finds the leftmost match, drops it,
      and resumes its search just past the match's closing delimiter, so it never rescans
      the text it has already passed. */
  function RemoveMatches(s: string, from: nat): (r: string)
    requires from <= |s|
    decreases |s| - from
    ensures |r| <= |s| - from
    ensures NoMatchFrom(s, from) ==> r == s[from..]
  {
    match FindMatch(s, from)
    case None => s[from..]
    case Some(m) => s[from..m.start] + RemoveMatches(s, m.End())
  }

  /** A piece of a reply as the global replace sees it: text it keeps, or a matched block. */
  datatype Segment = Prose(text: string) | Block(text: string)

  /** Text in which the regular expression finds nothing. */
  ghost predicate NoMatch(t: string) {
    NoMatchFrom(t, 0)
  }

  /** The reply from `from` cut into alternating kept text and matched blocks, in the order
      the global replace meets them. */
  function Split(s: string, from: nat): (segs: seq<Segment>)
    requires from <= |s|
    decreases |s| - from
    ensures |segs| % 2 == 1
  {
    match FindMatch(s, from)
    case None => [Prose(s[from..])]
    case Some(m) => [Prose(s[from..m.start]), Block(s[m.start..m.End()])] + Split(s, m.End())
  }

  /** `segs` is how a left-to-right scan from `from` that never rescans cuts `s[from..]`:
      when no match starts at or after `from`, the rest is kept text; otherwise kept text up
      to the leftmost such match, the whole match, then the scan from just past its closing
      delimiter. Positions are read off the segments' lengths. */
  ghost predicate IsScan(s: string, from: nat, segs: seq<Segment>)
    requires from <= |s|
    decreases |s| - from
  {
    || (NoMatchFrom(s, from) && segs == [Prose(s[from..])])
    || (&& |segs| >= 2
        && var i := from + |segs[0].text|;
           var e := i + |segs[1].text|;
        && |Close| <= |segs[1].text| && e <= |s|
        && segs[0] == Prose(s[from..i]) && segs[1] == Block(s[i..e])
        && IsMatch(s, i, e - |Close|)
        && (forall i', j' :: from <= i' < i ==> !IsMatch(s, i', j'))
        && IsScan(s, e, segs[2..]))
  }

  /** `Split` is such a scan. */
  lemma {:induction false} SplitIsScan(s: string, from: nat)
    requires from <= |s|
    ensures IsScan(s, from, Split(s, from))
    decreases |s| - from
  {
    match FindMatch(s, from)
    case None =>
    case Some(m) =>
      SplitIsScan(s, m.End());
      ScanStep(s, from, m.start, m.close, Split(s, m.End()));
  }

  /** Helper: a leftmost match followed by a scan of the rest is a scan. */
  lemma ScanStep(s: string, from: nat, i: nat, j: nat, rest: seq<Segment>)
    requires from <= i && j + |Close| <= |s| && IsMatch(s, i, j)
    requires forall i', j' :: from <= i' < i ==> !IsMatch(s, i', j')
    requires IsScan(s, j + |Close|, rest)
    ensures IsScan(s, from, [Prose(s[from..i]), Block(s[i..j + |Close|])] + rest)
  {
    var segs := [Prose(s[from..i]), Block(s[i..j + |Close|])] + rest;
    assert from + |segs[0].text| == i;
    assert i + |segs[1].text| == j + |Close|;
    assert segs[2..] == rest;
  }

  /** And it is the only one: a scan that never rescans cuts a reply in exactly one way. */
  lemma {:induction false} ScanIsSplit(s: string, from: nat, segs: seq<Segment>)
    requires from <= |s|
    requires IsScan(s, from, segs)
    ensures segs == Split(s, from)
    decreases |s| - from
  {
    match FindMatch(s, from)
    case None =>
      ScanWithoutMatch(s, from, segs);
    case Some(m) =>
      ScanWithMatch(s, from, segs, m.start, m.close);
      ScanIsSplit(s, m.End(), segs[2..]);
      assert Split(s, from) == segs[..2] + Split(s, m.End());
      assert segs == segs[..2] + segs[2..];
  }

  /** Helper: where no match is left, a scan keeps the rest as it is. */
  lemma ScanWithoutMatch(s: string, from: nat, segs: seq<Segment>)
    requires from <= |s| && NoMatchFrom(s, from)
    requires IsScan(s, from, segs)
    ensures segs == [Prose(s[from..])]
  {
  }

  /** Helper: where the leftmost match is `(i, j)`, a scan starts with the text before it and
      the match itself. */
  lemma ScanWithMatch(s: string, from: nat, segs: seq<Segment>, i: nat, j: nat)
    requires from <= i && IsMatch(s, i, j)
    requires forall i', j' :: from <= i' < i ==> !IsMatch(s, i', j')
    requires from <= |s| && IsScan(s, from, segs)
    ensures j + |Close| <= |s| && |segs| >= 2
    ensures segs[..2] == [Prose(s[from..i]), Block(s[i..j + |Close|])]
    ensures IsScan(s, j + |Close|, segs[2..])
  {
    assert !NoMatchFrom(s, from);
    var i' := from + |segs[0].text|;
    var e := i' + |segs[1].text|;
    assert IsMatch(s, i', e - |Close|);
    assert i' == i;
    MatchCloseUnique(s, i, e - |Close|, j);
  }

  /** All the segments' text, in order. */
  function Concat(segs: seq<Segment>): string {
    if segs == [] then "" else segs[0].text + Concat(segs[1..])
  }

  /** The kept text only, in order. */
  function ProseOf(segs: seq<Segment>): string {
    if segs == [] then "" else (if segs[0].Prose? then segs[0].text else "") + ProseOf(segs[1..])
  }

  /** Splitting loses nothing: the segments put back together are the reply. */
  lemma {:induction false} SplitRoundTrip(s: string, from: nat)
    requires from <= |s|
    ensures Concat(Split(s, from)) == s[from..]
    decreases |s| - from
  {
    var segs := Split(s, from);
    match FindMatch(s, from)
    case None =>
      assert segs == [Prose(s[from..])];
      assert segs[1..] == [];
    case Some(m) =>
      var rest := Split(s, m.End());
      assert segs == [Prose(s[from..m.start]), Block(s[m.start..m.End()])] + rest;
      assert segs[1..] == [Block(s[m.start..m.End()])] + rest;
      assert segs[1..][1..] == rest;
      SplitRoundTrip(s, m.End());
      assert Concat(segs[1..]) == s[m.start..m.End()] + s[m.End()..];
      assert s[from..] == s[from..m.start] + (s[m.start..m.End()] + s[m.End()..]);
  }

  /** The global replace keeps exactly the prose segments. */
  lemma {:induction false} RemoveIsProse(s: string, from: nat)
    requires from <= |s|
    ensures RemoveMatches(s, from) == ProseOf(Split(s, from))
    decreases |s| - from
  {
    match FindMatch(s, from)
    case None =>
      assert ProseOf(Split(s, from)) == s[from..] + ProseOf([]);
    case Some(m) =>
      var rest := Split(s, m.End());
      var segs := [Prose(s[from..m.start]), Block(s[m.start..m.End()])] + rest;
      assert segs[1..][1..] == rest;
      RemoveIsProse(s, m.End());
  }

  /** The interior of a whole block. */
  function BlockInterior(t: string): string
    requires |Open| + |Close| <= |t|
  {
    t[|Open|..|t| - |Close|]
  }

  /** Extraction and cleanup scan alike: the code extracted is the trimmed interior of the
      first block cleanup removes, and it is empty when cleanup removes nothing. */
  lemma ExtractIsFirstBlock(s: string)
    ensures |Split(s, 0)| == 1 ==> Extract(s) == ""
    ensures |Split(s, 0)| >= 3 ==>
      |Open| + |Close| <= |Split(s, 0)[1].text| && Extract(s) == Trim(BlockInterior(Split(s, 0)[1].text))
  {
    match FindMatch(s, 0)
    case None =>
    case Some(m) =>
      var t := s[m.start..m.End()];
      assert Split(s, 0)[1].text == t;
      SliceWindow(s, m.start, m.End(), m.start + |Open|, m.close - m.start - |Open|);
      assert BlockInterior(t) == Interior(s, m);
  }

  /** The `message` of the response: never empty, and without white space at its ends. */
  function CleanMessage(reply: string): (message: string)
    ensures message != ""
    ensures NoSpaceAtEnds(message)
  {
    var cleaned := Trim(RemoveMatches(reply, 0));
    if cleaned != "" then cleaned
    else assert Fallback[0] == 'I' && Fallback[|Fallback| - 1] == '.'; Fallback
  }

  /** The message is the reply's kept text, as a scan that never rescans cuts it, trimmed;
      the fallback sentence replaces it exactly when that text is all white space. */
  lemma CleanMessageSpec(reply: string, segs: seq<Segment>)
    requires IsScan(reply, 0, segs)
    ensures AllSpace(ProseOf(segs)) ==> CleanMessage(reply) == Fallback
    ensures !AllSpace(ProseOf(segs)) ==> CleanMessage(reply) == Trim(ProseOf(segs))
  {
    ScanIsSplit(reply, 0, segs);
    RemoveIsProse(reply, 0);
    TrimEmptyIffAllSpace(ProseOf(segs));
  }

  /** A reply holding no complete block yields no code, and its message is the reply itself,
      trimmed (unless it is all white space). */
  lemma ReplyWithoutBlock(reply: string)
    requires NoMatch(reply)
    ensures Extract(reply) == ""
    ensures !AllSpace(reply) ==> CleanMessage(reply) == Trim(reply)
  {
    ExtractSpec(reply);
    TrimEmptyIffAllSpace(reply);
  }

  /** Helper: a reply made of text, one block and more text, where no match starts in the
      leading text or after the block. */
  lemma SingleBlock(pre: string, body: string, post: string)
    requires forall k :: 0 <= k < |pre| ==> !OpenAt(pre + Open + body + Close + post, k)
    requires '\n' !in body
    requires NoMatchFrom(pre + Open + body + Close + post, |pre| + |Open| + |body| + |Close|)
    ensures Extract(pre + Open + body + Close + post) == Trim(body)
    ensures RemoveMatches(pre + Open + body + Close + post, 0) == pre + post
  {
    var s := pre + Open + body + Close + post;
    var i := |pre|;
    var j := i + |Open| + |body|;
    assert s[i..i + |Open|] == Open;
    assert s[j..j + |Close|] == Close;
    assert s[i + |Open|..j] == body;
    forall k | i + |Open| <= k < j
      ensures !CloseAt(s, k)
    {
      assert s[k] == body[k - i - |Open|];
    }
    assert IsMatch(s, i, j);
    assert IsLeftmost(s, i, j);
    ExtractSpec(s);
    var m := FindMatch(s, 0);
    assert m.Some?;
    assert m.value.start == i;
    MatchCloseUnique(s, i, j, m.value.close);
    assert s[j + |Close|..] == post;
    assert s[0..i] == pre;
  }

  /** Helper: no opening starts inside an unfinished opening "```mer" at the front. */
  lemma SpliceHasNoEarlierOpen(reply: string, rest: string)
    requires reply == Open[..6] + Open + rest
    ensures forall k :: 0 <= k < 6 ==> !OpenAt(reply, k)
  {
    forall k | 0 <= k < 6
      ensures !OpenAt(reply, k)
    {
      if k + |Open| <= |reply| {
        var w := reply[k..k + |Open|];
        if k == 0 {
          assert w[6] == reply[6] == Open[0];
        } else if k <= 3 {
          assert w[3 - k] == reply[3] == Open[3];
        } else {
          assert w[0] == reply[k] == Open[k];
        }
      }
    }
  }

  /** Helper: no opening starts in the tail "maid\n" + z + "\n```" when z holds no
      backtick, since an opening needs a backtick with ten characters after it. */
  lemma SpliceHasNoLaterOpen(reply: string, head: string, z: string)
    requires '`' !in z
    requires reply == head + Open[6..] + z + Close
    ensures NoMatchFrom(reply, |head|)
  {
    var tail := Open[6..] + z;
    assert reply == head + tail + Close;
    assert '`' !in Open[6..];
    forall i, j | |head| <= i
      ensures !IsMatch(reply, i, j)
    {
      if i + |Open| <= |reply| {
        assert reply[i] == tail[i - |head|];
        assert reply[i..i + |Open|][0] == reply[i];
      }
    }
  }

  lemma SpliceJoin(z: string)
    ensures Open[..6] + (Open[6..] + z + Close) == Open + z + Close
  {
    var a, b := Open[..6], Open[6..];
    assert a + b == Open;
    assert a + (b + z + Close) == (a + b) + z + Close;
  }

  /** A reply that is one block with text `z` (no line feed) is handed back unchanged by
      cleanup's trim, and extraction finds `z`, trimmed, in it. */
  lemma SplicedBlock(cleaned: string, z: string)
    requires '\n' !in z && cleaned == Open + z + Close
    ensures Extract(cleaned) == Trim(z) && NoSpaceAtEnds(cleaned)
  {
    assert cleaned == "" + Open + z + Close + "";
    SingleBlock("", z, "");
    assert cleaned[0] == Open[0] && cleaned[|cleaned| - 1] == Close[3];
  }

  /** The global replace does not rescan. In the reply
      "```mer" + "```mermaid\n" + b + "\n```" + "maid\n" + z + "\n```"
      it drops the inner block and so splices "```mer" onto "maid\n"; the cleaned message
      is then itself a complete mermaid block, from which extraction finds `z` again. */
  lemma CleanupCanSpliceBlock(b: string, z: string)
    requires '\n' !in b && '\n' !in z && '`' !in z
    ensures Extract(CleanMessage(Open[..6] + Open + b + Close + Open[6..] + z + Close)) == Trim(z)
  {
    var reply := Open[..6] + Open + b + Close + Open[6..] + z + Close;
    var pre, post := Open[..6], Open[6..] + z + Close;
    assert reply == pre + Open + (b + Close + post);
    SpliceHasNoEarlierOpen(reply, b + Close + post);
    assert reply == (pre + Open + b + Close) + Open[6..] + z + Close;
    SpliceHasNoLaterOpen(reply, pre + Open + b + Close, z);
    assert reply == pre + Open + b + Close + post;
    SingleBlock(pre, b, post);
    var cleaned := pre + post;
    SpliceJoin(z);
    SplicedBlock(cleaned, z);
    TrimUnpadded(cleaned);
  }
}
