/**
  Literal string operations of the patcher: first-occurrence search (`str.find`),
  membership (`in`), first and global literal replacement (`str.replace`), and
  splicing a payload over a half-open range (`text[:start] + payload + text[end:]`).
  Strings are sequences of characters; nothing is normalised.
*/
module TextOps {
  import opened Results

  /** `pat` occurs in `text` starting at offset `i`. */
  predicate OccursAt(text: string, pat: string, i: int) {
    0 <= i && i + |pat| <= |text| && forall k :: 0 <= k < |pat| ==> text[i + k] == pat[k]
  }

  /** The slice form of an occurrence. */
  lemma OccursAtSlice(text: string, pat: string, i: int)
    requires 0 <= i && i + |pat| <= |text|
    ensures OccursAt(text, pat, i) <==> text[i..i + |pat|] == pat
  {
    if text[i..i + |pat|] == pat {
      forall k | 0 <= k < |pat|
        ensures text[i + k] == pat[k]
      {
        assert text[i..i + |pat|][k] == pat[k];
      }
    }
    if OccursAt(text, pat, i) {
      assert text[i..i + |pat|] == pat;
    }
  }

  ghost predicate Occurs(text: string, pat: string) {
    exists i :: OccursAt(text, pat, i)
  }

  /** `i` is the least offset at which `pat` occurs in `text`. */
  ghost predicate IsFirstOccurrence(text: string, pat: string, i: int) {
    OccursAt(text, pat, i) && forall j :: 0 <= j < i ==> !OccursAt(text, pat, j)
  }

  /** The text is empty or ends with a line feed: it is a whole number of lines. */
  predicate EndsLine(s: string) {
    |s| == 0 || s[|s| - 1] == '\n'
  }

  /** A text closes with any of its suffixes. */
  lemma OccursAtEnd(pre: string, pat: string)
    ensures OccursAt(pre + pat, pat, |pre|)
  {
  }

  /** A text opens with any of its prefixes. */
  lemma OccursAtStart(pat: string, rest: string)
    ensures OccursAt(pat + rest, pat, 0)
  {
  }

  /** A text ends a line when a non-empty last part of it does. */
  lemma EndsLineAppend(a: string, b: string)
    requires |b| > 0 && EndsLine(b)
    ensures EndsLine(a + b)
  {
  }

  /** A character that differs from the pattern rules out an occurrence. */
  lemma MismatchNotOccurs(text: string, pat: string, i: int, k: int)
    requires 0 <= k < |pat| && 0 <= i + k < |text|
    requires text[i + k] != pat[k]
    ensures !OccursAt(text, pat, i)
  {
  }

  /** A pattern without line feeds never occurs over a line feed. */
  lemma NotOccursOverLineFeed(text: string, pat: string, i: int, p: int)
    requires '\n' !in pat
    requires 0 <= p < |text| && text[p] == '\n'
    requires i <= p < i + |pat|
    ensures !OccursAt(text, pat, i)
  {
    assert pat[p - i] in pat;
    MismatchNotOccurs(text, pat, i, p - i);
  }

  /** An occurrence inside an occurrence is an occurrence. */
  lemma OccursAtNested(text: string, mid: string, pat: string, i: int, j: int)
    requires OccursAt(text, mid, i)
    requires OccursAt(mid, pat, j)
    ensures OccursAt(text, pat, i + j)
  {
    forall k | 0 <= k < |pat|
      ensures text[i + j + k] == pat[k]
    {
      assert text[i + (j + k)] == mid[j + k];
    }
  }

  /** Occurrences in `a + b` that lie wholly inside `a` or wholly inside `b`. */
  lemma OccursInConcat(a: string, b: string, pat: string, j: int)
    ensures 0 <= j && j + |pat| <= |a| ==> (OccursAt(a + b, pat, j) <==> OccursAt(a, pat, j))
    ensures |a| <= j ==> (OccursAt(a + b, pat, j) <==> OccursAt(b, pat, j - |a|))
  {

  }

  /** An occurrence survives when text is added on either side. */
  lemma OccursAtFrame(a: string, text: string, b: string, pat: string, i: int)
    requires OccursAt(text, pat, i)
    ensures OccursAt(a + text + b, pat, |a| + i)
  {
    OccursInConcat(a, text, pat, |a| + i);
    OccursInConcat(a + text, b, pat, |a| + i);
  }

  /** `b` occurs in `a + b + c + d` right after `a`. */
  lemma OccursAfterHead(a: string, b: string, c: string, d: string)
    ensures OccursAt(a + b + c + d, b, |a|)
  {
    assert OccursAt(b, b, 0);
    OccursAtFrame(a, b, c + d, b, 0);
    assert a + b + c + d == a + b + (c + d);
  }

  /** The search loop of `str.find`, starting at offset `from`. */
  function FindFrom(text: string, pat: string, from: nat): (r: Option<nat>)
    ensures r.Some? ==> from <= r.value && OccursAt(text, pat, r.value)
    decreases |text| - from
  {
    if from + |pat| > |text| then None
    else if OccursAt(text, pat, from) then Some(from)
    else FindFrom(text, pat, from + 1)
  }

  /** The search from `from` skips no occurrence, and gives up only when there is none left. */
  lemma {:induction false} FindFromLeast(text: string, pat: string, from: nat)
    ensures FindFrom(text, pat, from).Some? ==>
      forall j :: from <= j < FindFrom(text, pat, from).value ==> !OccursAt(text, pat, j)
    ensures FindFrom(text, pat, from).None? ==> forall j :: from <= j ==> !OccursAt(text, pat, j)
    decreases |text| - from
  {
    if from + |pat| <= |text| && !OccursAt(text, pat, from) {
      FindFromLeast(text, pat, from + 1);
    }
  }

  /** `str.find`: the least offset of `pat` in `text`, or none. */
  function FindFirst(text: string, pat: string): (r: Option<nat>)
    ensures r.Some? ==> OccursAt(text, pat, r.value)
  {
    FindFrom(text, pat, 0)
  }

  /** `FindFirst` finds the first occurrence, and finds nothing exactly when there is none. */
  lemma FindFirstSpec(text: string, pat: string)
    ensures FindFirst(text, pat).Some? ==> IsFirstOccurrence(text, pat, FindFirst(text, pat).value)
    ensures FindFirst(text, pat).None? <==> !Occurs(text, pat)
  {
    FindFromLeast(text, pat, 0);
  }

  /** The first occurrence is unique, so the specification determines `FindFirst`. */
  lemma FindFirstIsAny(text: string, pat: string)
    ensures forall i :: IsFirstOccurrence(text, pat, i) ==> FindFirst(text, pat) == Some(i)
  {
    forall i | IsFirstOccurrence(text, pat, i)
      ensures FindFirst(text, pat) == Some(i)
    {
      FindFirstIs(text, pat, i);
    }
  }

  lemma FindFirstIs(text: string, pat: string, i: int)
    requires IsFirstOccurrence(text, pat, i)
    ensures FindFirst(text, pat) == Some(i)
  {
    FindFirstSpec(text, pat);
    var r := FindFirst(text, pat);
    assert r.Some?;
    assert !(r.value < i) && !(r.value > i);
  }

  /** Python's `pat in text`. */
  predicate Contains(text: string, pat: string)
    ensures Contains(text, pat) <==> Occurs(text, pat)
  {
    FindFirstSpec(text, pat);
    FindFirst(text, pat).Some?
  }

  /** `text[:start] + payload + text[end:]`. */
  function Splice(text: string, start: nat, end: nat, payload: string): (r: string)
    requires start <= end <= |text|
    ensures |r| == |text| - (end - start) + |payload|
    ensures r[..start] == text[..start]
    ensures OccursAt(r, payload, start)
    ensures r[start + |payload|..] == text[end..]
  {
    text[..start] + payload + text[end..]
  }

  /** Splicing a range's own text back in gives the text unchanged. */
  lemma SpliceOwnText(text: string, start: nat, end: nat)
    requires start <= end <= |text|
    ensures Splice(text, start, end, text[start..end]) == text
  {
    assert text == text[..start] + text[start..end] + text[end..];
  }

  /** Splicing the middle of `x + p + y` with `p` itself gives the text unchanged. */
  lemma SpliceFramed(x: string, p: string, y: string)
    ensures Splice(x + p + y, |x|, |x| + |p|, p) == x + p + y
  {
    var t := x + p + y;
    assert t[..|x|] == x && t[|x| + |p|..] == y;
  }

  /** `str.replace(pat, rep, 1)`: replace the first occurrence only. */
  function ReplaceFirst(text: string, pat: string, rep: string): (r: string)
    ensures !Occurs(text, pat) ==> r == text
    ensures forall i :: IsFirstOccurrence(text, pat, i) ==>
      && |r| == |text| - |pat| + |rep|
      && r[..i] == text[..i]
      && OccursAt(r, rep, i)
      && r[i + |rep|..] == text[i + |pat|..]
  {
    FindFirstSpec(text, pat);
    FindFirstIsAny(text, pat);
    match FindFirst(text, pat)
    case None => text
    case Some(i) => Splice(text, i, i + |pat|, rep)
  }

  /** The replacement at a known first occurrence. */
  lemma ReplaceFirstAt(text: string, pat: string, rep: string, i: nat)
    requires FindFirst(text, pat) == Some(i)
    ensures i + |pat| <= |text|
    ensures ReplaceFirst(text, pat, rep) == text[..i] + rep + text[i + |pat|..]
  {
    var found := FindFirst(text, pat);
    assert found == Some(i);
    assert OccursAt(text, pat, i);
    var s := Splice(text, i, i + |pat|, rep);
    assert s == text[..i] + rep + text[i + |pat|..];
    assert ReplaceFirst(text, pat, rep) == s;
  }

  /**
    `str.replace(pat, rep)`: replace every occurrence, scanning left to right and
    resuming after each replaced occurrence. An empty `pat` matches at every
    boundary, as in Python (`"ab".replace("", "-") == "-a-b-"`).
  */
  function ReplaceAll(text: string, pat: string, rep: string): (r: string)
    ensures rep == pat ==> r == text
  {
    if |pat| == 0 then Interleave(text, rep) else ReplaceEach(text, pat, rep)
  }

  /** The empty-pattern case of `str.replace`: `rep` before, between and after every character. */
  function Interleave(text: string, rep: string): (r: string)
    ensures OccursAt(r, rep, 0)
    ensures |rep| == 0 ==> r == text
  {
    if |text| == 0 then rep
    else
      assert text == [text[0]] + text[1..];
      rep + [text[0]] + Interleave(text[1..], rep)
  }

  /** One more stride of width `w` past `k` strides. */
  lemma MulSucc(k: int, w: int)
    ensures (k + 1) * w == k * w + w
  {
  }

  /** Each character of the text adds one character and one copy of `rep`. */
  lemma {:induction false} InterleaveLength(text: string, rep: string)
    ensures |Interleave(text, rep)| == |text| + (|text| + 1) * |rep|
    decreases |text|
  {
    if |text| > 0 {
      InterleaveLength(text[1..], rep);
      MulSucc(|text|, |rep|);
    }
  }

  /**
    With `w == |rep| + 1`, a copy of `rep` starts at `k * w`, and for `k < |text|`
    it is followed by the `k`-th character of the text.
  */
  lemma {:induction false} InterleaveSlot(text: string, rep: string, k: nat)
    requires k <= |text|
    ensures OccursAt(Interleave(text, rep), rep, k * (|rep| + 1))
    ensures k < |text| ==> OccursAt(Interleave(text, rep), rep + [text[k]], k * (|rep| + 1))
    decreases k
  {
    var w := |rep| + 1;
    var r := Interleave(text, rep);
    if k == 0 {
      if |text| > 0 {
        OccursAtStart(rep + [text[0]], Interleave(text[1..], rep));
      }
    } else {
      var t := text[1..];
      InterleaveSlot(t, rep, k - 1);
      var head := rep + [text[0]];
      var tail := Interleave(t, rep);
      assert r == head + tail;
      MulSucc(k - 1, w);
      OccursInConcat(head, tail, rep, k * w);
      if k < |text| {
        assert t[k - 1] == text[k];
        OccursInConcat(head, tail, rep + [text[k]], k * w);
      }
    }
  }

  /**
    The empty pattern matches `|text| + 1` times: with `w == |rep| + 1`, a copy of
    `rep` starts at every multiple of `w` up to `|text| * w`, and the `k`-th
    character of the text sits right after the `k`-th copy.
  */
  lemma InterleaveShape(text: string, rep: string)
    ensures |Interleave(text, rep)| == |text| + (|text| + 1) * |rep|
    ensures forall k :: 0 <= k < |text| ==>
      OccursAt(Interleave(text, rep), rep + [text[k]], k * (|rep| + 1))
    ensures OccursAt(Interleave(text, rep), rep, |text| * (|rep| + 1))
  {
    InterleaveLength(text, rep);
    forall k | 0 <= k < |text|
      ensures OccursAt(Interleave(text, rep), rep + [text[k]], k * (|rep| + 1))
    {
      InterleaveSlot(text, rep, k);
    }
    InterleaveSlot(text, rep, |text|);
  }

  /** The non-empty-pattern case of `str.replace`. */
  function ReplaceEach(text: string, pat: string, rep: string): (r: string)
    requires |pat| > 0
    ensures rep == pat ==> r == text
    decreases |text|
  {
    match FindFirst(text, pat)
    case None => text
    case Some(i) =>
      OccursAtSlice(text, pat, i);
      assert text == text[..i] + text[i..i + |pat|] + text[i + |pat|..];
      text[..i] + rep + ReplaceEach(text[i + |pat|..], pat, rep)
  }

  /** No occurrence of `pat` in `a + b` begins in `a` and ends in `b`. */
  ghost predicate NoStraddle(a: string, b: string, pat: string) {
    forall i :: i < |a| < i + |pat| ==> !OccursAt(a + b, pat, i)
  }

  /** The first occurrence in `a` is the first occurrence in `a + b`. */
  lemma FirstOccurrenceInLeft(a: string, b: string, pat: string, i: int)
    requires FindFirst(a, pat) == Some(i)
    ensures FindFirst(a + b, pat) == Some(i)
  {
    FindFirstSpec(a, pat);
    OccursInConcat(a, b, pat, i);
    forall j | 0 <= j < i
      ensures !OccursAt(a + b, pat, j)
    {
      OccursInConcat(a, b, pat, j);
    }
    FindFirstIs(a + b, pat, i);
  }

  /** With nothing in `a` and nothing across the boundary, `a + b` begins its search in `b`. */
  lemma NoOccurrenceInLeft(a: string, b: string, pat: string)
    requires !Occurs(a, pat)
    requires NoStraddle(a, b, pat)
    ensures forall j :: 0 <= j < |a| ==> !OccursAt(a + b, pat, j)
    ensures forall j :: |a| <= j ==> (OccursAt(a + b, pat, j) <==> OccursAt(b, pat, j - |a|))
  {
    forall j | 0 <= j < |a|
      ensures !OccursAt(a + b, pat, j)
    {
      OccursInConcat(a, b, pat, j);
      assert !OccursAt(a, pat, j);
    }
    forall j | |a| <= j
      ensures OccursAt(a + b, pat, j) <==> OccursAt(b, pat, j - |a|)
    {
      OccursInConcat(a, b, pat, j);
    }
  }

  lemma FirstOccurrenceInRight(a: string, b: string, pat: string, k: int)
    requires FindFirst(a, pat).None?
    requires NoStraddle(a, b, pat)
    requires FindFirst(b, pat) == Some(k)
    ensures FindFirst(a + b, pat) == Some(|a| + k)
  {
    FindFirstSpec(a, pat);
    FindFirstSpec(b, pat);
    NoOccurrenceInLeft(a, b, pat);
    assert OccursAt(b, pat, |a| + k - |a|);
    forall j | |a| <= j < |a| + k
      ensures !OccursAt(a + b, pat, j)
    {
      assert !OccursAt(b, pat, j - |a|);
    }
    FindFirstIs(a + b, pat, |a| + k);
  }

  lemma NoOccurrenceInConcat(a: string, b: string, pat: string)
    requires FindFirst(a, pat).None? && FindFirst(b, pat).None?
    requires NoStraddle(a, b, pat)
    ensures FindFirst(a + b, pat).None?
  {
    FindFirstSpec(a, pat);
    FindFirstSpec(b, pat);
    FindFirstSpec(a + b, pat);
    NoOccurrenceInLeft(a, b, pat);
    forall j | |a| <= j
      ensures !OccursAt(a + b, pat, j)
    {
      assert !OccursAt(b, pat, j - |a|);
    }
  }

  /** One step of the scan: everything before the first occurrence is kept. */
  lemma {:induction false} ReplaceAllUnfold(text: string, pat: string, rep: string, i: int)
    requires |pat| > 0
    requires FindFirst(text, pat) == Some(i)
    ensures ReplaceAll(text, pat, rep) == text[..i] + rep + ReplaceAll(text[i + |pat|..], pat, rep)
  {
  }

  /** `ReplaceAllUnfold` with the kept head and the remaining tail named by the caller. */
  lemma {:induction false} ReplaceAllUnfoldAs(text: string, pat: string, rep: string, i: int, head: string, tail: string)
    requires |pat| > 0
    requires FindFirst(text, pat) == Some(i)
    requires head == text[..i] && tail == text[i + |pat|..]
    ensures ReplaceAll(text, pat, rep) == head + rep + ReplaceAll(tail, pat, rep)
  {
    ReplaceAllUnfold(text, pat, rep, i);
  }

  /** The first replacement in `a + b` is the first replacement in `b`, shifted by `|a|`. */
  lemma {:induction false} ShiftedFirstReplacement(a: string, b: string, pat: string, rep: string, k: nat)
    requires |pat| > 0 && k + |pat| <= |b|
    requires FindFirst(a + b, pat) == Some(|a| + k)
    requires FindFirst(b, pat) == Some(k)
    ensures ReplaceAll(a + b, pat, rep) == a + ReplaceAll(b, pat, rep)
  {
    var head, tail := b[..k], b[k + |pat|..];
    ShiftedSlices(a, b, k, |pat|);
    ReplaceAllUnfoldAs(a + b, pat, rep, |a| + k, a + head, tail);
    ReplaceAllUnfoldAs(b, pat, rep, k, head, tail);
    var rest := ReplaceAll(tail, pat, rep);
    Prepend(a, head, rep, rest, ReplaceAll(a + b, pat, rep), ReplaceAll(b, pat, rep));
  }

  /** A prefix with no occurrence, and none across its end, passes through unchanged. */
  lemma ReplaceAllCleanPrefix(a: string, b: string, pat: string, rep: string)
    requires |pat| > 0
    requires FindFirst(a, pat).None?
    requires NoStraddle(a, b, pat)
    ensures ReplaceAll(a + b, pat, rep) == a + ReplaceAll(b, pat, rep)
  {
    match FindFirst(b, pat) {
      case None =>
        NoOccurrenceInConcat(a, b, pat);
      case Some(k) =>
        FirstOccurrenceInRight(a, b, pat, k);
        ShiftedFirstReplacement(a, b, pat, rep, k);
    }
  }

  /** `a + b` after removing an occurrence's end of `a`, kept apart from any replacement term. */
  lemma SplitAfter(a: string, b: string, j: nat)
    requires j <= |a|
    ensures (a + b)[j..] == a[j..] + b
    ensures (a + b)[..j] == a[..j]
  {
  }

  /** Dropping a prefix of `a` keeps the boundary with `b` free of occurrences. */
  lemma NoStraddleSuffix(a: string, b: string, pat: string, j: nat)
    requires j <= |a|
    requires NoStraddle(a, b, pat)
    ensures NoStraddle(a[j..], b, pat)
  {
    forall i | i < |a[j..]| < i + |pat|
      ensures !OccursAt(a[j..] + b, pat, i)
    {
      OccursInConcat(a[..j], a[j..] + b, pat, j + i);
      assert a[..j] + (a[j..] + b) == a + b;
    }
  }

  /** One replacement in `a`, reassembled around the rest of `a + b`. */
  lemma {:induction false} FirstReplacementInLeft(a: string, b: string, pat: string, rep: string, i: nat)
    requires |pat| > 0 && i + |pat| <= |a|
    requires FindFirst(a + b, pat) == Some(i)
    requires FindFirst(a, pat) == Some(i)
    requires ReplaceAll(a[i + |pat|..] + b, pat, rep) == ReplaceAll(a[i + |pat|..], pat, rep) + ReplaceAll(b, pat, rep)
    ensures ReplaceAll(a + b, pat, rep) == ReplaceAll(a, pat, rep) + ReplaceAll(b, pat, rep)
  {
    var a' := a[i + |pat|..];
    SplitAfter(a, b, i + |pat|);
    SplitAfter(a, b, i);
    ReplaceAllUnfoldAs(a + b, pat, rep, i, a[..i], a' + b);
    ReplaceAllUnfoldAs(a, pat, rep, i, a[..i], a');
    Reassociate(a[..i], rep, ReplaceAll(a', pat, rep), ReplaceAll(b, pat, rep),
      ReplaceAll(a + b, pat, rep), ReplaceAll(a, pat, rep));
  }

  /**
    Replacement is local: when no occurrence crosses the boundary, replacing in
    `a + b` is replacing in `a` and in `b` separately.
  */
  lemma {:induction false} ReplaceAllConcat(a: string, b: string, pat: string, rep: string)
    requires |pat| > 0
    requires NoStraddle(a, b, pat)
    ensures ReplaceAll(a + b, pat, rep) == ReplaceAll(a, pat, rep) + ReplaceAll(b, pat, rep)
    decreases |a|
  {
    match FindFirst(a, pat)
    case None =>
      ReplaceAllCleanPrefix(a, b, pat, rep);
    case Some(i) =>
      FirstOccurrenceInLeft(a, b, pat, i);
      NoStraddleSuffix(a, b, pat, i + |pat|);
      ReplaceAllConcat(a[i + |pat|..], b, pat, rep);
      FirstReplacementInLeft(a, b, pat, rep, i);
  }

  /** An occurrence of a pattern without line feeds never crosses a line end. */
  lemma NoStraddleAtLineEnd(a: string, b: string, pat: string)
    requires '\n' !in pat
    requires EndsLine(a)
    ensures NoStraddle(a, b, pat)
  {
    forall i | i < |a| < i + |pat|
      ensures !OccursAt(a + b, pat, i)
    {
      if |a| > 0 {
        NotOccursOverLineFeed(a + b, pat, i, |a| - 1);
      }
    }
  }

  /** Replacing a pattern without line feeds keeps a trailing line feed. */
  lemma {:induction false} ReplaceAllKeepsEndsLine(a: string, pat: string, rep: string)
    requires |pat| > 0 && '\n' !in pat
    requires EndsLine(a)
    ensures EndsLine(ReplaceAll(a, pat, rep))
  {
    if |a| > 0 {
      var a0 := a[..|a| - 1];
      assert a == a0 + "\n";
      forall i | OccursAt("\n", pat, i)
        ensures false
      {
        NotOccursOverLineFeed("\n", pat, i, 0);
      }
      forall i | i < |a0| < i + |pat|
        ensures !OccursAt(a0 + "\n", pat, i)
      {
        NotOccursOverLineFeed(a0 + "\n", pat, i, |a0|);
      }
      ReplaceAllConcat(a0, "\n", pat, rep);
    }
  }

  /** No position holds the pattern's first two characters, so the pattern does not occur. */
  lemma NoOccurrenceByLead(text: string, pat: string)
    requires |pat| >= 2
    requires forall j :: 0 <= j < |text| - 1 ==> text[j] != pat[0] || text[j + 1] != pat[1]
    ensures FindFirst(text, pat).None?
  {
    forall j | 0 <= j < |text|
      ensures !OccursAt(text, pat, j)
    {
      if text[j] != pat[0] {
        MismatchNotOccurs(text, pat, j, 0);
      } else if j + 1 < |text| {
        MismatchNotOccurs(text, pat, j, 1);
      }
    }
    FindFirstSpec(text, pat);
  }

  /** An occurrence with no earlier position holding the pattern's first two characters is the first. */
  lemma FirstByLead(text: string, pat: string, i: nat)
    requires |pat| >= 2 && OccursAt(text, pat, i)
    requires forall j :: 0 <= j < i ==> text[j] != pat[0] || text[j + 1] != pat[1]
    ensures FindFirst(text, pat) == Some(i)
  {
    forall j | 0 <= j < i
      ensures !OccursAt(text, pat, j)
    {
      if text[j] != pat[0] {
        MismatchNotOccurs(text, pat, j, 0);
      } else {
        MismatchNotOccurs(text, pat, j, 1);
      }
    }
    FindFirstIs(text, pat, i);
  }

  /** A text shorter than a non-empty pattern is left unchanged. */
  lemma ReplaceAllShortText(text: string, pat: string, rep: string)
    requires 0 < |pat| && |text| < |pat|
    ensures ReplaceAll(text, pat, rep) == text
  {
  }

  /** A text without the (non-empty) pattern is left unchanged. */
  lemma ReplaceAllAbsent(text: string, pat: string, rep: string)
    requires 0 < |pat| && FindFirst(text, pat).None?
    ensures ReplaceAll(text, pat, rep) == text
  {
  }

  /** A token rewrite: every occurrence of `pat` becomes `rep`. */
  type Rule = (string, string)

  /** Rules that rewrite every pattern to itself. */
  predicate Identities(rules: seq<Rule>) {
    forall k :: 0 <= k < |rules| ==> rules[k].1 == rules[k].0
  }

  /**
    Applies each rule's global replacement in order, as consecutive `str.replace`
    calls. Rules that rewrite every pattern to itself change nothing.
  */
  function RewriteTokens(text: string, rules: seq<Rule>): (r: string)
    ensures Identities(rules) ==> r == text
    decreases |rules|
  {
    if |rules| == 0 then text
    else
      assert forall k :: 0 <= k < |rules[1..]| ==> rules[1..][k] == rules[k + 1];
      RewriteTokens(ReplaceAll(text, rules[0].0, rules[0].1), rules[1..])
  }

  /** A text holding none of the patterns comes through the rewrites unchanged. */
  lemma {:induction false} RewriteTokensAbsent(text: string, rules: seq<Rule>)
    requires forall k :: 0 <= k < |rules| ==> |rules[k].0| > 0 && !Occurs(text, rules[k].0)
    ensures RewriteTokens(text, rules) == text
    decreases |rules|
  {
    if |rules| > 0 {
      FindFirstSpec(text, rules[0].0);
      ReplaceAllAbsent(text, rules[0].0, rules[0].1);
      assert forall k :: 0 <= k < |rules[1..]| ==> rules[1..][k] == rules[k + 1];
      RewriteTokensAbsent(text, rules[1..]);
    }
  }

  /** Patterns that are non-empty and contain no line feed. */
  predicate LineLocal(rules: seq<Rule>) {
    forall k :: 0 <= k < |rules| ==> |rules[k].0| > 0 && '\n' !in rules[k].0
  }

  /** Rewriting line-local tokens distributes over a split at a line end. */
  lemma {:induction false} RewriteTokensAtLineEnd(a: string, b: string, rules: seq<Rule>)
    requires LineLocal(rules)
    requires EndsLine(a)
    ensures RewriteTokens(a + b, rules) == RewriteTokens(a, rules) + RewriteTokens(b, rules)
    decreases |rules|
  {
    if |rules| > 0 {
      var (pat, rep) := rules[0];
      NoStraddleAtLineEnd(a, b, pat);
      ReplaceAllConcat(a, b, pat, rep);
      ReplaceAllKeepsEndsLine(a, pat, rep);
      RewriteTokensAtLineEnd(ReplaceAll(a, pat, rep), ReplaceAll(b, pat, rep), rules[1..]);
    }
  }

  /** Under line-local rules, a block that starts and ends a line is rewritten on its own. */
  lemma RewriteTokensSplit(pre: string, block: string, post: string, rules: seq<Rule>)
    requires LineLocal(rules) && EndsLine(pre) && EndsLine(block)
    ensures RewriteTokens(pre + block + post, rules)
      == RewriteTokens(pre, rules) + RewriteTokens(block, rules) + RewriteTokens(post, rules)
  {
    var rest := block + post;
    SeqAssoc(pre, block, post, rest);
    RewriteTokensAtLineEnd(pre, rest, rules);
    RewriteTokensAtLineEnd(block, post, rules);
  }

  /** Under line-local rules, what a leading line becomes opens the rewritten text. */
  lemma RewriteTokensAtHead(d: string, c: string, e: string, rules: seq<Rule>, s: string)
    requires LineLocal(rules) && EndsLine(d) && RewriteTokens(d, rules) == s
    ensures OccursAt(RewriteTokens(d + c + e, rules), s, 0)
  {
    var rest := RewriteTokens(c + e, rules);
    SeqAssoc(d, c, e, c + e);
    RewriteTokensAtLineEnd(d, c + e, rules);
    OccursAtStart(s, rest);
  }

  /** Under line-local rules, what a line after a head of lines becomes follows the rewritten head. */
  lemma RewriteTokensAfterHead(h: string, d: string, c: string, e: string, rules: seq<Rule>, s: string)
    requires LineLocal(rules) && EndsLine(h) && EndsLine(d) && RewriteTokens(d, rules) == s
    ensures OccursAt(RewriteTokens(h + d + c + e, rules), s, |RewriteTokens(h, rules)|)
  {
    SeqAssoc(h + d, c, e, c + e);
    RewriteTokensSplit(h, d, c + e, rules);
    assert OccursAt(s, s, 0);
    OccursAtFrame(RewriteTokens(h, rules), s, RewriteTokens(c + e, rules), s, 0);
  }

  // ---------------------------------------------------------------------------
  // Sequence bookkeeping
  //
  // Concatenation is associative and slices of a concatenation are slices of
  // its parts, but asking the solver to see that next to `ReplaceAll` or
  // `RewriteTokens` terms makes it unfold them. These lemmas state each
  // regrouping on plain variables, and the proofs that need one pass the
  // concrete parts in.

  /** Slicing `a + b` at an offset into `b`. */
  lemma ShiftedSlices(a: string, b: string, k: nat, n: nat)
    requires k + n <= |b|
    ensures (a + b)[..|a| + k] == a + b[..k]
    ensures (a + b)[|a| + k + n..] == b[k + n..]
  {
  }

  /** `whole`, named as `a + head + rep + rest`, is `a` before `right`, named as `head + rep + rest`. */
  lemma Prepend(a: string, head: string, rep: string, rest: string, whole: string, right: string)
    requires whole == a + head + rep + rest
    requires right == head + rep + rest
    ensures whole == a + right
  {
  }

  /** `whole`, named as `x + rep + (y + z)`, is `left`, named as `x + rep + y`, before `z`. */
  lemma Reassociate(x: string, rep: string, y: string, z: string, whole: string, left: string)
    requires whole == x + rep + (y + z)
    requires left == x + rep + y
    ensures whole == left + z
  {
  }

  /** `pre + block + post` is `pre` before `rest`, named as `block + post`. */
  lemma SeqAssoc(pre: string, block: string, post: string, rest: string)
    requires rest == block + post
    ensures pre + block + post == pre + rest
  {
  }

  // ---------------------------------------------------------------------------
  // Patterns a replacement leaves behind

  /** An occurrence in a slice is an occurrence in the whole text. */
  lemma OccursAtInSlice(text: string, lo: nat, hi: nat, q: string, j: int)
    requires lo <= hi <= |text|
    ensures OccursAt(text[lo..hi], q, j) ==> OccursAt(text, q, lo + j)
  {
    if OccursAt(text[lo..hi], q, j) {
      forall k | 0 <= k < |q|
        ensures text[lo + j + k] == q[k]
      {
        assert text[lo..hi][j + k] == q[k];
      }
    }
  }

  /** A slice of a text without `q` has no `q` either. */
  lemma NoOccurrenceInSlice(text: string, lo: nat, hi: nat, q: string)
    requires lo <= hi <= |text|
    requires !Occurs(text, q)
    ensures !Occurs(text[lo..hi], q)
  {
    forall j
      ensures !OccursAt(text[lo..hi], q, j)
    {
      OccursAtInSlice(text, lo, hi, q, j);
    }
  }

  /** The part of `rep` from offset `m` on agrees with the start of `q`, as far as both reach. */
  ghost predicate PartialAt(rep: string, q: string, m: int) {
    forall k :: 0 <= k < |q| && 0 <= m + k < |rep| ==> rep[m + k] == q[k]
  }

  /**
    `rep` cannot take part in an occurrence of `q`: an occurrence starting before
    `rep` cannot reach its first character, and none can start inside it.
  */
  ghost predicate NoMatchAcross(rep: string, q: string) {
    && |rep| > 0 && |q| > 0
    && (forall k :: 0 < k < |q| ==> q[k] != rep[0])
    && (forall m :: 0 <= m < |rep| ==> !PartialAt(rep, q, m))
  }

  /** Putting such a `rep` between two texts without `q` creates no `q`. */
  lemma NoNewOccurrence(a: string, rep: string, b: string, q: string)
    requires NoMatchAcross(rep, q)
    requires !Occurs(a, q) && !Occurs(b, q)
    ensures !Occurs(a + rep + b, q)
  {
    var t := a + rep + b;
    forall j | 0 <= j && j + |q| <= |t|
      ensures !OccursAt(t, q, j)
    {
      if j + |q| <= |a| {
        assert !OccursAt(a, q, j);
        var k :| 0 <= k < |q| && a[j + k] != q[k];
        assert t[j + k] == a[j + k];
        MismatchNotOccurs(t, q, j, k);
      } else if j < |a| {
        assert t[j + (|a| - j)] == rep[0];
        MismatchNotOccurs(t, q, j, |a| - j);
      } else if j < |a| + |rep| {
        var m := j - |a|;
        assert !PartialAt(rep, q, m);
        var k :| 0 <= k < |q| && 0 <= m + k < |rep| && rep[m + k] != q[k];
        assert t[j + k] == rep[m + k];
        MismatchNotOccurs(t, q, j, k);
      } else {
        var n := j - |a| - |rep|;
        assert !OccursAt(b, q, n);
        var k :| 0 <= k < |q| && b[n + k] != q[k];
        assert t[j + k] == b[n + k];
        MismatchNotOccurs(t, q, j, k);
      }
    }
  }

  /** `s` holds no `c`. */
  predicate Lacks(s: string, c: char) {
    forall m :: 0 <= m < |s| ==> s[m] != c
  }

  /** A concatenation lacks what both parts lack. */
  lemma LacksConcat(a: string, b: string, c: char)
    requires Lacks(a, c) && Lacks(b, c)
    ensures Lacks(a + b, c)
  {
    assert forall m :: 0 <= m < |a + b| ==> (a + b)[m] == if m < |a| then a[m] else b[m - |a|];
  }

  /** `rep` and `q` each open with a character the other lacks. */
  lemma NoMatchAcrossByFirstChars(rep: string, q: string)
    requires |rep| > 0 && |q| > 0
    requires Lacks(q, rep[0]) && Lacks(rep, q[0])
    ensures NoMatchAcross(rep, q)
  {
    forall m | 0 <= m < |rep|
      ensures !PartialAt(rep, q, m)
    {
      assert rep[m + 0] != q[0];
    }
  }

  /** No proper suffix of `pat` is a prefix of it: two occurrences of `pat` never overlap. */
  ghost predicate NoSelfOverlap(pat: string) {
    forall s :: 0 < s < |pat| ==> !PartialAt(pat, pat, s)
  }

  /** An occurrence of a pattern that does not overlap itself rules out occurrences starting inside the previous `|pat| - 1` positions. */
  lemma NoOverlapBefore(t: string, pat: string, p: int, j: int)
    requires NoSelfOverlap(pat)
    requires OccursAt(t, pat, p)
    requires j < p < j + |pat|
    ensures !OccursAt(t, pat, j)
  {
    var s := p - j;
    assert !PartialAt(pat, pat, s);
    var k :| 0 <= k < |pat| && 0 <= s + k < |pat| && pat[s + k] != pat[k];
    assert t[p + k] == pat[k];
    MismatchNotOccurs(t, pat, j, s + k);
  }

  /**
    Inserting a text that opens with `pat`, a pattern that does not overlap
    itself, after a text without `pat` creates no occurrence before the insertion.
  */
  lemma NoOccurrenceBeforeInsert(x: string, p: string, y: string, pat: string)
    requires OccursAt(p, pat, 0) && NoSelfOverlap(pat) && !Occurs(x, pat)
    ensures forall j :: 0 <= j < |x| ==> !OccursAt(x + p + y, pat, j)
  {
    var t := x + p + y;
    OccursAtFrame(x, p, y, pat, 0);
    forall j | 0 <= j < |x|
      ensures !OccursAt(t, pat, j)
    {
      if j + |pat| <= |x| {
        assert !OccursAt(x, pat, j);
        var k :| 0 <= k < |pat| && x[j + k] != pat[k];
        assert t[j + k] == x[j + k];
        MismatchNotOccurs(t, pat, j, k);
      } else {
        NoOverlapBefore(t, pat, |x|, j);
      }
    }
  }

  /**
    `rep` and `q` open with the same character, which occurs nowhere else in
    either, and differ at offset `w`.
  */
  lemma NoMatchAcrossByHead(rep: string, q: string, w: nat)
    requires 0 < w < |rep| && w < |q|
    requires rep[0] == q[0] && rep[w] != q[w]
    requires forall k :: 0 < k < |q| ==> q[k] != q[0]
    requires forall m :: 0 < m < |rep| ==> rep[m] != q[0]
    ensures NoMatchAcross(rep, q)
  {
    forall m | 0 <= m < |rep|
      ensures !PartialAt(rep, q, m)
    {
      if m == 0 {
        assert rep[0 + w] != q[w];
      } else {
        assert rep[m + 0] != q[0];
      }
    }
  }

  /** A global replacement removes every `pat`, and brings back no `q` the text lacked. */
  lemma {:induction false} ReplaceAllLeavesNone(text: string, pat: string, rep: string, q: string)
    requires |pat| > 0 && NoMatchAcross(rep, q)
    requires q == pat || !Occurs(text, q)
    ensures !Occurs(ReplaceAll(text, pat, rep), q)
    decreases |text|
  {
    FindFirstSpec(text, pat);
    match FindFirst(text, pat)
    case None =>
      ReplaceAllAbsent(text, pat, rep);
    case Some(i) =>
      var head, tail := text[..i], text[i + |pat|..];
      ReplaceAllUnfoldAs(text, pat, rep, i, head, tail);
      assert text[0..i] == head && text[i + |pat|..|text|] == tail;
      forall j
        ensures !OccursAt(head, q, j)
      {
        OccursAtInSlice(text, 0, i, q, j);
      }
      if q != pat {
        NoOccurrenceInSlice(text, i + |pat|, |text|, q);
      }
      ReplaceAllLeavesNone(tail, pat, rep, q);
      NoNewOccurrence(head, rep, ReplaceAll(tail, pat, rep), q);
  }

  /** A first replacement brings back no `q` the text lacked. */
  lemma ReplaceFirstKeepsAbsent(text: string, pat: string, rep: string, q: string)
    requires NoMatchAcross(rep, q) && !Occurs(text, q)
    ensures !Occurs(ReplaceFirst(text, pat, rep), q)
  {
    FindFirstSpec(text, pat);
    if FindFirst(text, pat).Some? {
      var i := FindFirst(text, pat).value;
      ReplaceFirstAt(text, pat, rep, i);
      NoOccurrenceInSlice(text, 0, i, q);
      NoOccurrenceInSlice(text, i + |pat|, |text|, q);
      assert text[0..i] == text[..i] && text[i + |pat|..|text|] == text[i + |pat|..];
      NoNewOccurrence(text[..i], rep, text[i + |pat|..], q);
    }
  }

  /** Rules whose replacements cannot take part in `q` never bring back a `q` the text lacked. */
  lemma {:induction false} RewriteTokensKeepsAbsent(text: string, rules: seq<Rule>, q: string)
    requires forall k :: 0 <= k < |rules| ==> |rules[k].0| > 0 && NoMatchAcross(rules[k].1, q)
    requires !Occurs(text, q)
    ensures !Occurs(RewriteTokens(text, rules), q)
    decreases |rules|
  {
    if |rules| > 0 {
      ReplaceAllLeavesNone(text, rules[0].0, rules[0].1, q);
      assert forall k :: 0 <= k < |rules[1..]| ==> rules[1..][k] == rules[k + 1];
      RewriteTokensKeepsAbsent(ReplaceAll(text, rules[0].0, rules[0].1), rules[1..], q);
    }
  }

  /** No rule's replacement can take part in an occurrence of any rule's pattern. */
  ghost predicate Separated(rules: seq<Rule>) {
    forall i, j :: 0 <= i < |rules| && 0 <= j < |rules| ==> |rules[i].0| > 0 && NoMatchAcross(rules[i].1, rules[j].0)
  }

  /** With separated rules, no rule's pattern is left in the rewritten text. */
  lemma {:induction false} RewriteTokensClears(text: string, rules: seq<Rule>)
    requires Separated(rules)
    ensures forall k :: 0 <= k < |rules| ==> !Occurs(RewriteTokens(text, rules), rules[k].0)
    decreases |rules|
  {
    if |rules| > 0 {
      var (pat, rep) := rules[0];
      var t := ReplaceAll(text, pat, rep);
      var rest := rules[1..];
      assert forall k :: 0 <= k < |rest| ==> rest[k] == rules[k + 1];
      assert Separated(rest) by {
        forall i, j | 0 <= i < |rest| && 0 <= j < |rest|
          ensures |rest[i].0| > 0 && NoMatchAcross(rest[i].1, rest[j].0)
        {
          assert rest[i] == rules[i + 1] && rest[j] == rules[j + 1];
        }
      }
      RewriteTokensClears(t, rest);
      ReplaceAllLeavesNone(text, pat, rep, pat);
      forall k | 0 <= k < |rest|
        ensures |rest[k].0| > 0 && NoMatchAcross(rest[k].1, pat)
      {
        assert rest[k] == rules[k + 1];
      }
      RewriteTokensKeepsAbsent(t, rest, pat);
      forall k | 0 < k < |rules|
        ensures !Occurs(RewriteTokens(text, rules), rules[k].0)
      {
        assert rules[k] == rest[k - 1];
      }
    }
  }
}
