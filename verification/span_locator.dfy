/**
  The brace-depth locator of a PowerShell function definition: from the first
  occurrence of `function <name>` it scans forward counting braces, stops at the
  first closing brace that brings the count back to zero once an opening brace
  has been seen, and extends the span over the line breaks that follow.
*/
module SpanLocator {
  import opened Results
  import opened Errors
  import opened TextOps

  /** The located definition: `text[start..end]`, whose closing brace sits at `close`. */
  datatype Span = Span(start: nat, close: nat, end: nat)

  /** The opening text the locator searches for. */
  function Marker(name: string): (m: string)
    ensures |m| == |name| + 9 && m[9..] == name
  {
    "function " + name
  }

  /** The change a character makes to the brace count. */
  function Delta(c: char): int {
    if c == '{' then 1 else if c == '}' then -1 else 0
  }

  /** Net brace count of a string: opening braces minus closing braces. */
  function Net(s: string): int
    decreases |s|
  {
    if |s| == 0 then 0 else Net(s[..|s| - 1]) + Delta(s[|s| - 1])
  }

  predicate IsLineBreak(c: char) {
    c == '\r' || c == '\n'
  }

  /**
    Position `k` closes the definition opened at `start`: it holds a closing
    brace, an opening brace occurs in `src[start..k]`, and the count over
    `src[start..k + 1]` is zero. A closing brace met before any opening brace
    still lowers the count.
  */
  ghost predicate Closes(src: string, start: nat, k: nat) {
    start <= k < |src| && src[k] == '}' && '{' in src[start..k] && Net(src[start..k + 1]) == 0
  }

  /** No position from `start` on closes the definition. */
  ghost predicate NeverCloses(src: string, start: nat) {
    forall k: nat :: !Closes(src, start, k)
  }

  /**
    `sp` is what the locator promises for `name` in `src`: `sp.start` is the first
    occurrence of the marker, `sp.close` the least closing position after it, and
    `sp.end` the end of the maximal run of line breaks after the closing brace.
  */
  ghost predicate IsSpanOf(src: string, name: string, sp: Span) {
    && IsFirstOccurrence(src, Marker(name), sp.start)
    && Closes(src, sp.start, sp.close)
    && (forall k: nat :: sp.start <= k < sp.close ==> !Closes(src, sp.start, k))
    && sp.close < sp.end <= |src|
    && (forall j :: sp.close < j < sp.end ==> IsLineBreak(src[j]))
    && (sp.end == |src| || !IsLineBreak(src[sp.end]))
  }

  lemma NetSnoc(src: string, start: nat, idx: nat)
    requires start <= idx < |src|
    ensures Net(src[start..idx + 1]) == Net(src[start..idx]) + Delta(src[idx])
    ensures ('{' in src[start..idx + 1]) <==> ('{' in src[start..idx] || src[idx] == '{')
  {
    assert src[start..idx + 1][..idx - start] == src[start..idx];
    assert src[start..idx + 1] == src[start..idx] + [src[idx]];
  }

  /**
    The scanning loop. `count` and `inside` are the loop's brace count and
    "an opening brace has been seen" flag for `src[start..idx]`.
  */
  function ScanClose(src: string, start: nat, idx: nat, count: int, inside: bool): (r: Option<nat>)
    requires start <= idx <= |src|
    ensures r.Some? ==> idx <= r.value < |src| && src[r.value] == '}'
    decreases |src| - idx
  {
    if idx == |src| then None
    else if src[idx] == '{' then ScanClose(src, start, idx + 1, count + 1, true)
    else if src[idx] == '}' then
      if inside && count - 1 == 0 then Some(idx)
      else ScanClose(src, start, idx + 1, count - 1, inside)
    else ScanClose(src, start, idx + 1, count, inside)
  }

  /** With the loop state matching `src[start..idx]`, position `idx` closes exactly when the loop stops there. */
  lemma ClosesStep(src: string, start: nat, idx: nat, count: int, inside: bool)
    requires start <= idx < |src|
    requires count == Net(src[start..idx])
    requires inside == ('{' in src[start..idx])
    ensures Net(src[start..idx + 1]) == count + Delta(src[idx])
    ensures ('{' in src[start..idx + 1]) <==> (inside || src[idx] == '{')
    ensures Closes(src, start, idx) <==> (src[idx] == '}' && inside && count - 1 == 0)
  {
    NetSnoc(src, start, idx);
  }

  /**
    With the loop state matching `src[start..idx]` and no closing position before
    `idx`, the scan returns the least closing position, or none when there is none.
  */
  lemma {:induction false} ScanCloseLeast(src: string, start: nat, idx: nat, count: int, inside: bool)
    requires start <= idx <= |src|
    requires count == Net(src[start..idx])
    requires inside == ('{' in src[start..idx])
    requires forall k: nat :: start <= k < idx ==> !Closes(src, start, k)
    ensures ScanClose(src, start, idx, count, inside).Some? ==>
      && Closes(src, start, ScanClose(src, start, idx, count, inside).value)
      && forall k: nat :: start <= k < ScanClose(src, start, idx, count, inside).value ==> !Closes(src, start, k)
    ensures ScanClose(src, start, idx, count, inside).None? ==> NeverCloses(src, start)
    decreases |src| - idx
  {
    if idx < |src| {
      ClosesStep(src, start, idx, count, inside);
      if src[idx] == '{' {
        ScanCloseLeast(src, start, idx + 1, count + 1, true);
      } else if src[idx] == '}' {
        if !(inside && count - 1 == 0) {
          ScanCloseLeast(src, start, idx + 1, count - 1, inside);
        }
      } else {
        ScanCloseLeast(src, start, idx + 1, count, inside);
      }
    }
  }

  /** The scan passes over a stretch without braces unchanged. */
  lemma {:induction false} ScanSkipsPlain(src: string, start: nat, idx: nat, j: nat, count: int, inside: bool)
    requires start <= idx <= j <= |src|
    requires forall k :: idx <= k < j ==> src[k] != '{' && src[k] != '}'
    ensures ScanClose(src, start, idx, count, inside) == ScanClose(src, start, j, count, inside)
    decreases j - idx
  {
    if idx < j {
      ScanSkipsPlain(src, start, idx + 1, j, count, inside);
    }
  }

  /** The trailing loop: the end of the run of `\r` and `\n` that starts at `i`. */
  function SkipLineBreaks(src: string, i: nat): (r: nat)
    requires i <= |src|
    ensures i <= r <= |src|
    ensures forall j :: i <= j < r ==> IsLineBreak(src[j])
    ensures r == |src| || !IsLineBreak(src[r])
    decreases |src| - i
  {
    if i < |src| && IsLineBreak(src[i]) then SkipLineBreaks(src, i + 1) else i
  }

  /**
    `find_function_span`: the span of the definition of `name`, failing when the
    marker is absent or when the brace count never closes.
  */
  function Locate(src: string, name: string): (r: Result<Span, PatchError>)
    ensures r.Success? ==> r.value.start <= r.value.close < r.value.end <= |src|
    ensures r.Success? ==> IsSpanOf(src, name, r.value)
    ensures r.Failure? ==> r.error == DefinitionNotFound(name) || r.error == UnbalancedSpan(name)
    ensures r == Failure(DefinitionNotFound(name)) <==> !Occurs(src, Marker(name))
  {
    FindFirstSpec(src, Marker(name));
    match FindFirst(src, Marker(name))
    case None => Failure(DefinitionNotFound(name))
    case Some(start) =>
      ScanCloseLeast(src, start, start, 0, false);
      match ScanClose(src, start, start, 0, false)
      case None => Failure(UnbalancedSpan(name))
      case Some(close) => Success(Span(start, close, SkipLineBreaks(src, close + 1)))
  }

  /** Two spans that both meet the locator's promise are the same span. */
  lemma SpanUnique(src: string, name: string, s1: Span, s2: Span)
    requires IsSpanOf(src, name, s1) && IsSpanOf(src, name, s2)
    ensures s1 == s2
  {
    assert s1.start == s2.start by {
      assert !(s1.start < s2.start) && !(s2.start < s1.start);
    }
    assert s1.close == s2.close by {
      assert !(s1.close < s2.close) && !(s2.close < s1.close);
    }
    assert !(s1.end < s2.end) && !(s2.end < s1.end);
  }

  /** The locator finds every span that meets its promise. */
  lemma LocateComplete(src: string, name: string, sp: Span)
    requires IsSpanOf(src, name, sp)
    ensures Locate(src, name) == Success(sp)
  {
    FindFirstIs(src, Marker(name), sp.start);
    ScanCloseLeast(src, sp.start, sp.start, 0, false);
    assert !NeverCloses(src, sp.start) by {
      assert Closes(src, sp.start, sp.close);
    }
    var r := Locate(src, name);
    assert r.Success?;
    SpanUnique(src, name, r.value, sp);
  }

  /** The locator fails as unbalanced exactly when the marker occurs and nothing closes it. */
  lemma LocateUnbalanced(src: string, name: string)
    ensures Locate(src, name) == Failure(UnbalancedSpan(name)) <==>
      exists s: nat :: IsFirstOccurrence(src, Marker(name), s) && NeverCloses(src, s)
  {
    var m := Marker(name);
    FindFirstSpec(src, m);
    if Locate(src, name) == Failure(UnbalancedSpan(name)) {
      var s := FindFirst(src, m).value;
      ScanCloseLeast(src, s, s, 0, false);
      assert IsFirstOccurrence(src, m, s) && NeverCloses(src, s);
    }
    if exists s: nat :: IsFirstOccurrence(src, m, s) && NeverCloses(src, s) {
      var s: nat :| IsFirstOccurrence(src, m, s) && NeverCloses(src, s);
      FindFirstIs(src, m, s);
      ScanCloseLeast(src, s, s, 0, false);
    }
  }

  /** A closing position inside `p` closes the same way once `p` is embedded in `x + p + y`. */
  lemma ClosesFramed(x: string, p: string, y: string, k: nat)
    requires k < |p|
    ensures Closes(x + p + y, |x|, |x| + k) <==> Closes(p, 0, k)
  {
    var t := x + p + y;
    assert t[|x|..|x| + k + 1] == p[0..k + 1];
    assert t[|x|..|x| + k] == p[0..k];
  }

  /**
    A definition `p` whose own span is the whole of `p` keeps that span inside
    `x + p + y`, provided the marker does not occur earlier and `y` does not
    continue the run of line breaks.
  */
  lemma LocateFramed(x: string, p: string, y: string, name: string, close: nat)
    requires IsSpanOf(p, name, Span(0, close, |p|))
    requires forall j :: 0 <= j < |x| ==> !OccursAt(x + p + y, Marker(name), j)
    requires |y| == 0 || !IsLineBreak(y[0])
    ensures IsSpanOf(x + p + y, name, Span(|x|, |x| + close, |x| + |p|))
  {
    var t := x + p + y;
    var m := Marker(name);
    OccursAtFrame(x, p, y, m, 0);
    ClosesFramed(x, p, y, close);
    forall k: nat | |x| <= k < |x| + close
      ensures !Closes(t, |x|, k)
    {
      ClosesFramed(x, p, y, k - |x|);
    }
    forall j | |x| + close < j < |x| + |p|
      ensures IsLineBreak(t[j])
    {
      assert t[j] == p[j - |x|];
    }
    if |y| > 0 {
      assert t[|x| + |p|] == y[0];
    }
  }

  /** Nested braces are counted: the span ends at the brace that balances the first one. */
  lemma LocateNestedExample()
    ensures Locate("function F { { } }\r\nG", "F") == Success(Span(0, 17, 20))
  {
    var src := "function F { { } }\r\nG";
    assert Marker("F") == "function F";
    assert OccursAt(src, Marker("F"), 0);
    FindFirstIs(src, Marker("F"), 0);
    assert ScanClose(src, 0, 16, 1, true) == Some(17);
    assert ScanClose(src, 0, 14, 2, true) == Some(17);
    assert ScanClose(src, 0, 12, 1, true) == Some(17);
    assert ScanClose(src, 0, 11, 0, false) == Some(17);
    ScanSkipsPlain(src, 0, 0, 11, 0, false);
    assert SkipLineBreaks(src, 18) == 20;
  }

  /** A definition cut off before its closing brace is unbalanced. */
  lemma LocateTruncatedExample()
    ensures Locate(TruncatedSource, "Foo") == Failure(UnbalancedSpan("Foo"))
  {
    assert Marker("Foo") == "function Foo";
    assert OccursAt(TruncatedSource, Marker("Foo"), 0);
    FindFirstIs(TruncatedSource, Marker("Foo"), 0);
    TruncatedScan();
  }

  const TruncatedSource: string := "function Foo" + " {\r\n  x = 1\r\n"

  lemma TruncatedScan()
    ensures ScanClose(TruncatedSource, 0, 0, 0, false) == None
  {
    var src := TruncatedSource;
    assert src[13] == '{';
    ScanSkipsPlain(src, 0, 14, 25, 1, true);
    ScanSkipsPlain(src, 0, 0, 13, 0, false);
  }

  /**
    A closing brace before the first opening brace still lowers the count, so the
    later pair `{ }` brings it to -1, not 0, and the span is reported unbalanced.
  */
  lemma LocateStrayCloseExample()
    ensures Locate("function F } { }", "F") == Failure(UnbalancedSpan("F"))
  {
    var src := "function F } { }";
    assert Marker("F") == "function F";
    assert OccursAt(src, Marker("F"), 0);
    FindFirstIs(src, Marker("F"), 0);
    assert ScanClose(src, 0, 16, -1, true) == None;
    assert ScanClose(src, 0, 15, 0, true) == None;
    assert ScanClose(src, 0, 14, 0, true) == None;
    assert ScanClose(src, 0, 13, -1, false) == None;
    assert ScanClose(src, 0, 12, -1, false) == None;
    assert ScanClose(src, 0, 11, 0, false) == None;
    ScanSkipsPlain(src, 0, 0, 11, 0, false);
  }
}
