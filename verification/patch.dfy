/**
  The patch steps, each a function from the buffer to the buffer (or to the
  error that aborts the run), threaded in the order the script applies them:
  the narrow-character constants, the provider helper, the bulk-insert
  provider block, and the parameter-type variables of the two call sites.
*/
module Patch {
  import opened Results
  import opened Errors
  import opened TextOps
  import opened SpanLocator
  import opened Payloads
  import opened TokenRules

  // ---------------------------------------------------------------------------
  // Guarded constant insertion

  /**
    Adds the narrow-character constants by replacing the first occurrence of the
    two-line anchor, unless `$script:AdTypeVarChar` is already present. An absent
    anchor leaves the text unchanged without an error.
  */
  function EnsureConstants(text: string): (r: string)
    ensures Occurs(text, VarCharMarker) ==> r == text
    ensures !Occurs(text, VarCharMarker) && !Occurs(text, ConstAnchor) ==> r == text
    ensures !Occurs(text, VarCharMarker) ==> forall i :: IsFirstOccurrence(text, ConstAnchor, i) ==>
      && |r| == |text| - |ConstAnchor| + |ConstReplacement|
      && r[..i] == text[..i]
      && OccursAt(r, ConstReplacement, i)
      && r[i + |ConstReplacement|..] == text[i + |ConstAnchor|..]
  {
    if Contains(text, VarCharMarker) then text else ReplaceFirst(text, ConstAnchor, ConstReplacement)
  }

  /** The replacement text defines `$script:AdTypeVarChar`, right after the first anchor line. */
  lemma ReplacementDefinesVarChar()
    ensures OccursAt(ConstReplacement, VarCharMarker, |ConstReplacementHead|)
  {
    assert OccursAt(VarCharMarker, VarCharMarker, 0);
    OccursAtFrame(ConstReplacementHead, VarCharMarker, ConstReplacementTail, VarCharMarker, 0);
  }

  /** Once the anchor is present the constants are defined afterwards. */
  lemma EnsureConstantsDefines(text: string)
    requires Occurs(text, ConstAnchor)
    ensures Occurs(EnsureConstants(text), VarCharMarker)
  {
    if !Occurs(text, VarCharMarker) {
      FindFirstSpec(text, ConstAnchor);
      var i := FindFirst(text, ConstAnchor).value;
      ReplacementDefinesVarChar();
      OccursAtNested(EnsureConstants(text), ConstReplacement, VarCharMarker, i, |ConstReplacementHead|);
    }
  }

  /** The guarded insertion is idempotent. */
  lemma EnsureConstantsIdempotent(text: string)
    ensures EnsureConstants(EnsureConstants(text)) == EnsureConstants(text)
  {
    if Occurs(text, ConstAnchor) {
      EnsureConstantsDefines(text);
    }
  }

  /** A text without `q` still lacks it after the guarded insertion, when the replacement cannot complete `q`. */
  lemma EnsureConstantsKeepsAbsent(text: string, q: string)
    requires NoMatchAcross(ConstReplacement, q) && !Occurs(text, q)
    ensures !Occurs(EnsureConstants(text), q)
  {
    if !Occurs(text, VarCharMarker) {
      ReplaceFirstKeepsAbsent(text, ConstAnchor, ConstReplacement, q);
    }
  }

  // The character facts below are split by literal: one fact about a long
  // literal costs the solver far more than several about its parts.

  lemma ConstReplacementHeadLacksF()
    ensures Lacks(ConstReplacementHead, 'f') && Lacks(VarCharMarker, 'f')
  {
  }

  lemma LongVarCharLineLacksF()
    ensures Lacks("$script:AdTypeLongVarChar = 201", 'f')
  {
  }

  lemma ConstReplacementTailLacksF()
    ensures Lacks(ConstReplacementTail, 'f')
  {
    var line := "$script:AdTypeLongVarChar = 201";
    LongVarCharLineLacksF();
    assert Lacks(" = 200" + CRLF + Indent, 'f') && Lacks(CRLF + Indent, 'f') && Lacks(MemoTypeConst + " = 203", 'f');
    LacksConcat(" = 200" + CRLF + Indent, line, 'f');
    LacksConcat(" = 200" + CRLF + Indent + line, CRLF + Indent, 'f');
    SeqAssoc(" = 200" + CRLF + Indent + line, CRLF, Indent, CRLF + Indent);
    LacksConcat(" = 200" + CRLF + Indent + line + CRLF + Indent, MemoTypeConst + " = 203", 'f');
    SeqAssoc(" = 200" + CRLF + Indent + line + CRLF + Indent, MemoTypeConst, " = 203", MemoTypeConst + " = 203");
  }

  lemma HelperMarkerLacksDollar()
    ensures Lacks(HelperMarker, '$')
  {
  }

  lemma HelperAnchorLacksDollar()
    ensures Lacks(HelperAnchor, '$')
  {
  }

  /**
    The constants cannot complete a helper definition or its anchor: the
    replacement holds no `f`, and neither line holds a `$`.
  */
  lemma ConstReplacementSeparated()
    ensures NoMatchAcross(ConstReplacement, HelperMarker)
    ensures NoMatchAcross(ConstReplacement, HelperAnchor)
  {
    ConstReplacementHeadLacksF();
    ConstReplacementTailLacksF();
    LacksConcat(ConstReplacementHead, VarCharMarker, 'f');
    LacksConcat(ConstReplacementHead + VarCharMarker, ConstReplacementTail, 'f');
    HelperMarkerLacksDollar();
    HelperAnchorLacksDollar();
    NoMatchAcrossByFirstChars(ConstReplacement, HelperMarker);
    NoMatchAcrossByFirstChars(ConstReplacement, HelperAnchor);
  }

  // ---------------------------------------------------------------------------
  // Anchor-relative insertion and insert-or-replace of a definition

  /** `text[:idx] + payload + text[idx:]` at the first occurrence of `anchor`, failing when it is absent. */
  function InsertBeforeAnchor(text: string, anchor: string, payload: string): (r: Result<string, PatchError>)
    ensures r.Failure? <==> !Occurs(text, anchor)
    ensures r.Failure? ==> r.error == AnchorNotFound(anchor)
    ensures forall idx :: IsFirstOccurrence(text, anchor, idx) ==>
      && r.Success?
      && |r.value| == |text| + |payload|
      && r.value[..idx] == text[..idx]
      && OccursAt(r.value, payload, idx)
      && r.value[idx + |payload|..] == text[idx..]
  {
    FindFirstSpec(text, anchor);
    FindFirstIsAny(text, anchor);
    match FindFirst(text, anchor)
    case None => Failure(AnchorNotFound(anchor))
    case Some(idx) => Success(Splice(text, idx, idx, payload))
  }

  /** The anchor is still there, moved past the inserted payload. */
  lemma InsertKeepsAnchor(text: string, anchor: string, payload: string, idx: int)
    requires IsFirstOccurrence(text, anchor, idx)
    ensures OccursAt(InsertBeforeAnchor(text, anchor, payload).value, anchor, idx + |payload|)
  {
    var r := InsertBeforeAnchor(text, anchor, payload).value;
    forall k | 0 <= k < |anchor|
      ensures r[idx + |payload| + k] == anchor[k]
    {
      assert r[idx + |payload|..][k] == text[idx..][k];
    }
  }

  /** Replaces the located definition of `name` by `payload`: `text[:start] + payload + text[end:]`. */
  function ReplaceDefinition(text: string, name: string, payload: string): (r: Result<string, PatchError>)
    ensures r.Failure? ==> r.error == DefinitionNotFound(name) || r.error == UnbalancedSpan(name)
    ensures r == Failure(DefinitionNotFound(name)) <==> !Occurs(text, Marker(name))
  {
    var sp :- Locate(text, name);
    Success(Splice(text, sp.start, sp.end, payload))
  }

  /** Every span meeting the locator's promise is the one replaced. */
  lemma ReplaceDefinitionSpan(text: string, name: string, payload: string, sp: Span)
    requires IsSpanOf(text, name, sp)
    ensures ReplaceDefinition(text, name, payload) == Success(Splice(text, sp.start, sp.end, payload))
  {
    LocateComplete(text, name, sp);
  }

  /**
    Inserts `provider` before `function Test-IsAdodbConnection {` when
    `function Get-InterfaceBulkProviderInfo` is absent, replaces that definition's
    span otherwise, and fails if the marker is still absent afterwards.
  */
  function EnsureHelperWith(text: string, provider: string): (r: Result<string, PatchError>)
    ensures r.Failure? ==>
      r.error == AnchorNotFound(HelperAnchor) || r.error == UnbalancedSpan(HelperName) || r.error == HelperMissing(HelperName)
    ensures !Occurs(text, HelperMarker) ==> (r == Failure(AnchorNotFound(HelperAnchor)) <==> !Occurs(text, HelperAnchor))
    ensures r.Success? ==> Occurs(r.value, HelperMarker)
  {
    var placed :-
      if !Contains(text, HelperMarker) then InsertBeforeAnchor(text, HelperAnchor, provider)
      else ReplaceDefinition(text, HelperName, provider);
    if !Contains(placed, HelperMarker) then Failure(HelperMissing(HelperName)) else Success(placed)
  }

  /** The helper definition the patcher writes opens with its own marker. */
  lemma ProviderTextOpensWithMarker(body: string)
    ensures OccursAt(ProviderText(body), HelperMarker, 0)
  {
    OccursAtStart(HelperMarker, " {\r\n" + body);
    SeqAssoc(HelperMarker, " {\r\n", body, " {\r\n" + body);
  }

  /** A provider opening with the marker is inserted before the anchor when the helper is absent. */
  lemma EnsureHelperInserts(text: string, provider: string, idx: int)
    requires OccursAt(provider, HelperMarker, 0)
    requires !Occurs(text, HelperMarker)
    requires IsFirstOccurrence(text, HelperAnchor, idx)
    ensures EnsureHelperWith(text, provider) == Success(text[..idx] + provider + text[idx..])
  {
    FindFirstIs(text, HelperAnchor, idx);
    var placed := text[..idx] + provider + text[idx..];
    assert InsertBeforeAnchor(text, HelperAnchor, provider) == Success(placed);
    OccursAtFrame(text[..idx], provider, text[idx..], HelperMarker, 0);
  }

  /** A provider opening with the marker replaces the located span when the helper is present. */
  lemma EnsureHelperReplaces(text: string, provider: string, sp: Span)
    requires OccursAt(provider, HelperMarker, 0)
    requires IsSpanOf(text, HelperName, sp)
    ensures EnsureHelperWith(text, provider) == Success(Splice(text, sp.start, sp.end, provider))
  {
    ReplaceDefinitionSpan(text, HelperName, provider, sp);
    OccursAtNested(Splice(text, sp.start, sp.end, provider), provider, HelperMarker, sp.start, 0);
  }

  /** With a provider opening with the marker, the post-check never fails. */
  lemma EnsureHelperNeverMissing(text: string, provider: string)
    requires OccursAt(provider, HelperMarker, 0)
    ensures EnsureHelperWith(text, provider) != Failure(HelperMissing(HelperName))
  {
    if !Occurs(text, HelperMarker) {
      if Occurs(text, HelperAnchor) {
        FindFirstSpec(text, HelperAnchor);
        EnsureHelperInserts(text, provider, FindFirst(text, HelperAnchor).value);
      }
    } else if Locate(text, HelperName).Success? {
      EnsureHelperReplaces(text, provider, Locate(text, HelperName).value);
    }
  }

  /**
    Splicing a text that opens with `pat` over a first occurrence of `pat`
    creates no earlier occurrence.
  */
  lemma NoEarlierOccurrence(text: string, pat: string, s: nat, e: nat, payload: string)
    requires IsFirstOccurrence(text, pat, s)
    requires s <= e <= |text|
    requires OccursAt(payload, pat, 0)
    ensures forall j :: 0 <= j < s ==> !OccursAt(text[..s] + payload + text[e..], pat, j)
  {
    var t := text[..s] + payload + text[e..];
    forall j | 0 <= j < s && OccursAt(t, pat, j)
      ensures false
    {
      forall k | 0 <= k < |pat|
        ensures text[j + k] == pat[k]
      {
        if j + k >= s {
          assert t[j + k] == payload[j + k - s] == pat[j + k - s] == text[s + (j + k - s)];
        }
      }
      assert OccursAt(text, pat, j);
    }
  }

  /** Two occurrences of the helper's opening line never overlap. */
  lemma HelperMarkerNoSelfOverlap()
    ensures NoSelfOverlap(HelperMarker)
  {
    var pat := HelperMarker;
    forall s | 0 < s < |pat|
      ensures !PartialAt(pat, pat, s)
    {
      if pat[s] != pat[0] {
        assert pat[s + 0] != pat[0];
      } else {
        assert pat[s + 1] != pat[1];
      }
    }
  }

  /**
    A provider that is its own whole definition, framed so that it holds the
    first marker and is not followed by a line break, is replaced by itself.
  */
  lemma EnsureHelperKeepsFramed(x: string, provider: string, y: string, close: nat)
    requires OccursAt(provider, HelperMarker, 0)
    requires IsSpanOf(provider, HelperName, Span(0, close, |provider|))
    requires forall j :: 0 <= j < |x| ==> !OccursAt(x + provider + y, HelperMarker, j)
    requires |y| == 0 || !IsLineBreak(y[0])
    ensures EnsureHelperWith(x + provider + y, provider) == Success(x + provider + y)
  {
    var t := x + provider + y;
    LocateFramed(x, provider, y, HelperName, close);
    EnsureHelperReplaces(t, provider, Span(|x|, |x| + close, |x| + |provider|));
    SpliceFramed(x, provider, y);
  }

  /** The step is idempotent on a text that already defines the helper. */
  lemma EnsureHelperIdempotentWhenPresent(text: string, provider: string, close: nat)
    requires OccursAt(provider, HelperMarker, 0)
    requires IsSpanOf(provider, HelperName, Span(0, close, |provider|))
    requires Occurs(text, HelperMarker)
    requires EnsureHelperWith(text, provider).Success?
    ensures EnsureHelperWith(EnsureHelperWith(text, provider).value, provider) == EnsureHelperWith(text, provider)
  {
    var sp := Locate(text, HelperName).value;
    EnsureHelperReplaces(text, provider, sp);
    var x, y := text[..sp.start], text[sp.end..];
    var t1 := x + provider + y;
    assert EnsureHelperWith(text, provider) == Success(t1);
    NoEarlierOccurrence(text, HelperMarker, sp.start, sp.end, provider);
    if |y| > 0 {
      assert y[0] == text[sp.end];
    }
    EnsureHelperKeepsFramed(x, provider, y, close);
  }

  /**
    The step is idempotent on a text it inserted the helper into: the inserted
    definition is the first one, and it ends right before the anchor's `f`.
  */
  lemma EnsureHelperIdempotentWhenInserted(text: string, provider: string, close: nat)
    requires OccursAt(provider, HelperMarker, 0)
    requires IsSpanOf(provider, HelperName, Span(0, close, |provider|))
    requires !Occurs(text, HelperMarker) && Occurs(text, HelperAnchor)
    ensures EnsureHelperWith(text, provider).Success?
    ensures EnsureHelperWith(EnsureHelperWith(text, provider).value, provider) == EnsureHelperWith(text, provider)
  {
    FindFirstSpec(text, HelperAnchor);
    var idx := FindFirst(text, HelperAnchor).value;
    EnsureHelperInserts(text, provider, idx);
    var x, y := text[..idx], text[idx..];
    var t1 := x + provider + y;
    NoOccurrenceInSlice(text, 0, idx, HelperMarker);
    assert x == text[0..idx];
    HelperMarkerNoSelfOverlap();
    NoOccurrenceBeforeInsert(x, provider, y, HelperMarker);
    assert y[0] == HelperAnchor[0];
    EnsureHelperKeepsFramed(x, provider, y, close);
  }

  /**
    When the provider's own span is the whole provider, running the step again
    on its result leaves the text as it is, whether the first run replaced the
    helper or inserted it.
  */
  lemma EnsureHelperIdempotent(text: string, provider: string, close: nat)
    requires OccursAt(provider, HelperMarker, 0)
    requires IsSpanOf(provider, HelperName, Span(0, close, |provider|))
    requires EnsureHelperWith(text, provider).Success?
    ensures EnsureHelperWith(EnsureHelperWith(text, provider).value, provider) == EnsureHelperWith(text, provider)
  {
    if Occurs(text, HelperMarker) {
      EnsureHelperIdempotentWhenPresent(text, provider, close);
    } else {
      EnsureHelperIdempotentWhenInserted(text, provider, close);
    }
  }

  /** The provider-helper step as the script runs it. */
  function EnsureHelper(text: string, body: string): (r: Result<string, PatchError>)
    ensures r.Failure? ==> r.error == AnchorNotFound(HelperAnchor) || r.error == UnbalancedSpan(HelperName)
  {
    ProviderTextOpensWithMarker(body);
    EnsureHelperNeverMissing(text, ProviderText(body));
    EnsureHelperWith(text, ProviderText(body))
  }

  // ---------------------------------------------------------------------------
  // Rewriting inside a located definition

  /** The definition of `name` is located, and `pat` does not occur in it. */
  ghost predicate LocatedLacks(text: string, name: string, pat: string) {
    && Locate(text, name).Success?
    && var sp := Locate(text, name).value;
    !Occurs(text[sp.start..sp.end], pat)
  }

  /** `r` is `text` with the span `sp` replaced: the text before and after the span is kept. */
  ghost predicate KeepsOutside(text: string, sp: Span, r: string) {
    && sp.start <= sp.end <= |text|
    && sp.start + (|text| - sp.end) <= |r|
    && r[..sp.start] == text[..sp.start]
    && r[|r| - (|text| - sp.end)..] == text[sp.end..]
  }

  lemma SpliceKeepsOutsideSpan(text: string, sp: Span, func: string)
    requires sp.start <= sp.end <= |text|
    ensures KeepsOutside(text, sp, Splice(text, sp.start, sp.end, func))
  {
    var r := Splice(text, sp.start, sp.end, func);
    assert r[|r| - (|text| - sp.end)..] == r[sp.start + |func|..];
  }

  /**
    The definition text with `block` standing for `func[i..i + n]`, and the token
    rules applied to the original text on either side of it only.
  */
  function RewriteAround(func: string, i: nat, n: nat, block: string, rules: seq<Rule>): (r: string)
    requires i + n <= |func|
    ensures OccursAt(r, block, |RewriteTokens(func[..i], rules)|)
  {
    RewriteTokens(func[..i], rules) + block + RewriteTokens(func[i + n..], rules)
  }

  /** The errors a block rewrite inside the definition of `name` can report. */
  predicate BlockError(e: PatchError, name: string) {
    e == DefinitionNotFound(name) || e == UnbalancedSpan(name) || e == BlockNotFound(name)
  }

  /**
    A block rewrite as the script writes it: replace the first `oldBlock` of the
    definition of `name` by `newBlock`, then apply `rules` to the whole definition,
    `newBlock` included.
  */
  function ReplaceBlockAsWritten(text: string, name: string, oldBlock: string, newBlock: string, rules: seq<Rule>): (r: Result<string, PatchError>)
    ensures r.Failure? ==> BlockError(r.error, name)
    ensures r == Failure(DefinitionNotFound(name)) <==> !Occurs(text, Marker(name))
    ensures r.Success? ==> Locate(text, name).Success? && KeepsOutside(text, Locate(text, name).value, r.value)
    ensures r == Failure(BlockNotFound(name)) <==> LocatedLacks(text, name, oldBlock)
  {
    var sp :- Locate(text, name);
    ReplaceBlockInSpanAsWritten(text, sp, name, oldBlock, newBlock, rules)
  }

  /** The written block rewrite inside the located span `sp`. */
  function ReplaceBlockInSpanAsWritten(text: string, sp: Span, name: string, oldBlock: string, newBlock: string, rules: seq<Rule>): (r: Result<string, PatchError>)
    requires sp.start <= sp.end <= |text|
    ensures r.Failure? <==> !Occurs(text[sp.start..sp.end], oldBlock)
    ensures r.Failure? ==> r.error == BlockNotFound(name)
    ensures r.Success? ==> KeepsOutside(text, sp, r.value)
  {
    var func := text[sp.start..sp.end];
    if !Contains(func, oldBlock) then Failure(BlockNotFound(name))
    else
      var edited := RewriteTokens(ReplaceFirst(func, oldBlock, newBlock), rules);
      SpliceKeepsOutsideSpan(text, sp, edited);
      Success(Splice(text, sp.start, sp.end, edited))
  }

  /**
    A block rewrite as intended: `newBlock` replaces the first `oldBlock` of the
    definition of `name` verbatim, and `rules` rewrite the rest of the definition.
  */
  function ReplaceBlock(text: string, name: string, oldBlock: string, newBlock: string, rules: seq<Rule>): (r: Result<string, PatchError>)
    ensures r.Failure? ==> BlockError(r.error, name)
    ensures r == Failure(DefinitionNotFound(name)) <==> !Occurs(text, Marker(name))
    ensures r.Success? ==> Locate(text, name).Success? && KeepsOutside(text, Locate(text, name).value, r.value)
    ensures r.Success? ==> Occurs(r.value, newBlock)
    ensures r == Failure(BlockNotFound(name)) <==> LocatedLacks(text, name, oldBlock)
  {
    var sp :- Locate(text, name);
    ReplaceBlockInSpan(text, sp, name, oldBlock, newBlock, rules)
  }

  /** The intended block rewrite inside the located span `sp`. */
  function ReplaceBlockInSpan(text: string, sp: Span, name: string, oldBlock: string, newBlock: string, rules: seq<Rule>): (r: Result<string, PatchError>)
    requires sp.start <= sp.end <= |text|
    ensures r.Failure? <==> !Occurs(text[sp.start..sp.end], oldBlock)
    ensures r.Failure? ==> r.error == BlockNotFound(name)
    ensures r.Success? ==> KeepsOutside(text, sp, r.value) && Occurs(r.value, newBlock)
  {
    var func := text[sp.start..sp.end];
    FindFirstSpec(func, oldBlock);
    match FindFirst(func, oldBlock)
    case None => Failure(BlockNotFound(name))
    case Some(i) =>
      var edited := RewriteAround(func, i, |oldBlock|, newBlock, rules);
      SpliceKeepsOutsideSpan(text, sp, edited);
      OccursAtNested(Splice(text, sp.start, sp.end, edited), edited, newBlock, sp.start, |RewriteTokens(func[..i], rules)|);
      Success(Splice(text, sp.start, sp.end, edited))
  }

  /** The bulk-insert step as written (lines 133-184). */
  function RewriteBulkInsertAsWritten(text: string): (r: Result<string, PatchError>)
    ensures r.Failure? ==> BlockError(r.error, BulkName)
    ensures r == Failure(BlockNotFound(BulkName)) <==> LocatedLacks(text, BulkName, OldBlock)
  {
    ReplaceBlockAsWritten(text, BulkName, OldBlock, NewBlock, BulkRules)
  }

  /** The bulk-insert step as intended: the new provider block is kept verbatim. */
  function RewriteBulkInsert(text: string): (r: Result<string, PatchError>)
    ensures r.Failure? ==> BlockError(r.error, BulkName)
    ensures r == Failure(BlockNotFound(BulkName)) <==> LocatedLacks(text, BulkName, OldBlock)
    ensures r.Success? ==> Occurs(r.value, NewBlock)
  {
    ReplaceBlock(text, BulkName, OldBlock, NewBlock, BulkRules)
  }

  /** The first `oldBlock` of the definition of `name` begins a line. */
  ghost predicate BlockStartsLine(text: string, name: string, oldBlock: string) {
    && Locate(text, name).Success?
    && var sp := Locate(text, name).value;
    && FindFirst(text[sp.start..sp.end], oldBlock).Some?
    && EndsLine(text[sp.start..sp.end][..FindFirst(text[sp.start..sp.end], oldBlock).value])
  }

  /** Both block rewrites inside a span, once the block in it is found. */
  lemma ReplaceBlockInSpanUnfold(text: string, sp: Span, name: string, oldBlock: string, newBlock: string,
                                 rules: seq<Rule>, func: string, i: nat)
    requires sp.start <= sp.end <= |text|
    requires func == text[sp.start..sp.end]
    requires FindFirst(func, oldBlock) == Some(i)
    ensures i + |oldBlock| <= |func|
    ensures ReplaceBlockInSpanAsWritten(text, sp, name, oldBlock, newBlock, rules)
      == Success(Splice(text, sp.start, sp.end, RewriteTokens(ReplaceFirst(func, oldBlock, newBlock), rules)))
    ensures ReplaceBlockInSpan(text, sp, name, oldBlock, newBlock, rules)
      == Success(Splice(text, sp.start, sp.end, RewriteAround(func, i, |oldBlock|, newBlock, rules)))
  {
  }

  /**
    When the replaced block begins a line and the rules are line-local, the
    written and the intended rewrites differ only in the new block: the written
    one applies the rules to it, the intended one keeps it verbatim.
  */
  lemma ReplaceBlockRelation(text: string, name: string, oldBlock: string, newBlock: string, rules: seq<Rule>)
    requires LineLocal(rules) && EndsLine(newBlock)
    requires BlockStartsLine(text, name, oldBlock)
    ensures
      var sp := Locate(text, name).value;
      var func := text[sp.start..sp.end];
      var i := FindFirst(func, oldBlock).value;
      && ReplaceBlockAsWritten(text, name, oldBlock, newBlock, rules)
         == Success(Splice(text, sp.start, sp.end,
              RewriteTokens(func[..i], rules) + RewriteTokens(newBlock, rules) + RewriteTokens(func[i + |oldBlock|..], rules)))
      && ReplaceBlock(text, name, oldBlock, newBlock, rules)
         == Success(Splice(text, sp.start, sp.end,
              RewriteTokens(func[..i], rules) + newBlock + RewriteTokens(func[i + |oldBlock|..], rules)))
  {
    var sp := Locate(text, name).value;
    var func := text[sp.start..sp.end];
    var i := FindFirst(func, oldBlock).value;
    ReplaceBlockInSpanUnfold(text, sp, name, oldBlock, newBlock, rules, func, i);
    ReplaceFirstAt(func, oldBlock, newBlock, i);
    RewriteTokensSplit(func[..i], newBlock, func[i + |oldBlock|..], rules);
  }

  // ---------------------------------------------------------------------------
  // Insertion after the parameter list

  /** The errors an insertion inside the definition of `name` can report. */
  predicate InsertError(e: PatchError, name: string) {
    e == DefinitionNotFound(name) || e == UnbalancedSpan(name) || e == InsertionPointNotFound(name)
  }

  /**
    An insertion as the script writes it: put `block` right after the first
    `mark` of the definition of `name`, then apply `rules` to the whole
    definition, `block` included.
  */
  function InsertAfterAsWritten(text: string, name: string, mark: string, block: string, rules: seq<Rule>): (r: Result<string, PatchError>)
    ensures r.Failure? ==> InsertError(r.error, name)
    ensures r == Failure(DefinitionNotFound(name)) <==> !Occurs(text, Marker(name))
    ensures r.Success? ==> Locate(text, name).Success? && KeepsOutside(text, Locate(text, name).value, r.value)
    ensures r == Failure(InsertionPointNotFound(name)) <==> LocatedLacks(text, name, mark)
  {
    var sp :- Locate(text, name);
    InsertAfterInSpanAsWritten(text, sp, name, mark, block, rules)
  }

  /** The written insertion inside the located span `sp`. */
  function InsertAfterInSpanAsWritten(text: string, sp: Span, name: string, mark: string, block: string, rules: seq<Rule>): (r: Result<string, PatchError>)
    requires sp.start <= sp.end <= |text|
    ensures r.Failure? <==> !Occurs(text[sp.start..sp.end], mark)
    ensures r.Failure? ==> r.error == InsertionPointNotFound(name)
    ensures r.Success? ==> KeepsOutside(text, sp, r.value)
  {
    var func := text[sp.start..sp.end];
    FindFirstSpec(func, mark);
    match FindFirst(func, mark)
    case None => Failure(InsertionPointNotFound(name))
    case Some(m) =>
      var p := m + |mark|;
      var edited := RewriteTokens(func[..p] + block + func[p..], rules);
      SpliceKeepsOutsideSpan(text, sp, edited);
      Success(Splice(text, sp.start, sp.end, edited))
  }

  /**
    An insertion as intended: `block` goes verbatim right after the first `mark`
    of the definition of `name`, and `rules` rewrite the definition's own text.
  */
  function InsertAfter(text: string, name: string, mark: string, block: string, rules: seq<Rule>): (r: Result<string, PatchError>)
    ensures r.Failure? ==> InsertError(r.error, name)
    ensures r == Failure(DefinitionNotFound(name)) <==> !Occurs(text, Marker(name))
    ensures r.Success? ==> Locate(text, name).Success? && KeepsOutside(text, Locate(text, name).value, r.value)
    ensures r.Success? ==> Occurs(r.value, block)
    ensures r == Failure(InsertionPointNotFound(name)) <==> LocatedLacks(text, name, mark)
  {
    var sp :- Locate(text, name);
    InsertAfterInSpan(text, sp, name, mark, block, rules)
  }

  /** The intended insertion inside the located span `sp`. */
  function InsertAfterInSpan(text: string, sp: Span, name: string, mark: string, block: string, rules: seq<Rule>): (r: Result<string, PatchError>)
    requires sp.start <= sp.end <= |text|
    ensures r.Failure? <==> !Occurs(text[sp.start..sp.end], mark)
    ensures r.Failure? ==> r.error == InsertionPointNotFound(name)
    ensures r.Success? ==> KeepsOutside(text, sp, r.value) && Occurs(r.value, block)
  {
    var func := text[sp.start..sp.end];
    FindFirstSpec(func, mark);
    match FindFirst(func, mark)
    case None => Failure(InsertionPointNotFound(name))
    case Some(m) =>
      var p := m + |mark|;
      var edited := RewriteAround(func, p, 0, block, rules);
      SpliceKeepsOutsideSpan(text, sp, edited);
      OccursAtNested(Splice(text, sp.start, sp.end, edited), edited, block, sp.start, |RewriteTokens(func[..p], rules)|);
      Success(Splice(text, sp.start, sp.end, edited))
  }

  /** The written insertion inside a span, once the mark in it is found. */
  lemma InsertAfterInSpanAsWrittenUnfold(text: string, sp: Span, name: string, mark: string, block: string,
                                         rules: seq<Rule>, func: string, m: nat)
    requires sp.start <= sp.end <= |text|
    requires func == text[sp.start..sp.end]
    requires FindFirst(func, mark) == Some(m) && m + |mark| <= |func|
    ensures InsertAfterInSpanAsWritten(text, sp, name, mark, block, rules)
      == Success(Splice(text, sp.start, sp.end, RewriteTokens(func[..m + |mark|] + block + func[m + |mark|..], rules)))
  {
  }

  /** The intended insertion inside a span, once the mark in it is found. */
  lemma InsertAfterInSpanUnfold(text: string, sp: Span, name: string, mark: string, block: string,
                                rules: seq<Rule>, func: string, m: nat)
    requires sp.start <= sp.end <= |text|
    requires func == text[sp.start..sp.end]
    requires FindFirst(func, mark) == Some(m) && m + |mark| <= |func|
    ensures InsertAfterInSpan(text, sp, name, mark, block, rules)
      == Success(Splice(text, sp.start, sp.end, RewriteAround(func, m + |mark|, 0, block, rules)))
  {
  }

  /** A mark that ends a line leaves the text up to its end ending a line. */
  lemma MarkEndsLine(func: string, mark: string, m: nat)
    requires |mark| > 0 && EndsLine(mark) && OccursAt(func, mark, m)
    ensures EndsLine(func[..m + |mark|])
  {
    assert func[..m + |mark|][m + |mark| - 1] == func[m + (|mark| - 1)] == mark[|mark| - 1];
  }

  /**
    With a mark that ends a line and line-local rules, the written and the
    intended insertions differ only in the block: the written one applies the
    rules to it, the intended one keeps it verbatim.
  */
  lemma InsertAfterRelation(text: string, name: string, mark: string, block: string, rules: seq<Rule>)
    requires LineLocal(rules) && EndsLine(block) && |mark| > 0 && EndsLine(mark)
    requires Locate(text, name).Success?
    requires var sp := Locate(text, name).value; FindFirst(text[sp.start..sp.end], mark).Some?
    ensures
      var sp := Locate(text, name).value;
      var func := text[sp.start..sp.end];
      var p := FindFirst(func, mark).value + |mark|;
      && InsertAfterAsWritten(text, name, mark, block, rules)
         == Success(Splice(text, sp.start, sp.end,
              RewriteTokens(func[..p], rules) + RewriteTokens(block, rules) + RewriteTokens(func[p..], rules)))
      && InsertAfter(text, name, mark, block, rules)
         == Success(Splice(text, sp.start, sp.end,
              RewriteTokens(func[..p], rules) + block + RewriteTokens(func[p..], rules)))
  {
    var sp := Locate(text, name).value;
    var func := text[sp.start..sp.end];
    var m := FindFirst(func, mark).value;
    var p := m + |mark|;
    InsertAfterInSpanAsWrittenUnfold(text, sp, name, mark, block, rules, func, m);
    InsertAfterInSpanUnfold(text, sp, name, mark, block, rules, func, m);
    MarkEndsLine(func, mark, m);
    RewriteTokensSplit(func[..p], block, func[p..], rules);
  }

  /** The insertion into one call site as written (lines 206-217). */
  function RewriteCallSiteAsWritten(text: string, name: string): (r: Result<string, PatchError>)
    ensures r.Failure? ==> InsertError(r.error, name)
    ensures r == Failure(DefinitionNotFound(name)) <==> !Occurs(text, Marker(name))
    ensures r == Failure(InsertionPointNotFound(name)) <==> LocatedLacks(text, name, ParamListClose)
  {
    InsertAfterAsWritten(text, name, ParamListClose, InsertBlock, TypeRules)
  }

  /** The insertion into one call site as intended: the inserted block is kept verbatim. */
  function RewriteCallSite(text: string, name: string): (r: Result<string, PatchError>)
    ensures r.Failure? ==> InsertError(r.error, name)
    ensures r == Failure(DefinitionNotFound(name)) <==> !Occurs(text, Marker(name))
    ensures r == Failure(InsertionPointNotFound(name)) <==> LocatedLacks(text, name, ParamListClose)
    ensures r.Success? ==> Occurs(r.value, InsertBlock)
  {
    InsertAfter(text, name, ParamListClose, InsertBlock, TypeRules)
  }

  /** An error naming a later call site names one of all the call sites. */
  lemma LaterSiteError(r: Result<string, PatchError>, names: seq<string>)
    requires |names| > 0
    requires r.Failure? ==> exists k :: 0 <= k < |names[1..]| && InsertError(r.error, names[1..][k])
    ensures r.Failure? ==> exists k :: 0 <= k < |names| && InsertError(r.error, names[k])
  {
    if r.Failure? {
      var k :| 0 <= k < |names[1..]| && InsertError(r.error, names[1..][k]);
      assert names[1..][k] == names[k + 1];
    }
  }

  /** The loop over the call sites as written, stopping at the first error. */
  function RewriteCallSitesAsWritten(text: string, names: seq<string>): (r: Result<string, PatchError>)
    ensures r.Failure? ==> exists k :: 0 <= k < |names| && InsertError(r.error, names[k])
    decreases |names|
  {
    if |names| == 0 then Success(text)
    else
      var next :- RewriteCallSiteAsWritten(text, names[0]);
      var r := RewriteCallSitesAsWritten(next, names[1..]);
      LaterSiteError(r, names);
      r
  }

  /** The loop over the call sites as intended, stopping at the first error. */
  function RewriteCallSites(text: string, names: seq<string>): (r: Result<string, PatchError>)
    ensures r.Failure? ==> exists k :: 0 <= k < |names| && InsertError(r.error, names[k])
    decreases |names|
  {
    if |names| == 0 then Success(text)
    else
      var next :- RewriteCallSite(text, names[0]);
      var r := RewriteCallSites(next, names[1..]);
      LaterSiteError(r, names);
      r
  }

  // ---------------------------------------------------------------------------
  // The self-assignment in the written script

  /** A pattern inside the middle part of a spliced-in text occurs in the result. */
  lemma SpliceShows(text: string, start: nat, end: nat, a: string, b: string, c: string, pat: string, q: int)
    requires start <= end <= |text|
    requires OccursAt(b, pat, q)
    ensures Occurs(Splice(text, start, end, a + b + c), pat)
  {
    OccursAtFrame(a, b, c, pat, q);
    OccursAtNested(Splice(text, start, end, a + b + c), a + b + c, pat, start, |a| + q);
  }

  /** As written, whatever the rules make of the new block appears in the result. */
  lemma ReplaceBlockAsWrittenShowsRewrittenBlock(text: string, name: string, oldBlock: string, newBlock: string,
                                                 rules: seq<Rule>, pat: string, q: int)
    requires LineLocal(rules) && EndsLine(newBlock)
    requires BlockStartsLine(text, name, oldBlock)
    requires OccursAt(RewriteTokens(newBlock, rules), pat, q)
    ensures ReplaceBlockAsWritten(text, name, oldBlock, newBlock, rules).Success?
    ensures Occurs(ReplaceBlockAsWritten(text, name, oldBlock, newBlock, rules).value, pat)
  {
    ReplaceBlockRelation(text, name, oldBlock, newBlock, rules);
    var sp := Locate(text, name).value;
    var func := text[sp.start..sp.end];
    var i := FindFirst(func, oldBlock).value;
    var a := RewriteTokens(func[..i], rules);
    var b := RewriteTokens(newBlock, rules);
    var c := RewriteTokens(func[i + |oldBlock|..], rules);
    SpliceShows(text, sp.start, sp.end, a, b, c, pat, q);
  }

  /**
    As written, the bulk-insert step rewrites the default line it has just put in:
    the patched definition assigns `$textParameterType` to itself.
  */
  lemma BulkInsertAsWrittenSelfAssigns(text: string)
    requires BlockStartsLine(text, BulkName, OldBlock)
    ensures RewriteBulkInsertAsWritten(text).Success?
    ensures Occurs(RewriteBulkInsertAsWritten(text).value, SelfTextLine)
  {
    RulesAreLineLocal();
    PayloadsEndLines();
    NewBlockRewrittenSelfAssigns();
    ReplaceBlockAsWrittenShowsRewrittenBlock(text, BulkName, OldBlock, NewBlock, BulkRules,
                                             SelfTextLine, |RewriteTokens(NewBlockHead, BulkRules)|);
  }

  /** The corrected bulk-insert step keeps the default line for the text type. */
  lemma BulkInsertKeepsDefault(text: string)
    requires RewriteBulkInsert(text).Success?
    ensures Occurs(RewriteBulkInsert(text).value, DefaultTextLine)
  {
    var v := RewriteBulkInsert(text).value;
    var j :| OccursAt(v, NewBlock, j);
    BlocksHoldDefaultTextLine();
    OccursAtNested(v, NewBlock, DefaultTextLine, j, |NewBlockHead|);
  }

  /** Inside a located span, whatever the rules make of the inserted block appears in the written result. */
  lemma InsertAfterInSpanAsWrittenShows(text: string, sp: Span, name: string, mark: string, block: string,
                                        rules: seq<Rule>, func: string, m: nat, pat: string, q: int)
    requires sp.start <= sp.end <= |text|
    requires func == text[sp.start..sp.end]
    requires FindFirst(func, mark) == Some(m)
    requires LineLocal(rules) && EndsLine(block) && |mark| > 0 && EndsLine(mark)
    requires OccursAt(RewriteTokens(block, rules), pat, q)
    ensures InsertAfterInSpanAsWritten(text, sp, name, mark, block, rules).Success?
    ensures Occurs(InsertAfterInSpanAsWritten(text, sp, name, mark, block, rules).value, pat)
  {
    InsertAfterInSpanAsWrittenUnfold(text, sp, name, mark, block, rules, func, m);
    FindFirstSpec(func, mark);
    MarkEndsLine(func, mark, m);
    var p := m + |mark|;
    RewriteTokensSplit(func[..p], block, func[p..], rules);
    var a := RewriteTokens(func[..p], rules);
    var b := RewriteTokens(block, rules);
    var c := RewriteTokens(func[p..], rules);
    SpliceShows(text, sp.start, sp.end, a, b, c, pat, q);
  }

  /** As written, whatever the rules make of the inserted block appears in the result. */
  lemma InsertAfterAsWrittenShowsRewrittenBlock(text: string, name: string, mark: string, block: string,
                                                rules: seq<Rule>, pat: string, q: int)
    requires LineLocal(rules) && EndsLine(block) && |mark| > 0 && EndsLine(mark)
    requires Locate(text, name).Success?
    requires var sp := Locate(text, name).value; Occurs(text[sp.start..sp.end], mark)
    requires OccursAt(RewriteTokens(block, rules), pat, q)
    ensures InsertAfterAsWritten(text, name, mark, block, rules).Success?
    ensures Occurs(InsertAfterAsWritten(text, name, mark, block, rules).value, pat)
  {
    var sp := Locate(text, name).value;
    var func := text[sp.start..sp.end];
    FindFirstSpec(func, mark);
    var m := FindFirst(func, mark).value;
    InsertAfterInSpanAsWrittenShows(text, sp, name, mark, block, rules, func, m, pat, q);
    assert InsertAfterAsWritten(text, name, mark, block, rules) == InsertAfterInSpanAsWritten(text, sp, name, mark, block, rules);
  }

  /**
    As written, each call-site insertion rewrites its own default line into
    `$textParameterType = $textParameterType`.
  */
  lemma CallSiteAsWrittenSelfAssigns(text: string, name: string)
    requires Locate(text, name).Success?
    requires var sp := Locate(text, name).value; Occurs(text[sp.start..sp.end], ParamListClose)
    ensures RewriteCallSiteAsWritten(text, name).Success?
    ensures Occurs(RewriteCallSiteAsWritten(text, name).value, SelfTextLine)
  {
    RulesAreLineLocal();
    PayloadsEndLines();
    InsertBlockRewrittenSelfAssigns();
    InsertAfterAsWrittenShowsRewrittenBlock(text, name, ParamListClose, InsertBlock, TypeRules, SelfTextLine, 0);
  }

  /** The corrected call-site insertion keeps the default line for the text type. */
  lemma CallSiteKeepsDefault(text: string, name: string)
    requires RewriteCallSite(text, name).Success?
    ensures Occurs(RewriteCallSite(text, name).value, DefaultTextLine)
  {
    var v := RewriteCallSite(text, name).value;
    var j :| OccursAt(v, InsertBlock, j);
    BlocksHoldDefaultTextLine();
    OccursAtNested(v, InsertBlock, DefaultTextLine, j, 0);
  }

  // ---------------------------------------------------------------------------
  // The whole run

  /** The errors a run can report. */
  predicate RunError(e: PatchError) {
    || e == AnchorNotFound(HelperAnchor)
    || e == UnbalancedSpan(HelperName)
    || BlockError(e, BulkName)
    || exists k :: 0 <= k < |CallSites| && InsertError(e, CallSites[k])
  }

  /** The script from reading the buffer to writing it, as written. */
  function RunAsWritten(text: string, body: string): (r: Result<string, PatchError>)
    ensures r.Failure? ==> RunError(r.error)
  {
    var constants := EnsureConstants(text);
    var helper :- EnsureHelper(constants, body);
    var bulk :- RewriteBulkInsertAsWritten(helper);
    RewriteCallSitesAsWritten(bulk, CallSites)
  }

  /**
    The script from reading the buffer to writing it, with the token rules kept
    off the blocks it inserts.
  */
  function Run(text: string, body: string): (r: Result<string, PatchError>)
    ensures r.Failure? ==> RunError(r.error)
  {
    var constants := EnsureConstants(text);
    var helper :- EnsureHelper(constants, body);
    var bulk :- RewriteBulkInsert(helper);
    RewriteCallSites(bulk, CallSites)
  }

  /**
    A script without the helper and without the definition it goes before stops
    at the helper step, whichever block rewrite follows.
  */
  lemma RunStopsWithoutAnchor(text: string, body: string)
    requires !Occurs(text, HelperMarker) && !Occurs(text, HelperAnchor)
    ensures RunAsWritten(text, body) == Failure(AnchorNotFound(HelperAnchor))
    ensures Run(text, body) == Failure(AnchorNotFound(HelperAnchor))
  {
    ConstReplacementSeparated();
    EnsureConstantsKeepsAbsent(text, HelperMarker);
    EnsureConstantsKeepsAbsent(text, HelperAnchor);
  }
}
