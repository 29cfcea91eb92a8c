/**
  The token rewrites applied inside a located definition, and what they do to
  the default line for the text parameter type.
*/
module TokenRules {
  import opened Results
  import opened TextOps
  import opened Payloads

  const NameRule: Rule := ("$providerInfo['Name']", "$providerInfo.Name")
  const KindRule: Rule := ("$providerInfo['Kind']", "$providerInfo.Kind")
  const TextTypeRule: Rule := (TextTypeConst, TextTypeVar)
  const MemoTypeRule: Rule := (MemoTypeConst, MemoTypeVar)

  /** The rewrites of each call site: the type constants become the type variables. */
  const TypeRules: seq<Rule> := [TextTypeRule, MemoTypeRule]

  /** The rewrites of the bulk-insert definition: the indexer reads first, then the type constants. */
  const BulkRules: seq<Rule> := [NameRule, KindRule, TextTypeRule, MemoTypeRule]

  /** Every token pattern is non-empty and lies within one line. */
  lemma RulesAreLineLocal()
    ensures LineLocal(TypeRules) && LineLocal(BulkRules)
  {
  }

  /** In the default line the type constant first occurs right after `    $textParameterType = `. */
  lemma DefaultTextLineFirstConst()
    ensures FindFirst(DefaultTextLine, TextTypeConst) == Some(|TextAssign|)
  {
    OccursAtFrame(TextAssign, TextTypeConst, CRLF, TextTypeConst, 0);
    FirstByLead(DefaultTextLine, TextTypeConst, |TextAssign|);
  }

  /** Rewriting the text-type constant turns the default line into a self-assignment. */
  lemma DefaultTextLineRewritten()
    ensures ReplaceAll(DefaultTextLine, TextTypeConst, TextTypeVar) == SelfTextLine
  {
    DefaultTextLineFirstConst();
    ReplaceAllUnfoldAs(DefaultTextLine, TextTypeConst, TextTypeVar, |TextAssign|, TextAssign, CRLF);
    ReplaceAllShortText(CRLF, TextTypeConst, TextTypeVar);
  }

  /** The self-assignment holds no memo-type constant. */
  lemma SelfTextLineHasNoMemoConst()
    ensures ReplaceAll(SelfTextLine, MemoTypeConst, MemoTypeVar) == SelfTextLine
  {
    NoOccurrenceByLead(SelfTextLine, MemoTypeConst);
    ReplaceAllAbsent(SelfTextLine, MemoTypeConst, MemoTypeVar);
  }

  /** The default line holds neither indexer read. */
  lemma DefaultTextLineHasNoIndexer()
    ensures ReplaceAll(DefaultTextLine, NameRule.0, NameRule.1) == DefaultTextLine
    ensures ReplaceAll(DefaultTextLine, KindRule.0, KindRule.1) == DefaultTextLine
  {
    NoOccurrenceByLead(DefaultTextLine, NameRule.0);
    ReplaceAllAbsent(DefaultTextLine, NameRule.0, NameRule.1);
    NoOccurrenceByLead(DefaultTextLine, KindRule.0);
    ReplaceAllAbsent(DefaultTextLine, KindRule.0, KindRule.1);
  }

  /**
    Both rule lists rewrite `    $textParameterType = $script:AdTypeVarWChar` into
    `    $textParameterType = $textParameterType`.
  */
  lemma DefaultTextLineSelfAssigns()
    ensures RewriteTokens(DefaultTextLine, TypeRules) == SelfTextLine
    ensures RewriteTokens(DefaultTextLine, BulkRules) == SelfTextLine
  {
    DefaultTextLineRewritten();
    SelfTextLineHasNoMemoConst();
    DefaultTextLineHasNoIndexer();
    assert TypeRules[1..] == [MemoTypeRule];
    assert RewriteTokens(SelfTextLine, [MemoTypeRule]) == SelfTextLine by {
      assert [MemoTypeRule][1..] == [];
    }
    assert RewriteTokens(DefaultTextLine, TypeRules) == SelfTextLine;
    assert BulkRules[1..] == [KindRule, TextTypeRule, MemoTypeRule];
    assert BulkRules[1..][1..] == TypeRules;
  }

  /** The payload pieces the rewrites are split at each end a line. */
  lemma PayloadsEndLines()
    ensures EndsLine(NewBlockHead) && EndsLine(DefaultTextLine) && EndsLine(NewBlock)
    ensures EndsLine(InsertBlock) && |ParamListClose| > 0 && EndsLine(ParamListClose)
  {
    EndsLineAppend(Indent + TextTypeVar + " = " + TextTypeConst, CRLF);
    EndsLineAppend(Indent + MemoTypeVar + " = " + MemoTypeConst, CRLF);
    EndsLineAppend(NewBlockHead + DefaultTextLine + DefaultMemoLine, NewBlockTail);
    EndsLineAppend(DefaultTextLine + DefaultMemoLine, InsertBlockTail);
  }

  /** The default line sits in the new block right after its head, and opens the inserted block. */
  lemma BlocksHoldDefaultTextLine()
    ensures OccursAt(NewBlock, DefaultTextLine, |NewBlockHead|)
    ensures OccursAt(InsertBlock, DefaultTextLine, 0)
  {
    OccursAfterHead(NewBlockHead, DefaultTextLine, DefaultMemoLine, NewBlockTail);
    OccursAtStart(DefaultTextLine, DefaultMemoLine + InsertBlockTail);
    SeqAssoc(DefaultTextLine, DefaultMemoLine, InsertBlockTail, DefaultMemoLine + InsertBlockTail);
  }

  /** Rewriting the whole new block with the bulk rules leaves a self-assignment after its head. */
  lemma NewBlockRewrittenSelfAssigns()
    ensures OccursAt(RewriteTokens(NewBlock, BulkRules), SelfTextLine, |RewriteTokens(NewBlockHead, BulkRules)|)
  {
    RulesAreLineLocal();
    PayloadsEndLines();
    DefaultTextLineSelfAssigns();
    RewriteTokensAfterHead(NewBlockHead, DefaultTextLine, DefaultMemoLine, NewBlockTail, BulkRules, SelfTextLine);
  }

  /** Rewriting the whole inserted block with the type rules makes it open with a self-assignment. */
  lemma InsertBlockRewrittenSelfAssigns()
    ensures OccursAt(RewriteTokens(InsertBlock, TypeRules), SelfTextLine, 0)
  {
    RulesAreLineLocal();
    PayloadsEndLines();
    DefaultTextLineSelfAssigns();
    RewriteTokensAtHead(DefaultTextLine, DefaultMemoLine, InsertBlockTail, TypeRules, SelfTextLine);
  }

  /** `$` opens the text and occurs nowhere else in it. */
  predicate DollarOnlyFirst(s: string) {
    |s| > 1 && s[0] == '$' && forall m :: 0 < m < |s| ==> s[m] != '$'
  }

  /** Each rule string opens with its only `$`. */
  lemma IndexerRulesDollarOnlyFirst()
    ensures DollarOnlyFirst(NameRule.0) && DollarOnlyFirst(NameRule.1)
    ensures DollarOnlyFirst(KindRule.0) && DollarOnlyFirst(KindRule.1)
  {
  }

  lemma TypeRulesDollarOnlyFirst()
    ensures DollarOnlyFirst(TextTypeConst) && DollarOnlyFirst(TextTypeVar)
    ensures DollarOnlyFirst(MemoTypeConst) && DollarOnlyFirst(MemoTypeVar)
  {
  }

  /**
    The rules are separated: every pattern and every replacement opens with its
    only `$`, and each replacement differs from each pattern right after it, or,
    for the indexer reads, where `.` stands for `['`.
  */
  lemma RulesSeparated()
    ensures Separated(BulkRules) && Separated(TypeRules)
  {
    IndexerRulesDollarOnlyFirst();
    TypeRulesDollarOnlyFirst();
    forall i, j | 0 <= i < |BulkRules| && 0 <= j < |BulkRules|
      ensures |BulkRules[i].0| > 0 && NoMatchAcross(BulkRules[i].1, BulkRules[j].0)
    {
      var w := if i < 2 && j < 2 then 13 else 1;
      NoMatchAcrossByHead(BulkRules[i].1, BulkRules[j].0, w);
    }
    forall i, j | 0 <= i < |TypeRules| && 0 <= j < |TypeRules|
      ensures |TypeRules[i].0| > 0 && NoMatchAcross(TypeRules[i].1, TypeRules[j].0)
    {
      assert TypeRules[i] == BulkRules[i + 2] && TypeRules[j] == BulkRules[j + 2];
    }
  }

  /** The call-site rewrites leave no type constant behind. */
  lemma TypeRulesClearConstants(text: string)
    ensures !Occurs(RewriteTokens(text, TypeRules), TextTypeConst)
    ensures !Occurs(RewriteTokens(text, TypeRules), MemoTypeConst)
  {
    RulesSeparated();
    RewriteTokensClears(text, TypeRules);
    assert TypeRules[0].0 == TextTypeConst && TypeRules[1].0 == MemoTypeConst;
  }

  /** The bulk rewrites leave no indexer read and no type constant behind. */
  lemma BulkRulesClearTokens(text: string)
    ensures !Occurs(RewriteTokens(text, BulkRules), NameRule.0)
    ensures !Occurs(RewriteTokens(text, BulkRules), KindRule.0)
    ensures !Occurs(RewriteTokens(text, BulkRules), TextTypeConst)
    ensures !Occurs(RewriteTokens(text, BulkRules), MemoTypeConst)
  {
    RulesSeparated();
    RewriteTokensClears(text, BulkRules);
    assert BulkRules[0].0 == NameRule.0 && BulkRules[1].0 == KindRule.0;
    assert BulkRules[2].0 == TextTypeConst && BulkRules[3].0 == MemoTypeConst;
  }
}
