# Patching engine of `temp_update.py`, modelled in Dafny

`temp_update.py` patches one PowerShell module held as a single string. The
steps run in a fixed order, each either producing the next buffer or stopping
the run:

1. Add the narrow-character ADO type constants next to the wide ones, unless
   `$script:AdTypeVarChar` is already defined (lines 7-9).
2. Put the helper `Get-InterfaceBulkProviderInfo` in place. When it is absent,
   it is inserted before `function Test-IsAdodbConnection {`. When it is present,
   its located definition is replaced. The step then checks that the helper is
   there (lines 70-106).
3. Locate `Invoke-InterfaceBulkInsertInternal`. Replace its provider block with
   one that gives the two parameter-type variables defaults and overrides.
   Rewrite the indexer reads and the type constants in the definition, and splice
   it back (lines 133-184).
4. In each of the two parameterised-query definitions, insert the same defaults
   and overrides after the first `    )\r\n`. Rewrite the type constants and
   splice the definition back (lines 206-217).

Every step that edits a definition uses `find_function_span` (lines 108-130).
It finds `function <name>` and scans forward counting braces. It stops at the
first `}` that brings the count to zero once a `{` has been seen, then extends the
span over the following `\r`/`\n` run.

The Dafny modules follow that structure:

- `results.dfy`:
  - `Results` has `Option` and `Result`.
  - `Errors` has `PatchError`, one tag per way the script stops.
- `text.dfy` (`TextOps`) holds the Python string operations the script uses:
  - `str.find`.
  - `in`.
  - Slicing splices.
  - `str.replace` with count 1 and without a count, including the empty-pattern case.
  - Chains of token replacements.
  - `find` and `in` are related to an independent occurrence predicate.
  - The replacements are described by what they keep and by what they leave behind. When no replacement can complete a pattern across its edges, a global replacement leaves no occurrence of its own pattern, and creates none of any other.
- `span_locator.dfy` (`SpanLocator`):
  - The loop of `find_function_span` is written as a recursive function over the loop state.
  - It is related to a declarative specification `IsSpanOf`: the first marker, the least closing position, and the maximal line-break run.
- `payloads.dfy` (`Payloads`) holds the literal anchors, markers and blocks the script searches for and writes.
- `rules.dfy` (`TokenRules`) holds the replacement lists and what they do to the inserted default lines.
- `patch.dfy` (`Patch`):
  - The four steps and the whole run.
  - The written and the corrected form of steps 3 and 4, and of the run (see Findings).
  - The correction is defined by `RewriteAround`. It rewrites the definition's text before and after the inserted block, and keeps the block verbatim between them.

## Model

| member | source | states |
|---|---|---|
| TextOps.FindFirstSpec | temp_update.py:110-112 | `find` returns the least offset at which the marker occurs, and finds nothing exactly when it does not occur |
| TextOps.Contains | temp_update.py:7 | `pat in text` holds exactly when `pat` occurs in `text` |
| TextOps.Splice | temp_update.py:184 | `text[:start] + func + text[end:]` has length `|text| - (end - start) + |func|`. It keeps `text[:start]` as its prefix and `text[end:]` as its suffix, with `func` at `start` |
| TextOps.SpliceOwnText | temp_update.py:133-134 | splicing a span's own text back over it gives the text unchanged |
| TextOps.ReplaceFirst | temp_update.py:179 | `replace(old, new, 1)` leaves the text unchanged when `old` is absent. Otherwise, at the first occurrence, it keeps the prefix, writes `new` there and keeps the rest after `old` |
| TextOps.ReplaceAllAbsent | temp_update.py:180-183 | a global replacement changes nothing when the pattern does not occur |
| TextOps.ReplaceAll | temp_update.py:180-183 | replacing a pattern by itself changes nothing, the empty pattern included |
| TextOps.ReplaceAllConcat | temp_update.py:180-183 | a global replacement acts on each half of a text separately when no occurrence crosses the join |
| TextOps.ReplaceAllKeepsEndsLine | temp_update.py:180-183 | replacing a pattern without a line feed keeps a text that ends a line ending a line |
| TextOps.RewriteTokens | temp_update.py:180-183 | a chain of rules that each rewrite a pattern to itself leaves the definition unchanged |
| TextOps.RewriteTokensAbsent | temp_update.py:180-183 | a definition holding none of the patterns comes out of the chain of replacements unchanged |
| TextOps.RewriteTokensAtLineEnd | temp_update.py:180-183 | with non-empty patterns that contain no line feed, the chain of replacements acts separately on the text before and after a line end |
| TextOps.InterleaveLength | temp_update.py:180-183 | replacing the empty pattern adds one copy of the replacement per character, plus one: the result has length `|text| + (|text| + 1) * |rep|` |
| TextOps.InterleaveSlot | temp_update.py:180-183 | with `w == |rep| + 1`, the empty-pattern replacement holds a copy of the replacement at offset `k * w` for every `k <= |text|`, followed by the `k`-th character of the text when `k < |text|` |
| TextOps.InterleaveShape | temp_update.py:180-183 | replacing the empty pattern writes the replacement before every character and once at the end. The result has length `|text| + (|text| + 1) * |rep|`. With `w == |rep| + 1`, offset `k * w` holds a copy of the replacement followed by the `k`-th character of the text, for every `k < |text|`, and offset `|text| * w` holds the final copy |
| TextOps.NoNewOccurrence | temp_update.py:180-183 | putting a replacement that cannot complete `q` across its edges between two texts without `q` creates no `q` |
| TextOps.ReplaceAllLeavesNone | temp_update.py:180-183 | after a global replacement by such a replacement, `q` does not occur when it is the replaced pattern or was absent before |
| TextOps.ReplaceFirstKeepsAbsent | temp_update.py:8-9 | a first-occurrence replacement by such a replacement creates no `q` |
| TextOps.RewriteTokensKeepsAbsent | temp_update.py:180-183 | a chain of replacements none of which can complete `q` creates no `q` |
| TextOps.RewriteTokensClears | temp_update.py:180-183 | when no replacement of a chain can complete any of its patterns, none of the patterns occurs in the result |
| TextOps.RewriteTokensSplit | temp_update.py:179-183 | under the same rules, a block that starts and ends a line is rewritten on its own, apart from the text around it |
| SpanLocator.ScanClose | temp_update.py:117-124 | a position the brace loop returns is at or after where it started and holds `}` |
| SpanLocator.ClosesStep | temp_update.py:119-124 | one loop step: the loop stops at a character exactly when that position closes the definition by the declarative definition, counting a `}` met before any `{` |
| SpanLocator.ScanCloseLeast | temp_update.py:117-130 | with a count and flag matching the text scanned so far, the loop returns the least closing position. If it returns nothing, no position closes the definition |
| SpanLocator.ScanSkipsPlain | temp_update.py:117-129 | characters other than braces leave the loop's state and result unchanged |
| SpanLocator.SkipLineBreaks | temp_update.py:125-127 | the span end stops at the end of the run of `\r`/`\n` after the closing brace: every character before it is a line break, and the character at it is not |
| SpanLocator.Locate | temp_update.py:108-130 | On success:<br>- `start` is the first occurrence of `function <name>`.<br>- `close` is the least closing position.<br>- `end` ends the maximal line-break run.<br>- `start <= close < end <= |src|`.<br>On failure, the error is either not-found or unbalanced, and not-found exactly when the marker is absent |
| SpanLocator.SpanUnique | temp_update.py:108-130 | at most one span meets the specification |
| SpanLocator.LocateComplete | temp_update.py:108-130 | whenever a span meets the specification, the locator returns it |
| SpanLocator.LocateUnbalanced | temp_update.py:130 | the locator reports an unbalanced span exactly when the marker occurs and no position after it closes the definition |
| SpanLocator.LocateFramed | temp_update.py:101-102 | a self-contained definition is located at its own bounds when placed after text with no earlier marker and before a character that is not a line break |
| SpanLocator.LocateNestedExample | temp_update.py:117-128 | nested braces: `function F { { } }\r\nG` gives the span from 0 to 20, closing at 17 |
| SpanLocator.LocateTruncatedExample | temp_update.py:130 | `function Foo {\r\n  x = 1\r\n` is reported unbalanced |
| SpanLocator.LocateStrayCloseExample | temp_update.py:122-124 | a `}` before the first `{` still lowers the count, so `function F } { }` is reported unbalanced |
| TokenRules.RulesAreLineLocal | temp_update.py:180-183 | every pattern of both rewrite lists is non-empty and lies within one line |
| TokenRules.DefaultTextLineSelfAssigns | temp_update.py:180-183 | both rewrite lists turn `    $textParameterType = $script:AdTypeVarWChar` into `    $textParameterType = $textParameterType` |
| TokenRules.RulesSeparated | temp_update.py:180-183 | every pattern and replacement of both lists opens with its only `$`, and every replacement differs from every pattern at an offset both cover, so no replacement can complete a pattern |
| TokenRules.TypeRulesClearConstants | temp_update.py:215-216 | after the call-site rewrites, neither `$script:AdTypeVarWChar` nor `$script:AdTypeLongVarWChar` occurs, whatever the text |
| TokenRules.BulkRulesClearTokens | temp_update.py:180-183 | after the bulk rewrites, neither indexer read and neither wide type constant occurs, whatever the text |
| TokenRules.BlocksHoldDefaultTextLine | temp_update.py:151-155 | the new provider block holds the text-type default line right after its first two lines. The inserted call-site block opens with it |
| TokenRules.NewBlockRewrittenSelfAssigns | temp_update.py:179-183 | the bulk rewrites applied to the new provider block leave a self-assignment where its default line was |
| TokenRules.InsertBlockRewrittenSelfAssigns | temp_update.py:214-216 | the call-site rewrites applied to the inserted block make it open with a self-assignment |
| Patch.EnsureConstants | temp_update.py:7-9 | The text is unchanged when `$script:AdTypeVarChar` is present, or when it and the anchor are both absent. Otherwise only the first anchor is replaced: the prefix and the rest are kept |
| Patch.EnsureConstantsDefines | temp_update.py:7-9 | once the anchor is present, `$script:AdTypeVarChar` occurs after the step |
| Patch.EnsureConstantsIdempotent | temp_update.py:7-9 | running the step twice gives the same text as running it once |
| Patch.EnsureConstantsKeepsAbsent | temp_update.py:7-9 | the step creates no occurrence of a text that the replacement cannot complete |
| Patch.ConstReplacementSeparated | temp_update.py:9 | the replacement holds no `f`, and the helper's opening line and its anchor hold no `$`, so the replacement cannot complete either |
| Patch.InsertBeforeAnchor | temp_update.py:71-75 | The step fails exactly when the anchor is absent, with the anchor error. Otherwise the payload is inserted at the anchor's first offset, keeping the text before and after |
| Patch.InsertKeepsAnchor | temp_update.py:75 | after the insertion the anchor sits right after the payload |
| Patch.ReplaceDefinition | temp_update.py:101-102 | replacing a definition fails only as not-found or unbalanced, and as not-found exactly when the marker is absent |
| Patch.ReplaceDefinitionSpan | temp_update.py:101-102 | replacing a definition splices the payload over exactly the span the specification describes |
| Patch.EnsureHelperWith | temp_update.py:70-106 | The step fails only as anchor-missing, unbalanced or helper-missing. With the helper absent, it fails as anchor-missing exactly when the anchor is absent. On success the helper's marker occurs |
| Patch.ProviderTextOpensWithMarker | temp_update.py:12 | the helper text opens with `function Get-InterfaceBulkProviderInfo` |
| Patch.EnsureHelperInserts | temp_update.py:70-75 | with the helper absent, the helper text is inserted before the first anchor |
| Patch.EnsureHelperReplaces | temp_update.py:76-102 | with the helper present, the helper text replaces its located span |
| Patch.EnsureHelperNeverMissing | temp_update.py:105-106 | with a helper text that opens with its marker, the after-check never fails |
| Patch.EnsureHelperIdempotentWhenPresent | temp_update.py:76-102 | with the helper present, running the step again on its result changes nothing |
| Patch.EnsureHelperIdempotentWhenInserted | temp_update.py:70-75 | With the helper absent and the anchor present, the step succeeds. Running it again on its result changes nothing: the inserted definition holds the first marker, and its span ends right before the anchor's `f` |
| Patch.EnsureHelperIdempotent | temp_update.py:70-102 | whenever the step succeeds, running it again on its result changes nothing, whether the first run inserted the helper or replaced it |
| Patch.EnsureHelper | temp_update.py:70-106 | with the script's helper text, the step can only fail for a missing anchor or an unbalanced span |
| Patch.SpliceKeepsOutsideSpan | temp_update.py:184 | splicing an edited definition back keeps every character before and after its span |
| Patch.ReplaceBlockAsWritten | temp_update.py:133-184 | The written block rewrite fails only as not-found, unbalanced or block-missing. It fails as not-found exactly when the marker is absent, and as block-missing exactly when the located definition lacks the old block. On success it keeps the text outside the span |
| Patch.ReplaceBlockInSpanAsWritten | temp_update.py:149-184 | inside a span, the written rewrite fails exactly when the old block is absent from the span, always as block-missing, and keeps the text outside the span |
| Patch.ReplaceBlock | temp_update.py:133-184 | The corrected block rewrite has the same errors under the same conditions. On success it keeps the text outside the span and contains the new block verbatim |
| Patch.ReplaceBlockInSpan | temp_update.py:149-184 | inside a span, the corrected rewrite fails exactly when the block is absent, and on success keeps the outside and contains the new block |
| Patch.RewriteBulkInsertAsWritten | temp_update.py:133-184 | the bulk-insert step as written reports only its three errors, and reports the missing provider block exactly when the located `Invoke-InterfaceBulkInsertInternal` lacks the old block |
| Patch.RewriteBulkInsert | temp_update.py:133-184 | the corrected bulk-insert step reports the same errors under the same conditions, and on success contains the new provider block verbatim |
| Patch.ReplaceBlockRelation | temp_update.py:179-183 | when the old block begins a line, the written and the corrected rewrites agree except that the written one rewrites the new block too |
| Patch.InsertAfterAsWritten | temp_update.py:206-217 | The written insertion fails only as not-found, unbalanced or insertion-point-missing. It fails as not-found exactly when the marker is absent, and as insertion-point-missing exactly when the located definition lacks the mark. On success it keeps the text outside the span |
| Patch.InsertAfterInSpanAsWritten | temp_update.py:208-216 | inside a span, the written insertion fails exactly when the mark is absent from the span, always as insertion-point-missing, and keeps the text outside the span |
| Patch.InsertAfter | temp_update.py:206-217 | The corrected insertion has the same errors under the same conditions. On success it keeps the outside and contains the block verbatim |
| Patch.InsertAfterInSpan | temp_update.py:208-216 | inside a span, the corrected insertion fails exactly when the mark is absent, and on success keeps the outside and contains the block |
| Patch.MarkEndsLine | temp_update.py:209-213 | the insertion point right after `    )\r\n` follows a line end |
| Patch.InsertAfterRelation | temp_update.py:213-216 | the written and the corrected insertions agree except that the written one rewrites the inserted block too |
| Patch.RewriteCallSiteAsWritten | temp_update.py:207-217 | One call site as written reports only its three errors. It reports not-found exactly when the definition's marker is absent, and the missing insertion point exactly when the located definition lacks `    )\r\n` |
| Patch.RewriteCallSite | temp_update.py:207-217 | one corrected call site reports the same errors under the same conditions, and on success contains the inserted block verbatim |
| Patch.RewriteCallSitesAsWritten | temp_update.py:206-217 | the written loop over the call sites stops with an error of one of the named definitions |
| Patch.RewriteCallSites | temp_update.py:206-217 | the corrected loop over the call sites stops with an error of one of the named definitions |
| Patch.ReplaceBlockAsWrittenShowsRewrittenBlock | temp_update.py:179-184 | as written, whatever the rules make of the new block appears in the result |
| Patch.BulkInsertAsWrittenSelfAssigns | temp_update.py:179-184 | as written, when the provider block begins a line, the patched bulk-insert definition contains `$textParameterType = $textParameterType` |
| Patch.BulkInsertKeepsDefault | temp_update.py:179 | the corrected bulk-insert step keeps the default line `$textParameterType = $script:AdTypeVarWChar` |
| Patch.InsertAfterInSpanAsWrittenShows | temp_update.py:213-217 | inside a span whose mark is found, the written insertion succeeds, and whatever the rules make of the inserted block appears in the result |
| Patch.InsertAfterAsWrittenShowsRewrittenBlock | temp_update.py:214-217 | as written, whatever the rules make of the inserted block appears in the result |
| Patch.CallSiteAsWrittenSelfAssigns | temp_update.py:214-217 | as written, a call site with a parameter-list close gets `$textParameterType = $textParameterType` |
| Patch.CallSiteKeepsDefault | temp_update.py:214 | the corrected call-site insertion keeps the default line |
| Patch.RunAsWritten | temp_update.py:7-217 | a run as written stops only for one of the listed errors: the helper anchor, an unbalanced helper, a bulk-insert error, or a call-site error. The helper after-check never stops it |
| Patch.Run | temp_update.py:7-217 | the corrected run stops only for the same errors |
| Patch.RunStopsWithoutAnchor | temp_update.py:70-74 | a module with neither the helper nor `function Test-IsAdodbConnection {` stops both runs with the anchor error: the constants step cannot create either line |

## Left out

- Reading and writing the module file (lines 4-5, 219): the buffer is the input of `Patch.Run` and the result is its output.
- `temp_debug.py`: it only reads the file and prints a slice.
- The helper body (lines 13-67) is a parameter `body` of `Patch.EnsureHelper` and `Patch.Run`; only its opening line is modelled literally. Every stated contract holds for every `body`. The steps do read the whole inserted body: `find`, `in` and the brace scan of `find_function_span` run over it. So the idempotence lemmas (`Patch.EnsureHelperIdempotent` and its two cases) assume that the helper text is one self-contained definition: its brace count first returns to zero at its last `}`, and only line breaks follow. The script's helper text (lines 11-68, opening line included) meets that assumption. It is 2072 characters long, its count first returns to zero at offset 2067, and only `\r\n\r\n` follows. Apart from its own opening line it holds no `function ` marker, so none of the later steps can find its definition inside the helper. The other blocks are kept verbatim because the steps search for them or rewrite them.
- The regular expression at lines 209-210 is modelled as a literal search for `    )\r\n`. The pattern has no metacharacters apart from the escaped parenthesis and the capture group.
- Exception types: `SystemExit` and `ValueError` are not distinguished. Each stop is one `PatchError` tag.
- The copy of `find_function_span` at lines 78-100 is identical to the one at lines 108-130, and `SpanLocator.Locate` models both.
- Idempotence of the whole run is not stated. The call-site insertion has no presence guard, and a second run stops at the old-block check (lines 149-150).
- Patch.Run: states which errors a run can report, and one run-level stop (`RunStopsWithoutAnchor`). The effect on the text is stated step by step. Each step locates its definition in the previous step's output, so a statement across steps would need the three definitions' spans to stay apart, and the model does not track that. `Run` composes the corrected steps.
- Patch.RunAsWritten: the same as `Patch.Run`, composing the written steps.
- Patch.RewriteCallSites: states only that an error names one of the call sites. The second call site is located in the output of the first insertion, for the same reason as in `Patch.Run`.
- Patch.RewriteCallSitesAsWritten: the same as `Patch.RewriteCallSites`.
- Patch.EnsureHelperIdempotent: the helper text is assumed to be one self-contained definition, whose own span is the whole text, because its body is a parameter.
- Patch.ReplaceBlockRelation: stated only when the old block begins a line. Otherwise a token could straddle the block's edge, and the two rewrites need not split apart.
- TokenRules.DefaultTextLineSelfAssigns: covers the text-type default line. The memo-type line `$memoParameterType = $script:AdTypeLongVarWChar` is rewritten the same way, but this is not proved.

## Findings

| source | as written | input that shows it | evidently intended | confidence | as-written member | corrected member |
|---|---|---|---|---|---|---|
| temp_update.py:179-183 and 214-216 | The token replacements run over the whole definition after the new lines are in it. So the freshly inserted default `$textParameterType = $script:AdTypeVarWChar` (lines 154 and 187) becomes `$textParameterType = $textParameterType`, and the default is lost | Bulk insert: any module in which `Invoke-InterfaceBulkInsertInternal` contains the old provider block at a line start. Call sites: any module in which a call-site definition contains `    )\r\n` | rewrite only the definition's existing text, and keep the inserted default lines verbatim | high, not executed | Patch.BulkInsertAsWrittenSelfAssigns, Patch.CallSiteAsWrittenSelfAssigns | Patch.ReplaceBlock, Patch.InsertAfter, with Patch.BulkInsertKeepsDefault and Patch.CallSiteKeepsDefault |
