/**
  The literal texts the patcher searches for and writes. The PowerShell payloads
  are opaque: only the lines whose text the patch steps interact with are named
  separately, and the rest is kept verbatim.
*/
module Payloads {
  import opened SpanLocator

  const CRLF: string := "\r\n"
  const Indent: string := "    "

  /** The ADO parameter-type constants and the variables that replace them. */
  const TextTypeConst: string := "$script:AdTypeVarWChar"
  const MemoTypeConst: string := "$script:AdTypeLongVarWChar"
  const TextTypeVar: string := "$textParameterType"
  const MemoTypeVar: string := "$memoParameterType"

  /** The constant whose presence means the narrow-character constants are already defined. */
  const VarCharMarker: string := "$script:AdTypeVarChar"

  /** The two adjacent constant definitions the new ones are inserted between. */
  const ConstAnchor: string := TextTypeConst + " = 202" + CRLF + Indent + MemoTypeConst + " = 203"

  /**
    The anchor with the narrow-character constants added between its two lines:
    the first anchor line, the two new definitions, and the second anchor line.
  */
  const ConstReplacement: string := ConstReplacementHead + VarCharMarker + ConstReplacementTail
  const ConstReplacementHead: string := TextTypeConst + " = 202" + CRLF + Indent
  const ConstReplacementTail: string :=
    " = 200" + CRLF + Indent + "$script:AdTypeLongVarChar = 201" + CRLF + Indent + MemoTypeConst + " = 203"

  /** The helper definition the patcher adds or replaces, and the definition it is inserted before. */
  const HelperName: string := "Get-InterfaceBulkProviderInfo"
  const HelperAnchor: string := "function Test-IsAdodbConnection {"
  const HelperMarker: string := Marker(HelperName)

  /**
    The helper's full definition: its opening line, then a body. The body is
    PowerShell the patcher never inspects, so it is left as a parameter.
  */
  function ProviderText(body: string): string {
    HelperMarker + " {\r\n" + body
  }

  /** The bulk-insert definition and the provider block inside it that is rewritten. */
  const BulkName: string := "Invoke-InterfaceBulkInsertInternal"

  const OldBlock: string :=
    "    $providerName = $null\r\n"
    + "    $providerKind = 'Unknown'\r\n"
    + "    if ($providerInfo) {\r\n"
    + "        try {\r\n"
    + "            $candidateName = $providerInfo['Name']\r\n"
    + "            if (-not [string]::IsNullOrWhiteSpace($candidateName)) { $providerName = $candidateName }\r\n"
    + "        } catch { }\r\n"
    + "        try {\r\n"
    + "            $candidateKind = $providerInfo['Kind']\r\n"
    + "            if (-not [string]::IsNullOrWhiteSpace($candidateKind)) { $providerKind = $candidateKind }\r\n"
    + "        } catch { }\r\n"
    + "    }\r\n"

  /** The start of an assignment to the text-type variable. */
  const TextAssign: string := Indent + TextTypeVar + " = "

  /** The lines that give the two parameter-type variables their defaults. */
  const DefaultTextLine: string := TextAssign + TextTypeConst + CRLF
  const DefaultMemoLine: string := Indent + MemoTypeVar + " = " + MemoTypeConst + CRLF

  /** What the default text-type line becomes once its constant is rewritten to the variable. */
  const SelfTextLine: string := TextAssign + TextTypeVar + CRLF

  const NewBlockHead: string :=
    "    $providerName = $null\r\n"
    + "    $providerKind = 'Unknown'\r\n"

  const ReadTypesFromInfo: string :=
    "        try {\r\n"
    + "            if ($providerInfo.PSObject.Properties.Name -contains 'TextParameterType') {\r\n"
    + "                $candidateTextType = $providerInfo.TextParameterType\r\n"
    + "                if ($null -ne $candidateTextType) { $textParameterType = [int]$candidateTextType }\r\n"
    + "            }\r\n"
    + "        } catch { }\r\n"
    + "        try {\r\n"
    + "            if ($providerInfo.PSObject.Properties.Name -contains 'MemoParameterType') {\r\n"
    + "                $candidateMemoType = $providerInfo.MemoParameterType\r\n"
    + "                if ($null -ne $candidateMemoType) { $memoParameterType = [int]$candidateMemoType }\r\n"
    + "            }\r\n"
    + "        } catch { }\r\n"

  const NewBlockTail: string :=
    "    if ($providerInfo) {\r\n"
    + "        try {\r\n"
    + "            $candidateName = $providerInfo.Name\r\n"
    + "            if (-not [string]::IsNullOrWhiteSpace($candidateName)) { $providerName = $candidateName }\r\n"
    + "        } catch { }\r\n"
    + "        try {\r\n"
    + "            $candidateKind = $providerInfo.Kind\r\n"
    + "            if (-not [string]::IsNullOrWhiteSpace($candidateKind)) { $providerKind = $candidateKind }\r\n"
    + "        } catch { }\r\n"
    + ReadTypesFromInfo
    + "    }\r\n"

  /** The replacement provider block: defaults for both type variables, then overrides from the helper. */
  const NewBlock: string := NewBlockHead + DefaultTextLine + DefaultMemoLine + NewBlockTail

  /** The two parameterised-query definitions that get the type variables, and where they get them. */
  const CallSites: seq<string> := ["Invoke-DeviceSummaryParameterized", "Invoke-InterfaceRowParameterized"]
  const ParamListClose: string := "    )\r\n"

  const InsertBlockTail: string :=
    "    $providerInfo = Get-InterfaceBulkProviderInfo -Connection $Connection\r\n"
    + "    if ($providerInfo) {\r\n"
    + ReadTypesFromInfo
    + "    }\r\n\r\n"

  /** The block inserted after a parameter list: defaults, then overrides from the helper. */
  const InsertBlock: string := DefaultTextLine + DefaultMemoLine + InsertBlockTail
}
