/** The one piece of the analysis client's own logic: the contract text is
    cut to a fixed maximum before it is embedded in the prompt. */
module Analysis {
  import opened Types

  const MaxPromptText: nat := 30000

  /** `text.substring(0, 30000)`: the longest prefix of at most 30000
      characters. */
  function Truncate(text: string): (r: string)
    ensures r <= text
    ensures |r| == if |text| < MaxPromptText then |text| else MaxPromptText
  {
    if |text| <= MaxPromptText then text else text[..MaxPromptText]
  }

  /** The arguments handed to the analysis service. */
  datatype AnalysisRequest = AnalysisRequest(text: string, docType: DocumentType)
}
