/** The report vocabulary: three closed string enums and the three records
    a compliance analysis produces. */
module Types {
  import opened Wrappers

  /** Per-requirement status and overall rating share this one enum. */
  datatype ComplianceStatus =
    | Compliant
    | PartiallyCompliant
    | NotFound
    | LikelyNonCompliant
    | LikelyCompliant
  {
    /** The enum member's string value. */
    function Text(): string
    {
      match this
      case Compliant => "Compliant"
      case PartiallyCompliant => "Partially Compliant"
      case NotFound => "Not Found / Non-Compliant"
      case LikelyNonCompliant => "Likely Non-Compliant"
      case LikelyCompliant => "Likely Compliant"
    }
  }

  datatype RiskLevel = Low | Medium | High
  {
    function Text(): string
    {
      match this
      case Low => "Low"
      case Medium => "Medium"
      case High => "High"
    }
  }

  datatype DocumentType = Dpa | Schedule | Clauses
  {
    function Text(): string
    {
      match this
      case Dpa => "Standalone DPA"
      case Schedule => "Processing Schedule"
      case Clauses => "General Agreement Clauses"
    }
  }

  /** `Object.values(DocumentType)`: the options of the document-type
      selector, in declaration order. */
  function DocumentTypes(): (ts: seq<DocumentType>)
    ensures |ts| == 3
    ensures Dpa in ts && Schedule in ts && Clauses in ts
    ensures forall i, j :: 0 <= i < j < |ts| ==> ts[i].Text() != ts[j].Text()
  {
    [Dpa, Schedule, Clauses]
  }

  /** The selector's `e.target.value as DocumentType`: an option's string
      value read back as the member it came from. */
  function ParseDocumentType(s: string): Option<DocumentType>
  {
    if s == Dpa.Text() then Some(Dpa)
    else if s == Schedule.Text() then Some(Schedule)
    else if s == Clauses.Text() then Some(Clauses)
    else None
  }

  /** Reading back a value gives the member that produced it, and only the
      three string values are read back at all. */
  lemma ParseDocumentTypeRoundTrip(t: DocumentType, s: string)
    ensures ParseDocumentType(t.Text()) == Some(t)
    ensures ParseDocumentType(s) == Some(t) ==> s == t.Text()
  {
  }

  /** The five status strings are pairwise distinct. */
  lemma StatusTextInjective(a: ComplianceStatus, b: ComplianceStatus)
    ensures a.Text() == b.Text() <==> a == b
  {
  }

  /** The three risk strings and the three document-type strings are
      pairwise distinct. */
  lemma RiskAndDocumentTextInjective(a: RiskLevel, b: RiskLevel, c: DocumentType, d: DocumentType)
    ensures a.Text() == b.Text() <==> a == b
    ensures c.Text() == d.Text() <==> c == d
  {
  }

  datatype RequirementAnalysis = RequirementAnalysis(
    name: string,
    articleReference: string,
    status: ComplianceStatus,
    clauseReference: string,
    excerpt: string,
    analysis: string,
    suggestedImprovement: string,
    riskLevel: RiskLevel)

  datatype OverallAssessment = OverallAssessment(
    rating: ComplianceStatus,
    summary: string,
    keyRisks: seq<string>,
    keyStrengths: seq<string>)

  datatype ComplianceReport = ComplianceReport(
    overallAssessment: OverallAssessment,
    requirements: seq<RequirementAnalysis>)
}
