/** The downloadable remediation schedule: a deterministic serialisation of a
    `ComplianceReport` (and the date it is generated on) into one HTML
    document.  Report strings are inserted verbatim, without escaping. */
module ReportGenerator {
  import opened Types
  import opened Strings
  import Constants

  // ---------------------------------------------------------------------
  // badge classification

  const NonCompliantClass: string := "non-compliant"
  const PartialClass: string := "partial"
  const CompliantClass: string := "compliant"

  /** The CSS class of a status badge, decided by substring tests on the
      status text; the severe test comes first. */
  function BadgeClass(status: string): (r: string)
    ensures r in {NonCompliantClass, PartialClass, CompliantClass}
  {
    if Includes(status, "Non-Compliant") || Includes(status, "Not Found") then NonCompliantClass
    else if Includes(status, "Partially") then PartialClass
    else CompliantClass
  }

  /** The three badge tiers, stated against the reference notion of
      containment: severe when "Non-Compliant" or "Not Found" occurs, else
      partial when "Partially" occurs, else compliant. */
  lemma BadgeClassSpec(status: string)
    ensures BadgeClass(status) == NonCompliantClass
        <==> Occurs(status, "Non-Compliant") || Occurs(status, "Not Found")
    ensures BadgeClass(status) == PartialClass
        <==> !Occurs(status, "Non-Compliant") && !Occurs(status, "Not Found") && Occurs(status, "Partially")
    ensures BadgeClass(status) == CompliantClass
        <==> !Occurs(status, "Non-Compliant") && !Occurs(status, "Not Found") && !Occurs(status, "Partially")
  {
    IncludesCorrect(status, "Non-Compliant");
    IncludesCorrect(status, "Not Found");
    IncludesCorrect(status, "Partially");
  }

  /** Which of the three marker substrings a status text contains. */
  ghost predicate HasMarkers(t: string, nonCompliant: bool, notFound: bool, partially: bool)
  {
    && Occurs(t, "Non-Compliant") == nonCompliant
    && Occurs(t, "Not Found") == notFound
    && Occurs(t, "Partially") == partially
  }

  lemma CompliantMarkers()
    ensures HasMarkers("Compliant", false, false, false)
    ensures HasMarkers("Likely Compliant", false, false, false)
  {
    NotOccursByChar("Compliant", "Non-Compliant", 0);
    NotOccursByChar("Compliant", "Not Found", 0);
    NotOccursByChar("Compliant", "Partially", 0);
    NotOccursByChar("Likely Compliant", "Non-Compliant", 0);
    NotOccursByChar("Likely Compliant", "Not Found", 0);
    NotOccursByChar("Likely Compliant", "Partially", 0);
  }

  lemma PartiallyCompliantMarkers()
    ensures HasMarkers("Partially Compliant", false, false, true)
  {
    NotOccursByChar("Partially Compliant", "Non-Compliant", 0);
    NotOccursByChar("Partially Compliant", "Not Found", 0);
    assert OccursAt("Partially Compliant", "Partially", 0);
  }

  lemma NotFoundMarkers()
    ensures HasMarkers("Not Found / Non-Compliant", true, true, false)
  {
    assert OccursAt("Not Found / Non-Compliant", "Non-Compliant", 12);
    assert OccursAt("Not Found / Non-Compliant", "Not Found", 0);
    NotOccursByChar("Not Found / Non-Compliant", "Partially", 0);
  }

  lemma LikelyNonCompliantMarkers()
    ensures HasMarkers("Likely Non-Compliant", true, false, false)
  {
    assert "Likely Non-Compliant"[7..20] == "Non-Compliant";
    assert OccursAt("Likely Non-Compliant", "Non-Compliant", 7);
    NotOccursByChar("Likely Non-Compliant", "Not Found", 4);
    NotOccursByChar("Likely Non-Compliant", "Partially", 0);
  }

  /** How the five status strings fall under the substring tests. */
  lemma StatusMarkers(s: ComplianceStatus)
    ensures Includes(s.Text(), "Non-Compliant") <==> s == NotFound || s == LikelyNonCompliant
    ensures Includes(s.Text(), "Not Found") <==> s == NotFound
    ensures Includes(s.Text(), "Partially") <==> s == PartiallyCompliant
  {
    IncludesCorrect(s.Text(), "Non-Compliant");
    IncludesCorrect(s.Text(), "Not Found");
    IncludesCorrect(s.Text(), "Partially");
    match s
    case Compliant => CompliantMarkers();
    case LikelyCompliant => CompliantMarkers();
    case PartiallyCompliant => PartiallyCompliantMarkers();
    case NotFound => NotFoundMarkers();
    case LikelyNonCompliant => LikelyNonCompliantMarkers();
  }

  /** The badge tier of every status value agrees with the shield icon the
      interactive view shows for it: severe for the two non-compliant
      values, partial for "Partially Compliant", compliant for the rest. */
  lemma StatusBadgeMatchesIcon(s: ComplianceStatus)
    ensures BadgeClass(s.Text()) == NonCompliantClass <==> Constants.StatusIcon(s) == Constants.ShieldAlert
    ensures BadgeClass(s.Text()) == PartialClass <==> Constants.StatusIcon(s) == Constants.ShieldQuestion
    ensures BadgeClass(s.Text()) == CompliantClass <==> Constants.StatusIcon(s) == Constants.ShieldCheck
  {
    StatusMarkers(s);
  }

  // ---------------------------------------------------------------------
  // drafting preamble

  const InsertPreamble: string := "Insert the following new clause:"
  const AmendPreamble: string := "Replace/Amend with the following:"

  function DraftingPreamble(status: string): (r: string)
    ensures r == InsertPreamble || r == AmendPreamble
  {
    if Includes(status, "Not Found") then InsertPreamble else AmendPreamble
  }

  /** The "Insert" preamble is chosen exactly when "Not Found" occurs in the
      status; otherwise the "Replace/Amend" one. */
  lemma DraftingPreambleSpec(status: string)
    ensures DraftingPreamble(status) == InsertPreamble <==> Occurs(status, "Not Found")
    ensures DraftingPreamble(status) == AmendPreamble <==> !Occurs(status, "Not Found")
  {
    IncludesCorrect(status, "Not Found");
    assert InsertPreamble[0] != AmendPreamble[0];
  }

  /** Of the five statuses only "Not Found / Non-Compliant" gets the
      "Insert" preamble; "Likely Non-Compliant" is severe yet gets
      "Replace/Amend". */
  lemma StatusPreamble(s: ComplianceStatus)
    ensures DraftingPreamble(s.Text()) == (if s == NotFound then InsertPreamble else AmendPreamble)
    ensures s == LikelyNonCompliant ==>
      BadgeClass(s.Text()) == NonCompliantClass && DraftingPreamble(s.Text()) == AmendPreamble
  {
    StatusMarkers(s);
  }

  // ---------------------------------------------------------------------
  // the pieces of the document

  /** `value || fallback`: the empty string is falsy. */
  function OrDefault(value: string, fallback: string): string
  {
    if value == "" then fallback else value
  }

  /** `req.status === ComplianceStatus.COMPLIANT`, a comparison of strings. */
  predicate IsCompliant(req: RequirementAnalysis)
  {
    req.status.Text() == Compliant.Text()
  }

  predicate NeedsAmendment(req: RequirementAnalysis)
  {
    !IsCompliant(req)
  }

  /** Comparing the status strings is the same as comparing the statuses. */
  lemma IsCompliantIff(req: RequirementAnalysis)
    ensures IsCompliant(req) <==> req.status == Compliant
  {
    StatusTextInjective(req.status, Compliant);
  }

  function ListItem(x: string): string
  {
    "<li>" + x + "</li>"
  }

  /** `xs.map(x => `<li>${x}</li>`).join('')`. */
  function ListItems(xs: seq<string>): string
  {
    ConcatMap(xs, ListItem)
  }

  /** The list holds one item per entry, in the given order. */
  lemma ListItemsInOrder(xs: seq<string>, x: string)
    ensures ListItems([]) == ""
    ensures ListItems(xs + [x]) == ListItems(xs) + "<li>" + x + "</li>"
  {
    ConcatMapAppend(xs, [x], ListItem);
  }

  /** The quoted excerpt with its clause reference, or nothing when the
      requirement has no excerpt. */
  function ExcerptBlock(req: RequirementAnalysis): string
  {
    if req.excerpt != "" then
      "<div class=\"section-label\">" + ClauseCaption(req) + "</div><div class=\"clause-box\">"
      + Quoted(req.excerpt) + "</div>"
    else ""
  }

  /** The label above an excerpt: its clause reference, or "N/A". */
  function ClauseCaption(req: RequirementAnalysis): string
  {
    "Existing Clause Reference: " + OrDefault(req.clauseReference, "N/A")
  }

  function Quoted(s: string): string
  {
    "\"" + s + "\""
  }

  /** The highlighted drafting action, or nothing when there is no
      suggestion (or, redundantly, when the requirement is compliant). */
  function DraftingBlock(req: RequirementAnalysis, isCompliant: bool): string
  {
    if !isCompliant && req.suggestedImprovement != "" then
      "<div class=\"suggestion-box\"><div class=\"section-label\">Recommended Drafting Action</div><p>"
      + DraftingPreamble(req.status.Text())
      + "</p><div class=\"redline\">" + ReplaceNewlines(req.suggestedImprovement) + "</div></div>"
    else ""
  }

  /** Title, article reference, status badge and analysis of a requirement. */
  function RequirementHeader(req: RequirementAnalysis): string
  {
    "<div class=\"req-item\"><div class=\"req-header\"><div><span class=\"req-title\">" + req.name
    + "</span><span class=\"req-ref\">" + req.articleReference
    + "</span></div><span class=\"badge " + BadgeClass(req.status.Text()) + "\">" + req.status.Text()
    + "</span></div><div class=\"section-label\">Analysis</div><div class=\"analysis\">" + req.analysis
    + "</div>"
  }

  function RequirementBlock(req: RequirementAnalysis, isCompliant: bool): string
  {
    RequirementHeader(req) + ExcerptBlock(req) + DraftingBlock(req, isCompliant) + "</div>"
  }

  /** The amendment block of a requirement that needs one. */
  function RemediationBlock(req: RequirementAnalysis): string
  {
    RequirementBlock(req, false)
  }

  /** The callback of the amendments `map`: the empty string for a
      compliant requirement, its block otherwise. */
  function AmendmentEntry(req: RequirementAnalysis): string
  {
    var isCompliant := IsCompliant(req);
    if isCompliant then "" else RequirementBlock(req, isCompliant)
  }

  function AmendmentsSection(reqs: seq<RequirementAnalysis>): string
  {
    ConcatMap(reqs, AmendmentEntry)
  }

  function CompliantItem(req: RequirementAnalysis): string
  {
    "<li><strong>" + req.name + ":</strong> Compliant (" + OrDefault(req.clauseReference, "Found") + ")</li>"
  }

  function CompliantSection(reqs: seq<RequirementAnalysis>): string
  {
    ConcatMap(Filter(reqs, IsCompliant), CompliantItem)
  }

  /** Stand-in for the fixed inline stylesheet; its rules are not modelled. */
  const StyleSheet: string := "<style></style>"

  const DocumentHead: string :=
    "<!DOCTYPE html><html lang=\"en\"><head><meta charset=\"UTF-8\">"
    + "<title>Data Processor Scan - Remediation Schedule</title>" + StyleSheet
    + "</head><body><h1>Data Processor Remediation Schedule</h1>"

  function MetaLine(date: string): string
  {
    "<div class=\"meta\">Generated on " + date + " \U{2022} Based on UK GDPR Art 28(3)</div>"
  }

  function ExecutiveSummary(a: OverallAssessment): string
  {
    "<div class=\"summary-box\"><h2>Executive Summary</h2><p><strong>Overall Compliance Rating:</strong> "
    + "<span class=\"badge " + BadgeClass(a.rating.Text()) + "\">" + a.rating.Text() + "</span></p>"
    + "<p>" + a.summary + "</p><div><div><h3>\U{26A0}\U{FE0F} Key Risks</h3><ul>" + ListItems(a.keyRisks)
    + "</ul></div><div><h3>\U{2705} Key Strengths</h3><ul>" + ListItems(a.keyStrengths)
    + "</ul></div></div></div>"
  }

  /** Heading and fixed introduction of the amendments section. */
  const AmendmentsHeading: string :=
    "<h2>Schedule of Required Amendments</h2><p>The following table outlines compliance gaps identified in the contract.</p>"

  const CompliantHeading: string := "<h2>Compliant Items (No Action Required)</h2><ul>"

  const Footer: string :=
    "</ul><div class=\"footer\">Generated by <strong>Data Processor Scan</strong>. "
    + "This document is an automated analysis tool and does not constitute legal advice.</div></body></html>"

  /** `generateHTMLReport`, with the formatted generation date supplied by
      the caller. */
  function GenerateHtmlReport(report: ComplianceReport, date: string): string
  {
    Prelude(report.overallAssessment, date) + AmendmentsSection(report.requirements)
    + CompliantHeading + CompliantSection(report.requirements) + Footer
  }

  /** Everything before the amendment blocks. */
  function Prelude(a: OverallAssessment, date: string): string
  {
    DocumentHead + MetaLine(date) + ExecutiveSummary(a) + AmendmentsHeading
  }

  // ---------------------------------------------------------------------
  // properties of the document

  /** The amendments section is exactly the blocks of the requirements that
      need amendment, one each, in report order: compliant requirements
      contribute nothing. */
  lemma AmendmentsAreRemediationBlocks(reqs: seq<RequirementAnalysis>)
    ensures AmendmentsSection(reqs) == ConcatMap(Filter(reqs, NeedsAmendment), RemediationBlock)
  {
    ConcatMapSkipsEmpty(reqs, NeedsAmendment, AmendmentEntry, RemediationBlock);
  }

  /** The two sections split the requirements: every requirement is in
      exactly one of them, the compliant list holding precisely those with
      status "Compliant". */
  lemma SectionsPartitionRequirements(reqs: seq<RequirementAnalysis>, req: RequirementAnalysis)
    ensures multiset(Filter(reqs, NeedsAmendment)) + multiset(Filter(reqs, IsCompliant)) == multiset(reqs)
    ensures |Filter(reqs, NeedsAmendment)| + |Filter(reqs, IsCompliant)| == |reqs|
    ensures req in Filter(reqs, IsCompliant) <==> req in reqs && req.status == Compliant
    ensures req in Filter(reqs, NeedsAmendment) <==> req in reqs && req.status != Compliant
  {
    FilterPartition(reqs, IsCompliant, NeedsAmendment);
    FilterMembers(reqs, IsCompliant, req);
    FilterMembers(reqs, NeedsAmendment, req);
    IsCompliantIff(req);
  }

  /** The amendments follow report order: one more requirement at the end
      adds its block at the end, or nothing when it is compliant. */
  lemma AmendmentsGrowInOrder(reqs: seq<RequirementAnalysis>, req: RequirementAnalysis)
    ensures AmendmentsSection(reqs + [req])
      == AmendmentsSection(reqs) + (if req.status == Compliant then "" else RemediationBlock(req))
  {
    IsCompliantIff(req);
    ConcatMapSnoc(reqs, req, AmendmentEntry);
  }

  /** The compliant list follows report order: one more requirement at the
      end adds its line at the end when it is compliant, and nothing
      otherwise. */
  lemma CompliantGrowsInOrder(reqs: seq<RequirementAnalysis>, req: RequirementAnalysis)
    ensures CompliantSection(reqs + [req])
      == CompliantSection(reqs) + (if req.status == Compliant then CompliantItem(req) else "")
  {
    IsCompliantIff(req);
    FilterAppend(reqs, [req], IsCompliant);
    var kept := Filter(reqs, IsCompliant);
    assert [req][1..] == [];
    if req.status == Compliant {
      assert Filter([req], IsCompliant) == [req];
      ConcatMapAppend(kept, [req], CompliantItem);
    } else {
      assert Filter([req], IsCompliant) == [];
      assert kept + [] == kept;
    }
  }

  /** A compliant requirement's line names it and shows its clause
      reference, or "Found" when there is none. */
  lemma CompliantItemShowsReference(req: RequirementAnalysis)
    ensures req.clauseReference == "" ==> Includes(CompliantItem(req), "Found")
    ensures req.clauseReference != "" ==> Includes(CompliantItem(req), req.clauseReference)
    ensures Includes(CompliantItem(req), req.name)
  {
    var ref := OrDefault(req.clauseReference, "Found");
    var open := "<li><strong>";
    var mid := ":</strong> Compliant (";
    IncludesParts(open, req.name);
    IncludesInLeft(open + req.name, mid, req.name);
    IncludesInLeft(open + req.name + mid, ref, req.name);
    IncludesInLeft(open + req.name + mid + ref, ")</li>", req.name);
    IncludesParts(open + req.name + mid, ref);
    IncludesInLeft(open + req.name + mid + ref, ")</li>", ref);
  }

  /** Each requirement of the report shows up in the document: as its
      amendment block when it needs one, as its one-line item otherwise. */
  lemma EveryRequirementRendered(report: ComplianceReport, date: string, i: int)
    requires 0 <= i < |report.requirements|
    ensures var req := report.requirements[i];
      Includes(GenerateHtmlReport(report, date),
               if req.status == Compliant then CompliantItem(req) else RemediationBlock(req))
  {
    var reqs := report.requirements;
    var req := reqs[i];
    var pre := Prelude(report.overallAssessment, date);
    var amendments := AmendmentsSection(reqs);
    var compliant := CompliantSection(reqs);
    var doc := GenerateHtmlReport(report, date);
    IsCompliantIff(req);
    if req.status == Compliant {
      var kept := Filter(reqs, IsCompliant);
      FilterMembers(reqs, IsCompliant, req);
      var k :| 0 <= k < |kept| && kept[k] == req;
      ConcatMapInfix(kept, CompliantItem, k);
      var a, b :| compliant == a + CompliantItem(req) + b;
      IncludesInfix(a, CompliantItem(req), b);
      IncludesParts(pre + amendments + CompliantHeading, compliant);
      IncludesInLeft(pre + amendments + CompliantHeading + compliant, Footer, compliant);
      IncludesTrans(doc, compliant, CompliantItem(req));
    } else {
      ConcatMapInfix(reqs, AmendmentEntry, i);
      var a, b :| amendments == a + AmendmentEntry(req) + b;
      IncludesInfix(a, RemediationBlock(req), b);
      IncludesParts(pre, amendments);
      IncludesInLeft(pre + amendments, CompliantHeading, amendments);
      IncludesInLeft(pre + amendments + CompliantHeading, compliant, amendments);
      IncludesInLeft(pre + amendments + CompliantHeading + compliant, Footer, amendments);
      IncludesTrans(doc, amendments, RemediationBlock(req));
    }
  }

  /** A report whose requirements are all compliant renders an empty
      amendments section and lists every requirement as compliant. */
  lemma AllCompliantReport(reqs: seq<RequirementAnalysis>)
    requires forall i :: 0 <= i < |reqs| ==> reqs[i].status == Compliant
    ensures AmendmentsSection(reqs) == ""
    ensures CompliantSection(reqs) == ConcatMap(reqs, CompliantItem)
  {
    AmendmentsAreRemediationBlocks(reqs);
    forall i | 0 <= i < |reqs| ensures IsCompliant(reqs[i]) { IsCompliantIff(reqs[i]); }
    FilterAllOrNone(reqs, NeedsAmendment);
    FilterAllOrNone(reqs, IsCompliant);
  }

  /** The excerpt block is present exactly when there is an excerpt; it then
      quotes the excerpt under the clause reference, or "N/A" when there is
      none. */
  lemma ExcerptBlockSpec(req: RequirementAnalysis)
    ensures ExcerptBlock(req) == "" <==> req.excerpt == ""
    ensures req.excerpt != "" ==>
      Includes(ExcerptBlock(req), ClauseCaption(req)) && Includes(ExcerptBlock(req), Quoted(req.excerpt))
    ensures ClauseCaption(req) == "Existing Clause Reference: "
      + (if req.clauseReference == "" then "N/A" else req.clauseReference)
  {
    if req.excerpt != "" {
      var open := "<div class=\"section-label\">";
      var between := "</div><div class=\"clause-box\">";
      var caption, quoted := ClauseCaption(req), Quoted(req.excerpt);
      IncludesParts(open, caption);
      IncludesInLeft(open + caption, between, caption);
      IncludesInLeft(open + caption + between, quoted, caption);
      IncludesInLeft(open + caption + between + quoted, "</div>", caption);
      IncludesParts(open + caption + between, quoted);
      IncludesInLeft(open + caption + between + quoted, "</div>", quoted);
    }
  }

  /** The drafting block of a requirement in the amendments section is
      present exactly when there is a suggestion; it then carries the
      status-dependent preamble and the suggestion with every line feed
      turned into `<br/>`, so no line feed is left. */
  lemma DraftingBlockSpec(req: RequirementAnalysis)
    ensures DraftingBlock(req, true) == ""
    ensures DraftingBlock(req, false) == "" <==> req.suggestedImprovement == ""
    ensures req.suggestedImprovement != "" ==>
      Includes(DraftingBlock(req, false), DraftingPreamble(req.status.Text()))
      && Includes(DraftingBlock(req, false), ReplaceNewlines(req.suggestedImprovement))
    ensures '\n' !in ReplaceNewlines(req.suggestedImprovement)
  {
    ReplaceNewlinesRemovesAll(req.suggestedImprovement);
    if req.suggestedImprovement != "" {
      var pre := DraftingPreamble(req.status.Text());
      var body := ReplaceNewlines(req.suggestedImprovement);
      var open := "<div class=\"suggestion-box\"><div class=\"section-label\">Recommended Drafting Action</div><p>";
      var between := "</p><div class=\"redline\">";
      var close := "</div></div>";
      IncludesParts(open, pre);
      IncludesInLeft(open + pre, between, pre);
      IncludesInLeft(open + pre + between, body, pre);
      IncludesInLeft(open + pre + between + body, close, pre);
      IncludesParts(open + pre + between, body);
      IncludesInLeft(open + pre + between + body, close, body);
    }
  }

  /** A "Not Found / Non-Compliant" requirement with a suggestion is drafted
      as a new clause, a "Partially Compliant" one as an amendment. */
  lemma PreambleScenario(missing: RequirementAnalysis, partial: RequirementAnalysis)
    requires missing.status == NotFound && missing.suggestedImprovement != ""
    requires partial.status == PartiallyCompliant && partial.suggestedImprovement != ""
    ensures Includes(AmendmentEntry(missing), InsertPreamble)
    ensures Includes(AmendmentEntry(partial), AmendPreamble)
  {
    StatusPreamble(missing.status);
    StatusPreamble(partial.status);
    IsCompliantIff(missing);
    IsCompliantIff(partial);
    DraftingInBlock(missing, InsertPreamble);
    DraftingInBlock(partial, AmendPreamble);
  }

  /** Whatever the drafting block contains, the requirement's block contains. */
  lemma DraftingInBlock(req: RequirementAnalysis, t: string)
    requires req.suggestedImprovement != "" && t == DraftingPreamble(req.status.Text())
    ensures Includes(RemediationBlock(req), t)
  {
    DraftingBlockSpec(req);
    var d := DraftingBlock(req, false);
    var pre := RequirementHeader(req) + ExcerptBlock(req);
    IncludesParts(pre, d);
    IncludesInLeft(pre + d, "</div>", d);
    IncludesTrans(RemediationBlock(req), d, t);
  }
}
