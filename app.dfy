/** The application controller: four state cells (report, loading, error,
    document type), the handlers that update them, and the screen they
    select.  An `await` is modelled as a start step and a completion step. */
module App {
  import opened Wrappers
  import opened Types
  import opened Analysis
  import ReportGenerator
  import FileUpload
  import FileParser

  const UnexpectedError: string := "An unexpected error occurred."
  const ReportFileName: string := "Data-Processor-Remediation-Report.html"

  /** A file the browser is asked to save. */
  datatype SavedFile = SavedFile(name: string, contents: string)

  /** What the page shows below its header. */
  datatype Screen =
    | InputForm(error: Option<string>)
    | Analysing
    | Results(report: ComplianceReport)

  /** The view selection: results whenever there is a report; otherwise the
      spinner while loading, else the input form with any error under it. */
  function ScreenOf(report: Option<ComplianceReport>, loading: bool, error: Option<string>): Screen
  {
    if report.Some? then Results(report.value)
    else if loading then Analysing
    else InputForm(error)
  }

  /** The input form, the only way to start an analysis, is offered exactly
      when there is no report and nothing is loading; the results, with
      their "Start Over" and download buttons, exactly when there is a
      report. */
  lemma ScreenSelection(report: Option<ComplianceReport>, loading: bool, error: Option<string>)
    ensures ScreenOf(report, loading, error).InputForm? <==> report.None? && !loading
    ensures ScreenOf(report, loading, error).Results? <==> report.Some?
    ensures ScreenOf(report, loading, error).Analysing? <==> report.None? && loading
    ensures ScreenOf(report, loading, error).InputForm? ==> ScreenOf(report, loading, error).error == error
  {
  }

  /** The message stored when the analysis rejects. */
  function FailureMessage(err: Thrown): (m: string)
    ensures err.ErrorValue? ==> m == err.message
    ensures err.NonError? ==> m == UnexpectedError
  {
    MessageOr(err, UnexpectedError)
  }

  class Controller {
    var report: Option<ComplianceReport>
    var loading: bool
    var docType: DocumentType
    var error: Option<string>

    /** The initial state: no report, idle, no error, "Standalone DPA". */
    constructor()
      ensures report == None && !loading && docType == Dpa && error == None
    {
      report := None;
      loading := false;
      docType := Dpa;
      error := None;
    }

    function CurrentScreen(): Screen
      reads this
    {
      ScreenOf(report, loading, error)
    }

    /** The document-type selector's `onChange`: the chosen option's value
        read as a document type. */
    method SelectDocType(value: string)
      requires ParseDocumentType(value).Some?
      modifies this
      ensures docType.Text() == value
      ensures report == old(report) && loading == old(loading) && error == old(error)
    {
      docType := ParseDocumentType(value).value;
      ParseDocumentTypeRoundTrip(docType, value);
    }

    /** `handleAnalysis` up to its `await`: mark loading, clear the error,
        and issue the request with the current document type. */
    method BeginAnalysis(text: string) returns (request: AnalysisRequest)
      modifies this
      ensures loading && error == None
      ensures report == old(report) && docType == old(docType)
      ensures request == AnalysisRequest(text, docType)
    {
      loading := true;
      error := None;
      request := AnalysisRequest(text, docType);
    }

    /** `handleAnalysis` after its `await`: store the report or the
        failure's message; the `finally` clears loading. */
    method FinishAnalysis(outcome: Result<ComplianceReport, Thrown>)
      modifies this
      ensures !loading && docType == old(docType)
      ensures outcome.Success? ==> report == Some(outcome.value) && error == old(error)
      ensures outcome.Failure? ==> report == old(report) && error == Some(FailureMessage(outcome.error))
    {
      match outcome {
        case Success(result) => report := Some(result);
        case Failure(err) => error := Some(FailureMessage(err));
      }
      loading := false;
    }

    /** The whole of `handleAnalysis`, with the analysis service given as a
        function of the request. */
    method HandleAnalysis(text: string, analyze: AnalysisRequest -> Result<ComplianceReport, Thrown>)
      modifies this
      ensures var outcome := analyze(AnalysisRequest(text, old(docType)));
        && !loading && docType == old(docType)
        && (outcome.Success? ==> report == Some(outcome.value) && error == None)
        && (outcome.Failure? ==> report == old(report) && error == Some(FailureMessage(outcome.error)))
    {
      var request := BeginAnalysis(text);
      FinishAnalysis(analyze(request));
    }

    /** `handleReset`: drop the report and the error; the document type and
        the loading flag stay as they are. */
    method Reset()
      modifies this
      ensures report == None && error == None
      ensures loading == old(loading) && docType == old(docType)
    {
      report := None;
      error := None;
    }

    /** `handleDownload`: nothing without a report, otherwise the rendered
        schedule under the fixed file name. */
    method Download(date: string) returns (saved: Option<SavedFile>)
      ensures report.None? ==> saved == None
      ensures report.Some? ==>
        saved == Some(SavedFile(ReportFileName, ReportGenerator.GenerateHtmlReport(report.value, date)))
    {
      if report.None? {
        return None;
      }
      saved := Some(SavedFile(ReportFileName, ReportGenerator.GenerateHtmlReport(report.value, date)));
    }
  }

  /** Pasting and submitting text from the input form: the form's gate
      decides whether the controller starts an analysis at all. */
  method SubmitPastedText(app: Controller, form: FileUpload.Form,
                          analyze: AnalysisRequest -> Result<ComplianceReport, Thrown>)
    requires app != form as object
    modifies app, form
    ensures form.textInput == old(form.textInput)
    ensures !FileUpload.PastedTextAccepted(old(form.textInput)) ==>
      && form.error == Some(FileUpload.TooShortError)
      && app.report == old(app.report) && app.loading == old(app.loading)
      && app.error == old(app.error) && app.docType == old(app.docType)
    ensures FileUpload.PastedTextAccepted(old(form.textInput)) ==>
      var outcome := analyze(AnalysisRequest(old(form.textInput), old(app.docType)));
      && form.error == old(form.error)
      && !app.loading && app.docType == old(app.docType)
      && (outcome.Success? ==> app.report == Some(outcome.value) && app.error == None)
      && (outcome.Failure? ==> app.report == old(app.report) && app.error == Some(FailureMessage(outcome.error)))
  {
    var forwarded := form.HandleTextSubmit();
    if forwarded.Some? {
      app.HandleAnalysis(forwarded.value, analyze);
    }
  }

  /** Uploading a file from the input form: only extracted text of at least
      fifty characters reaches the controller. */
  method SubmitFile(app: Controller, form: FileUpload.Form, file: FileParser.UploadedFile,
                    analyze: AnalysisRequest -> Result<ComplianceReport, Thrown>)
    requires app != form as object
    modifies app, form
    ensures form.textInput == old(form.textInput)
    ensures var x := FileParser.Extraction(file);
      form.error == if x.Failure? then Some(MessageOr(x.error, FileUpload.ReadFallback))
                    else if !FileUpload.FileTextAccepted(x.value) then Some(FileUpload.EmptyFileError)
                    else None
    ensures var x := FileParser.Extraction(file);
      !(x.Success? && FileUpload.FileTextAccepted(x.value)) ==>
        app.report == old(app.report) && app.loading == old(app.loading)
        && app.error == old(app.error) && app.docType == old(app.docType)
    ensures var x := FileParser.Extraction(file);
      x.Success? && FileUpload.FileTextAccepted(x.value) ==>
        var outcome := analyze(AnalysisRequest(x.value, old(app.docType)));
        && !app.loading && app.docType == old(app.docType)
        && (outcome.Success? ==> app.report == Some(outcome.value) && app.error == None)
        && (outcome.Failure? ==> app.report == old(app.report) && app.error == Some(FailureMessage(outcome.error)))
  {
    var forwarded := form.ProcessFile(file);
    if forwarded.Some? {
      app.HandleAnalysis(forwarded.value, analyze);
    }
  }
}
