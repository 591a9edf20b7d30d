/** The input form: a file is extracted and checked for length, pasted text
    is checked after trimming; text that passes is handed to the
    controller. */
module FileUpload {
  import opened Wrappers
  import opened Strings
  import opened FileParser

  const MinLength: nat := 50
  const EmptyFileError: string := "The file seems empty or could not be read."
  const ReadFallback: string := "Error reading file"
  const TooShortError: string := "Please enter enough text to analyze (min 50 chars)."

  /** The file path's gate: the extracted text, untrimmed, is long enough. */
  predicate FileTextAccepted(text: string)
  {
    !(|text| < MinLength)
  }

  /** The paste path's gate: the pasted text is long enough once trimmed. */
  predicate PastedTextAccepted(text: string)
  {
    !(|Trim(text)| < MinLength)
  }

  /** The Analyze button's `disabled`: while processing, or when the typed
      text is blank. */
  predicate AnalyzeDisabled(isProcessing: bool, textInput: string)
  {
    isProcessing || Trim(textInput) == ""
  }

  /** Text made of white space only trims to nothing. */
  lemma {:induction false} TrimOfWhiteSpace(s: string)
    requires AllWhiteSpace(s)
    ensures TrimStart(s) == "" && Trim(s) == ""
    decreases |s|
  {
    if s != [] {
      assert forall i :: 0 <= i < |s[1..]| ==> s[1..][i] == s[i + 1];
      TrimOfWhiteSpace(s[1..]);
    }
  }

  /** The paste gate is the stricter one: text it accepts would pass the
      file gate too, but some text passes the file gate and not the paste
      gate (fifty spaces). */
  lemma PasteGateIsStricter(text: string)
    ensures PastedTextAccepted(text) ==> FileTextAccepted(text)
    ensures var blanks := seq(MinLength, _ => ' ');
      FileTextAccepted(blanks) && !PastedTextAccepted(blanks)
  {
    TrimSpec(text);
    var blanks := seq(MinLength, _ => ' ');
    TrimOfWhiteSpace(blanks);
  }

  /** Pasted text that passes the gate always finds the button enabled when
      nothing is processing; a blank text always finds it disabled, and
      short non-blank text finds it enabled yet is rejected on submit. */
  lemma ButtonAndGate(text: string)
    ensures PastedTextAccepted(text) ==> !AnalyzeDisabled(false, text)
    ensures AllWhiteSpace(text) ==> AnalyzeDisabled(false, text) && !PastedTextAccepted(text)
    ensures !AnalyzeDisabled(false, "x") && !PastedTextAccepted("x")
  {
    if AllWhiteSpace(text) {
      TrimOfWhiteSpace(text);
    }
    assert Trim("x") == "x";
  }

  /** The upload-and-paste form; `onDataReady` is the text a method hands
      back. */
  class Form {
    var textInput: string
    var error: Option<string>

    constructor()
      ensures textInput == "" && error == None
    {
      textInput := "";
      error := None;
    }

    /** The textarea's `onChange`. */
    method EditText(s: string)
      modifies this
      ensures textInput == s && error == old(error)
    {
      textInput := s;
    }

    /** `processFile`: clear the error, extract, check the untrimmed
        length, and forward the text or record the failure's message. */
    method ProcessFile(file: UploadedFile) returns (forwarded: Option<string>)
      modifies this
      ensures textInput == old(textInput)
      ensures var x := Extraction(file);
        forwarded == (if x.Success? && FileTextAccepted(x.value) then Some(x.value) else None)
      ensures var x := Extraction(file);
        error == if x.Failure? then Some(MessageOr(x.error, ReadFallback))
                 else if !FileTextAccepted(x.value) then Some(EmptyFileError)
                 else None
    {
      error := None;
      forwarded := None;
      var extracted := ExtractTextFromFile(file);
      var thrown: Option<Thrown> := None;
      match extracted {
        case Failure(err) =>
          thrown := Some(err);
        case Success(text) =>
          if |text| < MinLength {
            thrown := Some(ErrorValue(EmptyFileError));
          } else {
            forwarded := Some(text);
          }
      }
      if thrown.Some? {
        error := Some(MessageOr(thrown.value, ReadFallback));
      }
    }

    /** `handleTextSubmit`: reject short text with a message, otherwise
        forward it untrimmed; a passing submission leaves any earlier
        message in place. */
    method HandleTextSubmit() returns (forwarded: Option<string>)
      modifies this
      ensures textInput == old(textInput)
      ensures PastedTextAccepted(textInput) ==> forwarded == Some(textInput) && error == old(error)
      ensures !PastedTextAccepted(textInput) ==> forwarded == None && error == Some(TooShortError)
    {
      if |Trim(textInput)| < MinLength {
        error := Some(TooShortError);
        return None;
      }
      forwarded := Some(textInput);
    }

    function SubmitDisabled(isProcessing: bool): bool
      reads this
    {
      AnalyzeDisabled(isProcessing, textInput)
    }
  }

  /** Extraction always rejects with an Error, so the form shows the
      extractor's own message: the "Error reading file" fallback is never
      taken, and a reader that threw a non-Error shows up as the
      extractor's generic message. */
  lemma FileErrorsKeepTheirMessage(file: UploadedFile)
    ensures Extraction(file).Failure? ==>
      MessageOr(Extraction(file).error, ReadFallback) == Extraction(file).error.message
    ensures file.mimeType == PlainTextType && file.plainText == Failure(NonError) ==>
      MessageOr(Extraction(file).error, ReadFallback) == ExtractionFallback
  {
    ExtractionSpec(file);
  }
}
