/** `src/pages/Index.tsx`: the four-step wizard (upload, language,
    extract and translate, summary) and the state its handlers update. The
    object URL of an image preview is a parameter. */
module IndexPage {
  import opened Wrappers
  import opened Strings
  import opened Files
  import opened TranslationService
  import opened SummaryService
  import opened OcrService

  const Steps: seq<string> := ["Upload Document", "Language Selection", "Extract & Translate", "Summary"]

  /** The summary the effect on `[correctedText, selectedLanguage]` sets. */
  function RecomputedSummary(correctedText: string, selectedLanguage: string, gateway: Gateway): string {
    if correctedText != "" && selectedLanguage != "" then Summary(correctedText, selectedLanguage, gateway) else ""
  }

  /** `extractTextFromDocument(uploadedFile, [selectedLanguage])`. */
  method ExtractForLanguage(file: File, language: string, engines: Engines) returns (r: Result<OcrResult, string>)
    ensures r == Extract(file, [language], engines)
  {
    var calls;
    r, calls := ExtractTextFromDocument(file, [language], engines);
  }

  class IndexState {
    var uploadedFile: Option<File>
    var selectedLanguage: string
    var extractedText: string
    var isProcessing: bool
    var correctedText: string
    var correctedSummary: string
    var previewUrl: Option<string>
    var ocrResult: Option<OcrResult>
    var darkMode: bool
    var currentStep: nat

    /** Between handlers: the step is one of the four, nothing is being
        processed, a preview URL belongs to an uploaded image, and an OCR
        result belongs to the uploaded file and is the source of the
        extracted text. */
    ghost predicate Valid()
      reads this
    {
      && currentStep < |Steps|
      && !isProcessing
      && (previewUrl.Some? ==> uploadedFile.Some? && IsImageType(uploadedFile.value.mimeType))
      && (ocrResult.Some? ==> uploadedFile.Some? && extractedText == ocrResult.value.text)
    }

    /** The initial state; `darkMode` comes from the stored theme. */
    constructor (darkMode: bool)
      ensures Valid()
      ensures uploadedFile.None? && selectedLanguage == "en" && extractedText == ""
      ensures correctedText == "" && correctedSummary == "" && previewUrl.None? && ocrResult.None?
      ensures this.darkMode == darkMode && currentStep == 0
    {
      uploadedFile := None;
      selectedLanguage := "en";
      extractedText := "";
      isProcessing := false;
      correctedText := "";
      correctedSummary := "";
      previewUrl := None;
      ocrResult := None;
      this.darkMode := darkMode;
      currentStep := 0;
    }

    /** `handleFileUpload(file)`: store the file, a preview URL only for an
        image, clear the previous extraction and go to the language step. */
    method HandleFileUpload(file: File, objectUrl: string)
      requires Valid()
      modifies this
      ensures Valid()
      ensures uploadedFile == Some(file)
      ensures previewUrl == if IsImageType(file.mimeType) then Some(objectUrl) else None
      ensures extractedText == "" && ocrResult.None? && currentStep == 1
      ensures selectedLanguage == old(selectedLanguage) && correctedText == old(correctedText)
      ensures correctedSummary == old(correctedSummary) && darkMode == old(darkMode)
    {
      uploadedFile := Some(file);
      if IsImageType(file.mimeType) {
        previewUrl := Some(objectUrl);
      } else {
        previewUrl := None;
      }
      extractedText := "";
      ocrResult := None;
      currentStep := 1;
    }

    /** `handleProcessDocument`: with no file nothing changes; otherwise the
        file is extracted for the selected language, and on success the text
        and result are stored and the wizard moves to the summary step. */
    method HandleProcessDocument(engines: Engines)
      requires Valid()
      modifies this
      ensures Valid()
      ensures old(uploadedFile).None? ==> unchanged(this)
      ensures old(uploadedFile).Some? ==>
        ProcessedAs(Extract(old(uploadedFile).value, [old(selectedLanguage)], engines),
                    old(extractedText), old(ocrResult), old(currentStep))
      ensures uploadedFile == old(uploadedFile) && selectedLanguage == old(selectedLanguage)
      ensures previewUrl == old(previewUrl) && correctedText == old(correctedText)
      ensures correctedSummary == old(correctedSummary) && darkMode == old(darkMode)
    {
      if uploadedFile.None? {
        return;
      }
      var result := ExtractForLanguage(uploadedFile.value, selectedLanguage, engines);
      Store(result);
    }

    /** The state changes after the extraction settled with `r`. */
    method Store(r: Result<OcrResult, string>)
      requires Valid() && uploadedFile.Some?
      modifies this
      ensures Valid()
      ensures ProcessedAs(r, old(extractedText), old(ocrResult), old(currentStep))
      ensures uploadedFile == old(uploadedFile) && selectedLanguage == old(selectedLanguage)
      ensures previewUrl == old(previewUrl) && correctedText == old(correctedText)
      ensures correctedSummary == old(correctedSummary) && darkMode == old(darkMode)
    {
      isProcessing := true;
      if r.Success? {
        extractedText := r.value.text;
        ocrResult := Some(r.value);
        currentStep := 3;
      }
      isProcessing := false;
    }

    /** The state after processing produced `r`: on success the text and
        result stored and the summary step reached, on failure the earlier
        text, result and step kept. */
    ghost predicate ProcessedAs(r: Result<OcrResult, string>, oldText: string, oldResult: Option<OcrResult>, oldStep: nat)
      reads this
    {
      && (r.Success? ==> extractedText == r.value.text && ocrResult == Some(r.value) && currentStep == 3)
      && (r.Failure? ==> extractedText == oldText && ocrResult == oldResult && currentStep == oldStep)
    }

    /** `handleNext`: advance unless on the last step. */
    method HandleNext()
      requires Valid()
      modifies this
      ensures Valid()
      ensures currentStep == if old(currentStep) < |Steps| - 1 then old(currentStep) + 1 else old(currentStep)
      ensures currentStep == StepAfter(old(currentStep), [true])
      ensures uploadedFile == old(uploadedFile) && extractedText == old(extractedText)
      ensures ocrResult == old(ocrResult) && previewUrl == old(previewUrl)
      ensures selectedLanguage == old(selectedLanguage) && correctedText == old(correctedText)
      ensures correctedSummary == old(correctedSummary) && darkMode == old(darkMode)
    {
      if currentStep < |Steps| - 1 {
        currentStep := currentStep + 1;
      }
    }

    /** `handlePrev`: go back unless on the first step. */
    method HandlePrev()
      requires Valid()
      modifies this
      ensures Valid()
      ensures currentStep == if old(currentStep) > 0 then old(currentStep) - 1 else old(currentStep)
      ensures currentStep == StepAfter(old(currentStep), [false])
      ensures uploadedFile == old(uploadedFile) && extractedText == old(extractedText)
      ensures ocrResult == old(ocrResult) && previewUrl == old(previewUrl)
      ensures selectedLanguage == old(selectedLanguage) && correctedText == old(correctedText)
      ensures correctedSummary == old(correctedSummary) && darkMode == old(darkMode)
    {
      if currentStep > 0 {
        currentStep := currentStep - 1;
      }
    }

    /** `handleStartOver`: forget the document and everything derived from
        it; the language and the theme stay. */
    method HandleStartOver()
      requires Valid()
      modifies this
      ensures Valid()
      ensures uploadedFile.None? && previewUrl.None? && ocrResult.None?
      ensures extractedText == "" && correctedText == "" && correctedSummary == "" && currentStep == 0
      ensures selectedLanguage == old(selectedLanguage) && darkMode == old(darkMode)
    {
      uploadedFile := None;
      previewUrl := None;
      extractedText := "";
      ocrResult := None;
      correctedText := "";
      correctedSummary := "";
      currentStep := 0;
    }

    /** `setSelectedLanguage`, wired to the language selector. */
    method SelectLanguage(language: string)
      requires Valid()
      modifies this
      ensures Valid()
      ensures selectedLanguage == language
      ensures uploadedFile == old(uploadedFile) && currentStep == old(currentStep)
      ensures extractedText == old(extractedText) && ocrResult == old(ocrResult)
      ensures previewUrl == old(previewUrl) && correctedText == old(correctedText)
      ensures correctedSummary == old(correctedSummary) && darkMode == old(darkMode)
    {
      selectedLanguage := language;
    }

    /** `setCorrectedText`, wired to the word editor's `onTextChange`. */
    method SetCorrectedText(text: string)
      requires Valid()
      modifies this
      ensures Valid()
      ensures correctedText == text
      ensures uploadedFile == old(uploadedFile) && currentStep == old(currentStep)
      ensures extractedText == old(extractedText) && ocrResult == old(ocrResult)
      ensures selectedLanguage == old(selectedLanguage) && previewUrl == old(previewUrl)
      ensures correctedSummary == old(correctedSummary) && darkMode == old(darkMode)
    {
      correctedText := text;
    }

    /** The dark-mode button. */
    method ToggleDarkMode()
      requires Valid()
      modifies this
      ensures Valid()
      ensures darkMode == !old(darkMode)
      ensures uploadedFile == old(uploadedFile) && currentStep == old(currentStep)
      ensures selectedLanguage == old(selectedLanguage) && extractedText == old(extractedText)
      ensures ocrResult == old(ocrResult) && previewUrl == old(previewUrl)
      ensures correctedText == old(correctedText) && correctedSummary == old(correctedSummary)
    {
      darkMode := !darkMode;
    }

    /** The summary effect: summarise the corrected text in the selected
        language when both are non-empty, else clear the summary. Returns the
        gateway requests made. */
    method RecomputeSummary(gateway: Gateway) returns (calls: seq<Request>)
      requires Valid()
      modifies this
      ensures Valid()
      ensures correctedSummary == RecomputedSummary(correctedText, selectedLanguage, gateway)
      ensures correctedText == old(correctedText) && selectedLanguage == old(selectedLanguage)
      ensures uploadedFile == old(uploadedFile) && currentStep == old(currentStep)
      ensures extractedText == old(extractedText) && ocrResult == old(ocrResult)
      ensures previewUrl == old(previewUrl) && darkMode == old(darkMode)
    {
      calls := [];
      if correctedText != "" && selectedLanguage != "" {
        var summary;
        summary, calls := GenerateSummary(correctedText, selectedLanguage, gateway);
        correctedSummary := summary;
      } else {
        correctedSummary := "";
      }
    }
  }

  // ---------------------------------------------------------------------------
  // Lemmas

  /** A non-empty summary is produced exactly when there is corrected text
      and a language; an English one ends with a period. */
  lemma RecomputedSummaryShape(correctedText: string, selectedLanguage: string, gateway: Gateway)
    ensures RecomputedSummary(correctedText, selectedLanguage, gateway) == "" ==>
      correctedText == "" || selectedLanguage == "" || selectedLanguage != "en"
    ensures correctedText != "" && selectedLanguage == "en" ==>
      var s := RecomputedSummary(correctedText, selectedLanguage, gateway);
      |s| > 0 && s[|s| - 1] == '.'
  {
    if correctedText != "" && selectedLanguage == "en" {
      EnglishSummaryEndsWithPeriod(correctedText, gateway);
    }
  }

  /** Any sequence of Next and Prev clicks keeps the step within the four
      steps and moves it by at most one per click. */
  lemma {:induction false} StepWalkBounded(start: nat, clicks: seq<bool>)
    requires start < |Steps|
    ensures StepAfter(start, clicks) < |Steps|
    ensures start - |clicks| <= StepAfter(start, clicks) <= start + |clicks|
    decreases |clicks|
  {
    if clicks != [] {
      StepWalkBounded(start, clicks[..|clicks| - 1]);
    }
  }

  /** The step after a run of clicks, `true` for Next and `false` for Prev. */
  function StepAfter(start: nat, clicks: seq<bool>): nat
    decreases |clicks|
  {
    if clicks == [] then start
    else
      var s := StepAfter(start, clicks[..|clicks| - 1]);
      if clicks[|clicks| - 1] then (if s < |Steps| - 1 then s + 1 else s)
      else (if s > 0 then s - 1 else s)
  }
}
