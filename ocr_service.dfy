/** `src/utils/ocrService.ts`: the pipeline that turns an uploaded document
    into text, word records, a possible translation and a summary. The OCR
    engine, the PDF parser, the language detector and the translation gateway
    are the fields of `Engines`. */
module OcrService {
  import opened Wrappers
  import opened Strings
  import opened Files
  import opened TranslationService
  import opened SummaryService
  import opened PdfExtractor

  const NoTextError: string := "No text could be extracted from the document"
  /** The fixed confidence reported for every result. */
  const MockConfidence: real := 0.85
  /** The confidence given to words of a whitespace split. */
  const FullConfidence: real := 100.0

  datatype BBox = BBox(x0: int, y0: int, x1: int, y1: int)

  /** `OCRWord`: the bounding box is present only for words from the OCR engine. */
  datatype OcrWord = OcrWord(text: string, confidence: real, bbox: Option<BBox>, index: nat)

  /** `OCRResult` */
  datatype OcrResult = OcrResult(
    text: string,
    words: seq<OcrWord>,
    originalText: string,
    summary: string,
    confidence: real,
    detectedLanguages: seq<string>,
    translatedTo: seq<string>)

  /** A word as the OCR engine reports it. */
  datatype RecognizedWord = RecognizedWord(text: string, confidence: real, bbox: BBox)

  /** The `data` of an OCR recognition: the full text and the words. */
  datatype Recognition = Recognition(text: string, words: seq<RecognizedWord>)

  /** The external engines: OCR (which may fail with a message), the PDF
      parser (see `PdfExtractor`), the language detector and the gateway. */
  datatype Engines = Engines(
    recognize: File -> Result<Recognition, string>,
    parsePdf: File -> Option<seq<Page>>,
    detect: string -> string,
    gateway: Gateway)

  /** The text and word records the type dispatch produces. */
  datatype Extraction = Extraction(text: string, words: seq<OcrWord>)

  /** The right-to-left entry of `LANGUAGE_CONFIGS`. */
  predicate IsRtl(language: string) {
    language == "ar"
  }

  /** `processTextForLanguage`: every white-space run becomes one space and
      the ends are trimmed; the right-to-left branch changes nothing. */
  function ProcessTextForLanguage(text: string, languages: seq<string>): string {
    var processed := Trim(CollapseRuns(text, IsWs, ' '));
    var hasRtl := exists i | 0 <= i < |languages| :: IsRtl(languages[i]);
    if hasRtl then processed else processed
  }

  /** `mapFrancToSupportedLang`: the detector's three-letter code mapped to a
      supported code, English for every code outside the table. */
  function MapFrancToSupportedLang(francCode: string): (r: string)
    ensures r in SupportedLanguages
    ensures r == "en" <==> francCode !in {"hin", "fra", "spa", "deu", "cmn", "jpn", "ara"}
  {
    match francCode
    case "eng" => "en"
    case "hin" => "hi"
    case "fra" => "fr"
    case "spa" => "es"
    case "deu" => "de"
    case "cmn" => "zh"
    case "jpn" => "ja"
    case "ara" => "ar"
    case _ => "en"
  }

  /** `text.split(/\r?\n/)`: the lines between line feeds, a carriage return
      just before a line feed belonging to the separator. */
  function SplitLines(s: string): (lines: seq<string>)
    ensures |lines| >= 1
    decreases |s|
  {
    if s == [] then [""]
    else if s[0] == '\n' then [""] + SplitLines(s[1..])
    else if s[0] == '\r' && |s| > 1 && s[1] == '\n' then [""] + SplitLines(s[2..])
    else
      var rest := SplitLines(s[1..]);
      [[s[0]] + rest[0]] + rest[1..]
  }

  /** `s` with every `"\r\n"` line end written as `"\n"`. */
  function LfLines(s: string): (r: string)
    decreases |s|
  {
    if s == [] then []
    else if s[0] == '\r' && |s| > 1 && s[1] == '\n' then "\n" + LfLines(s[2..])
    else [s[0]] + LfLines(s[1..])
  }

  /** The CSV conversion: each line has its commas turned into tabs
      (`row.split(',').join('\t')`), and the lines are joined by `'\n'`. */
  function CsvToTsv(csv: string): string {
    var rows := SplitLines(csv);
    JoinWith(seq(|rows|, i requires 0 <= i < |rows| => ReplaceChar(rows[i], ',', '\t')), "\n")
  }

  /** `text.split(/\s+/).map((w, idx) => ({ text: w, confidence: 100, index: idx }))` */
  function TextWords(text: string): (words: seq<OcrWord>)
    ensures |words| >= 1
    ensures Numbered(words)
  {
    var pieces := SplitWs(text);
    seq(|pieces|, i requires 0 <= i < |pieces| => OcrWord(pieces[i], FullConfidence, None, i))
  }

  /** The OCR engine's words, numbered by position. */
  function RecognizedWords(words: seq<RecognizedWord>): (r: seq<OcrWord>)
    ensures |r| == |words| && Numbered(r)
  {
    seq(|words|, i requires 0 <= i < |words| =>
      OcrWord(words[i].text, words[i].confidence, Some(words[i].bbox), i))
  }

  /** Every word's index is its position. */
  predicate Numbered(words: seq<OcrWord>) {
    forall i | 0 <= i < |words| :: words[i].index == i
  }

  /** The type dispatch: PDF, any image type, plain text, CSV, and for every
      other type an empty text and no words. Failures of the PDF parser and of
      the OCR engine carry their messages. */
  function RawExtraction(file: File, engines: Engines): Result<Extraction, string> {
    if file.mimeType == PdfType then
      match PdfText(engines.parsePdf(file))
      case Failure(e) => Failure(e)
      case Success(t) => Success(Extraction(t, TextWords(t)))
    else if IsImageType(file.mimeType) then
      match engines.recognize(file)
      case Failure(e) => Failure(e)
      case Success(data) => Success(Extraction(data.text, RecognizedWords(data.words)))
    else if file.mimeType == PlainTextType then
      Success(Extraction(file.content, TextWords(file.content)))
    else if file.mimeType == CsvType then
      var t := CsvToTsv(file.content);
      Success(Extraction(t, TextWords(t)))
    else
      Success(Extraction("", []))
  }

  /** The translate test of the source, `'und'` check included. */
  predicate TranslationNeeded(primary: string, detected: string) {
    detected == "und" || primary != detected
  }

  function SourceCode(detected: string): string {
    if detected == "und" then "en" else GetTranslationLanguageCode(detected)
  }

  /** The language the detector reports for the processed text. */
  function Detected(processed: string, engines: Engines): string {
    MapFrancToSupportedLang(engines.detect(processed))
  }

  /** The result text: the processed text, translated when needed. */
  function FinalText(processed: string, primary: string, engines: Engines): string {
    var detected := Detected(processed, engines);
    if TranslationNeeded(primary, detected)
    then Translation(processed, GetTranslationLanguageCode(primary), Some(SourceCode(detected)), engines.gateway)
    else processed
  }

  /** The gateway requests of the translation step. */
  function TranslationCalls(processed: string, primary: string, engines: Engines): seq<Request> {
    var detected := Detected(processed, engines);
    if TranslationNeeded(primary, detected)
    then GatewayCalls(processed, GetTranslationLanguageCode(primary), Some(SourceCode(detected)))
    else []
  }

  /** The result words: re-derived from the translated text after a
      translation, the extractor's otherwise, and re-derived when empty. */
  function FinalWords(words: seq<OcrWord>, processed: string, primary: string, engines: Engines): seq<OcrWord> {
    var text := FinalText(processed, primary, engines);
    var ws := if TranslationNeeded(primary, Detected(processed, engines)) then TextWords(text) else words;
    if |ws| == 0 then TextWords(text) else ws
  }

  /** The result record built from a non-blank extraction. */
  function BuildResult(raw: Extraction, languages: seq<string>, engines: Engines): OcrResult
    requires |languages| > 0
  {
    var processed := ProcessTextForLanguage(raw.text, languages);
    var primary := languages[0];
    var text := FinalText(processed, primary, engines);
    OcrResult(
      text,
      FinalWords(raw.words, processed, primary, engines),
      raw.text,
      Summary(text, primary, engines.gateway),
      MockConfidence,
      ["en"],
      if primary != "en" then [primary] else [])
  }

  /** What `extractTextFromDocument(file, languages)` resolves to, or the
      message it throws. */
  function Extract(file: File, languages: seq<string>, engines: Engines): Result<OcrResult, string>
    requires |languages| > 0
  {
    match RawExtraction(file, engines)
    case Failure(e) => Failure(e)
    case Success(raw) =>
      if Trim(raw.text) == "" then Failure(NoTextError)
      else Success(BuildResult(raw, languages, engines))
  }

  /** The gateway requests of `extractTextFromDocument`: the translation's,
      then the summary's. */
  function ExtractCalls(file: File, languages: seq<string>, engines: Engines): seq<Request>
    requires |languages| > 0
  {
    match RawExtraction(file, engines)
    case Failure(_) => []
    case Success(raw) =>
      if Trim(raw.text) == "" then []
      else
        var processed := ProcessTextForLanguage(raw.text, languages);
        var text := FinalText(processed, languages[0], engines);
        TranslationCalls(processed, languages[0], engines) + SummaryCalls(text, languages[0])
  }

  /** The type dispatch of `extractTextFromDocument`, which assigns the
      extracted text and the word records. */
  method DispatchOnType(file: File, engines: Engines) returns (r: Result<Extraction, string>)
    ensures r == RawExtraction(file, engines)
  {
    var extractedText := "";
    var words: seq<OcrWord> := [];
    if file.mimeType == PdfType {
      var pdf := ExtractTextFromPdf(engines.parsePdf(file));
      if pdf.Failure? {
        return Failure(pdf.error);
      }
      extractedText := pdf.value;
      words := TextWords(extractedText);
    } else if IsImageType(file.mimeType) {
      var recognition := engines.recognize(file);
      if recognition.Failure? {
        return Failure(recognition.error);
      }
      extractedText := recognition.value.text;
      words := RecognizedWords(recognition.value.words);
    } else if file.mimeType == PlainTextType {
      extractedText := file.content;
      words := TextWords(extractedText);
    } else if file.mimeType == CsvType {
      extractedText := CsvToTsv(file.content);
      words := TextWords(extractedText);
    }
    return Success(Extraction(extractedText, words));
  }

  /** `extractTextFromDocument(file, selectedLanguages)`, with every gateway
      request it makes. */
  method ExtractTextFromDocument(file: File, selectedLanguages: seq<string>, engines: Engines)
    returns (r: Result<OcrResult, string>, calls: seq<Request>)
    requires |selectedLanguages| > 0
    ensures r == Extract(file, selectedLanguages, engines)
    ensures calls == ExtractCalls(file, selectedLanguages, engines)
  {
    var extraction := DispatchOnType(file, engines);
    if extraction.Failure? {
      return Failure(extraction.error), [];
    }
    var extractedText, words := extraction.value.text, extraction.value.words;
    if Trim(extractedText) == "" {
      return Failure(NoTextError), [];
    }
    var originalText := extractedText;
    var processedText := ProcessTextForLanguage(extractedText, selectedLanguages);
    ghost var processed := processedText;
    var primaryLanguage := selectedLanguages[0];
    var translatedWords := words;
    var detectedLang := MapFrancToSupportedLang(engines.detect(processedText));
    calls := [];
    if detectedLang == "und" || primaryLanguage != detectedLang {
      var translationCode := GetTranslationLanguageCode(primaryLanguage);
      var sourceCode := if detectedLang == "und" then "en" else GetTranslationLanguageCode(detectedLang);
      processedText, calls := TranslateText(processedText, translationCode, Some(sourceCode), engines.gateway);
      translatedWords := TextWords(processedText);
    }
    assert processedText == FinalText(processed, primaryLanguage, engines);
    assert calls == TranslationCalls(processed, primaryLanguage, engines);
    if |translatedWords| == 0 {
      translatedWords := TextWords(processedText);
    }
    assert translatedWords == FinalWords(words, processed, primaryLanguage, engines);
    var summary, summaryCalls := GenerateSummary(processedText, primaryLanguage, engines.gateway);
    calls := calls + summaryCalls;
    r := Success(OcrResult(
      processedText,
      translatedWords,
      originalText,
      summary,
      MockConfidence,
      ["en"],
      if primaryLanguage != "en" then [primaryLanguage] else []));
    assert r.value == BuildResult(extraction.value, selectedLanguages, engines);
  }

  // ---------------------------------------------------------------------------
  // Lemmas

  /** The processed text has every white-space run collapsed to one space,
      no white space at either end, is empty exactly when the input is blank,
      and does not depend on the selected languages. */
  lemma ProcessedTextShape(text: string, languages: seq<string>)
    ensures var r := ProcessTextForLanguage(text, languages);
      && RunsCollapsed(r, IsWs, ' ')
      && (r == "" || (!IsWs(r[0]) && !IsWs(r[|r| - 1])))
      && (r == "" <==> IsBlank(text))
      && r == ProcessTextForLanguage(text, [])
  {
    var r := Trim(CollapseRuns(text, IsWs, ' '));
    assert ProcessTextForLanguage(text, languages) == r;
    assert ProcessTextForLanguage(text, []) == r;
    NormalisedShape(text);
  }

  /** Collapsing white space and trimming leaves single inner spaces, no
      white space at either end, and nothing exactly for a blank text. */
  lemma NormalisedShape(text: string)
    ensures var r := Trim(CollapseRuns(text, IsWs, ' '));
      && RunsCollapsed(r, IsWs, ' ')
      && (r == "" || (!IsWs(r[0]) && !IsWs(r[|r| - 1])))
      && (r == "" <==> IsBlank(text))
  {
    NormalisedCollapsed(text);
    NormalisedBlank(text);
  }

  lemma NormalisedCollapsed(text: string)
    ensures var r := Trim(CollapseRuns(text, IsWs, ' '));
      && RunsCollapsed(r, IsWs, ' ')
      && (r == "" || (!IsWs(r[0]) && !IsWs(r[|r| - 1])))
  {
    var c := CollapseRuns(text, IsWs, ' ');
    var r := Trim(c);
    CollapseRunsCollapsed(text, IsWs, ' ');
    TrimSlice(c);
    var a := |c| - |TrimStart(c)|;
    SliceCollapsed(c, a, a + |r|, IsWs, ' ');
  }

  lemma NormalisedBlank(text: string)
    ensures Trim(CollapseRuns(text, IsWs, ' ')) == "" <==> IsBlank(text)
  {
    TrimEmptyIffBlank(CollapseRuns(text, IsWs, ' '));
    CollapseBlank(text);
  }

  /** The `'und'` test is dead: the table never produces `'und'`, so a
      translation happens exactly when the primary language differs from the
      detected one. */
  lemma UndBranchIsDead(primary: string, francCode: string)
    ensures MapFrancToSupportedLang(francCode) != "und"
    ensures TranslationNeeded(primary, MapFrancToSupportedLang(francCode)) <==>
      primary != MapFrancToSupportedLang(francCode)
  {
  }

  function CountChar(s: string, c: char): nat {
    if s == [] then 0 else (if s[0] == c then 1 else 0) + CountChar(s[1..], c)
  }

  lemma {:induction false} CountCharAppend(a: string, b: string, c: char)
    ensures CountChar(a + b, c) == CountChar(a, c) + CountChar(b, c)
    decreases |a|
  {
    if a == [] {
      assert a + b == b;
    } else {
      assert (a + b)[1..] == a[1..] + b;
      CountCharAppend(a[1..], b, c);
    }
  }

  lemma {:induction false} CountCharAbsent(s: string, c: char)
    requires c !in s
    ensures CountChar(s, c) == 0
    decreases |s|
  {
    if s != [] {
      CountCharAbsent(s[1..], c);
    }
  }

  /** `split(/\r?\n/)` yields one line more than there are line feeds, and
      no line holds a line feed. */
  lemma {:induction false} SplitLinesShape(s: string)
    ensures |SplitLines(s)| == 1 + CountChar(s, '\n')
    ensures forall l | l in SplitLines(s) :: '\n' !in l
    decreases |s|
  {
    if s == [] {
    } else if s[0] == '\n' {
      SplitLinesShape(s[1..]);
    } else if s[0] == '\r' && |s| > 1 && s[1] == '\n' {
      SplitLinesShape(s[2..]);
      assert s[1..][1..] == s[2..];
    } else {
      SplitLinesShape(s[1..]);
      var rest := SplitLines(s[1..]);
      assert rest[0] in rest;
      forall l | l in SplitLines(s) ensures '\n' !in l {
        if l != [s[0]] + rest[0] {
          assert l in rest[1..];
        }
      }
    }
  }

  lemma {:induction false} JoinLinesCount(parts: seq<string>)
    requires |parts| >= 1
    requires forall p | p in parts :: '\n' !in p
    ensures CountChar(JoinWith(parts, "\n"), '\n') == |parts| - 1
    decreases |parts|
  {
    assert parts[0] in parts;
    CountCharAbsent(parts[0], '\n');
    if |parts| > 1 {
      JoinLinesCount(parts[1..]);
      CountCharAppend(parts[0] + "\n", JoinWith(parts[1..], "\n"), '\n');
      CountCharAppend(parts[0], "\n", '\n');
    }
  }

  predicate IsComma(c: char) { c == ',' }

  /** The CSV conversion keeps the number of lines and leaves no comma. */
  lemma CsvToTsvShape(csv: string)
    ensures |SplitLines(CsvToTsv(csv))| == |SplitLines(csv)|
    ensures ',' !in CsvToTsv(csv)
  {
    var rows := SplitLines(csv);
    var converted := seq(|rows|, i requires 0 <= i < |rows| => ReplaceChar(rows[i], ',', '\t'));
    SplitLinesShape(csv);
    forall p | p in converted ensures '\n' !in p && Avoids(p, IsComma) {
      var i :| 0 <= i < |converted| && converted[i] == p;
      assert rows[i] in rows;
    }
    JoinLinesCount(converted);
    SplitLinesShape(CsvToTsv(csv));
    JoinAvoids(converted, "\n", IsComma);
  }

  /** Joining the lines of a split with `'\n'` gives the text back with its
      `"\r\n"` line ends written as `"\n"`. */
  lemma {:induction false} JoinSplitLines(s: string)
    ensures JoinWith(SplitLines(s), "\n") == LfLines(s)
    decreases |s|
  {
    if s == [] {
    } else if s[0] == '\n' {
      JoinSplitLines(s[1..]);
      JoinUnfold([""] + SplitLines(s[1..]), "\n");
      assert ([""] + SplitLines(s[1..]))[1..] == SplitLines(s[1..]);
    } else if s[0] == '\r' && |s| > 1 && s[1] == '\n' {
      JoinSplitLines(s[2..]);
      JoinUnfold([""] + SplitLines(s[2..]), "\n");
      assert ([""] + SplitLines(s[2..]))[1..] == SplitLines(s[2..]);
    } else {
      var rest := SplitLines(s[1..]);
      JoinSplitLines(s[1..]);
      JoinCons(s[0], rest[0], rest[1..], "\n");
      assert [rest[0]] + rest[1..] == rest;
    }
  }

  /** Replacing commas line by line and then joining is replacing them in
      the joined text. */
  lemma {:induction false} JoinReplaced(parts: seq<string>)
    requires |parts| >= 1
    ensures JoinWith(seq(|parts|, i requires 0 <= i < |parts| => ReplaceChar(parts[i], ',', '\t')), "\n")
         == ReplaceChar(JoinWith(parts, "\n"), ',', '\t')
    decreases |parts|
  {
    var m := seq(|parts|, i requires 0 <= i < |parts| => ReplaceChar(parts[i], ',', '\t'));
    if |parts| > 1 {
      var m' := seq(|parts| - 1, i requires 0 <= i < |parts| - 1 => ReplaceChar(parts[1..][i], ',', '\t'));
      assert m[1..] == m';
      JoinReplaced(parts[1..]);
      ReplaceAppend(parts[0], "\n" + JoinWith(parts[1..], "\n"), ',', '\t');
      ReplaceAppend("\n", JoinWith(parts[1..], "\n"), ',', '\t');
      assert ReplaceChar("\n", ',', '\t') == "\n";
      assert (parts[0] + "\n") + JoinWith(parts[1..], "\n") == parts[0] + ("\n" + JoinWith(parts[1..], "\n"));
    }
  }

  /** The CSV conversion is the text with its `"\r\n"` line ends written as
      `"\n"` and every comma, and nothing else, turned into a tab. */
  lemma CsvToTsvContents(csv: string)
    ensures CsvToTsv(csv) == ReplaceChar(LfLines(csv), ',', '\t')
  {
    JoinReplaced(SplitLines(csv));
    JoinSplitLines(csv);
  }

  /** A line that ends in a carriage return meets the joining line feed and
      reads as one `"\r\n"` line end afterwards: the converted text then
      splits into lines that differ from the converted lines. */
  lemma CarriageReturnBeforeLineEnd(a: char, b: char)
    requires a !in ",\r\n" && b !in ",\r\n"
    ensures SplitLines([a, '\r', '\r', '\n', b]) == [[a, '\r'], [b]]
    ensures CsvToTsv([a, '\r', '\r', '\n', b]) == [a, '\r', '\n', b]
    ensures SplitLines(CsvToTsv([a, '\r', '\r', '\n', b])) == [[a], [b]]
  {
    var t1: string := [b];
    var t2: string := ['\n', b];
    var t3: string := ['\r', '\n', b];
    var t4: string := ['\r', '\r', '\n', b];
    var t5: string := [a, '\r', '\r', '\n', b];
    var u4: string := [a, '\r', '\n', b];
    SplitLinesCons(b, []);
    assert [b] + [] == t1 && [b] + "" == [b];
    assert t2[1..] == t1 && t3[2..] == t1;
    assert SplitLines(t3) == [[], [b]];
    SplitLinesCons('\r', t3);
    assert ['\r'] + t3 == t4 && ['\r'] + [] == ['\r'];
    SplitLinesCons(a, t4);
    assert [a] + t4 == t5 && [a] + ['\r'] == [a, '\r'];
    SplitLinesCons(a, t3);
    assert [a] + t3 == u4 && [a] + [] == [a];
    CsvToTsvContents(t5);
    assert LfLines(t1) == t1;
    assert LfLines(t3) == ['\n', b];
    assert LfLines(t4) == ['\r', '\n', b];
    assert LfLines(t5) == u4;
  }

  /** One character that does not start a line end joins the first line. */
  lemma SplitLinesCons(c: char, s: string)
    requires c != '\n' && !(c == '\r' && s != [] && s[0] == '\n')
    ensures SplitLines([c] + s) == [[c] + SplitLines(s)[0]] + SplitLines(s)[1..]
  {
    assert ([c] + s)[0] == c && ([c] + s)[1..] == s;
  }

  /** Extraction fails exactly when the parser or the OCR engine fails (with
      their message) or the extracted text is blank (with the fixed message);
      in particular every unsupported type fails with the fixed message. */
  lemma ExtractionFailures(file: File, languages: seq<string>, engines: Engines)
    requires |languages| > 0
    ensures var raw := RawExtraction(file, engines);
      Extract(file, languages, engines) ==
        if raw.Failure? then Failure(raw.error)
        else if IsBlank(raw.value.text) then Failure(NoTextError)
        else Success(BuildResult(raw.value, languages, engines))
    ensures (file.mimeType != PdfType && !IsImageType(file.mimeType)
             && file.mimeType != PlainTextType && file.mimeType != CsvType) ==>
      Extract(file, languages, engines) == Failure(NoTextError)
    ensures ExtractCalls(file, languages, engines) != [] ==> Extract(file, languages, engines).Success?
  {
    var raw := RawExtraction(file, engines);
    if raw.Success? {
      TrimEmptyIffBlank(raw.value.text);
    }
  }

  /** The fixed fields of a result: the original text is the raw extraction,
      the confidence is 0.85, the detected languages are `["en"]`, and the
      result names the primary language as a translation target unless it is
      English. */
  lemma ResultRecord(file: File, languages: seq<string>, engines: Engines)
    requires |languages| > 0
    requires Extract(file, languages, engines).Success?
    ensures var res := Extract(file, languages, engines).value;
      && RawExtraction(file, engines).Success?
      && res.originalText == RawExtraction(file, engines).value.text
      && !IsBlank(res.originalText)
      && res.confidence == MockConfidence
      && res.detectedLanguages == ["en"]
      && res.translatedTo == (if languages[0] != "en" then [languages[0]] else [])
      && res.summary == Summary(res.text, languages[0], engines.gateway)
  {
    TrimEmptyIffBlank(RawExtraction(file, engines).value.text);
  }

  /** A successful extraction is the result record built from the raw
      extraction. */
  lemma ExtractIsBuildResult(file: File, languages: seq<string>, engines: Engines)
    requires |languages| > 0
    requires Extract(file, languages, engines).Success?
    ensures RawExtraction(file, engines).Success?
    ensures Extract(file, languages, engines).value == BuildResult(RawExtraction(file, engines).value, languages, engines)
  {
  }

  /** The translate step on its own: when the primary language differs from
      the detected one, the text is the translation of the processed text
      (from the detected language) and the words are its whitespace split;
      otherwise the text is the processed text, no request is made, and the
      given words are kept unless there are none. The words are never empty. */
  lemma TranslateStep(words: seq<OcrWord>, processed: string, primary: string, engines: Engines)
    ensures var detected := Detected(processed, engines);
      var text := FinalText(processed, primary, engines);
      var ws := FinalWords(words, processed, primary, engines);
      && (primary != detected ==>
            && text == Translation(processed, GetTranslationLanguageCode(primary),
                                   Some(GetTranslationLanguageCode(detected)), engines.gateway)
            && ws == TextWords(text)
            && TranslationCalls(processed, primary, engines) ==
               GatewayCalls(processed, GetTranslationLanguageCode(primary), Some(GetTranslationLanguageCode(detected))))
      && (primary == detected ==>
            && text == processed
            && TranslationCalls(processed, primary, engines) == []
            && ws == (if words == [] then TextWords(processed) else words))
      && |ws| >= 1
  {
    var detected := Detected(processed, engines);
    UndBranchIsDead(primary, engines.detect(processed));
    if primary != detected {
      assert TranslationNeeded(primary, detected) && SourceCode(detected) == GetTranslationLanguageCode(detected);
    } else {
      assert !TranslationNeeded(primary, detected);
    }
  }

  /** Numbering by position survives the translate step. */
  lemma FinalWordsNumbered(words: seq<OcrWord>, processed: string, primary: string, engines: Engines)
    requires Numbered(words)
    ensures Numbered(FinalWords(words, processed, primary, engines))
  {
  }

  /** The dispatch numbers its words by position. */
  lemma RawWordsNumbered(file: File, engines: Engines)
    ensures RawExtraction(file, engines).Success? ==> Numbered(RawExtraction(file, engines).value.words)
  {
  }

  /** The translation decision in a result: translated text and re-derived
      words exactly when the primary language differs from the detected one,
      and words that are never empty and numbered by position. */
  lemma TranslationDecision(file: File, languages: seq<string>, engines: Engines)
    requires |languages| > 0
    requires Extract(file, languages, engines).Success?
    ensures var raw := RawExtraction(file, engines).value;
      var res := Extract(file, languages, engines).value;
      var processed := ProcessTextForLanguage(raw.text, languages);
      && res.text == FinalText(processed, languages[0], engines)
      && res.words == FinalWords(raw.words, processed, languages[0], engines)
      && (languages[0] != Detected(processed, engines) ==> res.words == TextWords(res.text))
      && (languages[0] == Detected(processed, engines) ==> res.text == processed)
      && |res.words| >= 1
      && Numbered(res.words)
  {
    ExtractIsBuildResult(file, languages, engines);
    var raw := RawExtraction(file, engines).value;
    var processed := ProcessTextForLanguage(raw.text, languages);
    TranslateStep(raw.words, processed, languages[0], engines);
    RawWordsNumbered(file, engines);
    FinalWordsNumbered(raw.words, processed, languages[0], engines);
  }

  /** The gateway is asked for a translation exactly when the primary
      language differs from the detected one. */
  lemma TranslationRequestedIffLanguagesDiffer(file: File, languages: seq<string>, engines: Engines)
    requires |languages| > 0
    requires Extract(file, languages, engines).Success?
    ensures var raw := RawExtraction(file, engines).value;
      var processed := ProcessTextForLanguage(raw.text, languages);
      TranslationCalls(processed, languages[0], engines) != [] <==> languages[0] != Detected(processed, engines)
  {
    ExtractIsBuildResult(file, languages, engines);
    ExtractionFailures(file, languages, engines);
    var raw := RawExtraction(file, engines).value;
    var processed := ProcessTextForLanguage(raw.text, languages);
    ProcessedTextShape(raw.text, languages);
    assert !IsWs(processed[0]);
    var detected := Detected(processed, engines);
    TranslateStep(raw.words, processed, languages[0], engines);
    GatewayRequestsBounded(processed, GetTranslationLanguageCode(languages[0]), Some(GetTranslationLanguageCode(detected)));
  }

  /** Words re-derived from a text spell it out: joined by single spaces
      they give the text with every white-space run written as one space,
      each has full confidence and its position as index. */
  lemma TextWordsSpellText(text: string)
    ensures var words := TextWords(text);
      && JoinWith(seq(|words|, i requires 0 <= i < |words| => words[i].text), " ") == CollapseRuns(text, IsWs, ' ')
      && |words| == |SplitWs(text)|
      && forall i | 0 <= i < |words| :: words[i] == OcrWord(SplitWs(text)[i], FullConfidence, None, i)
  {
    var words := TextWords(text);
    assert seq(|words|, i requires 0 <= i < |words| => words[i].text) == SplitWs(text);
    SplitThenJoin(text, IsWs, ' ');
  }

  lemma DispatchPlainText(file: File, engines: Engines)
    requires file.mimeType == PlainTextType
    ensures RawExtraction(file, engines) == Success(Extraction(file.content, TextWords(file.content)))
  {
    assert |PdfType| != |PlainTextType|;
    assert PlainTextType[0] != "image/"[0];
  }

  lemma DispatchImage(file: File, engines: Engines)
    requires file.mimeType != PdfType && IsImageType(file.mimeType)
    requires engines.recognize(file).Success?
    ensures var data := engines.recognize(file).value;
      RawExtraction(file, engines) == Success(Extraction(data.text, RecognizedWords(data.words)))
  {
  }

  /** The dispatch fails only where an engine fails, with that engine's
      message: the PDF parser for a PDF, the OCR engine for an image. Every
      other type, text and CSV included, always yields an extraction. */
  lemma DispatchFailure(file: File, engines: Engines)
    ensures var raw := RawExtraction(file, engines);
      var pdf := PdfText(engines.parsePdf(file));
      var rec := engines.recognize(file);
      && (file.mimeType == PdfType ==> (raw.Failure? <==> pdf.Failure?) && (raw.Failure? ==> raw.error == pdf.error))
      && (file.mimeType != PdfType && IsImageType(file.mimeType) ==>
            (raw.Failure? <==> rec.Failure?) && (raw.Failure? ==> raw.error == rec.error))
      && (file.mimeType != PdfType && !IsImageType(file.mimeType) ==> raw.Success?)
      && (file.mimeType == PlainTextType ==> raw == Success(Extraction(file.content, TextWords(file.content))))
  {
    if file.mimeType == PlainTextType {
      DispatchPlainText(file, engines);
    }
  }

  /** For a plain-text file in the detected language, word i of the result is
      piece i of the whitespace split of the file's text, and the result text
      is that text with its runs collapsed and its ends trimmed. */
  lemma PlainTextWords(file: File, languages: seq<string>, engines: Engines)
    requires |languages| > 0 && file.mimeType == PlainTextType
    requires Extract(file, languages, engines).Success?
    requires languages[0] == Detected(ProcessTextForLanguage(file.content, languages), engines)
    ensures var res := Extract(file, languages, engines).value;
      && res.text == ProcessTextForLanguage(file.content, languages)
      && |res.words| == |SplitWs(file.content)|
      && forall i | 0 <= i < |res.words| ::
           res.words[i] == OcrWord(SplitWs(file.content)[i], FullConfidence, None, i)
  {
    ExtractIsBuildResult(file, languages, engines);
    DispatchPlainText(file, engines);
    var raw := RawExtraction(file, engines).value;
    TranslateStep(raw.words, ProcessTextForLanguage(raw.text, languages), languages[0], engines);
    assert Extract(file, languages, engines).value.words == TextWords(file.content);
    TextWordsSpellText(file.content);
  }

  /** An image whose recognition succeeds keeps the engine's words, with their
      confidences and boxes, when no translation happens and there are some. */
  lemma ImageWordsKept(file: File, languages: seq<string>, engines: Engines)
    requires |languages| > 0 && file.mimeType != PdfType && IsImageType(file.mimeType)
    requires Extract(file, languages, engines).Success?
    requires engines.recognize(file).Success? && engines.recognize(file).value.words != []
    requires languages[0] == Detected(ProcessTextForLanguage(engines.recognize(file).value.text, languages), engines)
    ensures var res := Extract(file, languages, engines).value;
      var ws := engines.recognize(file).value.words;
      && |res.words| == |ws|
      && forall i | 0 <= i < |ws| ::
           res.words[i] == OcrWord(ws[i].text, ws[i].confidence, Some(ws[i].bbox), i)
  {
    ExtractIsBuildResult(file, languages, engines);
    DispatchImage(file, engines);
    var raw := RawExtraction(file, engines).value;
    TranslateStep(raw.words, ProcessTextForLanguage(raw.text, languages), languages[0], engines);
    var ws := engines.recognize(file).value.words;
    assert Extract(file, languages, engines).value.words == RecognizedWords(ws);
    RecognizedWordsKeepEngineData(ws);
  }

  /** The engine's words become word records position by position, keeping
      text, confidence and box. */
  lemma RecognizedWordsKeepEngineData(ws: seq<RecognizedWord>)
    ensures |RecognizedWords(ws)| == |ws|
    ensures forall i | 0 <= i < |ws| ::
      RecognizedWords(ws)[i] == OcrWord(ws[i].text, ws[i].confidence, Some(ws[i].bbox), i)
  {
  }
}
