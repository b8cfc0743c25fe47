# docu-scribe-global-reader, modelled in Dafny

docu-scribe-global-reader is a browser app that takes an uploaded document and does the following:

- it reads the document's text, using OCR for images, a PDF reader for PDFs, and the file's own text for plain text and CSV;
- it normalises the white space;
- it detects the language and translates the text chunk by chunk through an HTTP gateway when the detected language differs from the one the user chose;
- it builds an extractive summary;
- it lets the user correct the text word by word.

Around that pipeline sit several small pieces:

- a four-step wizard;
- an upload validator;
- a document comparer;
- a preview panel;
- a mind map of the summary;
- an export name.

This project models that core. There is one Dafny module per source file, plus three shared modules:

- `Wrappers`: `Option` and `Result`;
- `Strings`: the JavaScript string operations the code relies on, such as `split` on a regular expression, `join`, `trim` and `filter(Boolean)`, each written out on `seq<char>`;
- `Files`: the browser `File` record, reduced to its name, MIME type, size and text.

The external engines are parameters of the model and are not specified:

- Tesseract OCR;
- pdfjs, as a document that is either missing or a list of pages;
- the `franc` language detector;
- the translation gateway, as a function from request to reply;
- `didyoumean`;
- `diffWords`;
- the English word list.

The code works in one of two ways, and the model follows it:

- Code that works step by step (`translateText`, `generateSummary`, `extractTextFromPDF`, `extractTextFromDocument`) is a method with a loop or a sequence of assignments. Each such method is proved equal to a specification function, and lemmas state the properties promised about that function.
- Component state that handlers update is a class whose methods state the new value of every field (`TextOutput`, `Index`, `DocumentCompare`, the drag flag of `FileUpload`).

The model always follows the code, including where the documented behaviour differs from it:

- Language detection never yields `'und'`, because `mapFrancToSupportedLang` sends every unknown code to `'en'`. The `'und'` branches of `extractTextFromDocument` are therefore dead; `OcrService.UndBranchIsDead` proves this.
- `detectedLanguages` is always `['en']`, and `confidence` is always 0.85, whatever was detected.

## Model

| member | source | states |
|---|---|---|
| TranslationService.GetTranslationLanguageCode | src/utils/translationService.ts:48-61 | the result is always one of the eight supported codes, and equals the input exactly when the input is one of them |
| TranslationService.SourceOrAuto | src/utils/translationService.ts:15 | a missing or empty source language becomes a non-empty default (`auto`); a given one is kept |
| TranslationService.LeadRun | src/utils/translationService.ts:12 | the length of one regex match of `.{1,500}`: at most 500, free of line terminators, and stopped only by the cap, the end or a terminator |
| TranslationService.ChunkBounds | src/utils/translationService.ts:12 | every chunk is 1..500 characters long and has no line terminator |
| TranslationService.ChunksCover | src/utils/translationService.ts:12 | the chunks, concatenated in order, are the input with its line terminators removed |
| TranslationService.ChunksOfNonBlank | src/utils/translationService.ts:7-12 | a text that is not blank has at least one chunk |
| TranslationService.ChunksOfSingleLine | src/utils/translationService.ts:12 | on text without line terminators there are ceil(n/500) chunks, chunk k being characters 500k..500k+499 |
| TranslationService.ChunkingExample | src/utils/translationService.ts:12 | a 1200-character line gives chunks of 500, 500 and 200 characters |
| TranslationService.WithoutLineTerminatorsAppend | src/utils/translationService.ts:12 | removing line terminators distributes over concatenation |
| TranslationService.TranslateText | src/utils/translationService.ts:5-45 | a blank text comes back unchanged with no gateway call; otherwise the result and the log of gateway requests equal the specification of the per-chunk loop and the join with single spaces |
| TranslationService.TranslateChunks | src/utils/translationService.ts:17-38 | one request per chunk, in order; piece k is the reply's text when the reply is ok and chunk k itself when it is not ok or the call throws |
| TranslationService.GatewayRequestsBounded | src/utils/translationService.ts:7-38 | every request holds 1..500 characters without line terminators; there are no requests exactly when the text is blank; when there are requests, they cover the text without its terminators |
| TranslationService.FailedChunkKeptVerbatim | src/utils/translationService.ts:12-40 | the translation of a non-blank text is one piece per chunk joined by single spaces; request k carries chunk k, and piece k is the reply's text when that reply is ok and chunk k untranslated otherwise, whatever the other replies are |
| TranslationService.GatewayDownKeepsText | src/utils/translationService.ts:26-40 | with a gateway that never answers ok, a blank text comes back as is and any other text as its chunks joined by single spaces; a single line of at most 500 characters comes back unchanged |
| SummaryService.LongFragments | src/utils/summaryService.ts:7 | a fragment is kept exactly when its trimmed length exceeds 20, and is kept untrimmed |
| SummaryService.LongFragmentsAppend | src/utils/summaryService.ts:7 | the filter works fragment by fragment: the long fragments of a concatenation are those of each half, so order and repetitions are kept |
| SummaryService.Budget | src/utils/summaryService.ts:17 | the budget is min(5, ceil(n/3)): never above 5, exactly 5 from 13 sentences on, and 3·budget lies in [n, n+3) up to 15 |
| SummaryService.AssembleSummary | src/utils/summaryService.ts:40 | the joined summary is never empty and always ends with '.' |
| SummaryService.GenerateSummary | src/utils/summaryService.ts:4-48 | the loop's picks, the summary and the gateway requests equal the specification functions |
| SummaryService.ChooseKeySentences | src/utils/summaryService.ts:17-38 | the sentences picked by the priority pushes and the budgeted scan equal the specification whose shape `KeySentencesShape` states |
| SummaryService.ScanFillProperties | src/utils/summaryService.ts:34-38 | the scan only appends; appended sentences are new, longer than 50 and from the input; it stops at max(picks, budget); if it ends under budget, every long middle sentence was taken |
| SummaryService.KeySentencesShape | src/utils/summaryService.ts:20-38 | first sentence first, middle one second when n > 2, last one third when n > 4, at most max(budget, picks) ≤ 5 sentences, all from the input; scan picks are long and new, and under budget every long middle sentence is chosen |
| SummaryService.KeySentencesScanOrder | src/utils/summaryService.ts:33-38 | after the priority picks, the j-th chosen sentence is the sentence at the scan's j-th position; positions lie in 1..n-2 and strictly increase; every long sentence up to the last position taken is chosen |
| SummaryService.FiveSentencesExceedBudget | src/utils/summaryService.ts:17-30 | with 5 candidates the budget is 2 but the three priority picks (sentences 0, 2, 4) are all taken |
| SummaryService.TenSentences | src/utils/summaryService.ts:17-38 | with 10 candidates the budget is 4; the summary starts with sentences 0, 5 and 9 and has 3 or 4 sentences |
| SummaryService.EnglishSummaryEndsWithPeriod | src/utils/summaryService.ts:9-47 | every English summary, the no-content message included, is non-empty and ends with '.' |
| SummaryService.ShortTextHasNoContent | src/utils/summaryService.ts:7-13 | a text of at most 20 characters has no candidate sentence and, in English, gives exactly the no-content message |
| SummaryService.TranslatesExactlyWhenNotEnglish | src/utils/summaryService.ts:10-45 | the gateway is called exactly when the target language is not `en` |
| PdfExtractor.ExtractTextFromPdf | src/utils/pdfExtractor.ts:7-27 | the page loop's result equals the specification of page assembly and failure |
| PdfExtractor.PdfTextOutcome | src/utils/pdfExtractor.ts:7-27 | extraction fails exactly when the document or one of its pages cannot be read, always with 'Failed to extract text from PDF'; otherwise the text is the trimmed assembly, with no white space at either end |
| PdfExtractor.FullTextAppend | src/utils/pdfExtractor.ts:13-20 | pages are assembled in order: the text of a concatenation is the concatenation of the texts |
| PdfExtractor.NoPagesNoText | src/utils/pdfExtractor.ts:11-22 | a document with no pages yields '' |
| PdfExtractor.OnePageExample | src/utils/pdfExtractor.ts:16-22 | items of a page are joined by one space: ["Hello", "world"] gives "Hello world" |
| SimpleSpellCheck.Clean | src/utils/simpleSpellCheck.ts:12 | the normal form is no longer than the word and holds only lower-case ASCII letters and apostrophes; with `CleanChar` and `CleanAppend` it is each kept character of the word, in order, lower-cased |
| SimpleSpellCheck.Lower | src/utils/simpleSpellCheck.ts:12 | an upper-case ASCII letter becomes the letter 32 code points above it (its lower-case form); lower-case letters and the apostrophe are kept |
| SimpleSpellCheck.CleanChar | src/utils/simpleSpellCheck.ts:12 | one character normalises to itself lower-cased when the filter keeps it, and to nothing otherwise |
| SimpleSpellCheck.CaseExample | src/utils/simpleSpellCheck.ts:10-14 | "HELLO" and "hello" share the normal form "hello" and get the same verdict against any dictionary |
| SimpleSpellCheck.CleanAppend | src/utils/simpleSpellCheck.ts:12 | normalisation works character by character (distributes over concatenation) |
| SimpleSpellCheck.CleanIdempotent | src/utils/simpleSpellCheck.ts:12 | normalising twice is normalising once |
| SimpleSpellCheck.VerdictIgnoresCaseAndPunctuation | src/utils/simpleSpellCheck.ts:10-14 | a word and its normal form get the same verdict |
| SimpleSpellCheck.NoLettersIsCorrect | src/utils/simpleSpellCheck.ts:12-13 | a word with no ASCII letter or apostrophe is always correct |
| SimpleSpellCheck.HelloExample | src/utils/simpleSpellCheck.ts:10-14 | "Hello," is correct against {"hello"}, "Helo" is not |
| SimpleSpellCheck.GetSuggestions | src/utils/simpleSpellCheck.ts:16-21 | at most one suggestion; one exactly when the word is non-empty and the search on its normal form finds a non-empty word, which is then the suggestion |
| OcrService.ProcessedTextShape | src/utils/ocrService.ts:36-53 | the processed text has single spaces between words, no white space at either end, is empty exactly when the input is blank, and does not depend on the languages |
| OcrService.MapFrancToSupportedLang | src/utils/ocrService.ts:56-68 | the result is a supported code, and is `en` exactly when the detector code is not one of the seven other mapped codes |
| OcrService.UndBranchIsDead | src/utils/ocrService.ts:56-68 | the mapped language is never 'und', so translation happens exactly when it differs from the primary language |
| OcrService.SplitLinesShape | src/utils/ocrService.ts:107 | the lines are one more than the newlines and contain none |
| OcrService.CsvToTsvShape | src/utils/ocrService.ts:105-108 | CSV conversion keeps the number of lines and leaves no comma |
| OcrService.CsvToTsvContents | src/utils/ocrService.ts:105-108 | the converted text is the CSV text with its CRLF line ends written as LF and every comma, and nothing else, turned into a tab |
| OcrService.CarriageReturnBeforeLineEnd | src/utils/ocrService.ts:105-108 | a line ending in CR before a CRLF meets the joining LF: the converted text re-splits into lines that differ from the converted lines |
| OcrService.TextWords | src/utils/ocrService.ts:102-104 | the split words are never empty as a list and are numbered 0, 1, … |
| OcrService.TextWordsSpellText | src/utils/ocrService.ts:102-104 | word i is the i-th piece of the white-space split, with confidence 100 and index i, and the words rejoined with spaces are the text with runs collapsed |
| OcrService.RecognizedWords | src/utils/ocrService.ts:95-100 | one record per recognised word, numbered in order |
| OcrService.DispatchOnType | src/utils/ocrService.ts:75-110 | the type dispatch equals its specification |
| OcrService.DispatchFailure | src/utils/ocrService.ts:80-110 | the dispatch fails exactly when the PDF parser fails on a PDF or the OCR engine fails on an image, with that engine's message; every other type yields an extraction, plain text its content and split words |
| OcrService.ExtractionFailures | src/utils/ocrService.ts:75-114 | extraction fails when the raw text is blank; a type that is not pdf, image, plain text or CSV always fails; a run that calls the gateway succeeds |
| OcrService.ExtractTextFromDocument | src/utils/ocrService.ts:70-163 | the step-by-step extraction and its gateway requests equal the specification functions |
| OcrService.ResultRecord | src/utils/ocrService.ts:118-157 | the record keeps the raw text as originalText, which is never blank; confidence 0.85; detectedLanguages ['en']; translatedTo [primary] unless primary is `en`; summary of the final text |
| OcrService.TranslationDecision | src/utils/ocrService.ts:122-142 | the final text and words: translated and re-split when primary differs from detected, else the processed text with the extractor's words (rebuilt if empty); never empty and numbered |
| OcrService.TranslationRequestedIffLanguagesDiffer | src/utils/ocrService.ts:125-138 | the gateway is asked for the translation exactly when the primary language differs from the detected one |
| OcrService.PlainTextWords | src/utils/ocrService.ts:102-142 | for plain text without translation, the text is the processed content and word i is the i-th piece of the split with confidence 100 |
| OcrService.ImageWordsKept | src/utils/ocrService.ts:85-142 | for an image without translation and with OCR words, the engine's words are kept one for one |
| OcrService.FinalWordsNumbered | src/utils/ocrService.ts:126-142 | the final words stay numbered 0, 1, … |
| OcrService.RawWordsNumbered | src/utils/ocrService.ts:80-110 | the words of every extractor branch are numbered 0, 1, … |
| OcrService.TranslateStep | src/utils/ocrService.ts:125-142 | the translate step's text, words and gateway requests in both branches |
| TextOutput.WordTexts | src/components/TextOutput.tsx:27 | one text per word, in order |
| TextOutput.TextOutputState.constructor | src/components/TextOutput.tsx:24-33 | the initial word list is the OCR word texts when there are words, else the white-space split of the text; nothing is being edited |
| TextOutput.TextOutputState.WordAt | src/components/TextOutput.tsx:41-43 | reading `editedWords[idx]`: present exactly for an index in range |
| TextOutput.TextOutputState.Resync | src/components/TextOutput.tsx:97-103 | the words are resynchronised from OCR words or from the text, and left unchanged when both are missing or empty |
| TextOutput.TextOutputState.HandleFlaggedWordClick | src/components/TextOutput.tsx:38-48 | editing starts at idx and the AI suggestion is cleared; suggestions open at idx exactly when the word is incorrect, else they are cleared; the words are unchanged |
| TextOutput.TextOutputState.HandleWordEditChange | src/components/TextOutput.tsx:50-54 | only index idx changes (an index past the end pads with empty entries); everything else is unchanged |
| TextOutput.TextOutputState.HandleWordEditBlur | src/components/TextOutput.tsx:56-58 | editing stops; nothing else changes |
| TextOutput.TextOutputState.HandleWordEditKeyDown | src/components/TextOutput.tsx:60-64 | Enter stops editing; any other key changes nothing |
| TextOutput.TextOutputState.HandleSuggestionClick | src/components/TextOutput.tsx:66-71 | word idx becomes the suggestion and every other word is kept; editing and suggestions are closed |
| TextOutput.InitialWordsRoundTrip | src/components/TextOutput.tsx:106-110 | joining the split of a text gives the text with white-space runs collapsed |
| TextOutput.CorrectedTextRoundTrip | src/components/TextOutput.tsx:106-110 | words that are non-empty and free of white space split back out of the corrected text unchanged |
| TextOutput.WordCountIsRunCount | src/components/TextOutput.tsx:207 | the displayed word count equals the number of maximal non-white-space runs |
| TextOutput.BlankCountsZero | src/components/TextOutput.tsx:207 | a blank text counts zero words |
| IndexPage.ExtractForLanguage | src/pages/Index.tsx:81 | extraction is requested for the single selected language |
| IndexPage.IndexState.constructor | src/pages/Index.tsx:24-34 | no file, language `en`, empty texts, step 0, the stored theme |
| IndexPage.IndexState.HandleFileUpload | src/pages/Index.tsx:53-68 | the file is stored, a preview URL only for an image, the extraction cleared, step 1; the invariant is kept |
| IndexPage.IndexState.HandleProcessDocument | src/pages/Index.tsx:70-101 | without a file nothing changes; on success text and result are stored and the step becomes 3; on failure they and the step are kept; processing is off afterwards |
| IndexPage.IndexState.Store | src/pages/Index.tsx:79-100 | the state changes once the extraction has settled, success or failure |
| IndexPage.IndexState.HandleNext | src/pages/Index.tsx:103-105 | the step goes up by one below the last step and stays otherwise, as one Next click of `StepAfter`; every other field is unchanged |
| IndexPage.IndexState.HandlePrev | src/pages/Index.tsx:106-108 | the step goes down by one above 0 and stays otherwise, as one Prev click of `StepAfter`; every other field is unchanged |
| IndexPage.IndexState.HandleStartOver | src/pages/Index.tsx:109-117 | file, preview, result, texts and summary are reset and the step is 0; language and theme are kept |
| IndexPage.IndexState.SelectLanguage | src/pages/Index.tsx:160 | the language becomes the chosen one; every other field is unchanged |
| IndexPage.IndexState.SetCorrectedText | src/pages/Index.tsx:195 | the corrected text becomes the given one; every other field is unchanged |
| IndexPage.IndexState.ToggleDarkMode | src/pages/Index.tsx:130 | the theme flips; every other field is unchanged |
| IndexPage.IndexState.RecomputeSummary | src/pages/Index.tsx:41-51 | the summary is recomputed from the corrected text and language when both are non-empty, else set to ''; every other field is unchanged |
| IndexPage.RecomputedSummaryShape | src/pages/Index.tsx:41-51 | an empty summary arises only with no text, no language or a non-English language; with text and `en` the summary ends with '.' |
| IndexPage.StepWalkBounded | src/pages/Index.tsx:103-108 | any run of Next/Prev clicks, each one the step `HandleNext` or `HandlePrev` takes, keeps the step within the four steps, moving at most one per click |
| FileUpload.CheckFile | src/components/FileUpload.tsx:40-69 | a file is rejected for its type exactly when the type is not one of the nine, for its size exactly when the type is allowed and it exceeds 10·1024·1024 bytes, and accepted otherwise |
| FileUpload.HandleFileSelection | src/components/FileUpload.tsx:39-72 | the file is handed on exactly when accepted, at most once; otherwise exactly one toast, 'Invalid file type' exactly for a bad type and 'File too large' for an oversize allowed one |
| FileUpload.DroppedSelection | src/components/FileUpload.tsx:29-37 | an empty drop does nothing; otherwise only the first file is validated |
| FileUpload.InputSelection | src/components/FileUpload.tsx:74-79 | a missing or empty file list does nothing; otherwise only the first file is validated |
| FileUpload.BadgeLabel | src/components/FileUpload.tsx:174-178 | Image exactly for image types, PDF for `application/pdf`, Text for `text/plain`, CSV for `text/csv`, File for everything else |
| FileUpload.DropZone.HandleDragOver | src/components/FileUpload.tsx:19-22 | the drop zone is highlighted |
| FileUpload.DropZone.HandleDragLeave | src/components/FileUpload.tsx:24-27 | the highlight is removed |
| FileUpload.DropZone.HandleDrop | src/components/FileUpload.tsx:29-37 | the highlight is removed and the first dropped file is validated |
| FileUpload.SizeLimitInclusive | src/components/FileUpload.tsx:40-69 | an allowed file of exactly 10 MB is accepted; one byte more is rejected as too large |
| FileUpload.TypeCheckedFirst | src/components/FileUpload.tsx:53-69 | a bad type that is also oversize reports only the type error |
| FileUpload.AllowedTypesAreExtractable | src/components/FileUpload.tsx:41-51 | every allowed type is an image, a PDF, plain text or CSV, the four kinds the extractor handles |
| FileUpload.AcceptedHasSpecificBadge | src/components/FileUpload.tsx:174-178 | an accepted file never gets the generic File badge |
| FileUpload.DropUsesFirstFile | src/components/FileUpload.tsx:33-36 | files after the first do not matter |
| DocumentCompare.PartsOn | src/components/DocumentCompare.tsx:78-79 | a part is kept exactly when it is marked for the side (added or removed) |
| DocumentCompare.TrimmedValues | src/components/DocumentCompare.tsx:78-79 | value i is the trimmed value of part i |
| DocumentCompare.SideWordsMembership | src/components/DocumentCompare.tsx:78-79 | a word is listed exactly when it is the non-empty trimmed value of a part marked for that side |
| DocumentCompare.SideWordsAppend | src/components/DocumentCompare.tsx:78-79 | the lists are built part by part, in order: the words of a concatenation are the words of each half |
| DocumentCompare.NeutralPartsListNothing | src/components/DocumentCompare.tsx:78-79 | parts marked neither added nor removed list nothing |
| DocumentCompare.ErrorListsNothing | src/components/DocumentCompare.tsx:71-79 | after a failed compare both lists are empty |
| DocumentCompare.ContentOf | src/components/DocumentCompare.tsx:56-66 | a text or CSV file is compared on its stored text; any other file succeeds exactly when its English extraction does, with the extracted text as content, and fails with the extraction's message |
| DocumentCompare.ReadContent | src/components/DocumentCompare.tsx:56-66 | the content obtained for one file equals its specification |
| DocumentCompare.TextFilesNeverFail | src/components/DocumentCompare.tsx:56-66 | two text or CSV files are compared on their stored texts, without extraction |
| DocumentCompare.NameDecidesTextExample | src/components/DocumentCompare.tsx:8-15 | a file named `.txt` counts as text whatever its type |
| DocumentCompare.CompareState.constructor | src/components/DocumentCompare.tsx:18-23 | no files, empty texts, no diff, not loading |
| DocumentCompare.CompareState.HandleFileA | src/components/DocumentCompare.tsx:25-37 | the first chosen file becomes A and textA its content when text or CSV, '' otherwise; an empty choice changes nothing; B is untouched |
| DocumentCompare.CompareState.HandleFileB | src/components/DocumentCompare.tsx:38-50 | the same for B, leaving A untouched |
| DocumentCompare.CompareState.HandleCompare | src/components/DocumentCompare.tsx:52-75 | nothing happens unless both files are set; if both contents are obtained the texts become them and the diff is theirs, else the texts are kept and the diff is the single error part; loading is off afterwards |
| DocumentCompare.CompareState.Settle | src/components/DocumentCompare.tsx:67-74 | the state changes once both contents have settled |
| DocumentPreview.LoadedContent | src/components/DocumentPreview.tsx:37-48 | the read text is present exactly for a text or CSV file and is its content |
| DocumentPreview.Body | src/components/DocumentPreview.tsx:12-106 | no file gives 'No file selected'; an image is shown exactly for an image with a non-empty URL; text is shown only when non-empty and under 50000 characters, 'too large' only from 50000, 'loading' only without content; the two 'not available' bodies only for other files, split by PDF |
| DocumentPreview.Badge | src/components/DocumentPreview.tsx:62-64 | Image exactly for images, PDF for every other file |
| DocumentPreview.LoadedTextPreview | src/components/DocumentPreview.tsx:37-96 | once read, a text or CSV file shows its content below 50000 characters and 'too large' from 50000 |
| DocumentPreview.EmptyTextStaysLoading | src/components/DocumentPreview.tsx:42-95 | an empty text file stays on 'Loading preview...' because '' is falsy |
| DocumentPreview.PdfNamedTxtPreviewedAsText | src/components/DocumentPreview.tsx:34-89 | the name decides: a PDF named `.txt` is previewed as text and still badged PDF |
| DocumentPreview.ImageWithoutUrl | src/components/DocumentPreview.tsx:83-105 | an image without a (non-empty) preview URL shows 'Preview Not Available' |
| MindMapPage.NatToString | src/pages/MindMapPage.tsx:20-31 | a number prints as a non-empty string of decimal digits |
| MindMapPage.ParsePrinted | src/pages/MindMapPage.tsx:20-31 | reading back a printed number gives the number |
| MindMapPage.ChildIdInjective | src/pages/MindMapPage.tsx:20 | distinct children get distinct ids |
| MindMapPage.ParseSummaryToFlow | src/pages/MindMapPage.tsx:7-36 | children+1 nodes with the root first at (0, 250); child i is `child-i` labelled with sentence i at (350, 120·i); one edge per child, `e-root-child-i`, from the root to `child-i` |
| MindMapPage.FlowWellFormed | src/pages/MindMapPage.tsx:10-34 | node ids are distinct, edge ids are distinct, and every edge joins two existing nodes |
| MindMapPage.ChildrenAreSentences | src/pages/MindMapPage.tsx:9 | every child is non-empty and contains no sentence end followed by white space |
| MindMapPage.ChildrenCoverSummary | src/pages/MindMapPage.tsx:9 | the children, read one after another, are the summary without the white-space runs that follow a sentence end: nothing else is lost, repeated or reordered |
| MindMapPage.EmptySummaryIsRootOnly | src/pages/MindMapPage.tsx:9-41 | a missing summary gives the root node alone and no edges |
| MindMapPage.TwoSentencesExample | src/pages/MindMapPage.tsx:9 | "a. b" gives the two children "a." and "b" |
| MindMapPage.SummaryOrDefault | src/pages/MindMapPage.tsx:41 | a missing summary becomes '' |
| MindMapPage.LanguageOrDefault | src/pages/MindMapPage.tsx:42 | the language shown is never empty, and is the given one when that is non-empty |
| MindMapPage.EmptyLanguageIsEnglish | src/pages/MindMapPage.tsx:42 | a missing or empty language shows as `en` |
| ExportOptions.TailLength | src/components/ExportOptions.tsx:20 | the longest suffix of characters other than '.' and '/' |
| ExportOptions.StripExtension | src/components/ExportOptions.tsx:20 | either the name is kept, or what is removed is a '.' followed by one or more characters other than '.' and '/' up to the end; whenever such a match exists, it is removed |
| ExportOptions.DownloadName | src/components/ExportOptions.tsx:20 | the download name always ends in `_extracted.txt`, preceded by the stripped name |
| ExportOptions.LastExtensionOnly | src/components/ExportOptions.tsx:20 | `a.tar.gz` gives `a.tar_extracted.txt` |
| ExportOptions.NoDotKeepsName | src/components/ExportOptions.tsx:20 | a name without a dot is kept whole |
| ExportOptions.TrailingDotKept | src/components/ExportOptions.tsx:20 | `a.` gives `a._extracted.txt` |
| ExportOptions.SlashAfterDotKept | src/components/ExportOptions.tsx:20 | a name whose part after its last '/' has no dot is kept whole, whatever dots come before (`v1.0/notes`) |
| ExportOptions.StripTwice | src/components/ExportOptions.tsx:20 | only one extension is stripped per call |
| ExportOptions.ExportedFileName | src/pages/Index.tsx:201 | the page passes the upload's name when it has a non-empty one, and `document` otherwise |
| ExportOptions.NoUploadName | src/pages/Index.tsx:201 | without an upload the download is `document_extracted.txt` |

## Left out

- The I/O around the engines is not modelled: Tesseract workers, pdfjs loading, `fetch`, `FileReader` and `file.text()`. Each is replaced by a value or a function parameter, and asynchronous reads are modelled as completed reads.
- The gateway is deterministic in the model: the same request always gets the same reply. Rate limits, retries and the 100 ms delay between chunks are not modelled.
- The confidence values are opaque reals and the MB display is left out; no floating-point arithmetic is modelled.
- Toasts (reduced to their titles in `FileUpload`), clipboard, printing, `localStorage`, routing, `URL.createObjectURL` and all JSX rendering are left out. So are the copy buttons and the AI suggestion request of `TextOutput`, and the remove-file button of `FileUpload`, which only calls back and shows a toast.
- `\s` is a fixed set of ECMAScript white-space and line-terminator characters, and `.` excludes LF, CR, U+2028 and U+2029. There is no full Unicode regex semantics.
- Strings are sequences of code points, while JavaScript's `.length` and the regular expression `.` (without the `u` flag) count UTF-16 code units. Every length bound in the model counts characters, not code units. This covers the 500-character chunks (`LeadRun`, `Chunks`), the 20-character fragment filter (`LongFragments`), the 50-character scan test (`ScanFill`) and the 50000-character preview limit (`DocumentPreview.PreviewLimit`). For text outside the Basic Multilingual Plane, the source cuts earlier than the model. For example, a line of 300 emoji is 600 code units: the source sends two chunks, the model one. A source chunk boundary can also fall inside a surrogate pair, which the model cannot express.
- TranslationService.GetTranslationLanguageCode: in the source, `languageMap[code] || 'en'` looks the code up in an object literal. A key inherited from `Object.prototype` (`constructor`, `toString`, `__proto__`, …) therefore yields that inherited member, not a supported code. The model returns `en` for these keys. No caller passes one: the callers pass the selector's codes or the output of `mapFrancToSupportedLang`.
- The outer `catch` of `translateText` and the `catch` of `generateSummary` are not modelled as separate paths: nothing inside them can throw in the model, since gateway failures are caught per chunk.
- OcrService.ExtractTextFromDocument requires a non-empty language list. The source reads `selectedLanguages[0]` without checking, and both callers pass exactly one language.
- SimpleSpellCheck.GetSuggestions has no `max` parameter, because the source never reads it.
- `TextOutput`: JavaScript array holes created by writing past the end are modelled as empty strings. The `typeof` and `text !== undefined` guards are covered by the `Option` types.
- Summaries shown as bullet lists, and the `Stepper`, `Sidebar`, `Header`, `ProcessButton`, `LanguageSelector` and `CompareDocuments` components, are presentation only.
- `MindMapPage`: the React Flow node and edge state hooks, their change handlers and the back navigation are left out; the model covers the flow built from the summary.
