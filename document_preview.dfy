/** `src/components/DocumentPreview.tsx`: how an uploaded file is classified
    and which preview body is shown for it. The text content the component
    reads with a `FileReader` is a parameter (`None` until the read
    completes); JavaScript's falsy empty string is kept explicit: an empty
    URL or an empty content counts as absent. */
module DocumentPreview {
  import opened Wrappers
  import opened Strings
  import opened Files

  /** Text content of this length or more is not shown. */
  const PreviewLimit: nat := 50000

  /** The body of the preview card. */
  datatype PreviewBody =
    | NoFileSelected
    | ImagePreview(url: string)
    | TextPreview(content: string)
    | TooLargeToPreview
    | LoadingPreview
    | PdfPreviewNotAvailable
    | PreviewNotAvailable

  predicate IsImage(file: File) {
    IsImageType(file.mimeType)
  }

  predicate IsPdf(file: File) {
    file.mimeType == PdfType
  }

  predicate IsText(file: File) {
    file.mimeType == PlainTextType || EndsWith(file.name, ".txt")
  }

  predicate IsCsv(file: File) {
    file.mimeType == CsvType || EndsWith(file.name, ".csv")
  }

  /** JavaScript truthiness of a `string | null`. */
  predicate Truthy(s: Option<string>) {
    s.Some? && s.value != ""
  }

  /** What the effect on `[file]` leaves in `textContent` once the reader
      has finished: the file's text for a text or CSV file, else `null`. */
  function LoadedContent(file: File): (r: Option<string>)
    ensures r.Some? <==> IsText(file) || IsCsv(file)
    ensures r.Some? ==> r.value == file.content
  {
    if IsText(file) || IsCsv(file) then Some(file.content) else None
  }

  /** The body chosen for a file, its preview URL and its text content. */
  function Body(file: Option<File>, previewUrl: Option<string>, textContent: Option<string>): (r: PreviewBody)
    ensures file.None? <==> r == NoFileSelected
    ensures r.ImagePreview? <==> file.Some? && IsImage(file.value) && Truthy(previewUrl)
    ensures r.ImagePreview? ==> r.url == previewUrl.value
    ensures r.TextPreview? ==> Truthy(textContent) && r.content == textContent.value && |r.content| < PreviewLimit
    ensures r.TextPreview? || r == TooLargeToPreview || r == LoadingPreview ==>
      file.Some? && (IsText(file.value) || IsCsv(file.value))
    ensures r == TooLargeToPreview ==> Truthy(textContent) && |textContent.value| >= PreviewLimit
    ensures r == LoadingPreview ==> !Truthy(textContent)
    ensures r == PdfPreviewNotAvailable || r == PreviewNotAvailable ==>
      file.Some? && !IsText(file.value) && !IsCsv(file.value) && !(IsImage(file.value) && Truthy(previewUrl))
    ensures r == PdfPreviewNotAvailable ==> IsPdf(file.value)
    ensures r == PreviewNotAvailable ==> !IsPdf(file.value)
  {
    if file.None? then NoFileSelected
    else
      var f := file.value;
      if Truthy(previewUrl) && IsImage(f) then ImagePreview(previewUrl.value)
      else if IsText(f) || IsCsv(f) then
        if Truthy(textContent) && |textContent.value| < PreviewLimit then TextPreview(textContent.value)
        else if Truthy(textContent) && |textContent.value| >= PreviewLimit then TooLargeToPreview
        else LoadingPreview
      else if IsPdf(f) then PdfPreviewNotAvailable
      else PreviewNotAvailable
  }

  /** The badge in the card title. */
  function Badge(file: File): (r: string)
    ensures r == "Image" <==> IsImage(file)
    ensures r == "PDF" <==> !IsImage(file)
  {
    if IsImage(file) then "Image" else "PDF"
  }

  // ---------------------------------------------------------------------------
  // Lemmas

  /** Once the reader has finished, a text or CSV file (that is not an image
      with a URL) shows its content when it is non-empty and below the
      limit, and "too large" from the limit on. */
  lemma LoadedTextPreview(file: File, previewUrl: Option<string>)
    requires IsText(file) || IsCsv(file)
    requires !(IsImage(file) && Truthy(previewUrl))
    ensures 0 < |file.content| < PreviewLimit ==>
      Body(Some(file), previewUrl, LoadedContent(file)) == TextPreview(file.content)
    ensures |file.content| >= PreviewLimit ==>
      Body(Some(file), previewUrl, LoadedContent(file)) == TooLargeToPreview
  {
  }

  /** An empty text file never leaves the loading message: its content is
      the falsy empty string. */
  lemma EmptyTextStaysLoading(file: File, previewUrl: Option<string>)
    requires IsText(file) || IsCsv(file)
    requires !(IsImage(file) && Truthy(previewUrl))
    requires file.content == ""
    ensures Body(Some(file), previewUrl, LoadedContent(file)) == LoadingPreview
  {
  }

  /** The name decides before the type: a PDF whose name ends in `.txt` is
      previewed as text, and carries the "PDF" badge like every other
      non-image. */
  lemma PdfNamedTxtPreviewedAsText()
    ensures var f := File("notes.txt", PdfType, 5, "hello");
      Body(Some(f), None, LoadedContent(f)) == TextPreview("hello") && Badge(f) == "PDF"
  {
    var f := File("notes.txt", PdfType, 5, "hello");
    assert f.name[|f.name| - 4..] == ".txt";
    DocumentTypesAreNotImages();
  }

  /** Without a preview URL an image is not shown; being neither text nor
      CSV, its body is the generic "not available". */
  lemma ImageWithoutUrl(file: File)
    requires IsImage(file) && !IsText(file) && !IsCsv(file)
    ensures Body(Some(file), None, LoadedContent(file)) == PreviewNotAvailable
    ensures Body(Some(file), Some(""), LoadedContent(file)) == PreviewNotAvailable
  {
    DocumentTypesAreNotImages();
  }
}
