/** The browser `File` the components hand around, reduced to what the core
    reads: its name, MIME type, size in bytes and text content (`file.text()`,
    or what a `FileReader` delivers with `readAsText`). */
module Files {
  import opened Strings

  datatype File = File(name: string, mimeType: string, size: nat, content: string)

  const PdfType: string := "application/pdf"
  const PlainTextType: string := "text/plain"
  const CsvType: string := "text/csv"

  /** `type.startsWith('image/')` */
  predicate IsImageType(mimeType: string) {
    "image/" <= mimeType
  }

  /** The PDF, plain-text and CSV types are not image types. */
  lemma DocumentTypesAreNotImages()
    ensures !IsImageType(PdfType) && !IsImageType(PlainTextType) && !IsImageType(CsvType)
  {
    assert PdfType[0] != "image/"[0] && PlainTextType[0] != "image/"[0] && CsvType[0] != "image/"[0];
  }
}
