/** `src/components/FileUpload.tsx`: the upload validator (type first, then
    size), the first-file rule of drop and file input, the drag-over flag and
    the badge shown for an uploaded file. Toasts are reduced to their titles;
    `onFileUpload` is reduced to the list of files handed to it. */
module FileUpload {
  import opened Wrappers
  import opened Files

  /** 10 MB. */
  const MaxSize: nat := 10 * 1024 * 1024

  const AllowedTypes: seq<string> := [
    "image/jpeg", "image/jpg", "image/png", "image/gif", "image/bmp", "image/webp",
    "application/pdf", "text/plain", "text/csv"
  ]

  const InvalidTypeTitle: string := "Invalid file type"
  const TooLargeTitle: string := "File too large"

  datatype Verdict = Accepted | InvalidType | TooLarge

  /** The two checks of `handleFileSelection`, the type check first. */
  function CheckFile(file: File): (v: Verdict)
    ensures v == InvalidType <==> file.mimeType !in AllowedTypes
    ensures v == TooLarge <==> file.mimeType in AllowedTypes && file.size > MaxSize
    ensures v == Accepted <==> file.mimeType in AllowedTypes && file.size <= MaxSize
  {
    if file.mimeType !in AllowedTypes then InvalidType
    else if file.size > MaxSize then TooLarge
    else Accepted
  }

  /** What a selection did: the files passed to `onFileUpload` and the title
      of the toast shown, if any. */
  datatype Selection = Selection(uploads: seq<File>, toast: Option<string>)

  const NoSelection: Selection := Selection([], None)

  /** `handleFileSelection(file)`. */
  function HandleFileSelection(file: File): (s: Selection)
    ensures |s.uploads| <= 1
    ensures s.uploads == [file] <==> CheckFile(file) == Accepted
    ensures s.uploads == [] <==> s.toast.Some?
    ensures s.toast == Some(InvalidTypeTitle) <==> file.mimeType !in AllowedTypes
    ensures s.toast == Some(TooLargeTitle) <==> CheckFile(file) == TooLarge
  {
    match CheckFile(file)
    case InvalidType => Selection([], Some(InvalidTypeTitle))
    case TooLarge => Selection([], Some(TooLargeTitle))
    case Accepted => Selection([file], None)
  }

  /** Drop: only the first dropped file is looked at. */
  function DroppedSelection(files: seq<File>): (s: Selection)
    ensures files == [] ==> s == NoSelection
    ensures files != [] ==> s == HandleFileSelection(files[0])
  {
    if |files| > 0 then HandleFileSelection(files[0]) else NoSelection
  }

  /** File input: `e.target.files` may be null; only its first file is
      looked at. */
  function InputSelection(files: Option<seq<File>>): (s: Selection)
    ensures files.None? ==> s == NoSelection
    ensures files.Some? ==> s == DroppedSelection(files.value)
  {
    if files.Some? && |files.value| > 0 then HandleFileSelection(files.value[0]) else NoSelection
  }

  /** The badge text of an uploaded file. */
  function BadgeLabel(mimeType: string): (r: string)
    ensures r == "Image" <==> IsImageType(mimeType)
    ensures r == "PDF" <==> mimeType == PdfType
    ensures r == "Text" <==> mimeType == PlainTextType
    ensures r == "CSV" <==> mimeType == CsvType
    ensures r == "File" <==> !IsImageType(mimeType) && mimeType !in {PdfType, PlainTextType, CsvType}
  {
    DocumentTypesAreNotImages();
    if IsImageType(mimeType) then "Image"
    else if mimeType == PdfType then "PDF"
    else if mimeType == PlainTextType then "Text"
    else if mimeType == CsvType then "CSV"
    else "File"
  }

  /** The drop zone and its highlighted state. */
  class DropZone {
    var isDragOver: bool

    constructor ()
      ensures !isDragOver
    {
      isDragOver := false;
    }

    /** `handleDragOver` */
    method HandleDragOver()
      modifies this
      ensures isDragOver
    {
      isDragOver := true;
    }

    /** `handleDragLeave` */
    method HandleDragLeave()
      modifies this
      ensures !isDragOver
    {
      isDragOver := false;
    }

    /** `handleDrop`: clear the highlight and validate the first file. */
    method HandleDrop(files: seq<File>) returns (s: Selection)
      modifies this
      ensures !isDragOver
      ensures s == DroppedSelection(files)
    {
      isDragOver := false;
      if |files| > 0 {
        s := HandleFileSelection(files[0]);
      } else {
        s := NoSelection;
      }
    }
  }

  // ---------------------------------------------------------------------------
  // Lemmas

  /** The size limit is inclusive: a file of exactly 10 MB with an allowed
      type is accepted, one byte more is rejected as too large. */
  lemma SizeLimitInclusive(file: File)
    requires file.mimeType in AllowedTypes
    ensures file.size == MaxSize ==> HandleFileSelection(file).uploads == [file]
    ensures file.size == MaxSize + 1 ==> HandleFileSelection(file).toast == Some(TooLargeTitle)
  {
  }

  /** A file of a wrong type reports only the type error, whatever its size. */
  lemma TypeCheckedFirst(file: File)
    requires file.mimeType !in AllowedTypes && file.size > MaxSize
    ensures HandleFileSelection(file) == Selection([], Some(InvalidTypeTitle))
  {
  }

  /** Every allowed type is one the extractor has a branch for: an image, a
      PDF, plain text or CSV. */
  lemma {:induction false} AllowedTypesAreExtractable(mimeType: string)
    requires mimeType in AllowedTypes
    ensures IsImageType(mimeType) || mimeType in {PdfType, PlainTextType, CsvType}
  {
    var i :| 0 <= i < |AllowedTypes| && AllowedTypes[i] == mimeType;
    if i < 6 {
      assert "image/" <= AllowedTypes[i];
    }
  }

  /** An accepted file never gets the generic "File" badge. */
  lemma AcceptedHasSpecificBadge(file: File)
    requires CheckFile(file) == Accepted
    ensures BadgeLabel(file.mimeType) in {"Image", "PDF", "Text", "CSV"}
  {
    AllowedTypesAreExtractable(file.mimeType);
  }

  /** Only the first file of a drop matters: later files are ignored. */
  lemma DropUsesFirstFile(first: File, rest: seq<File>)
    ensures DroppedSelection([first] + rest) == HandleFileSelection(first)
  {
  }
}
