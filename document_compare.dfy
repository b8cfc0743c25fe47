/** `src/components/DocumentCompare.tsx`: two files, their contents (read
    directly for text and CSV, extracted otherwise), a word diff computed by
    an external library, and the lists of added and removed words shown
    above it. The diff library is a parameter. */
module DocumentCompare {
  import opened Wrappers
  import opened Strings
  import opened Files
  import opened OcrService

  /** One part of `diffWords(a, b)`: a run of text, and whether it occurs
      only in `b` (added) or only in `a` (removed). */
  datatype DiffPart = DiffPart(value: string, added: bool, removed: bool)

  /** `diffWords` from the `diff` package. */
  type Differ = (string, string) -> seq<DiffPart>

  /** The single neutral part shown when a compare fails. */
  const ErrorPart: DiffPart := DiffPart("Error comparing documents", false, false)

  /** `isTextOrCsv(file)`: by MIME type or by file-name extension. */
  predicate IsTextOrCsv(file: File) {
    file.mimeType == PlainTextType || file.mimeType == CsvType
    || EndsWith(file.name, ".txt") || EndsWith(file.name, ".csv")
  }

  datatype Side = Added | Removed

  predicate Marked(part: DiffPart, side: Side) {
    if side == Added then part.added else part.removed
  }

  /** `diffResult.filter(part => part.added)` (or `.removed`). */
  function PartsOn(parts: seq<DiffPart>, side: Side): (r: seq<DiffPart>)
    ensures |r| <= |parts|
    ensures forall p :: p in r <==> p in parts && Marked(p, side)
  {
    if parts == [] then []
    else (if Marked(parts[0], side) then [parts[0]] else []) + PartsOn(parts[1..], side)
  }

  /** `.map(part => part.value.trim())` */
  function TrimmedValues(parts: seq<DiffPart>): (r: seq<string>)
    ensures |r| == |parts|
    ensures forall i | 0 <= i < |parts| :: r[i] == Trim(parts[i].value)
  {
    seq(|parts|, i requires 0 <= i < |parts| => Trim(parts[i].value))
  }

  /** The summary list of one side: trimmed values of its parts, empties
      dropped. */
  function SideWords(parts: seq<DiffPart>, side: Side): seq<string> {
    Compact(TrimmedValues(PartsOn(parts, side)))
  }

  /** `addedWords` */
  function AddedWords(diffResult: seq<DiffPart>): seq<string> {
    SideWords(diffResult, Added)
  }

  /** `removedWords` */
  function RemovedWords(diffResult: seq<DiffPart>): seq<string> {
    SideWords(diffResult, Removed)
  }

  /** The content compared for one file: the text already read for a text or
      CSV file, otherwise the text extracted for English. */
  function ContentOf(file: File, text: string, engines: Engines): (r: Result<string, string>)
    ensures IsTextOrCsv(file) ==> r == Success(text)
    ensures !IsTextOrCsv(file) ==> (r.Success? <==> Extract(file, ["en"], engines).Success?)
    ensures !IsTextOrCsv(file) && r.Success? ==> r.value == Extract(file, ["en"], engines).value.text
    ensures !IsTextOrCsv(file) && r.Failure? ==> r.error == Extract(file, ["en"], engines).error
  {
    if IsTextOrCsv(file) then Success(text)
    else
      match Extract(file, ["en"], engines)
      case Success(res) => Success(res.text)
      case Failure(e) => Failure(e)
  }

  /** `extractTextFromDocument(file, ['en'])` in place of the stored text
      when the file is not text or CSV. */
  method ReadContent(file: File, text: string, engines: Engines) returns (r: Result<string, string>)
    ensures r == ContentOf(file, text, engines)
  {
    if IsTextOrCsv(file) {
      return Success(text);
    }
    var res, calls := ExtractTextFromDocument(file, ["en"], engines);
    if res.Success? {
      r := Success(res.value.text);
    } else {
      r := Failure(res.error);
    }
  }

  class CompareState {
    var fileA: Option<File>
    var fileB: Option<File>
    var textA: string
    var textB: string
    var diffResult: seq<DiffPart>
    var loading: bool

    constructor ()
      ensures fileA.None? && fileB.None? && textA == "" && textB == ""
      ensures diffResult == [] && !loading
    {
      fileA := None;
      fileB := None;
      textA := "";
      textB := "";
      diffResult := [];
      loading := false;
    }

    /** `handleFileA`: take the first chosen file; a text or CSV file has its
        content read, any other clears `textA`. */
    method HandleFileA(files: Option<seq<File>>)
      modifies this
      ensures files.Some? && files.value != [] ==>
        fileA == Some(files.value[0]) &&
        textA == (if IsTextOrCsv(files.value[0]) then files.value[0].content else "")
      ensures files.None? || files.value == [] ==> fileA == old(fileA) && textA == old(textA)
      ensures fileB == old(fileB) && textB == old(textB)
      ensures diffResult == old(diffResult) && loading == old(loading)
    {
      if files.Some? && |files.value| > 0 {
        var file := files.value[0];
        fileA := Some(file);
        textA := if IsTextOrCsv(file) then file.content else "";
      }
    }

    /** `handleFileB`, the same for the second file. */
    method HandleFileB(files: Option<seq<File>>)
      modifies this
      ensures files.Some? && files.value != [] ==>
        fileB == Some(files.value[0]) &&
        textB == (if IsTextOrCsv(files.value[0]) then files.value[0].content else "")
      ensures files.None? || files.value == [] ==> fileB == old(fileB) && textB == old(textB)
      ensures fileA == old(fileA) && textA == old(textA)
      ensures diffResult == old(diffResult) && loading == old(loading)
    {
      if files.Some? && |files.value| > 0 {
        var file := files.value[0];
        fileB := Some(file);
        textB := if IsTextOrCsv(file) then file.content else "";
      }
    }

    /** `handleCompare`: nothing without both files. Otherwise both contents
        are obtained (B only once A succeeded); if either extraction fails the texts are
        kept and the diff is the single error part, else the texts become
        the contents and the diff is theirs. Loading is off afterwards. */
    method HandleCompare(engines: Engines, diffWords: Differ)
      modifies this
      ensures old(fileA).None? || old(fileB).None? ==> unchanged(this)
      ensures old(fileA).Some? && old(fileB).Some? ==>
        CompareSettled(ContentOf(old(fileA).value, old(textA), engines),
                       ContentOf(old(fileB).value, old(textB), engines),
                       old(textA), old(textB), diffWords) && !loading
      ensures fileA == old(fileA) && fileB == old(fileB)
    {
      if fileA.None? || fileB.None? {
        return;
      }
      loading := true;
      var contentA := ReadContent(fileA.value, textA, engines);
      var contentB := contentA;
      if contentA.Success? {
        contentB := ReadContent(fileB.value, textB, engines);
      }
      Settle(contentA, contentB, diffWords);
    }

    /** The state after the contents settled as `a` and `b`. */
    method Settle(a: Result<string, string>, b: Result<string, string>, diffWords: Differ)
      modifies this
      ensures CompareSettled(a, b, old(textA), old(textB), diffWords) && !loading
      ensures fileA == old(fileA) && fileB == old(fileB)
    {
      if a.Success? && b.Success? {
        textA := a.value;
        textB := b.value;
        diffResult := diffWords(a.value, b.value);
      } else {
        diffResult := [ErrorPart];
      }
      loading := false;
    }

    /** Both contents obtained: texts replaced and diffed; a failure on
        either side: texts kept and the error part shown. */
    ghost predicate CompareSettled(a: Result<string, string>, b: Result<string, string>,
                                   oldTextA: string, oldTextB: string, diffWords: Differ)
      reads this
    {
      if a.Success? && b.Success? then
        textA == a.value && textB == b.value && diffResult == diffWords(a.value, b.value)
      else
        textA == oldTextA && textB == oldTextB && diffResult == [ErrorPart]
    }
  }

  // ---------------------------------------------------------------------------
  // Lemmas

  /** A word is listed on a side exactly when it is the non-empty trimmed
      value of some part marked for that side. */
  lemma SideWordsMembership(parts: seq<DiffPart>, side: Side, w: string)
    ensures w in SideWords(parts, side) <==>
      w != "" && exists p :: p in parts && Marked(p, side) && Trim(p.value) == w
  {
    var picked := PartsOn(parts, side);
    TrimmedMembership(picked, w);
    if w in SideWords(parts, side) {
      var p :| p in picked && Trim(p.value) == w;
      assert p in parts && Marked(p, side);
    }
    if w != "" && exists p :: p in parts && Marked(p, side) && Trim(p.value) == w {
      var p :| p in parts && Marked(p, side) && Trim(p.value) == w;
      assert p in picked;
    }
  }

  lemma TrimmedMembership(parts: seq<DiffPart>, w: string)
    ensures w in TrimmedValues(parts) <==> exists p :: p in parts && Trim(p.value) == w
  {
    var r := TrimmedValues(parts);
    if w in r {
      var i :| 0 <= i < |r| && r[i] == w;
      assert parts[i] in parts;
    }
    if exists p :: p in parts && Trim(p.value) == w {
      var p :| p in parts && Trim(p.value) == w;
      var i :| 0 <= i < |parts| && parts[i] == p;
      assert r[i] == w;
    }
  }

  /** The lists are built part by part: the words of a concatenation are the
      words of each half, in order. */
  lemma SideWordsAppend(a: seq<DiffPart>, b: seq<DiffPart>, side: Side)
    ensures SideWords(a + b, side) == SideWords(a, side) + SideWords(b, side)
  {
    PartsOnAppend(a, b, side);
    var pa, pb := PartsOn(a, side), PartsOn(b, side);
    TrimmedValuesAppend(pa, pb);
    CompactAppend(TrimmedValues(pa), TrimmedValues(pb));
  }

  lemma TrimmedValuesAppend(a: seq<DiffPart>, b: seq<DiffPart>)
    ensures TrimmedValues(a + b) == TrimmedValues(a) + TrimmedValues(b)
  {
    var l, r := TrimmedValues(a + b), TrimmedValues(a) + TrimmedValues(b);
    assert |l| == |r|;
    forall i | 0 <= i < |l|
      ensures l[i] == r[i]
    {
      if i < |a| {
        assert (a + b)[i] == a[i];
      } else {
        assert (a + b)[i] == b[i - |a|];
      }
    }
  }

  lemma {:induction false} PartsOnAppend(a: seq<DiffPart>, b: seq<DiffPart>, side: Side)
    ensures PartsOn(a + b, side) == PartsOn(a, side) + PartsOn(b, side)
    decreases |a|
  {
    if a == [] {
      assert a + b == b;
    } else {
      assert (a + b)[0] == a[0];
      assert (a + b)[1..] == a[1..] + b;
      PartsOnAppend(a[1..], b, side);
    }
  }

  /** Parts not marked for a side contribute nothing to its list. */
  lemma {:induction false} UnmarkedPartsListNothing(parts: seq<DiffPart>, side: Side)
    requires forall p | p in parts :: !Marked(p, side)
    ensures SideWords(parts, side) == []
  {
    if parts != [] {
      assert parts[0] in parts;
      assert forall p | p in parts[1..] :: p in parts;
      UnmarkedPartsListNothing(parts[1..], side);
      assert PartsOn(parts, side) == PartsOn(parts[1..], side);
    }
  }

  /** A part marked for neither side contributes to neither list. */
  lemma NeutralPartsListNothing(parts: seq<DiffPart>)
    requires forall p | p in parts :: !p.added && !p.removed
    ensures AddedWords(parts) == [] && RemovedWords(parts) == []
  {
    UnmarkedPartsListNothing(parts, Added);
    UnmarkedPartsListNothing(parts, Removed);
  }

  /** After a failed compare there is nothing to list. */
  lemma ErrorListsNothing()
    ensures AddedWords([ErrorPart]) == [] && RemovedWords([ErrorPart]) == []
  {
    NeutralPartsListNothing([ErrorPart]);
  }

  /** Text and CSV files are compared on their stored text, so a compare of
      two such files never fails. */
  lemma TextFilesNeverFail(fileA: File, fileB: File, textA: string, textB: string, engines: Engines)
    requires IsTextOrCsv(fileA) && IsTextOrCsv(fileB)
    ensures ContentOf(fileA, textA, engines) == Success(textA)
    ensures ContentOf(fileB, textB, engines) == Success(textB)
  {
  }

  /** A file is treated as text by its name alone when its type says
      otherwise: `notes.txt` sent as `application/octet-stream`. */
  lemma NameDecidesTextExample()
    ensures IsTextOrCsv(File("notes.txt", "application/octet-stream", 3, "abc"))
  {
    assert "notes.txt"[9 - 4..] == ".txt";
  }
}
