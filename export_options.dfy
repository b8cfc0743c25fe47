/** `src/components/ExportOptions.tsx`: the name of the downloaded text file,
    `${fileName.replace(/\.[^/.]+$/, '')}_extracted.txt`. The regular
    expression matches a dot followed by one or more characters other than
    `/` and `.`, running to the end of the name; at most one such match
    exists, and it is removed. Blob, anchor and print window handling is
    browser I/O and is not modelled. */
module ExportOptions {
  import opened Wrappers
  import opened Strings
  import opened Files

  const DownloadSuffix: string := "_extracted.txt"

  /** `[^/.]` */
  predicate InExtension(c: char) {
    c != '.' && c != '/'
  }

  /** `\.[^/.]+$` matches at position `i` of `name`. */
  predicate ExtensionAt(name: string, i: nat) {
    && i + 1 < |name|
    && name[i] == '.'
    && forall j | i < j < |name| :: InExtension(name[j])
  }

  /** The length of the longest suffix of `name` made of `[^/.]`
      characters. */
  function TailLength(name: string): (k: nat)
    ensures k <= |name|
    ensures forall j | |name| - k <= j < |name| :: InExtension(name[j])
    ensures k < |name| ==> !InExtension(name[|name| - k - 1])
    decreases |name|
  {
    if name == [] || !InExtension(name[|name| - 1]) then 0
    else 1 + TailLength(name[..|name| - 1])
  }

  /** A match can only start right before the longest `[^/.]` suffix. */
  lemma ExtensionIsAfterTail(name: string)
    ensures forall i: nat | ExtensionAt(name, i) :: i == |name| - TailLength(name) - 1
  {
    var k := TailLength(name);
    forall i: nat | ExtensionAt(name, i)
      ensures i == |name| - k - 1
    {
      assert !InExtension(name[i]);
      assert i < |name| - k;
      assert !InExtension(name[|name| - k - 1]);
    }
  }

  /** The name with its final extension removed, if it has one. */
  function StripExtension(name: string): (base: string)
    ensures base == name || (ExtensionAt(name, |base|) && base == name[..|base|])
    ensures forall i: nat | ExtensionAt(name, i) :: base == name[..i]
  {
    ExtensionIsAfterTail(name);
    var k := TailLength(name);
    if 0 < k < |name| && name[|name| - k - 1] == '.' then name[..|name| - k - 1] else name
  }

  /** `a.download` */
  function DownloadName(fileName: string): (r: string)
    ensures EndsWith(r, DownloadSuffix)
    ensures r[..|r| - |DownloadSuffix|] == StripExtension(fileName)
  {
    StripExtension(fileName) + DownloadSuffix
  }

  /** The `fileName` the page passes in: `uploadedFile?.name || 'document'`. */
  function ExportedFileName(uploadedFile: Option<File>): (r: string)
    ensures r != ""
    ensures uploadedFile.Some? && uploadedFile.value.name != "" ==> r == uploadedFile.value.name
    ensures !(uploadedFile.Some? && uploadedFile.value.name != "") ==> r == "document"
  {
    if uploadedFile.Some? && uploadedFile.value.name != "" then uploadedFile.value.name else "document"
  }

  // ---------------------------------------------------------------------------
  // Lemmas

  /** Without a named upload the download is `document_extracted.txt`. */
  lemma NoUploadName()
    ensures DownloadName(ExportedFileName(None)) == "document_extracted.txt"
  {
    NoDotKeepsName("document");
  }

  /** Only the last extension goes: `a.tar.gz` becomes `a.tar`. */
  lemma LastExtensionOnly()
    ensures DownloadName("a.tar.gz") == "a.tar_extracted.txt"
  {
    var name := "a.tar.gz";
    assert ExtensionAt(name, 5);
    assert name[..5] == "a.tar";
  }

  /** A name without a dot is kept whole. */
  lemma NoDotKeepsName(fileName: string)
    requires '.' !in fileName
    ensures DownloadName(fileName) == fileName + DownloadSuffix
  {
    forall i: nat | i < |fileName|
      ensures !ExtensionAt(fileName, i)
    {
      assert fileName[i] in fileName;
    }
  }

  /** A trailing dot is not an extension: `a.` becomes `a._extracted.txt`. */
  lemma TrailingDotKept()
    ensures DownloadName("a.") == "a._extracted.txt"
  {
    var name := "a.";
    assert !ExtensionAt(name, 0) && !ExtensionAt(name, 1);
  }

  /** A last dot followed by text with a `/` is not an extension either:
      `v1.0/notes` is kept whole. */
  lemma SlashAfterDotKept(dir: string, fileName: string)
    requires '.' !in fileName
    ensures DownloadName(dir + "/" + fileName) == dir + "/" + fileName + DownloadSuffix
  {
    var name := dir + "/" + fileName;
    var slash := |dir|;
    assert name[slash] == '/';
    forall i: nat | i < |name|
      ensures !ExtensionAt(name, i)
    {
      if i < slash {
        assert !InExtension(name[slash]);
      } else if i > slash {
        assert name[i] == fileName[i - slash - 1];
        assert fileName[i - slash - 1] in fileName;
      }
    }
  }

  /** Stripping is not idempotent: the base of `a.tar.gz` is `a.tar`, whose
      own base is `a`. */
  lemma StripTwice()
    ensures StripExtension(StripExtension("a.tar.gz")) == "a"
  {
    var name := "a.tar.gz";
    assert ExtensionAt(name, 5);
    assert StripExtension(name) == "a.tar";
    assert ExtensionAt("a.tar", 1);
    assert "a.tar"[..1] == "a";
  }
}
