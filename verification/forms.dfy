/** The upload check of the land-record form (`clean_document`): a size
    limit followed by an extension allow-list, each with its own message. */
module Forms {
  import opened Wrappers
  import opened Strings
  import opened Models

  /** 10 MiB, inclusive. */
  const MaxDocumentSize: nat := 10 * 1024 * 1024

  /** The allow-list, in the order the error message lists it. */
  const ValidExtensions: seq<string> := ["pdf", "doc", "docx", "jpg", "jpeg", "png"]

  const SizeMessage: string := "File size must be under 10MB"

  const TypeMessage: string := "Unsupported file type. Allowed types: " + Join(ValidExtensions, ", ")

  /** A Django file object is truthy when it has a non-empty name; an absent
      upload is falsy. */
  predicate IsTruthy(document: Option<Document>) {
    document.Some? && document.value.name != ""
  }

  /** The extension the upload check uses: the last dot-separated piece of
      the name, lower-cased; the whole lower-cased name when it has no dot. */
  function UploadExtension(name: string): (e: string)
    ensures |e| <= |name|
    ensures e == Lower(name[|name| - |e|..])
    ensures '.' !in name[|name| - |e|..]
    ensures '.' !in name ==> e == Lower(name)
    ensures |e| < |name| ==> name[|name| - |e| - 1] == '.'
  {
    LastPieceIsSuffix(name, '.');
    Lower(LastPiece(name, '.'))
  }

  /** `clean_document`: a falsy document is returned as is; otherwise the
      size is checked first and the extension second, and an accepted
      document is returned unchanged. */
  function CleanDocument(document: Option<Document>): (r: Result<Option<Document>, string>)
    ensures r.Success? ==> r.value == document
    ensures !IsTruthy(document) ==> r.Success?
    ensures IsTruthy(document) && document.value.size > MaxDocumentSize ==>
      r == Failure(SizeMessage)
    ensures IsTruthy(document) && document.value.size <= MaxDocumentSize ==>
      (r.Success? <==> UploadExtension(document.value.name) in ValidExtensions)
    ensures (IsTruthy(document) && document.value.size <= MaxDocumentSize
             && UploadExtension(document.value.name) !in ValidExtensions) ==>
      r == Failure(TypeMessage)
  {
    if !IsTruthy(document) then Success(document)
    else if document.value.size > MaxDocumentSize then Failure(SizeMessage)
    else if UploadExtension(document.value.name) !in ValidExtensions then Failure(TypeMessage)
    else Success(document)
  }

  /** The message lists the allow-list joined by ", " in allow-list order. */
  lemma TypeMessageText()
    ensures TypeMessage == "Unsupported file type. Allowed types: "
      + "pdf" + ", " + "doc" + ", " + "docx" + ", " + "jpg" + ", " + "jpeg" + ", " + "png"
  {
    var sep := ", ";
    JoinStep(["pdf"], "doc", sep);
    JoinStep(["pdf", "doc"], "docx", sep);
    JoinStep(["pdf", "doc", "docx"], "jpg", sep);
    JoinStep(["pdf", "doc", "docx", "jpg"], "jpeg", sep);
    JoinStep(["pdf", "doc", "docx", "jpg", "jpeg"], "png", sep);
    assert ["pdf"] + ["doc"] == ["pdf", "doc"];
    assert ["pdf", "doc"] + ["docx"] == ["pdf", "doc", "docx"];
    assert ["pdf", "doc", "docx"] + ["jpg"] == ["pdf", "doc", "docx", "jpg"];
    assert ["pdf", "doc", "docx", "jpg"] + ["jpeg"] == ["pdf", "doc", "docx", "jpg", "jpeg"];
    assert ["pdf", "doc", "docx", "jpg", "jpeg"] + ["png"] == ValidExtensions;
  }

  /** For a name with a dot, the record's `get_file_extension` computes the
      same extension as the upload validator. */
  lemma ExtensionAgreesWithModel(name: string)
    requires '.' in name
    ensures GetFileExtension(name) == Success(UploadExtension(name))
  {
  }

  /** A name without a dot that is itself an allowed extension, such as
      "pdf", passes the validator, yet `get_file_extension` fails on it: the
      validator does not guarantee that the record's helpers can run. */
  lemma DotlessNameAcceptedButModelFails(name: string, size: nat)
    requires '.' !in name && Lower(name) in ValidExtensions
    requires size <= MaxDocumentSize
    ensures CleanDocument(Some(Document(name, size))) == Success(Some(Document(name, size)))
    ensures GetFileExtension(name).Failure?
  {
    LastPieceWhole(name, '.');
  }

  /** A dotless name is checked whole: when its lower-cased form is not an
      allowed extension, a file within the size limit is rejected with the
      file-type message. */
  lemma DotlessNameRejected(name: string, size: nat)
    requires name != "" && '.' !in name && Lower(name) !in ValidExtensions
    requires size <= MaxDocumentSize
    ensures CleanDocument(Some(Document(name, size))) == Failure(TypeMessage)
  {
    LastPieceWhole(name, '.');
  }

  /** Extension matching ignores case: "X.PDF" passes. */
  lemma UpperCaseExtensionAccepted()
    ensures CleanDocument(Some(Document("X.PDF", 1024))) == Success(Some(Document("X.PDF", 1024)))
  {
    LastPieceAfter("X.PDF", '.', 1);
    assert "X.PDF"[2..] == "PDF";
    assert UploadExtension("X.PDF") == "pdf";
  }

  /** A small ".exe" file is rejected with the file-type message. */
  lemma ExeRejected()
    ensures CleanDocument(Some(Document("a.exe", 1024))) == Failure(TypeMessage)
  {
    LastPieceAfter("a.exe", '.', 1);
    assert "a.exe"[2..] == "exe";
    assert UploadExtension("a.exe") == "exe";
    assert "exe" !in ValidExtensions;
  }

  /** The limit is inclusive: exactly 10485760 bytes passes, 11 MiB fails
      with the size message. */
  lemma SizeLimitInclusive()
    ensures CleanDocument(Some(Document("deed.pdf", 10485760))).Success?
    ensures CleanDocument(Some(Document("deed.pdf", 11 * 1024 * 1024))) == Failure(SizeMessage)
  {
    LastPieceAfter("deed.pdf", '.', 4);
    assert "deed.pdf"[5..] == "pdf";
    assert UploadExtension("deed.pdf") == "pdf";
  }

  /** The size check runs first: an oversized file with a bad extension
      reports the size error, whatever its name. */
  lemma SizeCheckedFirst(name: string, size: nat)
    requires name != "" && size > MaxDocumentSize
    ensures CleanDocument(Some(Document(name, size))) == Failure(SizeMessage)
  {
  }
}
