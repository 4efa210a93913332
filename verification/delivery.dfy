/** Document delivery (`download_document`, `preview_document`): the record
    is looked up by primary key AND owner, the content type comes from an
    extension lookup with a generic fallback, and the disposition header
    names the file's base name, as an attachment or inline. */
module Delivery {
  import opened Wrappers
  import opened Strings
  import opened Models
  import opened Access

  datatype Mode = Attachment | Inline

  /** The parts of the file response this model describes. `frameExempt`
      is set for the preview, whose view lifts the framing restriction. */
  datatype FileResponse = FileResponse(contentType: string, disposition: string, frameExempt: bool)

  /** The content type used when the extension lookup finds none. */
  const DefaultContentType: string := "application/octet-stream"

  /** `os.path.basename(path)`: the text after the last '/'. */
  function Basename(path: string): (b: string)
    ensures '/' !in b
    ensures |b| <= |path| && path[|path| - |b|..] == b
    ensures |b| < |path| ==> path[|path| - |b| - 1] == '/'
  {
    LastPieceIsSuffix(path, '/');
    LastPiece(path, '/')
  }

  function DispositionPrefix(mode: Mode): string {
    match mode
    case Attachment => "attachment; filename=\""
    case Inline => "inline; filename=\""
  }

  /** `attachment; filename="<name>"` or `inline; filename="<name>"`. */
  function ContentDisposition(mode: Mode, filename: string): string {
    DispositionPrefix(mode) + filename + "\""
  }

  /** Reads a disposition header back into its mode and file name. */
  function ParseDisposition(header: string): Option<(Mode, string)> {
    if |header| >= |DispositionPrefix(Attachment)| + 1
       && header[..|DispositionPrefix(Attachment)|] == DispositionPrefix(Attachment)
       && header[|header| - 1] == '"'
    then Some((Attachment, header[|DispositionPrefix(Attachment)|..|header| - 1]))
    else if |header| >= |DispositionPrefix(Inline)| + 1
       && header[..|DispositionPrefix(Inline)|] == DispositionPrefix(Inline)
       && header[|header| - 1] == '"'
    then Some((Inline, header[|DispositionPrefix(Inline)|..|header| - 1]))
    else None
  }

  /** The header determines both the mode and the file name. */
  lemma DispositionRoundTrip(mode: Mode, filename: string)
    ensures ParseDisposition(ContentDisposition(mode, filename)) == Some((mode, filename))
  {
    var h := ContentDisposition(mode, filename);
    var a := DispositionPrefix(Attachment);
    assert h[|DispositionPrefix(mode)|..|h| - 1] == filename;
    if mode == Inline && |h| >= |a| {
      assert h[..|a|][0] == 'i' && a[0] == 'a';
    }
  }

  /** Both views: a lookup by primary key and owner together, answered with
      "not found" when it fails, then the content type of the stored file's path and the disposition
      with its base name. `pathOf` maps a stored name to its file-system
      path and `guessType` is the extension-to-MIME lookup. */
  function Deliver(store: Store, pk: RecordId, requester: UserId, mode: Mode,
                   pathOf: string -> string, guessType: string -> Option<string>)
    : (r: Result<FileResponse, Denial>)
    ensures r.Success? <==> pk in store && store[pk].owner == requester
    ensures r.Failure? ==> r.error == NotFound
    ensures r.Success? ==>
      var path := pathOf(store[pk].document.name);
      var guess := guessType(path);
      && r.value.contentType == (if guess.Some? && guess.value != "" then guess.value else DefaultContentType)
      && ParseDisposition(r.value.disposition) == Some((mode, Basename(path)))
      && r.value.frameExempt == (mode == Inline)
  {
    if pk in store && store[pk].owner == requester then
      var path := pathOf(store[pk].document.name);
      DispositionRoundTrip(mode, Basename(path));
      var guess := guessType(path);
      var contentType := if guess.Some? && guess.value != "" then guess.value else DefaultContentType;
      Success(FileResponse(contentType,
                           ContentDisposition(mode, Basename(path)),
                           mode == Inline))
    else Failure(NotFound)
  }

  /** `download_document`: the owner gets the file as an attachment under its
      base name, with the framing restriction kept; anyone else gets "not
      found". */
  function Download(store: Store, pk: RecordId, requester: UserId,
                    pathOf: string -> string, guessType: string -> Option<string>)
    : (r: Result<FileResponse, Denial>)
    ensures r.Success? <==> pk in store && store[pk].owner == requester
    ensures r.Failure? ==> r.error == NotFound
    ensures r.Success? ==>
      var path := pathOf(store[pk].document.name);
      var guess := guessType(path);
      && r.value.contentType == (if guess.Some? && guess.value != "" then guess.value else DefaultContentType)
      && ParseDisposition(r.value.disposition) == Some((Attachment, Basename(path)))
      && !r.value.frameExempt
  {
    Deliver(store, pk, requester, Attachment, pathOf, guessType)
  }

  /** `preview_document`: the owner gets the file inline under its base
      name, exempt from the framing restriction; anyone else gets "not
      found". */
  function Preview(store: Store, pk: RecordId, requester: UserId,
                   pathOf: string -> string, guessType: string -> Option<string>)
    : (r: Result<FileResponse, Denial>)
    ensures r.Success? <==> pk in store && store[pk].owner == requester
    ensures r.Failure? ==> r.error == NotFound
    ensures r.Success? ==>
      var path := pathOf(store[pk].document.name);
      var guess := guessType(path);
      && r.value.contentType == (if guess.Some? && guess.value != "" then guess.value else DefaultContentType)
      && ParseDisposition(r.value.disposition) == Some((Inline, Basename(path)))
      && r.value.frameExempt
  {
    Deliver(store, pk, requester, Inline, pathOf, guessType)
  }

  /** Download offers the file as an attachment and keeps the framing
      restriction; preview renders it inline without it. Both serve the same
      content type. */
  lemma DownloadVersusPreview(store: Store, pk: RecordId, requester: UserId,
                              pathOf: string -> string, guessType: string -> Option<string>)
    requires pk in store && store[pk].owner == requester
    ensures var d := Download(store, pk, requester, pathOf, guessType);
      var p := Preview(store, pk, requester, pathOf, guessType);
      var name := Basename(pathOf(store[pk].document.name));
      && d.Success? && p.Success?
      && d.value.disposition == "attachment; filename=\"" + name + "\""
      && p.value.disposition == "inline; filename=\"" + name + "\""
      && !d.value.frameExempt && p.value.frameExempt
      && d.value.contentType == p.value.contentType
  {
  }

  /** A non-owner asking for an existing record is told "forbidden" by the
      detail, update and delete views but "not found" by download and
      preview: the two refusal policies differ. */
  lemma RefusalPoliciesDiffer(store: Store, pk: RecordId, requester: UserId,
                              pathOf: string -> string, guessType: string -> Option<string>)
    requires pk in store && store[pk].owner != requester
    ensures CheckOwner(store, pk, requester) == Failure(Forbidden)
    ensures Download(store, pk, requester, pathOf, guessType) == Failure(NotFound)
    ensures Preview(store, pk, requester, pathOf, guessType) == Failure(NotFound)
  {
  }
}
