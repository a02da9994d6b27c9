/**
 * Creating a share: the input checks that decide whether anything is saved,
 * the record that is then saved, and the share link that is produced.
 */
module Create {
  import opened Wrappers
  import opened Strings
  import opened ContentStore
  import opened ShareLink

  /** The largest accepted upload: 10 MiB. */
  const MaxFileBytes: nat := 10 * 1024 * 1024

  /** The file picked for upload: its size in bytes and its declared media type (possibly empty). */
  datatype ChosenFile = ChosenFile(size: nat, mimeType: string)

  /**
   * One press of a create button. `expirationDays` is the parsed expiry
   * choice. For a video link, `parsesAsUrl` says whether the host's URL
   * parser accepts the trimmed link.
   */
  datatype Request =
    | TextRequest(text: string, expirationDays: int)
    | VideoLinkRequest(link: string, parsesAsUrl: bool, expirationDays: int)
    | VideoFileRequest(file: Option<ChosenFile>, expirationDays: int)

  /** Why nothing was saved. */
  datatype CreateError =
    | EmptyText       // the text is empty once trimmed
    | EmptyLink       // the video link is empty once trimmed
    | InvalidLink     // the host's URL parser rejects the link
    | NoFile          // no file was chosen
    | FileTooLarge    // the file exceeds MaxFileBytes
    | ReadFailed      // reading the chosen file failed

  /** The verdict of the input checks. */
  datatype Verdict = Accept | Reject(error: CreateError)

  /**
   * The checks made before anything is saved, in the order the page makes
   * them: blank text; blank link, then a link the URL parser rejects; no file,
   * then a file over 10 MiB. A file of exactly 10 MiB is accepted.
   */
  function Validate(req: Request): (v: Verdict)
    ensures v == Reject(EmptyText) <==> req.TextRequest? && IsBlank(req.text)
    ensures v == Reject(EmptyLink) <==> req.VideoLinkRequest? && IsBlank(req.link)
    ensures v == Reject(InvalidLink) <==> req.VideoLinkRequest? && !IsBlank(req.link) && !req.parsesAsUrl
    ensures v == Reject(NoFile) <==> req.VideoFileRequest? && req.file.None?
    ensures v == Reject(FileTooLarge) <==> req.VideoFileRequest? && req.file.Some? && req.file.value.size > MaxFileBytes
    ensures v != Reject(ReadFailed)
  {
    match req
    case TextRequest(text, _) =>
      TrimEmptyIffBlank(text);
      if Trim(text) == [] then Reject(EmptyText) else Accept
    case VideoLinkRequest(link, parsesAsUrl, _) =>
      TrimEmptyIffBlank(link);
      if Trim(link) == [] then Reject(EmptyLink)
      else if !parsesAsUrl then Reject(InvalidLink)
      else Accept
    case VideoFileRequest(file, _) =>
      if file.None? then Reject(NoFile)
      else if file.value.size > MaxFileBytes then Reject(FileTooLarge)
      else Accept
  }

  /**
   * What is handed to the store for an accepted request: the trimmed text,
   * the trimmed link with source `Url`, or the file's data URL with source
   * `File` and the file's media type.
   */
  function ContentFor(req: Request, dataUrl: string): (c: ContentData)
    requires Validate(req) == Accept
    ensures req.TextRequest? ==> c.kind == Text && c.data == Trim(req.text) && c.data != [] &&
                                 c.source.None? && c.mimeType.None?
    ensures req.VideoLinkRequest? ==> c.kind == Video && c.source == Some(Url) && c.data == Trim(req.link) && c.data != [] &&
                                      c.mimeType.None?
    ensures req.VideoFileRequest? ==> c.kind == Video && c.source == Some(File) && c.data == dataUrl &&
                                      c.mimeType == Some(req.file.value.mimeType)
  {
    match req
    case TextRequest(text, _) => ContentData(Text, Trim(text), None, None)
    case VideoLinkRequest(link, _, _) => ContentData(Video, Trim(link), Some(Url), None)
    case VideoFileRequest(file, _) => ContentData(Video, dataUrl, Some(File), Some(file.value.mimeType))
  }

  /**
   * `generateQRCode` up to drawing the code: runs the checks and, only when
   * they pass (and, for a file, the file was read), saves the content under
   * `id` and returns the share link. `fileRead` is the outcome of reading the
   * chosen file as a data URL (None when the read fails); it is ignored for
   * text and links.
   */
  method Generate(store: Store, req: Request, fileRead: Option<string>, id: string, now: int,
                  origin: string, pathname: string)
    returns (outcome: Result<string, CreateError>)
    modifies store
    ensures Validate(req).Reject? ==> outcome == Failure(Validate(req).error)
    ensures Validate(req) == Accept && req.VideoFileRequest? && fileRead.None? ==> outcome == Failure(ReadFailed)
    ensures outcome.Failure? ==> store.records == old(store.records)
    ensures outcome.Success? ==>
      Validate(req) == Accept && (req.VideoFileRequest? ==> fileRead.Some?) &&
      outcome.value == ShareUrl(origin, pathname, id) &&
      store.records == Prune(old(store.records) + [NewRecord(id, ContentFor(req, if fileRead.Some? then fileRead.value else ""), req.expirationDays, now)], now)
    ensures Validate(req) == Accept && (req.VideoFileRequest? ==> fileRead.Some?) ==> outcome.Success?
  {
    var verdict := Validate(req);
    if verdict.Reject? {
      return Failure(verdict.error);
    }
    if req.VideoFileRequest? && fileRead.None? {
      return Failure(ReadFailed);
    }
    var dataUrl := if fileRead.Some? then fileRead.value else "";
    store.Save(id, ContentFor(req, dataUrl), req.expirationDays, now);
    outcome := Success(ShareUrl(origin, pathname, id));
  }
}
