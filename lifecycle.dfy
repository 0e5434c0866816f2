/**
 * The four routes as transitions of the shared state: the GridFS bucket, the Document
 * collection, the staged temporary files and whether the bucket handle is set. Each
 * function checks its conditions in the order the handler does and returns the new
 * state together with what the client receives.
 */
module Lifecycle {
  import opened Wrappers
  import opened ObjectIds
  import opened UploadFilter
  import opened Environment
  import opened Urls
  import opened DocumentModel

  /** A GridFS file: the name and content type given to `openUploadStream`, and the bytes. */
  datatype Blob = Blob(filename: string, contentType: string, data: seq<Byte>)

  datatype Store = Store(
    blobs: map<string, Blob>,      // the 'archivos' bucket, keyed by the id's textual form
    records: seq<DocumentRecord>,  // the Document collection, in natural order
    temps: set<string>,            // files staged under uploads/temp
    bucketReady: bool)             // app.locals.bucket has been assigned

  /** Blob keys and record fileIds are printed ObjectIds, and fileIds are unique. */
  ghost predicate Inv(s: Store) {
    && UniqueFileIds(s.records)
    && (forall id :: id in s.blobs ==> IsCanonicalId(id))
    && (forall i :: 0 <= i < |s.records| ==> IsCanonicalId(s.records[i].fileId))
  }

  /**
   * The state when the process starts: whatever the database and `uploads/temp` already
   * hold, and no bucket handle until the connection is made.
   */
  function Startup(blobs: map<string, Blob>, records: seq<DocumentRecord>, temps: set<string>): Store {
    Store(blobs, records, temps, false)
  }

  /** The `.then` of `mongoose.connect`: the bucket handle becomes available. */
  function Connect(s: Store): Store {
    s.(bucketReady := true)
  }

  // ---------------------------------------------------------------- upload

  /**
   * What the libraries contribute to one upload: the staged file's path (clock and
   * random), the id GridFS assigns, the clock, and whether the blob write or the
   * document insert fails.
   */
  datatype UploadEffects = UploadEffects(
    tempPath: string,
    newId: string,
    now: int,
    blobWriteFails: bool,
    saveFails: bool)

  /** Fresh names: an unused temp path and a never-used ObjectId in its printed form. */
  ghost predicate FreshEffects(s: Store, e: UploadEffects) {
    && e.tempPath !in s.temps
    && IsCanonicalId(e.newId)
    && e.newId !in s.blobs
    && !HasFileId(s.records, e.newId)
  }

  datatype UploadOutcome =
    | Rejected(why: Admission)  // multer's error, answered by Express's error handler
    | NoFile                    // 400
    | UploadUnavailable         // 503
    | UploadFailed              // 500, the GridFS stream emitted 'error'
    | NoResponse                // the blob was stored but document.save() rejected
    | Uploaded(fileId: string, filename: string, url: string, size: nat, mimetype: string)  // 200

  function UploadStatus(r: UploadOutcome): Option<nat> {
    match r
    case Rejected(_) => None
    case NoFile => Some(400)
    case UploadUnavailable => Some(503)
    case UploadFailed => Some(500)
    case NoResponse => None
    case Uploaded(_, _, _, _, _) => Some(200)
  }

  /** The document the 'finish' handler builds from the upload. */
  function UploadDocument(f: FilePart, e: UploadEffects): DocumentInput {
    DocumentInput(Some(f.originalname), Some(e.newId), Some(f.mimetype), Some(|f.data|), Some(e.now))
  }

  /** `POST /api/upload`, with multer's admission in front of the handler. */
  function Upload(s: Store, env: Env, ctx: RequestContext, file: Option<FilePart>, e: UploadEffects)
    : (Store, UploadOutcome)
  {
    var part := Received(file);
    if part.Some? && Admit(part.value) != Admitted then (s, Rejected(Admit(part.value)))
    else if part.None? then (s, NoFile)
    else UploadAdmitted(s, env, ctx, part.value, e)
  }

  /** The route handler once multer has staged the admitted file `f`. */
  function UploadAdmitted(s: Store, env: Env, ctx: RequestContext, f: FilePart, e: UploadEffects)
    : (Store, UploadOutcome)
  {
    var staged := s.temps + {e.tempPath};
    if !s.bucketReady then (s.(temps := staged), UploadUnavailable)
    else if e.blobWriteFails then (s.(temps := staged - {e.tempPath}), UploadFailed)
    else
      var blobs := s.blobs[e.newId := Blob(f.originalname, f.mimetype, f.data)];
      var unstaged := staged - {e.tempPath};
      match Save(s.records, UploadDocument(f, e), e.now, e.saveFails)
      case Failure(_) => (s.(blobs := blobs, temps := unstaged), NoResponse)
      case Success(records) =>
        var url := FileUrl(BaseUrl(env, ctx), e.newId);
        (Store(blobs, records, unstaged, s.bucketReady),
         Uploaded(e.newId, f.originalname, url, |f.data|, f.mimetype))
  }

  // ---------------------------------------------------------------- retrieval

  const DefaultContentType: string := "application/octet-stream"

  datatype RetrieveOutcome =
    | RetrieveUnavailable  // 503
    | RetrieveInvalidId    // 400
    | LookupFailed         // 500, bucket.find() rejected
    | FileNotFound         // 404
    | HeaderRejected       // 500, setHeader threw on a character it refuses
    | DownloadFailed       // 500, the download stream emitted 'error' before any byte was sent
    | Streamed(contentType: string, contentDisposition: string, body: seq<Byte>)  // 200

  function RetrieveStatus(r: RetrieveOutcome): nat {
    match r
    case RetrieveUnavailable => 503
    case RetrieveInvalidId => 400
    case LookupFailed => 500
    case FileNotFound => 404
    case HeaderRejected => 500
    case DownloadFailed => 500
    case Streamed(_, _, _) => 200
  }

  /** `fileInfo.contentType || 'application/octet-stream'`. */
  function ContentTypeOf(b: Blob): string {
    if b.contentType != "" then b.contentType else DefaultContentType
  }

  /** `inline; filename="<name>"`, with the name inserted as it is. */
  function InlineDisposition(filename: string): string {
    "inline; filename=\"" + filename + "\""
  }

  /** Node's `setHeader` throws on a value holding a character other than tab, ' '..'~' or 0x80..0xFF. */
  predicate HeaderSafe(v: string) {
    forall i :: 0 <= i < |v| ==> v[i] == '\t' || ' ' <= v[i] <= '~' || 0x80 <= v[i] as int <= 0xFF
  }

  /** Setting both headers, then streaming the blob; a refused header lands in the catch (500). */
  function Serve(b: Blob): RetrieveOutcome {
    var contentType := ContentTypeOf(b);
    var disposition := InlineDisposition(b.filename);
    if !HeaderSafe(contentType) || !HeaderSafe(disposition) then HeaderRejected
    else Streamed(contentType, disposition, b.data)
  }

  /** `GET /api/files/:fileId`: only the bucket is consulted, never the collection. */
  function Retrieve(s: Store, fileIdParam: string, lookupFails: bool, downloadFails: bool): RetrieveOutcome {
    if !s.bucketReady then RetrieveUnavailable
    else if !ValidId(fileIdParam) then RetrieveInvalidId
    else if lookupFails then LookupFailed
    else
      var id := Canonical(fileIdParam);
      if id !in s.blobs then FileNotFound
      else
        var served := Serve(s.blobs[id]);
        if served.Streamed? && downloadFails then DownloadFailed else served
  }

  // ---------------------------------------------------------------- listing

  datatype ListedDocument = ListedDocument(doc: DocumentRecord, url: string)

  datatype ListOutcome =
    | ListFailed  // 500
    | Listed(documents: seq<ListedDocument>)  // 200

  /** `GET /api/documents`: every document, newest first, each with its URL. No bucket needed. */
  function List(s: Store, env: Env, ctx: RequestContext, findFails: bool): ListOutcome {
    if findFails then ListFailed
    else
      var docs := NewestFirst(s.records);
      var base := BaseUrl(env, ctx);
      Listed(seq(|docs|, i requires 0 <= i < |docs| => ListedDocument(docs[i], FileUrl(base, docs[i].fileId))))
  }

  // ---------------------------------------------------------------- deletion

  datatype DeleteOutcome =
    | DeleteUnavailable  // 503
    | DeleteInvalidId    // 400
    | DeleteFailed       // 500
    | Deleted            // 200

  function DeleteStatus(r: DeleteOutcome): nat {
    match r
    case DeleteUnavailable => 503
    case DeleteInvalidId => 400
    case DeleteFailed => 500
    case Deleted => 200
  }

  /**
   * `DELETE /api/files/:fileId`: `bucket.delete` first, which rejects when no file has the
   * id (or the driver fails); then `deleteOne` on the raw path string.
   */
  function Delete(s: Store, fileIdParam: string, blobDeleteFails: bool, recordDeleteFails: bool)
    : (Store, DeleteOutcome)
  {
    if !s.bucketReady then (s, DeleteUnavailable)
    else if !ValidId(fileIdParam) then (s, DeleteInvalidId)
    else
      var id := Canonical(fileIdParam);
      if blobDeleteFails || id !in s.blobs then (s, DeleteFailed)
      else
        var withoutBlob := s.(blobs := s.blobs - {id});
        if recordDeleteFails then (withoutBlob, DeleteFailed)
        else (withoutBlob.(records := DeleteOne(s.records, fileIdParam)), Deleted)
  }
}
