/**
 * The Express application as an object whose handlers update shared state in place:
 * the bucket, the Document collection, the staged temporary files and the bucket handle.
 * Each handler is proved against the transition of the same name in `Lifecycle`, and
 * keeps the store invariant.
 */
module Server {
  import opened Wrappers
  import opened ObjectIds
  import opened UploadFilter
  import opened Environment
  import opened Urls
  import opened DocumentModel
  import Lifecycle
  import LifecycleProperties

  class DocumentServer {
    const env: Env
    var blobs: map<string, Lifecycle.Blob>
    var records: seq<DocumentRecord>
    var temps: set<string>
    var bucketReady: bool

    /** The fields as one value of the transition model. */
    function State(): Lifecycle.Store
      reads this
    {
      Lifecycle.Store(blobs, records, temps, bucketReady)
    }

    ghost predicate Valid()
      reads this
    {
      Lifecycle.Inv(State())
    }

    /**
     * The process at start-up: the bucket and collection hold what the database already
     * holds, `uploads/temp` what earlier runs left there, and there is no bucket handle
     * until the connection is made.
     */
    constructor(env: Env, blobs0: map<string, Lifecycle.Blob>, records0: seq<DocumentRecord>, temps0: set<string>)
      requires Lifecycle.Inv(Lifecycle.Startup(blobs0, records0, temps0))
      ensures this.env == env
      ensures State() == Lifecycle.Startup(blobs0, records0, temps0)
      ensures Valid()
    {
      this.env := env;
      blobs := blobs0;
      records := records0;
      temps := temps0;
      bucketReady := false;
    }

    /** `app.locals.bucket = new GridFSBucket(...)` once `mongoose.connect` resolves. */
    method ConnectBucket()
      requires Valid()
      modifies this
      ensures Valid()
      ensures State() == Lifecycle.Connect(old(State()))
    {
      bucketReady := true;
    }

    /** `POST /api/upload`, with multer's filter and size limit in front of the handler. */
    method Upload(ctx: RequestContext, file: Option<FilePart>, e: Lifecycle.UploadEffects)
      returns (r: Lifecycle.UploadOutcome)
      requires Valid() && Lifecycle.FreshEffects(State(), e)
      modifies this
      ensures Valid()
      ensures (State(), r) == Lifecycle.Upload(old(State()), env, ctx, file, e)
    {
      LifecycleProperties.UploadPreservesInv(State(), env, ctx, file, e);
      var part := Received(file);
      if part.None? {
        return Lifecycle.NoFile;
      }
      var f := part.value;
      var admission := Admit(f);
      if admission != Admitted {
        return Lifecycle.Rejected(admission);
      }
      LifecycleProperties.AdmittedUploadIsHandled(State(), env, ctx, f, e);
      var staged := temps + {e.tempPath};
      temps := staged;
      if !bucketReady {
        return Lifecycle.UploadUnavailable;
      }
      if e.blobWriteFails {
        temps := temps - {e.tempPath};
        return Lifecycle.UploadFailed;
      }
      blobs := blobs[e.newId := Lifecycle.Blob(f.originalname, f.mimetype, f.data)];
      temps := temps - {e.tempPath};
      var saved := Save(records, Lifecycle.UploadDocument(f, e), e.now, e.saveFails);
      if saved.Failure? {
        return Lifecycle.NoResponse;
      }
      records := saved.value;
      var url := FileUrl(BaseUrl(env, ctx), e.newId);
      r := Lifecycle.Uploaded(e.newId, f.originalname, url, |f.data|, f.mimetype);
    }

    /** `GET /api/files/:fileId`: reads the bucket only. */
    method Retrieve(fileIdParam: string, lookupFails: bool, downloadFails: bool) returns (r: Lifecycle.RetrieveOutcome)
      ensures r == Lifecycle.Retrieve(State(), fileIdParam, lookupFails, downloadFails)
    {
      if !bucketReady {
        return Lifecycle.RetrieveUnavailable;
      }
      if !ValidId(fileIdParam) {
        return Lifecycle.RetrieveInvalidId;
      }
      if lookupFails {
        return Lifecycle.LookupFailed;
      }
      var id := Canonical(fileIdParam);
      if id !in blobs {
        return Lifecycle.FileNotFound;
      }
      var b := blobs[id];
      var contentType := Lifecycle.ContentTypeOf(b);
      var disposition := Lifecycle.InlineDisposition(b.filename);
      if !Lifecycle.HeaderSafe(contentType) || !Lifecycle.HeaderSafe(disposition) {
        return Lifecycle.HeaderRejected;
      }
      if downloadFails {
        return Lifecycle.DownloadFailed;
      }
      r := Lifecycle.Streamed(contentType, disposition, b.data);
    }

    /** `GET /api/documents`: the collection newest first, each document with its URL. */
    method List(ctx: RequestContext, findFails: bool) returns (r: Lifecycle.ListOutcome)
      ensures r == Lifecycle.List(State(), env, ctx, findFails)
    {
      if findFails {
        return Lifecycle.ListFailed;
      }
      var docs := NewestFirst(records);
      var base := BaseUrl(env, ctx);
      var listed: seq<Lifecycle.ListedDocument> := [];
      for i := 0 to |docs|
        invariant |listed| == i
        invariant forall k :: 0 <= k < i ==> listed[k] == Lifecycle.ListedDocument(docs[k], FileUrl(base, docs[k].fileId))
      {
        listed := listed + [Lifecycle.ListedDocument(docs[i], FileUrl(base, docs[i].fileId))];
      }
      r := Lifecycle.Listed(listed);
    }

    /** `DELETE /api/files/:fileId`: the blob by parsed id, then the document by raw string. */
    method Delete(fileIdParam: string, blobDeleteFails: bool, recordDeleteFails: bool)
      returns (r: Lifecycle.DeleteOutcome)
      requires Valid()
      modifies this
      ensures Valid()
      ensures (State(), r) == Lifecycle.Delete(old(State()), fileIdParam, blobDeleteFails, recordDeleteFails)
    {
      LifecycleProperties.DeletePreservesInv(State(), fileIdParam, blobDeleteFails, recordDeleteFails);
      if !bucketReady {
        return Lifecycle.DeleteUnavailable;
      }
      if !ValidId(fileIdParam) {
        return Lifecycle.DeleteInvalidId;
      }
      var id := Canonical(fileIdParam);
      if blobDeleteFails || id !in blobs {
        return Lifecycle.DeleteFailed;
      }
      blobs := blobs - {id};
      if recordDeleteFails {
        return Lifecycle.DeleteFailed;
      }
      records := DeleteOne(records, fileIdParam);
      r := Lifecycle.Deleted;
    }
  }
}
