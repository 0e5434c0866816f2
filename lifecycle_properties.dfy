/** What the four routes promise, stated over the transitions of `Lifecycle`. */
module LifecycleProperties {
  import opened Wrappers
  import opened ObjectIds
  import opened UploadFilter
  import opened Environment
  import opened Urls
  import opened DocumentModel
  import opened Lifecycle

  // ---------------------------------------------------------------- upload

  /**
   * The order of the upload checks: multer's filter and size limit, then "no file" (400),
   * then "bucket unavailable" (503), which returns without removing the staged file.
   */
  lemma UploadCheckOrder(s: Store, env: Env, ctx: RequestContext, file: Option<FilePart>, e: UploadEffects)
    ensures Received(file).Some? && Admit(file.value) != Admitted ==>
      Upload(s, env, ctx, file, e) == (s, Rejected(Admit(file.value)))
    ensures Received(file).None? ==> Upload(s, env, ctx, file, e) == (s, NoFile)
    ensures Received(file).Some? && Admit(file.value) == Admitted && !s.bucketReady ==>
      Upload(s, env, ctx, file, e) == (s.(temps := s.temps + {e.tempPath}), UploadUnavailable)
    ensures Received(file).Some? && Admit(file.value) != Admitted ==>
      UploadStatus(Upload(s, env, ctx, file, e).1) == None
    ensures Received(file).None? ==> UploadStatus(Upload(s, env, ctx, file, e).1) == Some(400)
    ensures Received(file).Some? && Admit(file.value) == Admitted && !s.bucketReady ==>
      UploadStatus(Upload(s, env, ctx, file, e).1) == Some(503)
  {
    if Received(file).Some? && Admit(file.value) == Admitted {
      AdmittedUploadIsHandled(s, env, ctx, file.value, e);
    }
  }

  /** A file multer admits has a name, so it reaches the route handler. */
  lemma AdmittedUploadIsHandled(s: Store, env: Env, ctx: RequestContext, f: FilePart, e: UploadEffects)
    requires Admit(f) == Admitted
    ensures Upload(s, env, ctx, Some(f), e) == UploadAdmitted(s, env, ctx, f, e)
  {
    AdmittedFieldsPresent(f);
  }

  /** A file part without a name is skipped by multer and answered as "no file" (400). */
  lemma NamelessPartIsNoFile(s: Store, env: Env, ctx: RequestContext, f: FilePart, e: UploadEffects)
    requires f.originalname == ""
    ensures Upload(s, env, ctx, Some(f), e) == (s, NoFile)
  {
  }

  /** A payload over 10 MiB never reaches the store, whatever its name and type. */
  lemma OversizeNeverStored(s: Store, env: Env, ctx: RequestContext, f: FilePart, e: UploadEffects)
    requires |f.data| > MaxFileSize
    ensures Upload(s, env, ctx, Some(f), e).0 == s
    ensures f.originalname != "" ==> Upload(s, env, ctx, Some(f), e).1.Rejected?
    ensures f.originalname == "" ==> Upload(s, env, ctx, Some(f), e).1 == NoFile
  {
  }

  /**
   * An upload succeeds iff multer admits the file, the bucket is set and neither the blob
   * write nor the insert fails. It then stores the blob under the new id, appends exactly
   * one document carrying that id, the upload's name and type and its byte count, leaves
   * no staged file behind, and echoes those values with the file's URL.
   */
  lemma UploadSucceeds(s: Store, env: Env, ctx: RequestContext, f: FilePart, e: UploadEffects)
    requires Inv(s) && FreshEffects(s, e)
    ensures Upload(s, env, ctx, Some(f), e).1.Uploaded? <==>
      Admit(f) == Admitted && s.bucketReady && !e.blobWriteFails && !e.saveFails
    ensures Upload(s, env, ctx, Some(f), e).1.Uploaded? ==>
      var (t, r) := Upload(s, env, ctx, Some(f), e);
      && t.blobs == s.blobs[e.newId := Blob(f.originalname, f.mimetype, f.data)]
      && t.records == s.records + [DocumentRecord(f.originalname, e.newId, f.mimetype, |f.data|, e.now)]
      && t.temps == s.temps
      && t.bucketReady
      && r == Uploaded(e.newId, f.originalname, FileUrl(BaseUrl(env, ctx), e.newId), |f.data|, f.mimetype)
  {
    if Admit(f) == Admitted && s.bucketReady && !e.blobWriteFails {
      AdmittedUploadIsHandled(s, env, ctx, f, e);
      AdmittedFieldsPresent(f);
      ValidateIff(UploadDocument(f, e), e.now);
      SaveOutcome(s.records, UploadDocument(f, e), e.now, e.saveFails);
      assert s.temps + {e.tempPath} - {e.tempPath} == s.temps;
    }
  }

  /** When the blob write fails the staged file is removed and nothing else changes. */
  lemma UploadBlobFailure(s: Store, env: Env, ctx: RequestContext, f: FilePart, e: UploadEffects)
    requires FreshEffects(s, e)
    requires Admit(f) == Admitted && s.bucketReady && e.blobWriteFails
    ensures Upload(s, env, ctx, Some(f), e) == (s, UploadFailed)
  {
    AdmittedUploadIsHandled(s, env, ctx, f, e);
    var staged := s.temps + {e.tempPath};
    assert staged - {e.tempPath} == s.temps;
    assert s.(temps := staged - {e.tempPath}) == s;
  }

  /**
   * When the insert fails after the blob is written, the blob stays with no document for
   * it and no response is sent: the file can still be retrieved but is never listed.
   */
  lemma UploadSaveFailureOrphansBlob(s: Store, env: Env, ctx: RequestContext, f: FilePart, e: UploadEffects)
    requires FreshEffects(s, e)
    requires Admit(f) == Admitted && s.bucketReady && !e.blobWriteFails && e.saveFails
    ensures var (t, r) := Upload(s, env, ctx, Some(f), e);
      && r == NoResponse
      && t.blobs == s.blobs[e.newId := Blob(f.originalname, f.mimetype, f.data)]
      && t.records == s.records
      && !HasFileId(t.records, e.newId)
      && t.temps == s.temps
      && (Retrieve(t, e.newId, false, false).Streamed? || Retrieve(t, e.newId, false, false) == HeaderRejected)
      && (Retrieve(t, e.newId, false, false).Streamed? ==> Retrieve(t, e.newId, false, false).body == f.data)
  {
    var blob := Blob(f.originalname, f.mimetype, f.data);
    UploadSaveFailureResult(s, env, ctx, f, e);
    var t := s.(blobs := s.blobs[e.newId := blob]);
    assert t.blobs[e.newId] == blob;
  }

  lemma UploadSaveFailureResult(s: Store, env: Env, ctx: RequestContext, f: FilePart, e: UploadEffects)
    requires FreshEffects(s, e)
    requires Admit(f) == Admitted && s.bucketReady && !e.blobWriteFails && e.saveFails
    ensures Upload(s, env, ctx, Some(f), e) ==
      (s.(blobs := s.blobs[e.newId := Blob(f.originalname, f.mimetype, f.data)]), NoResponse)
  {
    AdmittedUploadIsHandled(s, env, ctx, f, e);
    assert s.temps + {e.tempPath} - {e.tempPath} == s.temps;
  }

  /** The 503 answer leaves the staged file on disk. */
  lemma UploadUnavailableKeepsTempFile(s: Store, env: Env, ctx: RequestContext, f: FilePart, e: UploadEffects)
    requires Admit(f) == Admitted && !s.bucketReady
    ensures var (t, r) := Upload(s, env, ctx, Some(f), e);
      r == UploadUnavailable && e.tempPath in t.temps && t.blobs == s.blobs && t.records == s.records
  {
    AdmittedUploadIsHandled(s, env, ctx, f, e);
  }

  /** Uploads keep ids printed and fileIds unique. */
  lemma UploadPreservesInv(s: Store, env: Env, ctx: RequestContext, file: Option<FilePart>, e: UploadEffects)
    requires Inv(s) && FreshEffects(s, e)
    ensures Inv(Upload(s, env, ctx, file, e).0)
  {
    if file.Some? && Admit(file.value) == Admitted && s.bucketReady && !e.blobWriteFails && !e.saveFails {
      var f := file.value;
      UploadSucceeds(s, env, ctx, f, e);
      var t := Upload(s, env, ctx, file, e).0;
      var doc := DocumentRecord(f.originalname, e.newId, f.mimetype, |f.data|, e.now);
      assert t.records == s.records + [doc];
      AppendKeepsInv(s, t, doc);
    }
  }

  /** Appending a document with a fresh printed id to the collection keeps the invariant. */
  lemma AppendKeepsInv(s: Store, t: Store, doc: DocumentRecord)
    requires Inv(s) && IsCanonicalId(doc.fileId) && !HasFileId(s.records, doc.fileId)
    requires t.records == s.records + [doc]
    requires forall id :: id in t.blobs ==> IsCanonicalId(id)
    ensures Inv(t)
  {
    forall i, j | 0 <= i < j < |t.records| ensures t.records[i].fileId != t.records[j].fileId {
      if j == |s.records| {
        assert t.records[i] == s.records[i];
      }
    }
  }

  /**
   * Round trip: after a successful upload, the id it returns is the last part of the URL
   * it returns, and retrieving that id streams back the same bytes under the declared
   * MIME type and the original name.
   */
  lemma UploadThenRetrieve(s: Store, env: Env, ctx: RequestContext, f: FilePart, e: UploadEffects)
    requires Inv(s) && FreshEffects(s, e)
    requires Admit(f) == Admitted && s.bucketReady && !e.blobWriteFails && !e.saveFails
    ensures var (t, r) := Upload(s, env, ctx, Some(f), e);
      var url := FileUrl(BaseUrl(env, ctx), e.newId);
      && r == Uploaded(e.newId, f.originalname, url, |f.data|, f.mimetype)
      && IdFromUrl(BaseUrl(env, ctx), url) == Some(e.newId)
      && (HeaderSafe(f.mimetype) && HeaderSafe(f.originalname) ==>
            Retrieve(t, e.newId, false, false) == Streamed(f.mimetype, InlineDisposition(f.originalname), f.data))
      && (!HeaderSafe(f.mimetype) || !HeaderSafe(f.originalname) ==>
            Retrieve(t, e.newId, false, false) == HeaderRejected)
  {
    UploadSucceeds(s, env, ctx, f, e);
    AdmittedUploadIsHandled(s, env, ctx, f, e);
    IdFromFileUrl(BaseUrl(env, ctx), e.newId);
    DispositionSafeIff(f.originalname);
  }

  /** After a successful upload the listing shows its document with the URL the upload returned. */
  lemma UploadThenListed(s: Store, env: Env, ctx: RequestContext, f: FilePart, e: UploadEffects)
    requires Inv(s) && FreshEffects(s, e)
    requires Admit(f) == Admitted && s.bucketReady && !e.blobWriteFails && !e.saveFails
    ensures var t := Upload(s, env, ctx, Some(f), e).0;
      var doc := DocumentRecord(f.originalname, e.newId, f.mimetype, |f.data|, e.now);
      exists k :: 0 <= k < |List(t, env, ctx, false).documents| &&
                  List(t, env, ctx, false).documents[k] == ListedDocument(doc, FileUrl(BaseUrl(env, ctx), e.newId))
  {
    UploadSucceeds(s, env, ctx, f, e);
    var t := Upload(s, env, ctx, Some(f), e).0;
    var doc := DocumentRecord(f.originalname, e.newId, f.mimetype, |f.data|, e.now);
    assert t.records[|s.records|] == doc;
    RecordIsListed(t, env, ctx, doc);
  }

  // ---------------------------------------------------------------- retrieval

  /** The order of the retrieval checks: 503, then 400, then the lookup, then 404, then the headers. */
  lemma RetrieveCheckOrder(s: Store, fileIdParam: string, lookupFails: bool, downloadFails: bool)
    ensures RetrieveStatus(Retrieve(s, fileIdParam, lookupFails, downloadFails)) ==
      if !s.bucketReady then 503
      else if !ValidId(fileIdParam) then 400
      else if lookupFails then 500
      else if Canonical(fileIdParam) !in s.blobs then 404
      else
        var b := s.blobs[Canonical(fileIdParam)];
        if !HeaderSafe(ContentTypeOf(b)) || !HeaderSafe(b.filename) then 500
        else if downloadFails then 500
        else 200
  {
    if s.bucketReady && ValidId(fileIdParam) && Canonical(fileIdParam) in s.blobs {
      DispositionSafeIff(s.blobs[Canonical(fileIdParam)].filename);
    }
  }

  /** The quoted disposition is refused exactly when the file name holds a refused character. */
  lemma DispositionSafeIff(filename: string)
    ensures HeaderSafe(InlineDisposition(filename)) <==> HeaderSafe(filename)
  {
    var d := InlineDisposition(filename);
    var n := |"inline; filename=\""|;
    assert forall i :: 0 <= i < |filename| ==> d[n + i] == filename[i];
    if HeaderSafe(filename) {
      forall i | 0 <= i < |d| ensures d[i] == '\t' || ' ' <= d[i] <= '~' || 0x80 <= d[i] as int <= 0xFF {
        if n <= i < n + |filename| {
          assert d[i] == filename[i - n];
        }
      }
    }
  }

  /** Retrieval reads the bucket only: two states with the same bucket answer alike. */
  lemma RetrieveIgnoresRecords(s: Store, t: Store, fileIdParam: string, lookupFails: bool, downloadFails: bool)
    requires s.blobs == t.blobs && s.bucketReady == t.bucketReady
    ensures Retrieve(s, fileIdParam, lookupFails, downloadFails) == Retrieve(t, fileIdParam, lookupFails, downloadFails)
  {
  }

  /** A blob without a content type is served as application/octet-stream. */
  lemma RetrieveDefaultContentType(s: Store, id: string)
    requires s.bucketReady && IsCanonicalId(id) && id in s.blobs && s.blobs[id].contentType == ""
    ensures HeaderSafe(s.blobs[id].filename) ==>
      Retrieve(s, id, false, false).Streamed? && Retrieve(s, id, false, false).contentType == "application/octet-stream"
    ensures !HeaderSafe(s.blobs[id].filename) ==> Retrieve(s, id, false, false) == HeaderRejected
  {
    DispositionSafeIff(s.blobs[id].filename);
  }

  // ---------------------------------------------------------------- listing

  function DocsOf(listed: seq<ListedDocument>): seq<DocumentRecord> {
    seq(|listed|, i requires 0 <= i < |listed| => listed[i].doc)
  }

  /**
   * The listing holds every document exactly once, newest first, each with the URL of its
   * fileId; it does not depend on the bucket.
   */
  lemma ListingSpec(s: Store, env: Env, ctx: RequestContext)
    ensures List(s, env, ctx, false).Listed?
    ensures var listed := List(s, env, ctx, false).documents;
      && multiset(DocsOf(listed)) == multiset(s.records)
      && NewestFirstOrder(DocsOf(listed))
      && (forall i :: 0 <= i < |listed| ==> listed[i].url == FileUrl(BaseUrl(env, ctx), listed[i].doc.fileId))
      && List(s.(bucketReady := !s.bucketReady), env, ctx, false) == List(s, env, ctx, false)
  {
    var listed := List(s, env, ctx, false).documents;
    assert DocsOf(listed) == NewestFirst(s.records);
    NewestFirstSorts(s.records);
  }

  /** Every document of the collection appears in the listing with the URL of its fileId. */
  lemma RecordIsListed(s: Store, env: Env, ctx: RequestContext, doc: DocumentRecord)
    requires doc in s.records
    ensures exists k :: 0 <= k < |List(s, env, ctx, false).documents| &&
                        List(s, env, ctx, false).documents[k] == ListedDocument(doc, FileUrl(BaseUrl(env, ctx), doc.fileId))
  {
    ListingSpec(s, env, ctx);
    var listed := List(s, env, ctx, false).documents;
    assert doc in multiset(DocsOf(listed));
    var k :| 0 <= k < |listed| && DocsOf(listed)[k] == doc;
    assert listed[k] == ListedDocument(doc, FileUrl(BaseUrl(env, ctx), doc.fileId));
  }

  // ---------------------------------------------------------------- deletion

  /** The order of the deletion checks: 503, then 400, then the blob, then the document. */
  lemma DeleteCheckOrder(s: Store, fileIdParam: string, blobDeleteFails: bool, recordDeleteFails: bool)
    ensures DeleteStatus(Delete(s, fileIdParam, blobDeleteFails, recordDeleteFails).1) ==
      if !s.bucketReady then 503
      else if !ValidId(fileIdParam) then 400
      else if blobDeleteFails || Canonical(fileIdParam) !in s.blobs || recordDeleteFails then 500
      else 200
  {
  }

  /**
   * A successful delete removes the blob with that id and the document whose fileId is
   * the path string, and nothing else.
   */
  lemma DeleteSucceeds(s: Store, fileIdParam: string)
    requires Inv(s)
    requires Delete(s, fileIdParam, false, false).1 == Deleted
    ensures var t := Delete(s, fileIdParam, false, false).0;
      && t.blobs == s.blobs - {Canonical(fileIdParam)}
      && (forall x :: x in t.records <==> x in s.records && x.fileId != fileIdParam)
      && t.temps == s.temps && t.bucketReady
      && Retrieve(t, fileIdParam, false, false) == FileNotFound
  {
    DeleteOneRemovesKey(s.records, fileIdParam);
  }

  /** A missing blob makes bucket.delete reject: 500, and the document is never touched. */
  lemma DeleteMissingBlobAborts(s: Store, fileIdParam: string, recordDeleteFails: bool)
    requires s.bucketReady && ValidId(fileIdParam) && Canonical(fileIdParam) !in s.blobs
    ensures Delete(s, fileIdParam, false, recordDeleteFails) == (s, DeleteFailed)
  {
  }

  /** The blob goes first: if deleteOne then fails, the document outlives its blob. */
  lemma DeleteRecordFailureKeepsRecord(s: Store, fileIdParam: string)
    requires s.bucketReady && ValidId(fileIdParam) && Canonical(fileIdParam) in s.blobs
    ensures var (t, r) := Delete(s, fileIdParam, false, true);
      r == DeleteFailed && Canonical(fileIdParam) !in t.blobs && t.records == s.records
  {
  }

  /** Deleting the same id twice: the second call fails, since the blob is gone. */
  lemma DeleteTwiceFails(s: Store, fileIdParam: string)
    requires Delete(s, fileIdParam, false, false).1 == Deleted
    ensures var t := Delete(s, fileIdParam, false, false).0;
      Delete(t, fileIdParam, false, false) == (t, DeleteFailed)
  {
  }

  /**
   * The blob is found through the parsed ObjectId but the document through the raw string:
   * deleting by an upper-case spelling of a stored id answers 200, removes the blob and
   * leaves its document, whose listed URL then answers 404.
   */
  lemma DeleteByOtherCaseKeepsRecord(s: Store, fileIdParam: string, env: Env, ctx: RequestContext)
    requires Inv(s) && s.bucketReady
    requires ValidId(fileIdParam) && Canonical(fileIdParam) != fileIdParam
    requires Canonical(fileIdParam) in s.blobs && HasFileId(s.records, Canonical(fileIdParam))
    ensures var (t, r) := Delete(s, fileIdParam, false, false);
      && r == Deleted
      && t.records == s.records
      && HasFileId(t.records, Canonical(fileIdParam))
      && Retrieve(t, Canonical(fileIdParam), false, false) == FileNotFound
  {
    CanonicalIsCanonicalId(fileIdParam);
    assert !HasFileId(s.records, fileIdParam);
    DeleteOneRemovesKey(s.records, fileIdParam);
  }

  /** Deletion keeps ids printed and fileIds unique. */
  lemma DeletePreservesInv(s: Store, fileIdParam: string, blobDeleteFails: bool, recordDeleteFails: bool)
    requires Inv(s)
    ensures Inv(Delete(s, fileIdParam, blobDeleteFails, recordDeleteFails).0)
  {
    DeleteOneRemovesKey(s.records, fileIdParam);
    var t := Delete(s, fileIdParam, blobDeleteFails, recordDeleteFails).0;
    forall i | 0 <= i < |t.records| ensures IsCanonicalId(t.records[i].fileId) {
      assert t.records[i] in s.records;
    }
  }

  // ---------------------------------------------------------------- a whole lifecycle

  /**
   * A name such as report.pdf, declared application/pdf, 2048 bytes: the upload
   * answers 200 with that size and type; its id streams the bytes back as application/pdf;
   * deleting it answers 200; then the id answers 404.
   */
  lemma PdfLifecycle(s: Store, env: Env, ctx: RequestContext, stem: string, data: seq<Byte>, e: UploadEffects)
    requires Inv(s) && FreshEffects(s, e) && s.bucketReady && !e.blobWriteFails && !e.saveFails
    requires stem != [] && HeaderSafe(stem) && forall i :: 0 <= i < |stem| ==> stem[i] != '/'
    requires |data| == 2048
    ensures var f := FilePart(stem + ".pdf", "application/pdf", data);
      var (t, r) := Upload(s, env, ctx, Some(f), e);
      && r.Uploaded? && r.size == 2048 && r.mimetype == "application/pdf"
      && Retrieve(t, r.fileId, false, false).Streamed?
      && Retrieve(t, r.fileId, false, false).contentType == "application/pdf"
      && Retrieve(t, r.fileId, false, false).body == data
      && Delete(t, r.fileId, false, false).1 == Deleted
      && Retrieve(Delete(t, r.fileId, false, false).0, r.fileId, false, false) == FileNotFound
  {
    var f := FilePart(stem + ".pdf", "application/pdf", data);
    PdfPartAdmitted(stem, data);
    UploadSucceeds(s, env, ctx, f, e);
    UploadThenRetrieve(s, env, ctx, f, e);
    UploadPreservesInv(s, env, ctx, Some(f), e);
    var t := Upload(s, env, ctx, Some(f), e).0;
    assert Canonical(e.newId) == e.newId;
    DeleteSucceeds(t, e.newId);
  }

  /** The part of that scenario is admitted and both of its headers are accepted. */
  lemma PdfPartAdmitted(stem: string, data: seq<Byte>)
    requires stem != [] && HeaderSafe(stem) && forall i :: 0 <= i < |stem| ==> stem[i] != '/'
    requires |data| == 2048
    ensures var f := FilePart(stem + ".pdf", "application/pdf", data);
      Admit(f) == Admitted && HeaderSafe(f.originalname) && HeaderSafe(f.mimetype)
  {
    PdfAccepted(stem);
    PdfNameHeaderSafe(stem);
    PdfMimeTypeHeaderSafe();
  }

  lemma PdfNameHeaderSafe(stem: string)
    requires HeaderSafe(stem)
    ensures HeaderSafe(stem + ".pdf")
  {
    var name := stem + ".pdf";
    assert forall i :: |stem| <= i < |name| ==> name[i] == ".pdf"[i - |stem|];
  }

  lemma PdfMimeTypeHeaderSafe()
    ensures HeaderSafe("application/pdf")
  {
    var v := "application/pdf";
    assert forall i :: 0 <= i < |v| ==> ' ' <= v[i] <= '~';
  }
}
