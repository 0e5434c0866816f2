/**
 * The `Document` model: the schema's required paths, the `uploadDate` default and the
 * unique index on `fileId`, together with the two queries the routes run on the
 * collection (`find().sort({ uploadDate: -1 })` and `deleteOne({ fileId })`).
 */
module DocumentModel {
  import opened Wrappers

  /** The fields handed to `new Document({...})`; `None` is a field left out. */
  datatype DocumentInput = DocumentInput(
    filename: Option<string>,
    fileId: Option<string>,
    mimetype: Option<string>,
    size: Option<int>,
    uploadDate: Option<int>)

  /** A saved document. `uploadDate` is a time in milliseconds. */
  datatype DocumentRecord = DocumentRecord(
    filename: string,
    fileId: string,
    mimetype: string,
    size: int,
    uploadDate: int)

  datatype SaveError =
    | ValidationFailed(missing: set<string>)
    | DuplicateFileId
    | DatabaseError

  /** A required String path: set and not the empty string. */
  predicate StringPresent(v: Option<string>) {
    v.Some? && v.value != ""
  }

  /** The required paths that the input leaves out. */
  function MissingPaths(d: DocumentInput): set<string> {
    (if StringPresent(d.filename) then {} else {"filename"}) +
    (if StringPresent(d.fileId) then {} else {"fileId"}) +
    (if StringPresent(d.mimetype) then {} else {"mimetype"}) +
    (if d.size.Some? then {} else {"size"})
  }

  /** Construction and validation; `now` is the time the document is created. */
  function Validate(d: DocumentInput, now: int): Result<DocumentRecord, SaveError> {
    var missing := MissingPaths(d);
    if missing != {} then Failure(ValidationFailed(missing))
    else
      var date := if d.uploadDate.Some? then d.uploadDate.value else now;
      Success(DocumentRecord(d.filename.value, d.fileId.value, d.mimetype.value, d.size.value, date))
  }

  predicate HasFileId(records: seq<DocumentRecord>, id: string) {
    exists i | 0 <= i < |records| :: records[i].fileId == id
  }

  /** The unique index on `fileId`. */
  ghost predicate UniqueFileIds(records: seq<DocumentRecord>) {
    forall i, j :: 0 <= i < j < |records| ==> records[i].fileId != records[j].fileId
  }

  /**
   * `document.save()`: validation first; then the insert, which fails when the
   * database does (`dbFails`) or when the unique index already holds the `fileId`.
   */
  function Save(records: seq<DocumentRecord>, d: DocumentInput, now: int, dbFails: bool)
    : Result<seq<DocumentRecord>, SaveError>
  {
    match Validate(d, now)
    case Failure(e) => Failure(e)
    case Success(doc) =>
      if dbFails then Failure(DatabaseError)
      else if HasFileId(records, doc.fileId) then Failure(DuplicateFileId)
      else Success(records + [doc])
  }

  /** A document validates iff filename, fileId and mimetype are non-empty and size is given. */
  lemma ValidateIff(d: DocumentInput, now: int)
    ensures Validate(d, now).Success? <==>
      StringPresent(d.filename) && StringPresent(d.fileId) && StringPresent(d.mimetype) && d.size.Some?
    ensures Validate(d, now).Failure? ==> forall p :: p in Validate(d, now).error.missing <==>
      || (p == "filename" && !StringPresent(d.filename))
      || (p == "fileId" && !StringPresent(d.fileId))
      || (p == "mimetype" && !StringPresent(d.mimetype))
      || (p == "size" && d.size.None?)
    ensures Validate(d, now).Success? ==>
      var doc := Validate(d, now).value;
      && Some(doc.filename) == d.filename && Some(doc.fileId) == d.fileId
      && Some(doc.mimetype) == d.mimetype && Some(doc.size) == d.size
      && doc.uploadDate == (if d.uploadDate.Some? then d.uploadDate.value else now)
  {
    if !StringPresent(d.filename) { assert "filename" in MissingPaths(d); }
    if !StringPresent(d.fileId) { assert "fileId" in MissingPaths(d); }
    if !StringPresent(d.mimetype) { assert "mimetype" in MissingPaths(d); }
    if d.size.None? { assert "size" in MissingPaths(d); }
  }

  /**
   * A save succeeds iff the document is valid, the database answers and its fileId is
   * new; it then appends exactly that document, and fileIds stay unique.
   */
  lemma SaveOutcome(records: seq<DocumentRecord>, d: DocumentInput, now: int, dbFails: bool)
    requires UniqueFileIds(records)
    ensures Save(records, d, now, dbFails).Success? <==>
      Validate(d, now).Success? && !dbFails && !HasFileId(records, d.fileId.value)
    ensures Save(records, d, now, dbFails).Success? ==>
      var saved := Save(records, d, now, dbFails).value;
      && saved == records + [Validate(d, now).value]
      && UniqueFileIds(saved)
      && HasFileId(saved, d.fileId.value)
  {
    if Save(records, d, now, dbFails).Success? {
      var doc := Validate(d, now).value;
      var saved := records + [doc];
      assert saved[|records|].fileId == doc.fileId;
      forall i, j | 0 <= i < j < |saved| ensures saved[i].fileId != saved[j].fileId {
        if j == |records| {
          assert saved[i] == records[i];
        }
      }
    }
  }

  /** The position of the first document, in natural order, whose fileId is `key`. */
  function FirstWithFileId(records: seq<DocumentRecord>, key: string): (r: Option<nat>)
    ensures r.None? ==> !HasFileId(records, key)
    ensures r.Some? ==> r.value < |records| && records[r.value].fileId == key
    ensures r.Some? ==> forall i :: 0 <= i < r.value ==> records[i].fileId != key
  {
    if records == [] then None
    else if records[0].fileId == key then Some(0)
    else match FirstWithFileId(records[1..], key)
      case None => None
      case Some(k) => Some(k + 1)
  }

  /** `deleteOne({ fileId: key })`: removes the first document whose fileId is `key`, if any. */
  function DeleteOne(records: seq<DocumentRecord>, key: string): seq<DocumentRecord> {
    match FirstWithFileId(records, key)
    case None => records
    case Some(k) => records[..k] + records[k + 1..]
  }

  /** Removing position `k` shifts every later document down by one. */
  lemma RemoveAt(records: seq<DocumentRecord>, k: nat)
    requires k < |records|
    ensures var r := records[..k] + records[k + 1..];
      |r| == |records| - 1 &&
      forall i :: 0 <= i < |r| ==> r[i] == records[if i < k then i else i + 1]
  {
  }

  /**
   * With unique fileIds, deleteOne removes exactly the document with that fileId: every
   * other document stays, none is added, and uniqueness is kept.
   */
  lemma DeleteOneRemovesKey(records: seq<DocumentRecord>, key: string)
    requires UniqueFileIds(records)
    ensures var r := DeleteOne(records, key);
      && UniqueFileIds(r)
      && !HasFileId(r, key)
      && (forall x :: x in r <==> x in records && x.fileId != key)
      && (!HasFileId(records, key) ==> r == records)
  {
    match FirstWithFileId(records, key)
    case None =>
      forall x | x in records ensures x.fileId != key {
        var m :| 0 <= m < |records| && records[m] == x;
      }
    case Some(k) =>
      RemoveAtKeepsUnique(records, key, k);
      RemoveAtMembers(records, key, k);
  }

  /** Removing the unique document with fileId `key` leaves fileIds unique and `key` absent. */
  lemma RemoveAtKeepsUnique(records: seq<DocumentRecord>, key: string, k: nat)
    requires UniqueFileIds(records) && k < |records| && records[k].fileId == key
    ensures var r := records[..k] + records[k + 1..];
      UniqueFileIds(r) && forall i :: 0 <= i < |r| ==> r[i].fileId != key
  {
    var r := records[..k] + records[k + 1..];
    RemoveAt(records, k);
    forall i, j | 0 <= i < j < |r| ensures r[i].fileId != r[j].fileId {
      assert r[i] == records[if i < k then i else i + 1];
      assert r[j] == records[if j < k then j else j + 1];
    }
    forall i | 0 <= i < |r| ensures r[i].fileId != key {
      assert r[i] == records[if i < k then i else i + 1];
    }
  }

  /** Removing the unique document with fileId `key` keeps exactly the other documents. */
  lemma RemoveAtMembers(records: seq<DocumentRecord>, key: string, k: nat)
    requires UniqueFileIds(records) && k < |records| && records[k].fileId == key
    ensures var r := records[..k] + records[k + 1..];
      forall x :: x in r <==> x in records && x.fileId != key
  {
    var r := records[..k] + records[k + 1..];
    RemoveAt(records, k);
    forall x | x in records && x.fileId != key ensures x in r {
      var m :| 0 <= m < |records| && records[m] == x;
      assert x == r[if m < k then m else m - 1];
    }
    forall x | x in r ensures x in records && x.fileId != key {
      var m :| 0 <= m < |r| && r[m] == x;
      var n := if m < k then m else m + 1;
      assert x == records[n];
      assert n != k;
    }
  }

  /** `uploadDate` never increases along the sequence. */
  ghost predicate NewestFirstOrder(records: seq<DocumentRecord>) {
    forall i, j :: 0 <= i < j < |records| ==> records[i].uploadDate >= records[j].uploadDate
  }

  /** Puts `d` before the first document that is strictly older. */
  function InsertByDate(d: DocumentRecord, sorted: seq<DocumentRecord>): seq<DocumentRecord> {
    if sorted == [] || d.uploadDate >= sorted[0].uploadDate then [d] + sorted
    else [sorted[0]] + InsertByDate(d, sorted[1..])
  }

  /**
   * `find().sort({ uploadDate: -1 })`. MongoDB does not fix the order of documents with
   * equal dates; this model keeps their natural order.
   */
  function NewestFirst(records: seq<DocumentRecord>): seq<DocumentRecord> {
    if records == [] then [] else InsertByDate(records[0], NewestFirst(records[1..]))
  }

  lemma {:induction false} InsertByDatePermutes(d: DocumentRecord, sorted: seq<DocumentRecord>)
    ensures multiset(InsertByDate(d, sorted)) == multiset(sorted) + multiset{d}
  {
    if sorted != [] && d.uploadDate < sorted[0].uploadDate {
      InsertByDatePermutes(d, sorted[1..]);
      assert sorted == [sorted[0]] + sorted[1..];
    }
  }

  /** Inserting never produces a date above a bound that the element and the list respect. */
  lemma {:induction false} InsertByDateBounded(d: DocumentRecord, sorted: seq<DocumentRecord>, bound: int)
    requires d.uploadDate <= bound
    requires forall i :: 0 <= i < |sorted| ==> sorted[i].uploadDate <= bound
    ensures forall i :: 0 <= i < |InsertByDate(d, sorted)| ==> InsertByDate(d, sorted)[i].uploadDate <= bound
  {
    if sorted != [] && d.uploadDate < sorted[0].uploadDate {
      InsertByDateBounded(d, sorted[1..], bound);
    }
  }

  lemma {:induction false} InsertByDateSorted(d: DocumentRecord, sorted: seq<DocumentRecord>)
    requires NewestFirstOrder(sorted)
    ensures NewestFirstOrder(InsertByDate(d, sorted))
  {
    if sorted != [] && d.uploadDate < sorted[0].uploadDate {
      var tail := sorted[1..];
      InsertByDateSorted(d, tail);
      InsertByDateBounded(d, tail, sorted[0].uploadDate);
      var rt := InsertByDate(d, tail);
      var r := [sorted[0]] + rt;
      forall i, j | 0 <= i < j < |r| ensures r[i].uploadDate >= r[j].uploadDate {
        assert r[j] == rt[j - 1];
        if i > 0 { assert r[i] == rt[i - 1]; }
      }
    }
  }

  /** The listing query returns every document exactly once, newest first. */
  lemma {:induction false} NewestFirstSorts(records: seq<DocumentRecord>)
    ensures multiset(NewestFirst(records)) == multiset(records)
    ensures NewestFirstOrder(NewestFirst(records))
  {
    if records != [] {
      NewestFirstSorts(records[1..]);
      InsertByDatePermutes(records[0], NewestFirst(records[1..]));
      InsertByDateSorted(records[0], NewestFirst(records[1..]));
      assert records == [records[0]] + records[1..];
    }
  }
}
