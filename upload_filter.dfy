/**
 * What multer admits to the upload route: the file filter (extension and declared
 * MIME type both tested against /jpeg|jpg|png|gif|pdf/) and the 10 MiB size limit.
 */
module UploadFilter {
  import opened Wrappers
  import opened Text

  newtype Byte = b: int | 0 <= b < 256

  /**
   * The file part of a multipart request: the client's file name, the MIME type as the
   * multipart parser reports it, and the bytes.
   */
  datatype FilePart = FilePart(originalname: string, mimetype: string, data: seq<Byte>)

  /** multer skips a file part without a file name, so the route then sees no `req.file`. */
  function Received(part: Option<FilePart>): (r: Option<FilePart>)
    ensures r.Some? <==> part.Some? && part.value.originalname != ""
    ensures r.Some? ==> r == part
  {
    if part.Some? && part.value.originalname == "" then None else part
  }

  /** The `limits.fileSize` of the multer instance: 10 MiB. */
  const MaxFileSize: nat := 10 * 1024 * 1024

  /** The alternatives of the pattern /jpeg|jpg|png|gif|pdf/. */
  const AllowedTypes: seq<string> := ["jpeg", "jpg", "png", "gif", "pdf"]

  /** Some alternative of the pattern matches at index `k` of `s`. */
  predicate MatchesAt(s: string, k: nat)
    requires k <= |s|
  {
    var t := s[k..];
    IsPrefix("jpeg", t) || IsPrefix("jpg", t) || IsPrefix("png", t) || IsPrefix("gif", t) || IsPrefix("pdf", t)
  }

  /** RegExp.prototype.test of the unanchored pattern: try each start index from `k` on. */
  function TestFrom(s: string, k: nat): bool
    requires k <= |s|
    decreases |s| - k
  {
    if MatchesAt(s, k) then true
    else if k == |s| then false
    else TestFrom(s, k + 1)
  }

  /** `allowedTypes.test(s)`. */
  predicate AllowedTypesTest(s: string) {
    TestFrom(s, 0)
  }

  /** Some allowed type occurs anywhere in `s`: the meaning of an unanchored test. */
  ghost predicate HasAllowedType(s: string) {
    exists a, k :: a in AllowedTypes && OccursAt(a, s, k)
  }

  lemma MatchesAtIff(s: string, k: nat)
    requires k <= |s|
    ensures MatchesAt(s, k) <==> exists a :: a in AllowedTypes && OccursAt(a, s, k)
  {
    if MatchesAt(s, k) {
      var t := s[k..];
      var a := if IsPrefix("jpeg", t) then "jpeg" else if IsPrefix("jpg", t) then "jpg"
        else if IsPrefix("png", t) then "png" else if IsPrefix("gif", t) then "gif" else "pdf";
      assert a in AllowedTypes && OccursAt(a, s, k);
    }
  }

  lemma {:induction false} TestFromIff(s: string, k: nat)
    requires k <= |s|
    ensures TestFrom(s, k) <==> exists j :: k <= j <= |s| && MatchesAt(s, j)
    decreases |s| - k
  {
    if MatchesAt(s, k) {
      assert TestFrom(s, k);
    } else if k == |s| {
      assert !TestFrom(s, k);
    } else {
      TestFromIff(s, k + 1);
      assert TestFrom(s, k) == TestFrom(s, k + 1);
      if exists j :: k <= j <= |s| && MatchesAt(s, j) {
        var j :| k <= j <= |s| && MatchesAt(s, j);
        assert j != k;
      }
    }
  }

  /** The scan of `test` finds a match exactly when some allowed type is a substring. */
  lemma AllowedTypesTestIff(s: string)
    ensures AllowedTypesTest(s) <==> HasAllowedType(s)
  {
    TestFromIff(s, 0);
    if AllowedTypesTest(s) {
      var j :| 0 <= j <= |s| && MatchesAt(s, j);
      MatchesAtIff(s, j);
    }
    if HasAllowedType(s) {
      var a, j :| a in AllowedTypes && OccursAt(a, s, j);
      MatchesAtIff(s, j);
    }
  }

  /** Drops trailing '/' characters, as `path.extname` ignores them. */
  function TrimTrailingSlashes(p: string): (r: string)
    ensures IsPrefix(r, p)
    ensures r == [] || r[|r| - 1] != '/'
    ensures forall i :: |r| <= i < |p| ==> p[i] == '/'
  {
    if |p| > 0 && p[|p| - 1] == '/' then TrimTrailingSlashes(p[..|p| - 1]) else p
  }

  /** What follows the last '/' of `t` (all of `t` when it has none). */
  function LastSegment(t: string): (b: string)
    ensures forall i :: 0 <= i < |b| ==> b[i] != '/'
  {
    match LastIndexOf(t, '/')
    case None => t
    case Some(k) => t[k + 1..]
  }

  /** The last segment of a POSIX path, after trailing slashes are dropped. */
  function Basename(p: string): (b: string)
    ensures forall i :: 0 <= i < |b| ==> b[i] != '/'
  {
    LastSegment(TrimTrailingSlashes(p))
  }

  /** The last segment ends the trimmed path and is preceded by a '/' unless it is all of it. */
  lemma BasenameIsLastSegment(p: string)
    ensures var t, b := TrimTrailingSlashes(p), Basename(p);
      IsSuffix(b, t) && (|b| < |t| ==> t[|t| - |b| - 1] == '/')
  {
    LastSegmentIsSuffix(TrimTrailingSlashes(p));
  }

  lemma LastSegmentIsSuffix(t: string)
    ensures var b := LastSegment(t); IsSuffix(b, t) && (|b| < |t| ==> t[|t| - |b| - 1] == '/')
  {
    match LastIndexOf(t, '/')
    case None =>
    case Some(k) =>
      assert t[|t| - |t[k + 1..]|..] == t[k + 1..];
  }

  /**
   * The extension of one path segment: from its last '.' to its end; empty when the
   * segment has no '.' after its first character, or is "..".
   */
  function SegmentExt(b: string): (ext: string)
    ensures IsSuffix(ext, b)
    ensures ext == [] <==> b == ".." || forall i :: 0 < i < |b| ==> b[i] != '.'
    ensures ext != [] ==> ext[0] == '.'
    ensures forall i :: 0 < i < |ext| ==> ext[i] != '.'
  {
    match LastIndexOf(b, '.')
    case None => ""
    case Some(k) =>
      if k == 0 || b == ".." then ""
      else
        assert b[k] == '.';
        b[k..]
  }

  /** POSIX `path.extname`: the extension of the last segment, trailing slashes ignored. */
  function Extname(p: string): (ext: string)
    ensures IsSuffix(ext, Basename(p))
    ensures ext == [] <==>
      var b := Basename(p); b == ".." || forall i :: 0 < i < |b| ==> b[i] != '.'
    ensures IsSuffix(ext, TrimTrailingSlashes(p))
    ensures ext != [] ==> ext[0] == '.'
    ensures forall i :: 0 < i < |ext| ==> ext[i] != '.' && ext[i] != '/'
  {
    var b := Basename(p);
    var ext := SegmentExt(b);
    BasenameIsLastSegment(p);
    SuffixTransitive(ext, b, TrimTrailingSlashes(p));
    ext
  }

  /** The `fileFilter` decision: the lower-cased extension and the raw MIME type both pass. */
  predicate FileFilter(originalname: string, mimetype: string) {
    var extname := AllowedTypesTest(Lower(Extname(originalname)));
    var mimeOk := AllowedTypesTest(mimetype);
    mimeOk && extname
  }

  /** What multer does with a file part before the route handler runs. */
  datatype Admission = Admitted | FilterRejected | TooLarge

  /** The filter is consulted when the part starts; the size limit trips while it streams. */
  function Admit(f: FilePart): Admission {
    if !FileFilter(f.originalname, f.mimetype) then FilterRejected
    else if |f.data| > MaxFileSize then TooLarge
    else Admitted
  }

  /** A file passes the filter iff an allowed type occurs in its lower-cased extension and in its MIME type. */
  lemma FileFilterIff(originalname: string, mimetype: string)
    ensures FileFilter(originalname, mimetype) <==>
      HasAllowedType(Lower(Extname(originalname))) && HasAllowedType(mimetype)
  {
    AllowedTypesTestIff(Lower(Extname(originalname)));
    AllowedTypesTestIff(mimetype);
  }

  /** A name without any '.' has no extension and is always rejected. */
  lemma NoDotRejected(originalname: string, mimetype: string)
    requires forall i :: 0 <= i < |originalname| ==> originalname[i] != '.'
    ensures !FileFilter(originalname, mimetype)
  {
    assert Lower(Extname(originalname)) == [];
  }

  /** Admission succeeds iff the filter passes and the payload is at most 10 MiB. */
  lemma AdmitIff(f: FilePart)
    ensures Admit(f) == Admitted <==>
      HasAllowedType(Lower(Extname(f.originalname))) && HasAllowedType(f.mimetype) && |f.data| <= 10485760
    ensures |f.data| > 10485760 ==> Admit(f) != Admitted
  {
    FileFilterIff(f.originalname, f.mimetype);
  }

  /** An admitted file has a non-empty name and a non-empty MIME type, and fits the limit. */
  lemma AdmittedFieldsPresent(f: FilePart)
    requires Admit(f) == Admitted
    ensures f.originalname != [] && f.mimetype != [] && |f.data| <= MaxFileSize
  {
    var ext := Extname(f.originalname);
    TestNeedsThreeChars(f.mimetype);
    TestNeedsThreeChars(Lower(ext));
  }

  /** Every alternative has at least three characters, so a passing string has as many. */
  lemma TestNeedsThreeChars(s: string)
    requires AllowedTypesTest(s)
    ensures |s| >= 3
  {
    TestFromIff(s, 0);
    var j :| 0 <= j <= |s| && MatchesAt(s, j);
    MatchStart(s, j);
  }

  /** Every match starts with 'j', 'p' or "gi": a string without them fails the test. */
  lemma MatchStart(s: string, j: nat)
    requires j <= |s| && MatchesAt(s, j)
    ensures j + 3 <= |s| && (s[j] == 'j' || s[j] == 'p' || (s[j] == 'g' && s[j + 1] == 'i'))
  {
    var t := s[j..];
    assert t[0] == s[j] && (|t| > 1 ==> t[1] == s[j + 1]);
  }

  /**
   * The extension of `stem.ext`, whatever dots the stem holds, is ".ext": the last
   * dot decides ("factura.2024.pdf" has ".pdf").
   */
  lemma ExtnameOfPlainName(stem: string, ext: string)
    requires stem != [] && (ext != [] || stem != ".")
    requires forall i :: 0 <= i < |stem| ==> stem[i] != '/'
    requires forall i :: 0 <= i < |ext| ==> ext[i] != '.' && ext[i] != '/'
    ensures Extname(stem + "." + ext) == "." + ext
  {
    var p := stem + "." + ext;
    assert forall i :: 0 <= i < |stem| ==> p[i] == stem[i];
    assert forall i :: |stem| < i < |p| ==> p[i] == ext[i - |stem| - 1];
    assert p[|stem|] == '.';
    assert TrimTrailingSlashes(p) == p;
    assert LastIndexOf(p, '/') == None;
    assert Basename(p) == p;
    assert LastIndexOf(p, '.') == Some(|stem|);
    assert p[|stem|..] == "." + ext;
  }

  /** One match anywhere makes the test pass. */
  lemma MatchPasses(s: string, k: nat)
    requires k <= |s| && MatchesAt(s, k)
    ensures AllowedTypesTest(s)
  {
    TestFromIff(s, 0);
  }

  /** For a name `stem.ext` the filter tests ".ext", lower-cased, and the MIME type. */
  lemma FilterOfPlainName(stem: string, ext: string, mimetype: string)
    requires stem != [] && (ext != [] || stem != ".")
    requires forall i :: 0 <= i < |stem| ==> stem[i] != '/'
    requires forall i :: 0 <= i < |ext| ==> ext[i] != '.' && ext[i] != '/'
    ensures FileFilter(stem + "." + ext, mimetype) <==>
      AllowedTypesTest(Lower("." + ext)) && AllowedTypesTest(mimetype)
  {
    ExtnameOfPlainName(stem, ext);
  }

  /** A name without an extension is rejected whatever its MIME type. */
  lemma EmptyExtRejected(originalname: string, mimetype: string)
    requires Extname(originalname) == ""
    ensures !FileFilter(originalname, mimetype)
  {
    assert Lower(Extname(originalname)) == [];
  }

  /** A dotfile such as ".pdf" has no extension, so it is rejected. */
  lemma DotfileRejected(ext: string, mimetype: string)
    requires forall i :: 0 <= i < |ext| ==> ext[i] != '.' && ext[i] != '/'
    ensures !FileFilter("." + ext, mimetype)
  {
    var p := "." + ext;
    assert forall i :: 0 < i < |p| ==> p[i] == ext[i - 1];
    assert TrimTrailingSlashes(p) == p;
    assert LastIndexOf(p, '/') == None;
    assert Basename(p) == p;
    EmptyExtRejected(p, mimetype);
  }

  lemma FilterAccepts(originalname: string, mimetype: string, ext: string)
    requires Extname(originalname) == ext
    requires AllowedTypesTest(Lower(ext)) && AllowedTypesTest(mimetype)
    ensures FileFilter(originalname, mimetype)
  {
  }

  /**
   * A non-empty stem without '/' followed by ".pdf" (say "report.pdf"), declared as
   * application/pdf, passes the filter.
   */
  lemma PdfAccepted(stem: string)
    requires stem != []
    requires forall i :: 0 <= i < |stem| ==> stem[i] != '/'
    ensures FileFilter(stem + ".pdf", "application/pdf")
  {
    ExtnameOfPlainName(stem, "pdf");
    assert stem + "." + "pdf" == stem + ".pdf";
    PdfExtensionPasses();
    PdfMimeTypePasses();
    FilterAccepts(stem + ".pdf", "application/pdf", "." + "pdf");
  }

  lemma PdfExtensionPasses()
    ensures AllowedTypesTest(Lower("." + "pdf"))
  {
    var ext := Lower("." + "pdf");
    assert ext == ".pdf";
    assert MatchesAt(ext, 1);
    MatchPasses(ext, 1);
  }

  lemma PdfMimeTypePasses()
    ensures AllowedTypesTest("application/pdf")
  {
    assert MatchesAt("application/pdf", 12);
    MatchPasses("application/pdf", 12);
  }

  /** Trailing slashes are found at the same places once the name is lower-cased. */
  lemma {:induction false} TrimLower(p: string)
    ensures TrimTrailingSlashes(Lower(p)) == Lower(TrimTrailingSlashes(p))
    decreases |p|
  {
    if |p| > 0 {
      var n := |p| - 1;
      var lp := Lower(p);
      assert lp[n] == LowerChar(p[n]);
      if p[n] == '/' {
        LowerSlice(p, n);
        TrimLower(p[..n]);
        assert TrimTrailingSlashes(lp) == TrimTrailingSlashes(lp[..n]);
      } else {
        assert lp[n] != '/';
      }
    }
  }

  lemma LastSegmentLower(t: string)
    ensures LastSegment(Lower(t)) == Lower(LastSegment(t))
  {
    LastIndexOfLower(t, '/');
    match LastIndexOf(t, '/')
    case None =>
      assert LastSegment(Lower(t)) == Lower(t);
    case Some(k) =>
      LowerSlice(t, k + 1);
      assert LastSegment(Lower(t)) == Lower(t)[k + 1..];
  }

  lemma BasenameLower(p: string)
    ensures Basename(Lower(p)) == Lower(Basename(p))
  {
    TrimLower(p);
    LastSegmentLower(TrimTrailingSlashes(p));
  }

  lemma DotDotLower(b: string)
    ensures Lower(b) == ".." <==> b == ".."
  {
    if Lower(b) == ".." {
      assert LowerChar(b[0]) == '.' && LowerChar(b[1]) == '.';
    }
  }

  lemma SegmentExtLower(b: string)
    ensures SegmentExt(Lower(b)) == Lower(SegmentExt(b))
  {
    LastIndexOfLower(b, '.');
    DotDotLower(b);
    match LastIndexOf(b, '.')
    case None =>
    case Some(k) => LowerSlice(b, k);
  }

  /** Lower-casing a name lower-cases its extension and nothing more. */
  lemma ExtnameLower(p: string)
    ensures Extname(Lower(p)) == Lower(Extname(p))
  {
    BasenameLower(p);
    SegmentExtLower(Basename(p));
  }

  /**
   * The extension is lower-cased before the test: two names that differ only in
   * letter case ("factura.2024.PDF", "factura.2024.pdf") get the same decision.
   */
  lemma ExtensionCaseIgnored(originalname: string, other: string, mimetype: string)
    requires Lower(originalname) == Lower(other)
    ensures FileFilter(originalname, mimetype) <==> FileFilter(other, mimetype)
  {
    ExtnameLower(originalname);
    ExtnameLower(other);
  }

  /** An upper-case ".PDF" name declared as application/pdf passes too. */
  lemma UpperCasePdfAccepted(stem: string)
    requires stem != []
    requires forall i :: 0 <= i < |stem| ==> stem[i] != '/'
    ensures FileFilter(stem + ".PDF", "application/pdf")
  {
    PdfAccepted(stem);
    LowerConcat(stem, ".PDF");
    LowerConcat(stem, ".pdf");
    PdfExtensionLowered();
    ExtensionCaseIgnored(stem + ".PDF", stem + ".pdf", "application/pdf");
  }

  lemma PdfExtensionLowered()
    ensures Lower(".PDF") == Lower(".pdf")
  {
    assert LowerChar('P') == 'p' && LowerChar('D') == 'd' && LowerChar('F') == 'f';
    assert LowerChar('p') == 'p' && LowerChar('d') == 'd' && LowerChar('f') == 'f';
  }

  /** `fileFilter` itself does not lower-case the MIME type: the value "image/PNG" fails the test. */
  lemma MimeTypeCaseMatters()
    ensures !FileFilter("photo.png", "image/PNG")
  {
    var s := "image/PNG";
    assert forall i :: 0 <= i < |s| ==> s[i] != 'j' && s[i] != 'p' && (s[i] == 'g' ==> i == 3);
    forall j | 0 <= j <= |s| ensures !MatchesAt(s, j) {
      if MatchesAt(s, j) { MatchStart(s, j); }
    }
    TestFromIff(s, 0);
  }
}
