/**
 * The extension filter `allowed_file` and the request handler
 * `upload_srs_file`: its checks on the uploaded file list, the per-file
 * dispatch on the sanitised name, the loop that extends one content
 * sequence in upload order, and the checks on the extracted content and
 * the parsed records.
 *
 * The request's file list is an `Option` (absent when the request has no
 * `file` part). Filename sanitising and the language-model call are
 * function parameters; saving the file, writing the spreadsheet and the
 * JSON replies are not modelled.
 */
module Upload {
  import opened Wrappers
  import opened Strings
  import opened Vision
  import opened Content
  import opened Walkers
  import opened Parser

  /** The lower-case extensions the filter accepts. */
  const ALLOWED_EXTENSIONS: set<string> := {"pdf", "docx", "png", "jpg", "jpeg"}

  /** `allowed_file`: the name has a dot and the lower-cased text after its last dot is an accepted extension. */
  predicate AllowedFile(filename: string) {
    '.' in filename && Lower(AfterLast(filename, '.')) in ALLOWED_EXTENSIONS
  }

  /** What an uploaded file's bytes turn out to be when a document library opens them. */
  datatype Body = PdfBody(pdf: Pdf) | DocxBody(docx: Docx) | ImageBody(image: Image) | Unparsable

  /** One uploaded file: the client's file name and its content. */
  datatype UploadedFile = UploadedFile(filename: string, body: Body)

  /** The ways the handler rejects a request; each is answered with status 400, except `Unreadable`. */
  datatype UploadError =
    | NoFilePart
    | NoFileSelected
    | NotAllowed(filename: string)
    | Unsupported(filename: string)
    | Unreadable(filename: string)
    | NoContent
    | NoTestCases

  /**
   * A successful request: the language model's output, which is the
   * `output` of the JSON answer, and the records parsed from it, which are
   * passed to `write_to_excel` and are not part of the JSON answer.
   */
  datatype Response = Response(output: string, testCases: seq<TestCase>)

  /** The image branch of the dispatch, which lower-cases the name first. */
  predicate IsImageName(name: string) {
    EndsWith(Lower(name), ".png") || EndsWith(Lower(name), ".jpg") || EndsWith(Lower(name), ".jpeg")
  }

  /**
   * The units of one allowed file, chosen by its sanitised name: `.docx`,
   * then `.pdf` (both case-sensitive), then an image ending in any case.
   * A body the chosen walker cannot open, or a DOCX with an external image
   * relationship, is `Unreadable`.
   */
  function DispatchUnits(analyzer: Analyzer, name: string, body: Body): Result<seq<Unit>, UploadError> {
    if EndsWith(name, ".docx") then
      if body.DocxBody? && DocxReadable(body.docx) then Ok(DocxUnits(analyzer, body.docx)) else Err(Unreadable(name))
    else if EndsWith(name, ".pdf") then
      if body.PdfBody? then Ok(PdfUnits(analyzer, body.pdf)) else Err(Unreadable(name))
    else if IsImageName(name) then
      if body.ImageBody? then Ok(ImageUnits(analyzer, body.image)) else Err(Unreadable(name))
    else Err(Unsupported(name))
  }

  /** What one iteration of the upload loop yields for a file. */
  function FileUnits(analyzer: Analyzer, sanitize: string -> string, file: UploadedFile): Result<seq<Unit>, UploadError> {
    if !AllowedFile(file.filename) then Err(NotAllowed(file.filename))
    else DispatchUnits(analyzer, sanitize(file.filename), file.body)
  }

  /** The outcome of one file, or of the whole loop: the units extracted, or why the request is refused. */
  type Extraction = Result<seq<Unit>, UploadError>

  /** The outcome of each file, in upload order. */
  function FileResults(analyzer: Analyzer, sanitize: string -> string, files: seq<UploadedFile>): (r: seq<Extraction>)
    ensures |r| == |files|
  {
    seq(|files|, k requires 0 <= k < |files| => FileUnits(analyzer, sanitize, files[k]))
  }

  /** Extending one sequence outcome by outcome: the units in order, or the first error. */
  function Gather(results: seq<Extraction>): Extraction {
    if results == [] then Ok([])
    else
      match Gather(results[..|results| - 1])
      case Err(e) => Err(e)
      case Ok(before) =>
        match results[|results| - 1]
        case Err(e) => Err(e)
        case Ok(units) => Ok(before + units)
  }

  /** The upload loop: the files' units concatenated in upload order, or the error of the first file that fails. */
  function Collect(analyzer: Analyzer, sanitize: string -> string, files: seq<UploadedFile>): Extraction {
    Gather(FileResults(analyzer, sanitize, files))
  }

  /** Some file in the list has an empty name. */
  predicate SomeUnnamed(files: seq<UploadedFile>) {
    exists k :: 0 <= k < |files| && files[k].filename == ""
  }

  /** Specification of `upload_srs_file`. */
  function Upload(request: Option<seq<UploadedFile>>, analyzer: Analyzer, sanitize: string -> string, generate: string -> string): Result<Response, UploadError> {
    match request
    case None => Err(NoFilePart)
    case Some(files) =>
      if files == [] || SomeUnnamed(files) then Err(NoFileSelected)
      else
        match Collect(analyzer, sanitize, files)
        case Err(e) => Err(e)
        case Ok(units) =>
          if units == [] then Err(NoContent)
          else
            var output := generate(Render(units));
            var testCases := ParseReply(output);
            if testCases == [] then Err(NoTestCases) else Ok(Response(output, testCases))
  }

  lemma GatherStep(results: seq<Extraction>, k: nat, before: seq<Unit>)
    requires k < |results| && Gather(results[..k]) == Ok(before)
    ensures Gather(results[..k + 1]) ==
      match results[k]
      case Err(e) => Err(e)
      case Ok(units) => Ok(before + units)
  {
    assert results[..k + 1][..k] == results[..k];
  }

  /** Once a prefix of the outcomes has failed, the whole sequence fails with the same error. */
  lemma {:induction false} GatherPrefixErr(results: seq<Extraction>, k: nat)
    requires k <= |results| && Gather(results[..k]).Err?
    ensures Gather(results) == Gather(results[..k])
    decreases |results| - k
  {
    if k == |results| {
      assert results[..k] == results;
    } else {
      assert results[..k + 1][..k] == results[..k];
      GatherPrefixErr(results, k + 1);
    }
  }

  /** The loop body of `upload_srs_file` for one file: the filter, the sanitised name and the dispatch. */
  method ProcessFile(analyzer: Analyzer, sanitize: string -> string, file: UploadedFile) returns (r: Result<seq<Unit>, UploadError>)
    ensures r == FileUnits(analyzer, sanitize, file)
  {
    if !AllowedFile(file.filename) {
      return Err(NotAllowed(file.filename));
    }
    var filename := sanitize(file.filename);
    var units: seq<Unit>;
    if EndsWith(filename, ".docx") {
      if !file.body.DocxBody? {
        return Err(Unreadable(filename));
      }
      var extracted := ExtractContentFromDocx(analyzer, file.body.docx);
      if extracted.None? {
        return Err(Unreadable(filename));
      }
      units := extracted.value;
    } else if EndsWith(filename, ".pdf") {
      if !file.body.PdfBody? {
        return Err(Unreadable(filename));
      }
      units := ExtractContentFromPdf(analyzer, file.body.pdf);
    } else if IsImageName(filename) {
      if !file.body.ImageBody? {
        return Err(Unreadable(filename));
      }
      units := ExtractContentFromImage(analyzer, file.body.image);
    } else {
      return Err(Unsupported(filename));
    }
    r := Ok(units);
  }

  /** `upload_srs_file`, from the request's file list to the reply. */
  method UploadSrsFile(request: Option<seq<UploadedFile>>, analyzer: Analyzer, sanitize: string -> string, generate: string -> string)
    returns (r: Result<Response, UploadError>)
    ensures r == Upload(request, analyzer, sanitize, generate)
  {
    if request.None? {
      return Err(NoFilePart);
    }
    var files := request.value;
    if files == [] || SomeUnnamed(files) {
      return Err(NoFileSelected);
    }
    var contentSequence: seq<Unit> := [];
    ghost var results := FileResults(analyzer, sanitize, files);
    var i := 0;
    assert results[..i] == [];
    while i < |files|
      invariant 0 <= i <= |files|
      invariant Gather(results[..i]) == Ok(contentSequence)
    {
      var units := ProcessFile(analyzer, sanitize, files[i]);
      GatherStep(results, i, contentSequence);
      if units.Err? {
        GatherPrefixErr(results, i + 1);
        return Err(units.error);
      }
      contentSequence := contentSequence + units.value;
      i := i + 1;
    }
    assert results[..i] == results;
    if contentSequence == [] {
      return Err(NoContent);
    }
    var combinedContent := RenderContent(contentSequence);
    var generatedOutput := generate(combinedContent);
    var testCases := ParseTestCases(generatedOutput);
    if testCases == [] {
      return Err(NoTestCases);
    }
    r := Ok(Response(generatedOutput, testCases));
  }

  /** Lower-casing keeps dots and makes none. */
  lemma LowerDot(c: char)
    ensures LowerChar(c) == '.' <==> c == '.'
  {
  }

  /**
   * For an extension without dots: the text after the last dot of `f`,
   * lower-cased, is `ext` exactly when the lower-cased `f` ends with a dot
   * and `ext`.
   */
  lemma ExtensionSuffix(f: string, ext: string)
    requires '.' !in ext
    ensures ('.' in f && Lower(AfterLast(f, '.')) == ext) <==> EndsWith(Lower(f), "." + ext)
  {
    if '.' in f && Lower(AfterLast(f, '.')) == ext {
      ExtensionSuffixOf(f, ext);
    }
    if EndsWith(Lower(f), "." + ext) {
      SuffixExtensionOf(f, ext);
    }
  }

  lemma ExtensionSuffixOf(f: string, ext: string)
    requires '.' in f && Lower(AfterLast(f, '.')) == ext
    ensures EndsWith(Lower(f), "." + ext)
  {
    var low := Lower(f);
    {
      var r := AfterLast(f, '.');
      var p := |f| - |r| - 1;
      assert f[p..] == ['.'] + r;
      assert f[p] == '.';
      forall k | 0 <= k < |r| + 1 ensures low[p..][k] == ("." + ext)[k] {
        if k > 0 {
          assert f[p + k] == r[k - 1];
        }
      }
      assert low[p..] == "." + ext;
    }
  }

  lemma SuffixExtensionOf(f: string, ext: string)
    requires '.' !in ext && EndsWith(Lower(f), "." + ext)
    ensures '.' in f && Lower(AfterLast(f, '.')) == ext
  {
    var q := |f| - |ext| - 1;
    SuffixDots(f, ext);
    AfterLastAt(f, '.', q);
    TailLower(f, ext);
  }

  lemma TailLower(f: string, ext: string)
    requires EndsWith(Lower(f), "." + ext)
    ensures Lower(f[|f| - |ext|..]) == ext
  {
    var r := f[|f| - |ext|..];
    forall k | 0 <= k < |ext| ensures Lower(r)[k] == ext[k] {
      assert r[k] == f[|f| - |ext| + k];
      SuffixChar(f, ext, k);
    }
  }

  /** Where the lower-cased `f` ends with a dot and `ext`, `f` has its last dot there. */
  lemma SuffixDots(f: string, ext: string)
    requires '.' !in ext && EndsWith(Lower(f), "." + ext)
    ensures f[|f| - |ext| - 1] == '.'
    ensures forall i :: |f| - |ext| - 1 < i < |f| ==> f[i] != '.'
  {
    var low, q := Lower(f), |f| - |ext| - 1;
    assert low[q] == low[q..][0];
    LowerDot(f[q]);
    forall i | q < i < |f| ensures f[i] != '.' {
      assert low[i] == low[q..][i - q];
      LowerDot(f[i]);
    }
  }

  lemma SuffixChar(f: string, ext: string, k: nat)
    requires EndsWith(Lower(f), "." + ext) && k < |ext|
    ensures LowerChar(f[|f| - |ext| + k]) == ext[k]
  {
    var low, q := Lower(f), |f| - |ext| - 1;
    assert low[q..] == "." + ext;
    assert ("." + ext)[k + 1] == ext[k];
    assert low[q + 1 + k] == low[q..][k + 1];
    assert low[q + 1 + k] == LowerChar(f[q + 1 + k]);
  }

  /** The text after the last `c` starts right after the position of the last `c`. */
  lemma {:induction false} AfterLastAt(s: string, c: char, q: nat)
    requires q < |s| && s[q] == c
    requires forall i :: q < i < |s| ==> s[i] != c
    ensures AfterLast(s, c) == s[q + 1..]
  {
    if s[|s| - 1] != c {
      var front := s[..|s| - 1];
      assert front[q] == c;
      AfterLastAt(front, c, q);
      assert s[q + 1..] == front[q + 1..] + [s[|s| - 1]];
    }
  }

  /**
   * `allowed_file` by suffix: a name is allowed exactly when, lower-cased,
   * it ends with a dot and one of the accepted extensions.
   */
  lemma AllowedFileSuffix(f: string)
    ensures AllowedFile(f) <==> exists ext :: ext in ALLOWED_EXTENSIONS && EndsWith(Lower(f), "." + ext)
  {
    forall ext | ext in ALLOWED_EXTENSIONS
      ensures ('.' in f && Lower(AfterLast(f, '.')) == ext) <==> EndsWith(Lower(f), "." + ext)
    {
      ExtensionSuffix(f, ext);
    }
  }

  lemma EndsWithLast(s: string, suffix: string)
    requires EndsWith(s, suffix) && suffix != []
    ensures s[|s| - 1] == suffix[|suffix| - 1]
  {
    assert s[|s| - |suffix|..][|suffix| - 1] == s[|s| - 1];
  }

  /**
   * The dispatch is case-sensitive where the filter is not: a name kept
   * by sanitising that ends in `.pdf` or `.docx` only when lower-cased
   * (`X.PDF`, `Spec.Docx`) passes `allowed_file` and is then rejected as
   * an unsupported file type.
   */
  lemma MixedCaseDocumentUnsupported(analyzer: Analyzer, sanitize: string -> string, file: UploadedFile)
    requires sanitize(file.filename) == file.filename
    requires (EndsWith(Lower(file.filename), ".pdf") && !EndsWith(file.filename, ".pdf"))
          || (EndsWith(Lower(file.filename), ".docx") && !EndsWith(file.filename, ".docx"))
    ensures AllowedFile(file.filename)
    ensures FileUnits(analyzer, sanitize, file) == Err(Unsupported(file.filename))
  {
    var f := file.filename;
    assert "pdf" in ALLOWED_EXTENSIONS && "docx" in ALLOWED_EXTENSIONS;
    DispatchLastChar(f);
    if EndsWith(Lower(f), ".pdf") {
      DotExtensions();
      SuffixExtensionOf(f, "pdf");
      EndsWithLast(Lower(f), ".pdf");
    } else {
      DotExtensions();
      SuffixExtensionOf(f, "docx");
      EndsWithLast(Lower(f), ".docx");
    }
  }

  /**
   * A DOCX that passes the filter but has an image relationship pointing
   * outside the package, such as a hyperlink to an `images/` URL, is
   * refused as unreadable, whatever else the document holds.
   */
  lemma ExternalImageUnreadable(analyzer: Analyzer, sanitize: string -> string, file: UploadedFile, j: nat)
    requires AllowedFile(file.filename) && EndsWith(sanitize(file.filename), ".docx") && file.body.DocxBody?
    requires j < |file.body.docx.relationships|
    requires file.body.docx.relationships[j].External? && IsImagePart(file.body.docx.relationships[j])
    ensures FileUnits(analyzer, sanitize, file) == Err(Unreadable(sanitize(file.filename)))
  {
    ExternalImageStops(file.body.docx.relationships, j);
  }

  lemma DotExtensions()
    ensures "." + "pdf" == ".pdf" && "." + "docx" == ".docx"
  {
  }

  /** Each dispatch branch fixes the last character of the name. */
  lemma DispatchLastChar(name: string)
    ensures EndsWith(name, ".docx") ==> name[|name| - 1] == 'x'
    ensures EndsWith(name, ".pdf") ==> name[|name| - 1] == 'f'
    ensures IsImageName(name) ==> LowerChar(name[|name| - 1]) == 'g'
  {
    if EndsWith(name, ".docx") { EndsWithLast(name, ".docx"); }
    if EndsWith(name, ".pdf") { EndsWithLast(name, ".pdf"); }
    var low := Lower(name);
    if EndsWith(low, ".png") { EndsWithLast(low, ".png"); }
    if EndsWith(low, ".jpg") { EndsWithLast(low, ".jpg"); }
    if EndsWith(low, ".jpeg") { EndsWithLast(low, ".jpeg"); }
  }

  /** Uploading `X.PDF` under a sanitiser that keeps the name is rejected as unsupported, whatever the file holds. */
  lemma UpperCasePdfRejected(analyzer: Analyzer, sanitize: string -> string, generate: string -> string, body: Body)
    requires sanitize("X.PDF") == "X.PDF"
    ensures Upload(Some([UploadedFile("X.PDF", body)]), analyzer, sanitize, generate) == Err(Unsupported("X.PDF"))
  {
    var file := UploadedFile("X.PDF", body);
    var low := Lower("X.PDF");
    assert low[|low| - 4..] == ".pdf";
    assert "X.PDF"[5 - 4..] != ".pdf" by {
      assert "X.PDF"[4] == 'F';
    }
    MixedCaseDocumentUnsupported(analyzer, sanitize, file);
    var results := FileResults(analyzer, sanitize, [file]);
    assert results == [FileUnits(analyzer, sanitize, file)];
    assert results[..|results| - 1] == [];
    assert Gather(results[..|results| - 1]) == Ok([]);
    assert results[|results| - 1] == Err(Unsupported("X.PDF"));
    assert Gather(results) == Err(Unsupported("X.PDF"));
    assert !SomeUnnamed([file]);
  }

  /** Gathering is in-order concatenation that keeps the first error. */
  lemma {:induction false} GatherAppend(a: seq<Extraction>, b: seq<Extraction>)
    ensures Gather(a + b) ==
      match Gather(a)
      case Err(e) => Err(e)
      case Ok(u) =>
        match Gather(b)
        case Err(e) => Err(e)
        case Ok(v) => Ok(u + v)
    decreases |b|
  {
    if b == [] {
      assert a + b == a;
      if Gather(a).Ok? {
        assert Gather(a).value + [] == Gather(a).value;
      }
    } else {
      var front := b[..|b| - 1];
      assert (a + b)[..|a + b| - 1] == a + front;
      assert (a + b)[|a + b| - 1] == b[|b| - 1];
      GatherAppend(a, front);
      if Gather(a).Ok? && Gather(front).Ok? && b[|b| - 1].Ok? {
        AppendAssoc(Gather(a).value, Gather(front).value, b[|b| - 1].value);
      }
    }
  }

  /** Gathering succeeds exactly when every outcome is a success. */
  lemma {:induction false} GatherOk(results: seq<Extraction>)
    ensures Gather(results).Ok? <==> forall k :: 0 <= k < |results| ==> results[k].Ok?
  {
    if results != [] {
      var front := results[..|results| - 1];
      GatherOk(front);
      assert forall k :: 0 <= k < |front| ==> front[k] == results[k];
    }
  }

  /** A failed gathering reports the error of one of the outcomes. */
  lemma {:induction false} GatherErrorFrom(results: seq<Extraction>)
    ensures Gather(results).Err? ==> exists k :: 0 <= k < |results| && results[k] == Gather(results)
  {
    if results != [] && Gather(results).Err? {
      var front := results[..|results| - 1];
      GatherErrorFrom(front);
      if Gather(front).Err? {
        var k :| 0 <= k < |front| && front[k] == Gather(front);
        assert results[k] == front[k];
      } else {
        assert results[|results| - 1] == Gather(results);
      }
    }
  }

  /** The per-file outcomes of `a + b` are those of `a`, then those of `b`. */
  lemma FileResultsAppend(analyzer: Analyzer, sanitize: string -> string, a: seq<UploadedFile>, b: seq<UploadedFile>)
    ensures FileResults(analyzer, sanitize, a + b) == FileResults(analyzer, sanitize, a) + FileResults(analyzer, sanitize, b)
  {
  }

  /** The upload loop concatenates the files' units in upload order and keeps the first error. */
  lemma CollectAppend(analyzer: Analyzer, sanitize: string -> string, a: seq<UploadedFile>, b: seq<UploadedFile>)
    ensures Collect(analyzer, sanitize, a + b) ==
      match Collect(analyzer, sanitize, a)
      case Err(e) => Err(e)
      case Ok(u) =>
        match Collect(analyzer, sanitize, b)
        case Err(e) => Err(e)
        case Ok(v) => Ok(u + v)
  {
    FileResultsAppend(analyzer, sanitize, a, b);
    GatherAppend(FileResults(analyzer, sanitize, a), FileResults(analyzer, sanitize, b));
  }

  /** The upload loop succeeds exactly when every file is accepted and read. */
  lemma CollectOk(analyzer: Analyzer, sanitize: string -> string, files: seq<UploadedFile>)
    ensures Collect(analyzer, sanitize, files).Ok? <==> forall k :: 0 <= k < |files| ==> FileUnits(analyzer, sanitize, files[k]).Ok?
  {
    var results := FileResults(analyzer, sanitize, files);
    GatherOk(results);
    assert forall k :: 0 <= k < |files| ==> results[k] == FileUnits(analyzer, sanitize, files[k]);
  }

  /** The first file that fails decides the error, whatever the files after it hold. */
  lemma CollectFirstError(analyzer: Analyzer, sanitize: string -> string, files: seq<UploadedFile>, k: nat)
    requires k < |files| && FileUnits(analyzer, sanitize, files[k]).Err?
    requires forall j :: 0 <= j < k ==> FileUnits(analyzer, sanitize, files[j]).Ok?
    ensures Collect(analyzer, sanitize, files) == FileUnits(analyzer, sanitize, files[k])
  {
    var results := FileResults(analyzer, sanitize, files);
    GatherOk(results[..k]);
    var before := Gather(results[..k]).value;
    GatherStep(results, k, before);
    GatherPrefixErr(results, k + 1);
  }

  /** The errors the upload loop can raise are the per-file ones. */
  predicate IsFileError(e: UploadError) {
    e.NotAllowed? || e.Unsupported? || e.Unreadable?
  }

  lemma CollectErrorKinds(analyzer: Analyzer, sanitize: string -> string, files: seq<UploadedFile>)
    ensures Collect(analyzer, sanitize, files).Err? ==> IsFileError(Collect(analyzer, sanitize, files).error)
  {
    var results := FileResults(analyzer, sanitize, files);
    GatherErrorFrom(results);
    if Gather(results).Err? {
      var k :| 0 <= k < |results| && results[k] == Gather(results);
      assert results[k] == FileUnits(analyzer, sanitize, files[k]);
      FileErrorKinds(analyzer, sanitize, files[k]);
    }
  }

  lemma FileErrorKinds(analyzer: Analyzer, sanitize: string -> string, file: UploadedFile)
    ensures FileUnits(analyzer, sanitize, file).Err? ==> IsFileError(FileUnits(analyzer, sanitize, file).error)
  {
  }

  /** The request checks that come before any file is looked at. */
  predicate FilesSelected(request: Option<seq<UploadedFile>>) {
    request.Some? && request.value != [] && !SomeUnnamed(request.value)
  }

  /**
   * The outcome of a request that selects its files: the first failing
   * file's error; otherwise "no content" exactly when nothing was
   * extracted; otherwise "no test cases" exactly when the parser finds no
   * record in the model's reply to the rendered content.
   */
  lemma UploadOutcome(request: Option<seq<UploadedFile>>, analyzer: Analyzer, sanitize: string -> string, generate: string -> string)
    requires FilesSelected(request)
    ensures Collect(analyzer, sanitize, request.value).Err? ==>
      Upload(request, analyzer, sanitize, generate) == Err(Collect(analyzer, sanitize, request.value).error)
    ensures Upload(request, analyzer, sanitize, generate) == Err(NoContent) <==> Collect(analyzer, sanitize, request.value) == Ok([])
    ensures Upload(request, analyzer, sanitize, generate) == Err(NoTestCases) <==>
      (Collect(analyzer, sanitize, request.value).Ok? && Collect(analyzer, sanitize, request.value).value != [] &&
       ParseReply(generate(Render(Collect(analyzer, sanitize, request.value).value))) == [])
  {
    CollectErrorKinds(analyzer, sanitize, request.value);
  }

  /** A request is refused before any file is read when it has no file part, no files or an unnamed file. */
  lemma UploadSelectionErrors(request: Option<seq<UploadedFile>>, analyzer: Analyzer, sanitize: string -> string, generate: string -> string)
    ensures request.None? <==> Upload(request, analyzer, sanitize, generate) == Err(NoFilePart)
    ensures (request.Some? && !FilesSelected(request)) <==> Upload(request, analyzer, sanitize, generate) == Err(NoFileSelected)
  {
    if request.Some? && request.value != [] && !SomeUnnamed(request.value) {
      CollectErrorKinds(analyzer, sanitize, request.value);
    }
  }

  /**
   * A successful reply carries the model's output for the rendered units of
   * every file, in upload order, and the non-empty list of records parsed
   * from it; no more records than output lines, each not yet executed.
   */
  lemma UploadSuccess(request: Option<seq<UploadedFile>>, analyzer: Analyzer, sanitize: string -> string, generate: string -> string)
    requires Upload(request, analyzer, sanitize, generate).Ok?
    ensures FilesSelected(request)
    ensures forall k :: 0 <= k < |request.value| ==> FileUnits(analyzer, sanitize, request.value[k]).Ok?
    ensures Collect(analyzer, sanitize, request.value).Ok? && Collect(analyzer, sanitize, request.value).value != []
    ensures Upload(request, analyzer, sanitize, generate).value.output == generate(Render(Collect(analyzer, sanitize, request.value).value))
    ensures Upload(request, analyzer, sanitize, generate).value.testCases == ParseReply(Upload(request, analyzer, sanitize, generate).value.output)
    ensures 1 <= |Upload(request, analyzer, sanitize, generate).value.testCases| <= Count(Upload(request, analyzer, sanitize, generate).value.output, LINE_SEP) + 1
    ensures forall k :: 0 <= k < |Upload(request, analyzer, sanitize, generate).value.testCases| ==>
      Upload(request, analyzer, sanitize, generate).value.testCases[k].status == NOT_EXECUTED
  {
    CollectOk(analyzer, sanitize, request.value);
    ParseReplyProperties(Upload(request, analyzer, sanitize, generate).value.output);
  }

  /** A blank reply from the model, such as the empty string returned when the call fails, ends in "no test cases". */
  lemma BlankReplyNoTestCases(request: Option<seq<UploadedFile>>, analyzer: Analyzer, sanitize: string -> string, generate: string -> string)
    requires FilesSelected(request)
    requires Collect(analyzer, sanitize, request.value).Ok? && Collect(analyzer, sanitize, request.value).value != []
    requires IsBlank(generate(Render(Collect(analyzer, sanitize, request.value).value)))
    ensures Upload(request, analyzer, sanitize, generate) == Err(NoTestCases)
  {
    ParseReplyBlank(generate(Render(Collect(analyzer, sanitize, request.value).value)));
  }
}
