# QAgent test-case pipeline, modelled in Dafny

QAgent is a small Flask service (`app.py`). It turns software requirement
documents into QA test cases. A client uploads PDF, DOCX or image files. Each
file is walked into a sequence of tagged content units:

- `text` holds trimmed document text;
- `image_text` holds the OCR text of an image;
- `components` holds a summary of the UI components an object detector found.

The units are rendered into one prompt for a language model. The model's
pipe-delimited reply is then parsed into seven-field test-case records.

This project models the deterministic core of that pipeline. The OCR engine,
the detector, the PDF/DOCX libraries, filename sanitising and the
language-model call are kept abstract. Each loop of the source is a `method`
with loop invariants, proved equal to a recursive specification function. The
guarantees about ordering, counts and error handling are lemmas about those
functions.

Modules, one per file:

| file | module | models |
|---|---|---|
| `wrappers.dfy` | `Wrappers` | `Option` and `Result` |
| `strings.dfy` | `Strings` | Python's `str.strip`, `split` on one character, `lower`, `endswith`, `in`, `rsplit('.', 1)[1]`, `str(int)` |
| `parser.dfy` | `Parser` | `parse_test_cases` |
| `vision.dfy` | `Vision` | the summary loop of `detect_components`; OCR and detection are the two functions of an `Analyzer` value |
| `content.dfy` | `Content` | content units and the rendering loop of `generate_test_cases` |
| `walkers.dfy` | `Walkers` | `extract_content_from_pdf`, `extract_content_from_docx`, `extract_content_from_image` |
| `upload.dfy` | `Upload` | `allowed_file` and `upload_srs_file` |

Documents are plain data:

- a PDF is a list of pages, each with its text and its images;
- a DOCX is its paragraph texts plus its relationships, each either a part embedded in the package with its target reference and blob, or an external target with only a target reference.

Python's whitespace for `strip` is the set of code points `str.isspace`
accepts. `lower` is modelled on ASCII letters only. That is exact for the
extension check: the only non-ASCII characters whose lower case is ASCII are
U+212A and U+0130. Their lower cases are `k` and `i` plus a combining mark,
which cannot complete `pdf`, `docx`, `png`, `jpg` or `jpeg`.

## Model

| member | source | states |
|---|---|---|
| Strings.StripExists | app.py:40 | `strip()` returns a slice of its input with only whitespace removed at either end; the result is empty exactly when the input is all whitespace, and a non-empty result starts and ends with non-whitespace |
| Strings.StripIsStrippedSlice | app.py:66 | any slice that drops only whitespace and starts and ends with non-whitespace is what `strip()` returns, so that result is unique |
| Strings.StripIdempotent | app.py:42 | stripping already stripped text changes nothing |
| Strings.Split | app.py:172 | `split` on one character gives one more part than there are separators, and no part contains the separator |
| Strings.JoinSplit | app.py:172 | joining the parts of a split with the separator gives back the original string |
| Strings.SplitJoin | app.py:175 | splitting a join of separator-free parts gives back exactly those parts |
| Strings.Lower | app.py:30 | `lower()` keeps the length, maps every character by the ASCII lower-case map and leaves no upper-case letter |
| Strings.AfterLast | app.py:30 | `rsplit('.', 1)[1]` holds no dot, and the name ends with a dot followed by it |
| Strings.NatToStringValue | app.py:114 | the decimal digits written for a coordinate read back as that number |
| Strings.IntToStringDigits | app.py:114 | `str(int(x))` starts with `-` exactly for a negative number and holds only digits and that sign |
| Parser.ParseTestCases | app.py:169-191 | the parsing loop returns exactly the records of the non-blank lines, with at least five segments, of the trimmed reply, in line order |
| Parser.ParseLineWellFormed | app.py:175-186 | a non-blank line of at least five segments free of the pipe character yields one record: ID, description, preconditions, steps and expected result are segments 0 to 4 trimmed, later segments are ignored, and status and comments are the constants |
| Parser.ParseLineShort | app.py:177-188 | a line of fewer than five segments yields no record |
| Parser.ParseLineSome | app.py:175-177 | a line yields a record exactly when it is not blank and holds at least four pipe characters |
| Parser.ParseLinesAppend | app.py:174-188 | lines are parsed independently: the records of two line lists joined are the records of the first list followed by those of the second |
| Parser.ParseLinesDropsMalformed | app.py:175-188 | removing a line that yields no record leaves the records of all other lines unchanged |
| Parser.ParseLinesConstantFields | app.py:184-185 | every record has status `Not yet executed` and comments `-`, whatever the input |
| Parser.ParseLinesBound | app.py:174-188 | there are never more records than lines |
| Parser.ParseReplyProperties | app.py:172-188 | there are no more records than lines, and so no more than newlines plus one; every record has the constant status and comments |
| Parser.ParseReplyBlank | app.py:172-175 | a blank reply, including `""`, yields no record |
| Parser.ParseReplySingleLine | app.py:172-186 | a reply that is one trimmed well-formed line yields exactly the one record built from its first five segments |
| Parser.ParseReplyExample | app.py:176-186 | the line whose pipe-separated segments are `TC01`, `Verify login`, `User exists`, `1. Enter credentials 2. Submit`, `Login succeeds`, `done` and `foo` yields the single record with those first five fields, status `Not yet executed` and comments `-` |
| Vision.DetectComponents | app.py:102-117 | the nested loop over results and boxes builds the summary of all detections, result by result and box by box |
| Vision.FlattenAppend | app.py:110-111 | the detections of the results, in order, are those of earlier results followed by those of later ones |
| Vision.DetectionLineNoNewline | app.py:114 | a summary line holds no newline when the class name holds none |
| Vision.TerminatedIsJoin | app.py:109-117 | a non-empty summary is its lines joined by newlines, with one newline after the last |
| Vision.SummaryLines | app.py:109-117 | splitting the summary on newlines gives one `Detected component: ...` line per detection, in detection order, and a final empty part; the summary is `""` exactly when there are no detections |
| Content.RenderContent | app.py:121-128 | the rendering loop produces exactly the concatenation of the units' renderings |
| Content.RenderUnitFrames | app.py:123-128 | a unit renders to non-empty text exactly when its tag is `text`, `image_text` or `components`, and then it ends with its content and a blank line |
| Content.RenderAppend | app.py:122-128 | rendering is in-order concatenation: the rendering of two unit lists joined is the first list's rendering followed by the second's |
| Content.RenderIgnoresUnknown | app.py:122-128 | units with any other tag contribute nothing: dropping them leaves the rendered text unchanged |
| Walkers.ExtractContentFromImage | app.py:86-93 | an uploaded image yields its OCR unit, then its components unit |
| Walkers.ImageUnitsShape | app.py:86-93 | that is exactly two units: the OCR text, which may be empty, then a summary with one line per detection in detection order |
| Walkers.AppendImages | app.py:44-56 | the image loop of a page appends an OCR unit and then a components unit for each image, in the page's order |
| Walkers.ExtractContentFromPdf | app.py:32-58 | the PDF walker returns, page by page, the page's trimmed text if it is not blank, then the units of each of its images |
| Walkers.PageUnitsShape | app.py:37-56 | a page yields one text unit if its text is not blank and none otherwise; that unit is trimmed and non-empty and comes before the page's image units; each image gives one OCR unit and one components unit |
| Walkers.PagesUnitsAppend | app.py:37-56 | the PDF output follows page order: the units of two page lists joined are those of the first followed by those of the second |
| Walkers.PdfTextUnits | app.py:39-42 | a PDF yields one text unit per non-blank page, so never more than its page count |
| Walkers.PdfTextTrimmed | app.py:40-42 | every text unit of a PDF is trimmed and non-empty |
| Walkers.PdfImageUnits | app.py:44-56 | a PDF yields as many OCR units as components units, one of each per image |
| Walkers.TextOnlyPdf | app.py:37-42 | a PDF without images yields only text units, one per non-blank page |
| Walkers.ExtractContentFromDocx | app.py:60-84 | the DOCX walker returns the trimmed non-blank paragraphs, then the units of every image part; it fails exactly when a relationship whose target reference contains `image` is external, because such a relationship has no part to read |
| Walkers.AppendImageParts | app.py:71-82 | the relationship loop appends an OCR unit and a components unit for each part whose target reference contains `image`, in relationship order, and stops with a failure at the first such relationship that is external |
| Walkers.AppendImageUnits | app.py:78-82 | the two appends for one image add its OCR unit and then its components unit |
| Walkers.ExternalImageStops | app.py:71-73 | one external relationship whose target reference contains `image` is enough to make the document unreadable |
| Walkers.ImagePartsEmbeddedMeans | app.py:71-73 | the walker can read every image relationship exactly when every relationship whose target reference contains `image` is stored in the package |
| Walkers.ParagraphsUnitsShape | app.py:65-69 | the paragraphs yield only text units, one per non-blank paragraph, each trimmed and non-empty |
| Walkers.ParagraphsUnitsAppend | app.py:65-69 | paragraph units keep document order |
| Walkers.ImageBlobsMembers | app.py:71-73 | the image blobs come from embedded parts whose target reference contains `image`, never more than the parts, and there are none exactly when no part qualifies |
| Walkers.ImageBlobsComplete | app.py:71-73 | every embedded part whose target reference contains `image` contributes its blob |
| Walkers.ImageBlobsAppend | app.py:71-73 | the blobs follow relationship order: those of two concatenated relationship lists are those of the first list, then those of the second |
| Walkers.ImageBlobsCount | app.py:71-73 | when no image relationship is external, there is exactly one blob per relationship whose target reference contains `image` |
| Walkers.DocxUnitsShape | app.py:60-84 | the DOCX output has every text unit before every image unit, its first units are the paragraph units, and it holds one text unit per non-blank paragraph and one OCR and one components unit per embedded image part, which for a readable document is one pair per relationship whose target reference contains `image` |
| Walkers.ImagesUnitsCounts | app.py:53-56 | each image yields one OCR unit and one components unit, and no text unit |
| Upload.ExtensionSuffix | app.py:30 | for a dot-free extension, the lower-cased text after the last dot equals it exactly when the lower-cased name ends with a dot and that extension |
| Upload.AllowedFileSuffix | app.py:29-30 | `allowed_file` holds exactly when the lower-cased name ends with `.pdf`, `.docx`, `.png`, `.jpg` or `.jpeg` |
| Upload.ProcessFile | app.py:217-236 | one file is refused if `allowed_file` fails; otherwise it is dispatched on its sanitised name to the DOCX, PDF or image walker, or refused as unsupported |
| Upload.ExternalImageUnreadable | app.py:218-225 | an allowed `.docx` file with an external relationship whose target reference contains `image`, such as a hyperlink to an `images/` URL, is refused as unreadable |
| Upload.MixedCaseDocumentUnsupported | app.py:218-234 | a name that ends in `.pdf` or `.docx` only once lower-cased passes `allowed_file` but, if sanitising keeps it, is refused as an unsupported file type |
| Upload.UpperCasePdfRejected | app.py:204-234 | uploading `X.PDF` alone, under a sanitiser that keeps the name, is answered with `Unsupported file type: X.PDF` |
| Upload.GatherAppend | app.py:217-236 | extending the content list file by file is in-order concatenation that keeps the first error |
| Upload.CollectAppend | app.py:217-236 | the units of an upload are those of its earlier files followed by those of its later files, unless a file is refused |
| Upload.CollectOk | app.py:217-236 | the file loop completes exactly when every file is allowed, dispatched and readable |
| Upload.CollectFirstError | app.py:217-236 | the first refused file decides the error, whatever the later files hold |
| Upload.CollectErrorKinds | app.py:217-236 | the file loop fails only with "not allowed", "unsupported" or an unreadable document |
| Upload.UploadSrsFile | app.py:204-250 | the handler checks the file part and the selection, runs the file loop, refuses empty content, renders and sends the prompt, parses the reply and refuses an empty record list, otherwise succeeds with the reply, which is the `output` of the JSON body, and the records, which go to `write_to_excel` (app.py:248) and are not in the JSON body |
| Upload.UploadSelectionErrors | app.py:206-213 | a request without a file part, or with no files or an unnamed file, is refused before any file is read, and only then |
| Upload.UploadOutcome | app.py:217-244 | for a request that selects files, the first failing file's error is the answer; "no content" is answered exactly when nothing was extracted; "no test cases" exactly when the reply to the rendered content parses to no record |
| Upload.UploadSuccess | app.py:237-250 | a successful answer carries the model's reply to the rendered units of every file in upload order, which is the `output` of the JSON body, and the non-empty records parsed from it, which are the rows passed to `write_to_excel` and not part of the JSON body, at most one per reply line, each not yet executed |
| Upload.BlankReplyNoTestCases | app.py:164-167 | a blank model reply, such as the `""` returned when the call fails, ends in "no test cases" |

## Left out

- Flask routing, `request.files`, `file.save`, the JSON bodies and status codes, and `send_from_directory` are not modelled. A request is its optional list of uploaded files, and a reply is a `Result` of the reply text and records or an `UploadError`.
- `secure_filename` is the parameter `sanitize`, an arbitrary function on names. Its character filtering is not modelled.
- The language-model call is the parameter `generate`, from the rendered content to the reply text. The prompt template, the model settings, the reply's `strip()` and the `try`/`except` that returns `""` are not modelled. `BlankReplyNoTestCases` covers the `""` case.
- OCR and object detection are the two functions of an `Analyzer`. Detections arrive as a class name and four integer coordinates per box. Loading the detector, reading the image with cv2, the float box tensors and their truncation by `int`, and the class-name lookup are not modelled.
- The PDF and DOCX libraries and the temporary image files are not modelled. A document is the data those libraries would report.
- A library exception on a file whose bytes do not match its name is modelled as the error `Unreadable`. In the source it escapes the handler as a server error. The same holds for a DOCX with an external image relationship, where reading `rel.target_part` raises (app.py:72-73).
- `Vision.DetectComponents`: the model writes one summary line per detection. The source unpacks six values (four coordinates, a confidence and a class id) from `detection.xyxy[0]` (app.py:112). For a YOLOv8 box that row holds only the four coordinates, so the unpacking is expected to raise on the first detection, and the request then fails with a server error. Only an image with no detection gets through, with an empty summary. This was read from the code, not executed. The model follows the evidently intended behaviour.
- `Walkers.ExtractContentFromDocx`, `Walkers.AppendImageParts`, `Walkers.ExtractContentFromPdf`, `Walkers.ExtractContentFromImage`: the `Analyzer` is total, so an image the OCR engine or the detector cannot decode, such as an SVG or EMF part embedded in a DOCX, still yields its two units. In the source, PIL or cv2 raises and the request fails with a server error.
- `write_to_excel`, logging and the React frontend are not part of this model. A successful `Response` carries the records handed to `write_to_excel` (app.py:248). The client reaches them only through the spreadsheet, never in the JSON answer, which holds `message` and `output` (app.py:250).
- `Strings.Lower`: case mapping covers ASCII letters only. Non-ASCII letters are left unchanged.
- A disallowed file does not stop the request up front: the code checks the files one at a time (app.py:217-236). Earlier files are saved and extracted first, and an earlier unsupported or unreadable file decides the error. The model follows the code, as `Upload.CollectFirstError` states.
- The saving and extraction of files before the request is refused has no effect on the answer, so it is not modelled.
