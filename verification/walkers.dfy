/**
 * The document walkers `extract_content_from_pdf`, `extract_content_from_docx`
 * and `extract_content_from_image`. Documents are plain data here: what the
 * PDF and DOCX libraries would report about them. Each walker is a method
 * that appends to its content sequence as the source does, proved equal to
 * a recursive specification function; the ordering and counting guarantees
 * are lemmas about those functions.
 */
module Walkers {
  import opened Wrappers
  import opened Strings
  import opened Vision
  import opened Content

  /** One PDF page: its plain text and its raster images, in the order the page lists them. */
  datatype Page = Page(text: string, images: seq<Image>)

  /** A PDF document: its pages in order. */
  datatype Pdf = Pdf(pages: seq<Page>)

  /**
   * One relationship of a DOCX package and its target reference: either a
   * part stored in the package, with its binary blob, or an external
   * target such as a hyperlink URL, which has no part to read.
   */
  datatype Relationship = Embedded(targetRef: string, blob: Image) | External(targetRef: string)

  /** A DOCX document: its paragraph texts in order and its relationship parts in order. */
  datatype Docx = Docx(paragraphs: seq<string>, relationships: seq<Relationship>)

  /** The units of one image: its OCR text, then the summary of its detections. */
  function ImageUnits(analyzer: Analyzer, image: Image): seq<Unit> {
    [Unit(ImageText, analyzer.ocr(image)), Unit(Components, Summary(Flatten(analyzer.detect(image))))]
  }

  /** The units of a list of images, image after image. */
  function ImagesUnits(analyzer: Analyzer, images: seq<Image>): seq<Unit> {
    if images == [] then []
    else ImagesUnits(analyzer, images[..|images| - 1]) + ImageUnits(analyzer, images[|images| - 1])
  }

  /** A text unit holding the trimmed text, or nothing when the text is blank. */
  function TextUnits(text: string): seq<Unit> {
    if Strip(text) != [] then [Unit(Text, Strip(text))] else []
  }

  /** The units of one PDF page: its text first, then its images. */
  function PageUnits(analyzer: Analyzer, page: Page): seq<Unit> {
    TextUnits(page.text) + ImagesUnits(analyzer, page.images)
  }

  /** The units of a list of PDF pages, page after page. */
  function PagesUnits(analyzer: Analyzer, pages: seq<Page>): seq<Unit> {
    if pages == [] then []
    else PagesUnits(analyzer, pages[..|pages| - 1]) + PageUnits(analyzer, pages[|pages| - 1])
  }

  /** The text units of a list of paragraphs, in document order. */
  function ParagraphsUnits(paragraphs: seq<string>): seq<Unit> {
    if paragraphs == [] then []
    else ParagraphsUnits(paragraphs[..|paragraphs| - 1]) + TextUnits(paragraphs[|paragraphs| - 1])
  }

  /** A relationship part is taken as an image when its target reference contains `image`. */
  predicate IsImagePart(rel: Relationship) {
    Contains(rel.targetRef, "image")
  }

  /** An image part whose blob is stored in the package. */
  predicate IsEmbeddedImage(rel: Relationship) {
    IsImagePart(rel) && rel.Embedded?
  }

  /**
   * Every relationship taken as an image is stored in the package, checked
   * in relationship order. Reading the part of an external relationship
   * raises, so a DOCX breaking this cannot be walked.
   */
  predicate ImagePartsEmbedded(rels: seq<Relationship>) {
    rels == [] || (ImagePartsEmbedded(rels[..|rels| - 1]) && (IsImagePart(rels[|rels| - 1]) ==> rels[|rels| - 1].Embedded?))
  }

  /** A DOCX document the walker can walk to the end. */
  predicate DocxReadable(doc: Docx) {
    ImagePartsEmbedded(doc.relationships)
  }

  /** The number of relationships taken as image parts. */
  function ImagePartCount(rels: seq<Relationship>): nat {
    if rels == [] then 0
    else ImagePartCount(rels[..|rels| - 1]) + (if IsImagePart(rels[|rels| - 1]) then 1 else 0)
  }

  /** The blobs of the embedded image parts, in relationship order. */
  function ImageBlobs(rels: seq<Relationship>): seq<Image> {
    if rels == [] then []
    else ImageBlobs(rels[..|rels| - 1]) + (if IsEmbeddedImage(rels[|rels| - 1]) then [rels[|rels| - 1].blob] else [])
  }

  /** Specification of `extract_content_from_pdf`. */
  function PdfUnits(analyzer: Analyzer, doc: Pdf): seq<Unit> {
    PagesUnits(analyzer, doc.pages)
  }

  /** Specification of `extract_content_from_docx` for a readable document: all paragraph text, then all images. */
  function DocxUnits(analyzer: Analyzer, doc: Docx): seq<Unit> {
    ParagraphsUnits(doc.paragraphs) + ImagesUnits(analyzer, ImageBlobs(doc.relationships))
  }

  lemma ImagesUnitsStep(analyzer: Analyzer, images: seq<Image>, k: nat)
    requires k < |images|
    ensures ImagesUnits(analyzer, images[..k + 1]) == ImagesUnits(analyzer, images[..k]) + ImageUnits(analyzer, images[k])
  {
    assert images[..k + 1][..k] == images[..k];
  }

  lemma PagesUnitsStep(analyzer: Analyzer, pages: seq<Page>, k: nat)
    requires k < |pages|
    ensures PagesUnits(analyzer, pages[..k + 1]) == PagesUnits(analyzer, pages[..k]) + PageUnits(analyzer, pages[k])
  {
    assert pages[..k + 1][..k] == pages[..k];
  }

  lemma ParagraphsUnitsStep(paragraphs: seq<string>, k: nat)
    requires k < |paragraphs|
    ensures ParagraphsUnits(paragraphs[..k + 1]) == ParagraphsUnits(paragraphs[..k]) + TextUnits(paragraphs[k])
  {
    assert paragraphs[..k + 1][..k] == paragraphs[..k];
  }

  lemma ImageBlobsStep(rels: seq<Relationship>, k: nat)
    requires k < |rels|
    ensures ImageBlobs(rels[..k + 1]) == ImageBlobs(rels[..k]) + (if IsEmbeddedImage(rels[k]) then [rels[k].blob] else [])
  {
    assert rels[..k + 1][..k] == rels[..k];
  }

  /** `extract_content_from_image`: exactly the OCR unit and the components unit of the image. */
  method ExtractContentFromImage(analyzer: Analyzer, image: Image) returns (contentSequence: seq<Unit>)
    ensures contentSequence == ImageUnits(analyzer, image)
  {
    contentSequence := [];
    var imageText := analyzer.ocr(image);
    contentSequence := contentSequence + [Unit(ImageText, imageText)];
    var componentsSummary := DetectComponents(analyzer, image);
    contentSequence := contentSequence + [Unit(Components, componentsSummary)];
  }

  /**
   * The two appends the PDF and DOCX walkers make for one image: its OCR
   * text, then its components summary.
   */
  method AppendImageUnits(analyzer: Analyzer, image: Image, start: seq<Unit>) returns (contentSequence: seq<Unit>)
    ensures contentSequence == start + ImageUnits(analyzer, image)
  {
    var imageText := analyzer.ocr(image);
    contentSequence := start + [Unit(ImageText, imageText)];
    var componentsSummary := DetectComponents(analyzer, image);
    contentSequence := contentSequence + [Unit(Components, componentsSummary)];
  }

  /** The image loop of the PDF walker: appends the units of `images` in order. */
  method AppendImages(analyzer: Analyzer, images: seq<Image>, start: seq<Unit>) returns (contentSequence: seq<Unit>)
    ensures contentSequence == start + ImagesUnits(analyzer, images)
  {
    contentSequence := start;
    var imgIndex := 0;
    assert images[..imgIndex] == [];
    while imgIndex < |images|
      invariant 0 <= imgIndex <= |images|
      invariant contentSequence == start + ImagesUnits(analyzer, images[..imgIndex])
    {
      var image := images[imgIndex];
      ghost var done := ImagesUnits(analyzer, images[..imgIndex]);
      contentSequence := AppendImageUnits(analyzer, image, contentSequence);
      AppendAssoc(start, done, ImageUnits(analyzer, image));
      ImagesUnitsStep(analyzer, images, imgIndex);
      imgIndex := imgIndex + 1;
    }
    assert images[..imgIndex] == images;
  }

  /** `extract_content_from_pdf`: page by page, the trimmed text and then each image. */
  method ExtractContentFromPdf(analyzer: Analyzer, doc: Pdf) returns (contentSequence: seq<Unit>)
    ensures contentSequence == PdfUnits(analyzer, doc)
  {
    contentSequence := [];
    var pageNum := 0;
    assert doc.pages[..pageNum] == [];
    assert contentSequence == PagesUnits(analyzer, doc.pages[..pageNum]);
    while pageNum < |doc.pages|
      invariant 0 <= pageNum <= |doc.pages|
      invariant contentSequence == PagesUnits(analyzer, doc.pages[..pageNum])
    {
      var page := doc.pages[pageNum];
      ghost var before := contentSequence;
      var text := Strip(page.text);
      if text != [] {
        contentSequence := contentSequence + [Unit(Text, text)];
      }
      assert contentSequence == before + TextUnits(page.text);
      contentSequence := AppendImages(analyzer, page.images, contentSequence);
      AppendAssoc(before, TextUnits(page.text), ImagesUnits(analyzer, page.images));
      PagesUnitsStep(analyzer, doc.pages, pageNum);
      pageNum := pageNum + 1;
    }
    assert doc.pages[..pageNum] == doc.pages;
  }

  /**
   * `extract_content_from_docx`: every non-blank paragraph, trimmed, then
   * every image part; `None` when an image relationship is external.
   */
  method ExtractContentFromDocx(analyzer: Analyzer, doc: Docx) returns (r: Option<seq<Unit>>)
    ensures r == if DocxReadable(doc) then Some(DocxUnits(analyzer, doc)) else None
  {
    var contentSequence := [];
    var i := 0;
    assert doc.paragraphs[..i] == [];
    assert contentSequence == ParagraphsUnits(doc.paragraphs[..i]);
    while i < |doc.paragraphs|
      invariant 0 <= i <= |doc.paragraphs|
      invariant contentSequence == ParagraphsUnits(doc.paragraphs[..i])
    {
      ghost var before := contentSequence;
      var text := Strip(doc.paragraphs[i]);
      if text != [] {
        contentSequence := contentSequence + [Unit(Text, text)];
      }
      assert contentSequence == before + TextUnits(doc.paragraphs[i]);
      ParagraphsUnitsStep(doc.paragraphs, i);
      i := i + 1;
    }
    assert doc.paragraphs[..i] == doc.paragraphs;
    r := AppendImageParts(analyzer, doc.relationships, contentSequence);
  }

  /**
   * The relationship loop of the DOCX walker: appends the units of every
   * image part in order, and stops with `None` at the first image
   * relationship that is external, whose part cannot be read.
   */
  method AppendImageParts(analyzer: Analyzer, rels: seq<Relationship>, start: seq<Unit>) returns (r: Option<seq<Unit>>)
    ensures r == if ImagePartsEmbedded(rels) then Some(start + ImagesUnits(analyzer, ImageBlobs(rels))) else None
  {
    var contentSequence := start;
    var j := 0;
    assert rels[..j] == [];
    while j < |rels|
      invariant 0 <= j <= |rels|
      invariant ImagePartsEmbedded(rels[..j])
      invariant contentSequence == start + ImagesUnits(analyzer, ImageBlobs(rels[..j]))
    {
      var rel := rels[j];
      ghost var done := ImagesUnits(analyzer, ImageBlobs(rels[..j]));
      ImagePartStep(analyzer, rels, j);
      if IsImagePart(rel) {
        if rel.External? {
          ExternalImageStops(rels, j);
          return None;
        }
        contentSequence := AppendImageUnits(analyzer, rel.blob, contentSequence);
        AppendAssoc(start, done, ImageUnits(analyzer, rel.blob));
      } else {
        assert done + [] == done;
      }
      ImagePartsEmbeddedStep(rels, j);
      j := j + 1;
    }
    assert rels[..j] == rels;
    r := Some(contentSequence);
  }

  /** One external image relationship makes the whole relationship list unreadable. */
  lemma ExternalImageStops(rels: seq<Relationship>, j: nat)
    requires j < |rels| && IsImagePart(rels[j]) && rels[j].External?
    ensures !ImagePartsEmbedded(rels)
  {
    ImagePartsEmbeddedMeans(rels);
  }

  lemma ImagePartsEmbeddedStep(rels: seq<Relationship>, k: nat)
    requires k < |rels| && ImagePartsEmbedded(rels[..k])
    requires IsImagePart(rels[k]) ==> rels[k].Embedded?
    ensures ImagePartsEmbedded(rels[..k + 1])
  {
    assert rels[..k + 1][..k] == rels[..k];
  }

  lemma ImagePartStep(analyzer: Analyzer, rels: seq<Relationship>, j: nat)
    requires j < |rels|
    ensures ImagesUnits(analyzer, ImageBlobs(rels[..j + 1])) ==
      ImagesUnits(analyzer, ImageBlobs(rels[..j])) + (if IsEmbeddedImage(rels[j]) then ImageUnits(analyzer, rels[j].blob) else [])
  {
    ImageBlobsStep(rels, j);
    if IsEmbeddedImage(rels[j]) {
      ImagesSnoc(analyzer, ImageBlobs(rels[..j]), rels[j].blob);
    } else {
      assert ImageBlobs(rels[..j]) + [] == ImageBlobs(rels[..j]);
    }
  }

  lemma AppendAssoc(a: seq<Unit>, b: seq<Unit>, c: seq<Unit>)
    ensures (a + b) + c == a + (b + c)
  {
  }

  lemma ImagesSnoc(analyzer: Analyzer, images: seq<Image>, image: Image)
    ensures ImagesUnits(analyzer, images + [image]) == ImagesUnits(analyzer, images) + ImageUnits(analyzer, image)
  {
    assert (images + [image])[..|images|] == images;
  }

  /** Number of images over all pages. */
  function ImageCount(pages: seq<Page>): nat {
    if pages == [] then 0 else ImageCount(pages[..|pages| - 1]) + |pages[|pages| - 1].images|
  }

  /** Number of texts that are not blank. */
  function NonBlankCount(texts: seq<string>): (n: nat)
    ensures n <= |texts|
  {
    if texts == [] then 0 else NonBlankCount(texts[..|texts| - 1]) + (if Strip(texts[|texts| - 1]) != [] then 1 else 0)
  }

  /** The page texts of a list of pages. */
  function PageTexts(pages: seq<Page>): (r: seq<string>)
    ensures |r| == |pages|
  {
    seq(|pages|, k requires 0 <= k < |pages| => pages[k].text)
  }

  /** Every text unit holds trimmed, non-empty text. */
  ghost predicate TextUnitsTrimmed(units: seq<Unit>) {
    forall k :: 0 <= k < |units| && units[k].tag == Text ==> units[k].content != [] && Strip(units[k].content) == units[k].content
  }

  /** No unit after a non-text unit is a text unit: all text comes first. */
  ghost predicate TextFirst(units: seq<Unit>) {
    forall i, j :: 0 <= i < j < |units| && units[i].tag != Text ==> units[j].tag != Text
  }

  /** Each image gives one OCR unit and one components unit, and no text unit. */
  lemma {:induction false} ImagesUnitsCounts(analyzer: Analyzer, images: seq<Image>)
    ensures CountTag(ImagesUnits(analyzer, images), ImageText) == |images|
    ensures CountTag(ImagesUnits(analyzer, images), Components) == |images|
    ensures CountTag(ImagesUnits(analyzer, images), Text) == 0
    ensures |ImagesUnits(analyzer, images)| == 2 * |images|
  {
    if images != [] {
      var front, last := images[..|images| - 1], images[|images| - 1];
      ImagesUnitsCounts(analyzer, front);
      var u := ImageUnits(analyzer, last);
      assert u[..1][..0] == [] && u[..1] == [u[0]];
      CountTagAppend(ImagesUnits(analyzer, front), u, ImageText);
      CountTagAppend(ImagesUnits(analyzer, front), u, Components);
      CountTagAppend(ImagesUnits(analyzer, front), u, Text);
    }
  }

  /** Image units never carry the text tag. */
  lemma NoTextInImages(analyzer: Analyzer, images: seq<Image>)
    ensures forall k :: 0 <= k < |ImagesUnits(analyzer, images)| ==> ImagesUnits(analyzer, images)[k].tag != Text
  {
    var u := ImagesUnits(analyzer, images);
    ImagesUnitsCounts(analyzer, images);
    forall k | 0 <= k < |u| ensures u[k].tag != Text {
      CountTagZero(u, Text, k);
    }
  }

  lemma {:induction false} CountTagZero(units: seq<Unit>, tag: Tag, k: nat)
    requires CountTag(units, tag) == 0 && k < |units|
    ensures units[k].tag != tag
  {
    if k < |units| - 1 {
      CountTagZero(units[..|units| - 1], tag, k);
    }
  }

  /** The text unit of a text, if any, holds the trimmed text, which is not empty. */
  lemma TextUnitsProps(text: string)
    ensures |TextUnits(text)| <= 1
    ensures |TextUnits(text)| == 1 <==> !IsBlank(text)
    ensures CountTag(TextUnits(text), Text) == |TextUnits(text)|
    ensures CountTag(TextUnits(text), ImageText) == 0 && CountTag(TextUnits(text), Components) == 0
    ensures TextUnitsTrimmed(TextUnits(text))
  {
    StripExists(text);
    StripIdempotent(text);
    var u := TextUnits(text);
    if u != [] {
      assert u[..0] == [];
    }
  }

  /** Trimmed, non-empty text units stay so under concatenation. */
  lemma TrimmedAppend(a: seq<Unit>, b: seq<Unit>)
    requires TextUnitsTrimmed(a) && TextUnitsTrimmed(b)
    ensures TextUnitsTrimmed(a + b)
  {
    forall k | 0 <= k < |a + b| && (a + b)[k].tag == Text
      ensures (a + b)[k].content != [] && Strip((a + b)[k].content) == (a + b)[k].content
    {
      if k >= |a| {
        assert (a + b)[k] == b[k - |a|];
      }
    }
  }

  /** Image units hold no text unit, so they satisfy the text property vacuously. */
  lemma ImagesTrimmed(analyzer: Analyzer, images: seq<Image>)
    ensures TextUnitsTrimmed(ImagesUnits(analyzer, images))
  {
    NoTextInImages(analyzer, images);
  }

  /**
   * One PDF page yields at most one text unit, holding the page's trimmed
   * text, and it comes before the page's image units.
   */
  lemma PageUnitsShape(analyzer: Analyzer, page: Page)
    ensures CountTag(PageUnits(analyzer, page), Text) == if Strip(page.text) != [] then 1 else 0
    ensures CountTag(PageUnits(analyzer, page), Text) == 1 <==> !IsBlank(page.text)
    ensures CountTag(PageUnits(analyzer, page), ImageText) == |page.images|
    ensures CountTag(PageUnits(analyzer, page), Components) == |page.images|
    ensures TextFirst(PageUnits(analyzer, page))
    ensures TextUnitsTrimmed(PageUnits(analyzer, page))
  {
    var t, im := TextUnits(page.text), ImagesUnits(analyzer, page.images);
    TextUnitsProps(page.text);
    ImagesUnitsCounts(analyzer, page.images);
    NoTextInImages(analyzer, page.images);
    ImagesTrimmed(analyzer, page.images);
    CountTagAppend(t, im, Text);
    CountTagAppend(t, im, ImageText);
    CountTagAppend(t, im, Components);
    TrimmedAppend(t, im);
    TextFirstAppend(t, im);
  }

  /** The PDF walker works page by page: the units of `a + b` are those of `a`, then those of `b`. */
  lemma {:induction false} PagesUnitsAppend(analyzer: Analyzer, a: seq<Page>, b: seq<Page>)
    ensures PagesUnits(analyzer, a + b) == PagesUnits(analyzer, a) + PagesUnits(analyzer, b)
    decreases |b|
  {
    if b == [] {
      assert a + b == a;
    } else {
      var front := b[..|b| - 1];
      assert (a + b)[..|a + b| - 1] == a + front;
      PagesUnitsAppend(analyzer, a, front);
      AppendAssoc(PagesUnits(analyzer, a), PagesUnits(analyzer, front), PageUnits(analyzer, b[|b| - 1]));
    }
  }

  /** The PDF walker yields one text unit per non-blank page. */
  lemma {:induction false} PdfTextUnits(analyzer: Analyzer, pages: seq<Page>)
    ensures CountTag(PagesUnits(analyzer, pages), Text) == NonBlankCount(PageTexts(pages)) <= |pages|
  {
    if pages != [] {
      var front, last := pages[..|pages| - 1], pages[|pages| - 1];
      PdfTextUnits(analyzer, front);
      PageUnitsShape(analyzer, last);
      assert PageTexts(pages)[..|pages| - 1] == PageTexts(front);
      CountTagAppend(PagesUnits(analyzer, front), PageUnits(analyzer, last), Text);
    }
  }

  /** Every text unit of the PDF walker is trimmed and non-empty. */
  lemma {:induction false} PdfTextTrimmed(analyzer: Analyzer, pages: seq<Page>)
    ensures TextUnitsTrimmed(PagesUnits(analyzer, pages))
  {
    if pages != [] {
      var front, last := pages[..|pages| - 1], pages[|pages| - 1];
      PdfTextTrimmed(analyzer, front);
      PageUnitsShape(analyzer, last);
      TrimmedAppend(PagesUnits(analyzer, front), PageUnits(analyzer, last));
    }
  }

  /** The PDF walker yields one OCR unit and one components unit per image of any page. */
  lemma {:induction false} PdfImageUnits(analyzer: Analyzer, pages: seq<Page>)
    ensures CountTag(PagesUnits(analyzer, pages), ImageText) == ImageCount(pages)
    ensures CountTag(PagesUnits(analyzer, pages), Components) == ImageCount(pages)
  {
    if pages != [] {
      var front, last := pages[..|pages| - 1], pages[|pages| - 1];
      PdfImageUnits(analyzer, front);
      PageUnitsShape(analyzer, last);
      var u, v := PagesUnits(analyzer, front), PageUnits(analyzer, last);
      CountTagAppend(u, v, ImageText);
      CountTagAppend(u, v, Components);
    }
  }

  /** A PDF whose pages hold no images yields text units only, one per non-blank page. */
  lemma {:induction false} TextOnlyPdf(analyzer: Analyzer, pages: seq<Page>)
    requires forall p :: 0 <= p < |pages| ==> pages[p].images == []
    ensures forall k :: 0 <= k < |PagesUnits(analyzer, pages)| ==> PagesUnits(analyzer, pages)[k].tag == Text
    ensures |PagesUnits(analyzer, pages)| == NonBlankCount(PageTexts(pages))
  {
    if pages != [] {
      var front, last := pages[..|pages| - 1], pages[|pages| - 1];
      TextOnlyPdf(analyzer, front);
      assert PageTexts(pages)[..|pages| - 1] == PageTexts(front);
      assert PageUnits(analyzer, last) == TextUnits(last.text);
      TextUnitsProps(last.text);
      StripExists(last.text);
    }
  }

  /** The paragraph units are text units only, one per non-blank paragraph, each trimmed and non-empty. */
  lemma {:induction false} ParagraphsUnitsShape(paragraphs: seq<string>)
    ensures |ParagraphsUnits(paragraphs)| == NonBlankCount(paragraphs)
    ensures forall k :: 0 <= k < |ParagraphsUnits(paragraphs)| ==> ParagraphsUnits(paragraphs)[k].tag == Text
    ensures TextUnitsTrimmed(ParagraphsUnits(paragraphs))
  {
    if paragraphs != [] {
      var front, last := paragraphs[..|paragraphs| - 1], paragraphs[|paragraphs| - 1];
      ParagraphsUnitsShape(front);
      TextUnitsProps(last);
      StripExists(last);
      TrimmedAppend(ParagraphsUnits(front), TextUnits(last));
    }
  }

  /** The paragraph walk keeps document order: the units of `a + b` are those of `a`, then those of `b`. */
  lemma {:induction false} ParagraphsUnitsAppend(a: seq<string>, b: seq<string>)
    ensures ParagraphsUnits(a + b) == ParagraphsUnits(a) + ParagraphsUnits(b)
    decreases |b|
  {
    if b == [] {
      assert a + b == a;
    } else {
      var front := b[..|b| - 1];
      assert (a + b)[..|a + b| - 1] == a + front;
      ParagraphsUnitsAppend(a, front);
      AppendAssoc(ParagraphsUnits(a), ParagraphsUnits(front), TextUnits(b[|b| - 1]));
    }
  }

  /**
   * Every image blob comes from an embedded part whose target reference
   * contains `image`; there are never more blobs than parts, and none
   * exactly when no part qualifies.
   */
  lemma {:induction false} ImageBlobsMembers(rels: seq<Relationship>)
    ensures |ImageBlobs(rels)| <= |rels|
    ensures |ImageBlobs(rels)| == 0 <==> forall j :: 0 <= j < |rels| ==> !IsEmbeddedImage(rels[j])
    ensures forall k :: 0 <= k < |ImageBlobs(rels)| ==> exists j :: 0 <= j < |rels| && IsEmbeddedImage(rels[j]) && rels[j].blob == ImageBlobs(rels)[k]
  {
    if rels != [] {
      var front, last := rels[..|rels| - 1], rels[|rels| - 1];
      ImageBlobsMembers(front);
      var r := ImageBlobs(rels);
      forall k | 0 <= k < |r| ensures exists j :: 0 <= j < |rels| && IsEmbeddedImage(rels[j]) && rels[j].blob == r[k] {
        if k < |ImageBlobs(front)| {
          var j :| 0 <= j < |front| && IsEmbeddedImage(front[j]) && front[j].blob == ImageBlobs(front)[k];
          assert rels[j] == front[j];
        } else {
          assert IsEmbeddedImage(rels[|rels| - 1]) && rels[|rels| - 1].blob == r[k];
        }
      }
      if forall j :: 0 <= j < |rels| ==> !IsEmbeddedImage(rels[j]) {
        assert forall j :: 0 <= j < |front| ==> !IsEmbeddedImage(front[j]) by {
          forall j | 0 <= j < |front| ensures !IsEmbeddedImage(front[j]) {
            assert rels[j] == front[j];
          }
        }
      }
      if |r| == 0 {
        forall j | 0 <= j < |rels| ensures !IsEmbeddedImage(rels[j]) {
          if j < |front| {
            assert rels[j] == front[j];
          }
        }
      }
    }
  }

  /** Every embedded image part contributes its blob. */
  lemma {:induction false} ImageBlobsComplete(rels: seq<Relationship>)
    ensures forall j :: 0 <= j < |rels| && IsEmbeddedImage(rels[j]) ==> rels[j].blob in ImageBlobs(rels)
  {
    if rels != [] {
      var front := rels[..|rels| - 1];
      ImageBlobsComplete(front);
      forall j | 0 <= j < |rels| && IsEmbeddedImage(rels[j]) ensures rels[j].blob in ImageBlobs(rels) {
        if j < |front| {
          assert rels[j] == front[j];
        }
      }
    }
  }

  /** The blobs follow relationship order: those of `a + b` are those of `a`, then those of `b`. */
  lemma {:induction false} ImageBlobsAppend(a: seq<Relationship>, b: seq<Relationship>)
    ensures ImageBlobs(a + b) == ImageBlobs(a) + ImageBlobs(b)
    decreases |b|
  {
    if b == [] {
      assert a + b == a;
    } else {
      var front := b[..|b| - 1];
      assert (a + b)[..|a + b| - 1] == a + front;
      ImageBlobsAppend(a, front);
    }
  }

  /** When every image relationship is embedded, each image part gives exactly one blob. */
  lemma {:induction false} ImageBlobsCount(rels: seq<Relationship>)
    requires ImagePartsEmbedded(rels)
    ensures |ImageBlobs(rels)| == ImagePartCount(rels)
  {
    if rels != [] {
      ImageBlobsCount(rels[..|rels| - 1]);
    }
  }

  /** The walker can read every relationship it takes as an image exactly when none of them is external. */
  lemma {:induction false} ImagePartsEmbeddedMeans(rels: seq<Relationship>)
    ensures ImagePartsEmbedded(rels) <==> forall j :: 0 <= j < |rels| && IsImagePart(rels[j]) ==> rels[j].Embedded?
  {
    if rels != [] {
      var front := rels[..|rels| - 1];
      ImagePartsEmbeddedMeans(front);
      assert forall j :: 0 <= j < |front| ==> front[j] == rels[j];
    }
  }

  /**
   * What the DOCX walker yields: all paragraph text first, one trimmed
   * unit per non-blank paragraph, then one OCR unit and one components
   * unit per embedded image part, which for a readable document is one
   * pair per image part.
   */
  lemma DocxUnitsShape(analyzer: Analyzer, doc: Docx)
    ensures CountTag(DocxUnits(analyzer, doc), Text) == NonBlankCount(doc.paragraphs)
    ensures CountTag(DocxUnits(analyzer, doc), ImageText) == |ImageBlobs(doc.relationships)|
    ensures CountTag(DocxUnits(analyzer, doc), Components) == |ImageBlobs(doc.relationships)|
    ensures DocxReadable(doc) ==> CountTag(DocxUnits(analyzer, doc), ImageText) == ImagePartCount(doc.relationships)
    ensures DocxUnits(analyzer, doc)[..NonBlankCount(doc.paragraphs)] == ParagraphsUnits(doc.paragraphs)
    ensures TextFirst(DocxUnits(analyzer, doc))
    ensures TextUnitsTrimmed(DocxUnits(analyzer, doc))
  {
    var t, im := ParagraphsUnits(doc.paragraphs), ImagesUnits(analyzer, ImageBlobs(doc.relationships));
    ParagraphsUnitsShape(doc.paragraphs);
    ImagesUnitsCounts(analyzer, ImageBlobs(doc.relationships));
    NoTextInImages(analyzer, ImageBlobs(doc.relationships));
    ImagesTrimmed(analyzer, ImageBlobs(doc.relationships));
    AllTextCount(t);
    CountTagAppend(t, im, Text);
    CountTagAppend(t, im, ImageText);
    CountTagAppend(t, im, Components);
    TrimmedAppend(t, im);
    assert (t + im)[..|t|] == t;
    TextFirstAppend(t, im);
    if DocxReadable(doc) {
      ImageBlobsCount(doc.relationships);
    }
  }

  lemma {:induction false} AllTextCount(units: seq<Unit>)
    requires forall k :: 0 <= k < |units| ==> units[k].tag == Text
    ensures CountTag(units, Text) == |units|
    ensures CountTag(units, ImageText) == 0 && CountTag(units, Components) == 0
  {
    if units != [] {
      AllTextCount(units[..|units| - 1]);
    }
  }

  /** Text units followed by units of other kinds put all text first. */
  lemma TextFirstAppend(t: seq<Unit>, other: seq<Unit>)
    requires forall k :: 0 <= k < |t| ==> t[k].tag == Text
    requires forall k :: 0 <= k < |other| ==> other[k].tag != Text
    ensures TextFirst(t + other)
  {
    forall i, j | 0 <= i < j < |t + other| && (t + other)[i].tag != Text ensures (t + other)[j].tag != Text {
      assert i >= |t|;
      assert (t + other)[j] == other[j - |t|];
    }
  }

  /**
   * A standalone image yields exactly two units: its OCR text, possibly
   * empty, then its components summary, one line per detection in
   * detection order.
   */
  lemma ImageUnitsShape(analyzer: Analyzer, image: Image)
    requires forall k :: 0 <= k < |Flatten(analyzer.detect(image))| ==> '\n' !in Flatten(analyzer.detect(image))[k].className
    ensures |ImageUnits(analyzer, image)| == 2
    ensures ImageUnits(analyzer, image)[0] == Unit(ImageText, analyzer.ocr(image))
    ensures ImageUnits(analyzer, image)[1].tag == Components
    ensures Split(ImageUnits(analyzer, image)[1].content, '\n') == Lines(Flatten(analyzer.detect(image))) + [""]
  {
    SummaryLines(Flatten(analyzer.detect(image)));
  }
}
