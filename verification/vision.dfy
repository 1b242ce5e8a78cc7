/**
 * The visual analyser around the OCR engine and the object detector.
 * Both engines are opaque to the model: an Analyzer carries them as two
 * total functions, and only the text that `detect_components` builds from
 * the detector's boxes is modelled.
 */
module Vision {
  import opened Strings

  /** The bytes of one image file. */
  datatype Image = Image(bytes: seq<bv8>)

  /** One detected box: its class name (the label) and its corners truncated to integers. */
  datatype Detection = Detection(className: string, x1: int, y1: int, x2: int, y2: int)

  /**
   * The two engines: `ocr` is `pytesseract.image_to_string`; `detect` gives
   * the detector's results for an image, each result a list of boxes.
   */
  datatype Analyzer = Analyzer(ocr: Image -> string, detect: Image -> seq<seq<Detection>>)

  /** The summary line of one detection, without its newline. */
  function DetectionLine(d: Detection): string {
    Concat(LinePieces(d))
  }

  /** The pieces of a detection's summary line, as the f-string lays them out. */
  function LinePieces(d: Detection): seq<string> {
    ["Detected component: ", d.className, " at coordinates (",
     IntToString(d.x1), ", ", IntToString(d.y1), ", ", IntToString(d.x2), ", ", IntToString(d.y2), ")"]
  }

  /** The summary lines of a list of detections, in order. */
  function Lines(ds: seq<Detection>): (r: seq<string>)
    ensures |r| == |ds|
  {
    seq(|ds|, k requires 0 <= k < |ds| => DetectionLine(ds[k]))
  }

  /** Every box of every result, results in order and boxes in order within each. */
  function Flatten(results: seq<seq<Detection>>): seq<Detection>
  {
    if results == [] then [] else Flatten(results[..|results| - 1]) + results[|results| - 1]
  }

  /** Lines, each followed by a newline, one after the other. */
  function Terminated(lines: seq<string>): string
  {
    if lines == [] then "" else Terminated(lines[..|lines| - 1]) + lines[|lines| - 1] + "\n"
  }

  /** The summary text of a list of detections. */
  function Summary(ds: seq<Detection>): string {
    Terminated(Lines(ds))
  }

  lemma LinesSnoc(ds: seq<Detection>, d: Detection)
    ensures Lines(ds + [d]) == Lines(ds) + [DetectionLine(d)]
  {
  }

  /** Taking one more detection appends its line and a newline to the summary. */
  lemma SummarySnoc(before: seq<Detection>, boxes: seq<Detection>, j: nat)
    requires j < |boxes|
    ensures Terminated(Lines(before + boxes[..j + 1])) == Terminated(Lines(before + boxes[..j])) + DetectionLine(boxes[j]) + "\n"
  {
    assert before + boxes[..j + 1] == (before + boxes[..j]) + [boxes[j]];
    LinesSnoc(before + boxes[..j], boxes[j]);
    var ls := Lines(before + boxes[..j + 1]);
    assert ls[..|ls| - 1] == Lines(before + boxes[..j]);
  }

  lemma FlattenStep(results: seq<seq<Detection>>, i: nat)
    requires i < |results|
    ensures Flatten(results[..i + 1]) == Flatten(results[..i]) + results[i]
  {
    assert results[..i + 1] == results[..i] + [results[i]];
    FlattenAppend(results[..i], [results[i]]);
    FlattenSingle(results[i]);
  }

  /** `detect_components`: the nested loop over results and their boxes. */
  method DetectComponents(analyzer: Analyzer, image: Image) returns (componentsSummary: string)
    ensures componentsSummary == Summary(Flatten(analyzer.detect(image)))
  {
    var results := analyzer.detect(image);
    componentsSummary := "";
    var i := 0;
    assert results[..i] == [];
    while i < |results|
      invariant 0 <= i <= |results|
      invariant componentsSummary == Terminated(Lines(Flatten(results[..i])))
    {
      var boxes := results[i];
      ghost var before := Flatten(results[..i]);
      var j := 0;
      assert before + boxes[..j] == before;
      while j < |boxes|
        invariant 0 <= j <= |boxes|
        invariant componentsSummary == Terminated(Lines(before + boxes[..j]))
      {
        var line := DetectionLine(boxes[j]);
        SummarySnoc(before, boxes, j);
        componentsSummary := componentsSummary + line + "\n";
        j := j + 1;
      }
      assert boxes[..j] == boxes;
      FlattenStep(results, i);
      i := i + 1;
    }
    assert results[..i] == results;
  }

  lemma {:induction false} FlattenAppend(a: seq<seq<Detection>>, b: seq<seq<Detection>>)
    ensures Flatten(a + b) == Flatten(a) + Flatten(b)
    decreases |b|
  {
    if b == [] {
      assert a + b == a;
    } else {
      assert (a + b)[..|a + b| - 1] == a + b[..|b| - 1];
      FlattenAppend(a, b[..|b| - 1]);
    }
  }

  /** A single result flattens to its own boxes. */
  lemma {:induction false} FlattenSingle(boxes: seq<Detection>)
    ensures Flatten([boxes]) == boxes
  {
    assert [boxes][..0] == [];
  }

  /** Newline-terminated lines are the lines joined by newlines, plus a final newline. */
  lemma {:induction false} TerminatedIsJoin(lines: seq<string>)
    requires lines != []
    ensures Terminated(lines) == Join(lines, '\n') + "\n"
    decreases |lines|
  {
    var front := lines[..|lines| - 1];
    if front != [] {
      TerminatedIsJoin(front);
      assert lines == front + [lines[|lines| - 1]];
      JoinSnoc(front, lines[|lines| - 1], '\n');
    } else {
      assert lines == [lines[0]];
    }
  }

  /**
   * Splitting newline-terminated, newline-free lines on newlines gives the
   * lines back, followed by the empty text after the last newline.
   */
  lemma TerminatedSplit(lines: seq<string>)
    requires forall k :: 0 <= k < |lines| ==> '\n' !in lines[k]
    ensures Split(Terminated(lines), '\n') == lines + [""]
  {
    if lines == [] {
      SplitJoin([""], '\n');
    } else {
      TerminatedIsJoin(lines);
      JoinSnoc(lines, "", '\n');
      assert Terminated(lines) == Join(lines + [""], '\n');
      assert forall k :: 0 <= k < |lines + [""]| ==> '\n' !in (lines + [""])[k];
      SplitJoin(lines + [""], '\n');
    }
  }

  /** No summary line holds a newline when the class name does not. */
  lemma DetectionLineNoNewline(d: Detection)
    requires '\n' !in d.className
    ensures '\n' !in DetectionLine(d)
  {
    IntToStringDigits(d.x1);
    IntToStringDigits(d.y1);
    IntToStringDigits(d.x2);
    IntToStringDigits(d.y2);
    ConcatAvoids(LinePieces(d), '\n');
  }

  /**
   * The summary has exactly one newline-terminated line per detection, in
   * detection order: splitting it on newlines gives the detection lines
   * followed by the empty text after the last newline. With no detection
   * the summary is the empty string.
   */
  lemma SummaryLines(ds: seq<Detection>)
    requires forall k :: 0 <= k < |ds| ==> '\n' !in ds[k].className
    ensures Split(Summary(ds), '\n') == Lines(ds) + [""]
    ensures ds == [] <==> Summary(ds) == ""
  {
    forall k | 0 <= k < |ds| ensures '\n' !in Lines(ds)[k] {
      DetectionLineNoNewline(ds[k]);
    }
    TerminatedSplit(Lines(ds));
    if ds != [] {
      assert |Summary(ds)| > 0 by { TerminatedIsJoin(Lines(ds)); }
    }
  }
}
