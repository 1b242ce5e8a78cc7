/**
 * The response parser (`parse_test_cases`): turns the language model's
 * reply into test-case records, one per well-formed pipe-delimited line.
 */
module Parser {
  import opened Wrappers
  import opened Strings

  /** One row of the export: seven string fields, in column order. */
  datatype TestCase = TestCase(
    id: string,
    description: string,
    preconditions: string,
    steps: string,
    expectedResult: string,
    status: string,
    comments: string)

  /** Status given to every parsed record, whatever the reply says. */
  const NOT_EXECUTED: string := "Not yet executed"
  /** Comment placeholder given to every parsed record. */
  const NO_COMMENT: string := "-"
  /** Fewest `|`-separated segments a line needs to yield a record. */
  const MIN_SEGMENTS: nat := 5
  const LINE_SEP: char := '\n'
  const FIELD_SEP: char := '|'

  /** What one reply line contributes: a record, or nothing. */
  function ParseLine(line: string): Option<TestCase>
  {
    if Strip(line) == [] then None
    else
      var data := Split(line, FIELD_SEP);
      if |data| >= MIN_SEGMENTS then
        Some(TestCase(Strip(data[0]), Strip(data[1]), Strip(data[2]), Strip(data[3]), Strip(data[4]),
                      NOT_EXECUTED, NO_COMMENT))
      else None
  }

  function OptionToSeq<T>(o: Option<T>): seq<T> {
    if o.Some? then [o.value] else []
  }

  /** The records of a list of lines, in line order. */
  function ParseLines(lines: seq<string>): seq<TestCase>
  {
    if lines == [] then []
    else ParseLines(lines[..|lines| - 1]) + OptionToSeq(ParseLine(lines[|lines| - 1]))
  }

  /** The lines the parser looks at: the trimmed reply split on newlines. */
  function ReplyLines(reply: string): seq<string> {
    Split(Strip(reply), LINE_SEP)
  }

  /** Specification of `parse_test_cases`. */
  function ParseReply(reply: string): seq<TestCase> {
    ParseLines(ReplyLines(reply))
  }

  lemma ParseLinesStep(lines: seq<string>, i: nat)
    requires i < |lines|
    ensures ParseLines(lines[..i + 1]) == ParseLines(lines[..i]) + OptionToSeq(ParseLine(lines[i]))
  {
    assert lines[..i + 1][..i] == lines[..i];
  }

  /** `parse_test_cases`: the loop over the reply's lines. */
  method ParseTestCases(generatedOutput: string) returns (testCases: seq<TestCase>)
    ensures testCases == ParseReply(generatedOutput)
  {
    testCases := [];
    var lines := Split(Strip(generatedOutput), LINE_SEP);
    var i := 0;
    assert lines[..i] == [];
    assert testCases == ParseLines(lines[..i]);
    while i < |lines|
      invariant 0 <= i <= |lines|
      invariant testCases == ParseLines(lines[..i])
    {
      var line := lines[i];
      ghost var prev := testCases;
      if Strip(line) != [] {
        var data := Split(line, FIELD_SEP);
        if |data| >= MIN_SEGMENTS {
          var testCase := TestCase(Strip(data[0]), Strip(data[1]), Strip(data[2]),
                                   Strip(data[3]), Strip(data[4]), NOT_EXECUTED, NO_COMMENT);
          assert ParseLine(line) == Some(testCase);
          assert OptionToSeq(ParseLine(line)) == [testCase];
          testCases := testCases + [testCase];
        } else {
          assert ParseLine(line) == None;
          assert testCases + OptionToSeq(ParseLine(line)) == testCases;
        }
      } else {
        assert ParseLine(line) == None;
        assert testCases + OptionToSeq(ParseLine(line)) == testCases;
      }
      assert testCases == prev + OptionToSeq(ParseLine(line));
      ParseLinesStep(lines, i);
      i := i + 1;
    }
    assert lines[..i] == lines;
  }

  /**
   * A non-blank line made of at least five `|`-free segments yields exactly
   * one record: its first five fields are the trimmed segments 0 to 4,
   * later segments are ignored, and Status and Comments are the constants.
   */
  lemma ParseLineWellFormed(segments: seq<string>)
    requires |segments| >= MIN_SEGMENTS
    requires forall k :: 0 <= k < |segments| ==> FIELD_SEP !in segments[k]
    requires !IsBlank(Join(segments, FIELD_SEP))
    ensures ParseLine(Join(segments, FIELD_SEP)) ==
              Some(TestCase(Strip(segments[0]), Strip(segments[1]), Strip(segments[2]),
                            Strip(segments[3]), Strip(segments[4]), NOT_EXECUTED, NO_COMMENT))
  {
    SplitJoin(segments, FIELD_SEP);
    StripExists(Join(segments, FIELD_SEP));
  }

  /** A line with fewer than five segments (at most four `|`) yields no record. */
  lemma ParseLineShort(segments: seq<string>)
    requires 1 <= |segments| < MIN_SEGMENTS
    requires forall k :: 0 <= k < |segments| ==> FIELD_SEP !in segments[k]
    ensures ParseLine(Join(segments, FIELD_SEP)) == None
  {
    SplitJoin(segments, FIELD_SEP);
  }

  /** A line yields a record exactly when it is not blank and holds at least four `|`. */
  lemma ParseLineSome(line: string)
    ensures ParseLine(line).Some? <==> !IsBlank(line) && Count(line, FIELD_SEP) >= MIN_SEGMENTS - 1
  {
    StripExists(line);
  }

  /** Lines are parsed independently: the records of a concatenation are the concatenation of the records. */
  lemma {:induction false} ParseLinesAppend(a: seq<string>, b: seq<string>)
    ensures ParseLines(a + b) == ParseLines(a) + ParseLines(b)
    decreases |b|
  {
    if b == [] {
      assert a + b == a;
    } else {
      var b' := b[..|b| - 1];
      assert (a + b)[..|a + b| - 1] == a + b';
      ParseLinesAppend(a, b');
    }
  }

  /** Every record carries the fixed Status and Comments, whatever the reply. */
  lemma {:induction false} ParseLinesConstantFields(lines: seq<string>)
    ensures forall k :: 0 <= k < |ParseLines(lines)| ==>
              ParseLines(lines)[k].status == NOT_EXECUTED && ParseLines(lines)[k].comments == NO_COMMENT
  {
    if lines != [] {
      ParseLinesConstantFields(lines[..|lines| - 1]);
    }
  }

  /** There are never more records than lines. */
  lemma {:induction false} ParseLinesBound(lines: seq<string>)
    ensures |ParseLines(lines)| <= |lines|
  {
    if lines != [] {
      ParseLinesBound(lines[..|lines| - 1]);
    }
  }

  /** Lines that yield no record (blank or short) contribute nothing, wherever they stand. */
  lemma ParseLinesDropsMalformed(before: seq<string>, line: string, after: seq<string>)
    requires ParseLine(line) == None
    ensures ParseLines(before + [line] + after) == ParseLines(before) + ParseLines(after)
  {
    ParseLinesAppend(before + [line], after);
    ParseLinesAppend(before, [line]);
  }

  /** Whole-reply guarantees: a bounded number of records, each with the fixed Status and Comments. */
  lemma ParseReplyProperties(reply: string)
    ensures |ParseReply(reply)| <= |ReplyLines(reply)|
    ensures |ParseReply(reply)| <= Count(reply, LINE_SEP) + 1
    ensures forall k :: 0 <= k < |ParseReply(reply)| ==>
              ParseReply(reply)[k].status == NOT_EXECUTED && ParseReply(reply)[k].comments == NO_COMMENT
  {
    ParseLinesBound(ReplyLines(reply));
    ParseLinesConstantFields(ReplyLines(reply));
    StripCount(reply, LINE_SEP);
  }

  /** Cutting whitespace off the ends never adds occurrences of a character. */
  lemma StripCount(s: string, c: char)
    ensures Count(Strip(s), c) <= Count(s, c)
  {
    StripExists(s);
    var lo: nat, hi: nat :| IsStrippedSlice(s, lo, hi) && Strip(s) == s[lo..hi];
    CountSlice(s, lo, hi, c);
  }

  lemma CountSlice(s: string, lo: nat, hi: nat, c: char)
    requires lo <= hi <= |s|
    ensures Count(s[lo..hi], c) <= Count(s, c)
  {
    assert s[..hi] == s[..lo] + s[lo..hi];
    CountAppend(s[..lo], s[lo..hi], c);
    assert s == s[..hi] + s[hi..];
    CountAppend(s[..hi], s[hi..], c);
  }

  /** A blank reply, in particular the empty reply `""`, yields no record. */
  lemma ParseReplyBlank(reply: string)
    requires IsBlank(reply)
    ensures ParseReply(reply) == []
  {
    StripExists(reply);
    assert ReplyLines(reply) == [""] by { SplitJoin([""], LINE_SEP); }
  }

  /**
   * A reply that is a single non-blank line with no surrounding whitespace,
   * made of at least five `|`-free segments, parses to exactly one record.
   */
  lemma ParseReplySingleLine(segments: seq<string>)
    requires |segments| >= MIN_SEGMENTS
    requires forall k :: 0 <= k < |segments| ==> FIELD_SEP !in segments[k] && LINE_SEP !in segments[k]
    requires !IsBlank(Join(segments, FIELD_SEP))
    requires Strip(Join(segments, FIELD_SEP)) == Join(segments, FIELD_SEP)
    ensures ParseReply(Join(segments, FIELD_SEP)) ==
              [TestCase(Strip(segments[0]), Strip(segments[1]), Strip(segments[2]),
                        Strip(segments[3]), Strip(segments[4]), NOT_EXECUTED, NO_COMMENT)]
  {
    var line := Join(segments, FIELD_SEP);
    JoinAvoids(segments, FIELD_SEP, LINE_SEP);
    ReplyLinesSingle(line);
    ParseLinesSingle(line);
    ParseLineWellFormed(segments);
  }

  /** A trimmed reply without newlines is a single line. */
  lemma ReplyLinesSingle(line: string)
    requires LINE_SEP !in line && Strip(line) == line
    ensures ReplyLines(line) == [line]
  {
    SplitJoin([line], LINE_SEP);
  }

  lemma ParseLinesSingle(line: string)
    ensures ParseLines([line]) == OptionToSeq(ParseLine(line))
  {
    assert [line][..0] == [];
  }

  /** Joining pieces that avoid `c` with a separator other than `c` gives a string without `c`. */
  lemma {:induction false} JoinAvoids(parts: seq<string>, sep: char, c: char)
    requires c != sep
    requires forall k :: 0 <= k < |parts| ==> c !in parts[k]
    ensures c !in Join(parts, sep)
    decreases |parts|
  {
    if |parts| > 1 {
      JoinAvoids(parts[1..], sep, c);
    }
  }

  /** A non-empty string whose first and last characters are not whitespace is already trimmed. */
  lemma TrimmedEnds(s: string, first: char, last: char)
    requires s != [] && s[0] == first && s[|s| - 1] == last
    requires !IsSpace(first) && !IsSpace(last)
    ensures Strip(s) == s && !IsBlank(s)
  {
    StripUnchanged(s);
  }

  /** The reply line of the worked example, as its seven segments. */
  const EXAMPLE_SEGMENTS: seq<string> :=
    ["TC01", "Verify login", "User exists", "1. Enter credentials 2. Submit", "Login succeeds", "done", "foo"]

  lemma ExampleLineTrimmed()
    ensures Strip(Join(EXAMPLE_SEGMENTS, FIELD_SEP)) == Join(EXAMPLE_SEGMENTS, FIELD_SEP)
    ensures !IsBlank(Join(EXAMPLE_SEGMENTS, FIELD_SEP))
  {
    var segments := EXAMPLE_SEGMENTS;
    var line := Join(segments, FIELD_SEP);
    assert line == "TC01" + [FIELD_SEP] + Join(segments[1..], FIELD_SEP);
    assert Join(segments[1..], FIELD_SEP) == "Verify login" + [FIELD_SEP] + Join(segments[2..], FIELD_SEP);
    assert Join(segments[2..], FIELD_SEP) == "User exists" + [FIELD_SEP] + Join(segments[3..], FIELD_SEP);
    assert Join(segments[3..], FIELD_SEP) == "1. Enter credentials 2. Submit" + [FIELD_SEP] + Join(segments[4..], FIELD_SEP);
    assert Join(segments[4..], FIELD_SEP) == "Login succeeds" + [FIELD_SEP] + Join(segments[5..], FIELD_SEP);
    assert Join(segments[5..], FIELD_SEP) == "done" + [FIELD_SEP] + "foo";
    TrimmedEnds(line, 'T', 'o');
  }

  lemma ExampleSegmentsClean()
    ensures forall k :: 0 <= k < |EXAMPLE_SEGMENTS| ==>
              FIELD_SEP !in EXAMPLE_SEGMENTS[k] && LINE_SEP !in EXAMPLE_SEGMENTS[k]
  {
    ExampleNoFieldSep();
    ExampleNoLineSep();
  }

  lemma ExampleNoFieldSep()
    ensures forall k :: 0 <= k < |EXAMPLE_SEGMENTS| ==> FIELD_SEP !in EXAMPLE_SEGMENTS[k]
  {
    assert FIELD_SEP !in "TC01" && FIELD_SEP !in "Verify login" && FIELD_SEP !in "User exists";
    assert FIELD_SEP !in "1. Enter credentials" + " 2. Submit";
    assert FIELD_SEP !in "Login succeeds" && FIELD_SEP !in "done" && FIELD_SEP !in "foo";
  }

  lemma ExampleNoLineSep()
    ensures forall k :: 0 <= k < |EXAMPLE_SEGMENTS| ==> LINE_SEP !in EXAMPLE_SEGMENTS[k]
  {
    assert LINE_SEP !in "TC01" && LINE_SEP !in "Verify login" && LINE_SEP !in "User exists";
    assert LINE_SEP !in "1. Enter credentials" + " 2. Submit";
    assert LINE_SEP !in "Login succeeds" && LINE_SEP !in "done" && LINE_SEP !in "foo";
  }

  lemma ExampleFieldsTrimmed()
    ensures forall k :: 0 <= k < MIN_SEGMENTS ==> Strip(EXAMPLE_SEGMENTS[k]) == EXAMPLE_SEGMENTS[k]
  {
    TrimmedEnds("TC01", 'T', '1');
    TrimmedEnds("Verify login", 'V', 'n');
    TrimmedEnds("User exists", 'U', 's');
    TrimmedEnds("1. Enter credentials 2. Submit", '1', 't');
    TrimmedEnds("Login succeeds", 'L', 's');
  }

  /**
   * The worked example: the line `TC01|Verify login|User exists|1. Enter
   * credentials 2. Submit|Login succeeds|done|foo` (its seven segments joined
   * by `|`) gives one record built from the first five segments.
   */
  lemma ParseReplyExample()
    ensures ParseReply(Join(EXAMPLE_SEGMENTS, FIELD_SEP)) ==
              [TestCase("TC01", "Verify login", "User exists", "1. Enter credentials 2. Submit", "Login succeeds",
                        "Not yet executed", "-")]
  {
    ExampleLineTrimmed();
    ExampleSegmentsClean();
    ExampleFieldsTrimmed();
    ParseReplySingleLine(EXAMPLE_SEGMENTS);
  }
}
