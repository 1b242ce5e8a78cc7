/**
 * Content units and the prompt rendering of `generate_test_cases`: the
 * loop that folds the extracted units into the `combined_content` text.
 */
module Content {
  import opened Strings

  /** A tag string other than the three the walkers emit. */
  type UnknownTag = s: string | s != "text" && s != "image_text" && s != "components" witness ""

  /**
   * The kind tag of a unit: the three tags the walkers emit (`"text"`,
   * `"image_text"`, `"components"`) and any other tag string.
   */
  datatype Tag = Text | ImageText | Components | Other(name: UnknownTag)

  /** One extracted piece of content: a kind tag and its text. */
  datatype Unit = Unit(tag: Tag, content: string)

  /** Text placed before an OCR unit's content. */
  const IMAGE_TEXT_PREFIX: string := "Image Text: "
  /** Text placed before a components unit's content. */
  const COMPONENTS_PREFIX: string := "UI Components:\n"
  /** Text placed after every rendered unit. */
  const UNIT_SUFFIX: string := "\n\n"

  predicate IsKnownTag(tag: Tag) {
    !tag.Other?
  }

  /** The text one unit contributes: its content framed by its kind's prefix and the blank-line suffix. */
  function RenderUnit(u: Unit): string {
    if u.tag == Text then u.content + UNIT_SUFFIX
    else if u.tag == ImageText then IMAGE_TEXT_PREFIX + u.content + UNIT_SUFFIX
    else if u.tag == Components then COMPONENTS_PREFIX + u.content + UNIT_SUFFIX
    else ""
  }

  /** The rendering of each unit, in order. */
  function Rendered(units: seq<Unit>): (r: seq<string>)
    ensures |r| == |units|
  {
    seq(|units|, k requires 0 <= k < |units| => RenderUnit(units[k]))
  }

  /** The rendered content of a unit sequence: the renderings of its units, one after the other. */
  function Render(units: seq<Unit>): string {
    Concat(Rendered(units))
  }

  lemma RenderStep(units: seq<Unit>, i: nat)
    requires i < |units|
    ensures Render(units[..i + 1]) == Render(units[..i]) + RenderUnit(units[i])
  {
    var r := Rendered(units[..i + 1]);
    assert r[..|r| - 1] == Rendered(units[..i]);
  }

  /** The rendering loop of `generate_test_cases`. */
  method RenderContent(contentSequence: seq<Unit>) returns (combinedContent: string)
    ensures combinedContent == Render(contentSequence)
  {
    combinedContent := "";
    var i := 0;
    assert contentSequence[..i] == [];
    while i < |contentSequence|
      invariant 0 <= i <= |contentSequence|
      invariant combinedContent == Render(contentSequence[..i])
    {
      var item := contentSequence[i];
      RenderStep(contentSequence, i);
      if item.tag == Text {
        combinedContent := combinedContent + (item.content + UNIT_SUFFIX);
      } else if item.tag == ImageText {
        combinedContent := combinedContent + (IMAGE_TEXT_PREFIX + item.content + UNIT_SUFFIX);
      } else if item.tag == Components {
        combinedContent := combinedContent + (COMPONENTS_PREFIX + item.content + UNIT_SUFFIX);
      }
      i := i + 1;
    }
    assert contentSequence[..i] == contentSequence;
  }

  /**
   * Rendering is in-order concatenation: the text of `a + b` is the text
   * of `a` followed by the text of `b`, so nothing is reordered, merged
   * or deduplicated.
   */
  lemma {:induction false} RenderAppend(a: seq<Unit>, b: seq<Unit>)
    ensures Render(a + b) == Render(a) + Render(b)
  {
    assert Rendered(a + b) == Rendered(a) + Rendered(b);
    ConcatAppend(Rendered(a), Rendered(b));
  }

  /** A unit renders to its content, framed, exactly when its tag is known; any other tag renders to nothing. */
  lemma RenderUnitFrames(u: Unit)
    ensures IsKnownTag(u.tag) <==> RenderUnit(u) != ""
    ensures IsKnownTag(u.tag) ==> EndsWith(RenderUnit(u), u.content + UNIT_SUFFIX)
  {
  }

  /** The units of a sequence whose tag is known, in order. */
  function KnownUnits(units: seq<Unit>): (r: seq<Unit>)
    ensures |r| <= |units|
    ensures forall k :: 0 <= k < |r| ==> IsKnownTag(r[k].tag)
  {
    if units == [] then []
    else KnownUnits(units[..|units| - 1]) + (if IsKnownTag(units[|units| - 1].tag) then [units[|units| - 1]] else [])
  }

  lemma RenderSingle(u: Unit)
    ensures Render([u]) == RenderUnit(u)
  {
    var r := [RenderUnit(u)];
    assert Rendered([u]) == r;
    assert r[..0] == [];
    assert Concat(r) == "" + RenderUnit(u);
  }

  /** Units with an unknown tag contribute nothing: dropping them leaves the rendering unchanged. */
  lemma {:induction false} RenderIgnoresUnknown(units: seq<Unit>)
    ensures Render(KnownUnits(units)) == Render(units)
  {
    if units != [] {
      var front, last := units[..|units| - 1], units[|units| - 1];
      var kept := if IsKnownTag(last.tag) then [last] else [];
      assert units == front + [last];
      assert KnownUnits(units) == KnownUnits(front) + kept;
      RenderIgnoresUnknown(front);
      RenderAppend(front, [last]);
      RenderAppend(KnownUnits(front), kept);
      RenderSingle(last);
      assert Render(kept) == Render([last]) by {
        if !IsKnownTag(last.tag) {
          assert Render([]) == "";
        }
      }
    }
  }

  /** Number of units carrying `tag`. */
  function CountTag(units: seq<Unit>, tag: Tag): (n: nat)
    ensures n <= |units|
  {
    if units == [] then 0
    else CountTag(units[..|units| - 1], tag) + (if units[|units| - 1].tag == tag then 1 else 0)
  }

  lemma {:induction false} CountTagAppend(a: seq<Unit>, b: seq<Unit>, tag: Tag)
    ensures CountTag(a + b, tag) == CountTag(a, tag) + CountTag(b, tag)
    decreases |b|
  {
    if b == [] {
      assert a + b == a;
    } else {
      assert (a + b)[..|a + b| - 1] == a + b[..|b| - 1];
      CountTagAppend(a, b[..|b| - 1], tag);
    }
  }
}
