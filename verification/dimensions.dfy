/**
 * How parseSVG finds an icon's width and height (tasks/saxicon.js lines
 * 48-50): the root element's `viewBox` attribute is split on single spaces and
 * its third and fourth fields are taken as they are, as strings. No `width` or
 * `height` attribute is consulted.
 */
module Dimensions {
  import opened Wrappers
  import opened JsStrings

  /** Width and height as the viewBox spells them; `None` is `undefined`. */
  datatype Size = Size(width: Option<string>, height: Option<string>)

  /**
   * Line 48 either yields the size or throws a TypeError, when the root has no
   * attribute object or its attribute object has no `viewBox`.
   */
  datatype Extracted = Extracted(size: Size) | TypeError

  /** `fields[i]`, which is `undefined` past the end. */
  function Field(fields: seq<string>, i: nat): (r: Option<string>)
  {
    if i < |fields| then Some(fields[i]) else None
  }

  /** Lines 48-50, given the root element's attributes (`None`: it has none). */
  function ReadSize(rootAttributes: Option<map<string, string>>): (r: Extracted)
    ensures r.TypeError? <==> rootAttributes.None? || "viewBox" !in rootAttributes.value
  {
    match rootAttributes
    case None => TypeError
    case Some(attributes) =>
      if "viewBox" !in attributes then TypeError
      else
        var fields := Split(attributes["viewBox"], " ");
        Extracted(Size(Field(fields, 2), Field(fields, 3)))
  }

  /**
   * Four or more space-free fields joined by single spaces give back their
   * third and fourth fields, unparsed.
   */
  lemma {:induction false} SizeOfFields(attributes: map<string, string>, fields: seq<string>)
    requires |fields| >= 4
    requires forall k :: 0 <= k < |fields| ==> ' ' !in fields[k]
    requires "viewBox" in attributes && attributes["viewBox"] == Join(fields, " ")
    ensures ReadSize(Some(attributes)) == Extracted(Size(Some(fields[2]), Some(fields[3])))
  {
    SplitJoinChar(fields, ' ');
  }

  /**
   * The width is defined exactly when the viewBox holds at least two spaces,
   * the height exactly when it holds at least three.
   */
  lemma {:induction false} SizePresence(attributes: map<string, string>)
    requires "viewBox" in attributes
    ensures ReadSize(Some(attributes)).Extracted?
    ensures ReadSize(Some(attributes)).size.width.Some? <==> Count(attributes["viewBox"], ' ') >= 2
    ensures ReadSize(Some(attributes)).size.height.Some? <==> Count(attributes["viewBox"], ' ') >= 3
  {
    SplitCountChar(attributes["viewBox"], ' ');
  }

  /** `width` and `height` attributes make no difference. */
  lemma {:induction false} IgnoresWidthAndHeight(attributes: map<string, string>)
    ensures ReadSize(Some(attributes)) == ReadSize(Some(attributes - {"width", "height"}))
  {
    assert "viewBox" in attributes <==> "viewBox" in attributes - {"width", "height"};
  }

  /** `viewBox="0 0 40 40"` gives width "40" and height "40". */
  lemma {:induction false} SquareViewBox(attributes: map<string, string>)
    requires "viewBox" in attributes && attributes["viewBox"] == "0 0 40 40"
    ensures ReadSize(Some(attributes)) == Extracted(Size(Some("40"), Some("40")))
  {
    var fields := ["0", "0", "40", "40"];
    assert Join(fields, " ") == "0 0 40 40" by {
      assert fields[1..][1..][1..] == ["40"];
    }
    SizeOfFields(attributes, fields);
  }
}
