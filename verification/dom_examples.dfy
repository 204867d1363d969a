/** Concrete inputs for the builder; `BodyWithOneDiv` follows one of the repository's own tests. */
module DomExamples {
  import opened Wrappers
  import opened Errors
  import opened Html
  import opened Dom
  import opened DomProperties

  /** Tag names are compared case-sensitively and the vocabulary is closed. */
  lemma TagNamesAreExact()
    ensures ParseTagName("body") == Ok(Body) && ParseTagName("div") == Ok(Div)
    ensures ParseTagName("Body") == Err(VoxelTagNameParseError("Body"))
    ensures ParseTagName("span") == Err(VoxelTagNameParseError("span"))
    ensures ParseAttributeName("style") == Ok(Style)
    ensures ParseAttributeName("class") == Err(VoxelAttributeNameParseError("class"))
  {
  }

  /** A `<body>` holding one `<div>` between whitespace text: the document has
      exactly one element, and the root keeps its tag but not its attributes. */
  lemma BodyWithOneDiv()
    ensures
      var div := Element("div", [("style", "x")], [Text("\n")]);
      var body := Element("body", [("style", "y")], [Text("\n  "), div, Text("\n")]);
      DataFromElement(body) == Ok(VoxelData(NewElement(Body), [VoxelElement(Div, map[Style := "x"], [])]))
  {
    var div := Element("div", [("style", "x")], [Text("\n")]);
    var body := Element("body", [("style", "y")], [Text("\n  "), div, Text("\n")]);
    var t := Text("\n");
    assert [t][1..] == [];
    ChildrenSkipText([t]);
    assert ConvertChildren(div.children) == Ok([]);
    ConvertElementStep(div);
    assert ConvertNode(div) == Ok(VoxelElement(Div, map[Style := "x"], []));
    assert [div, t][1..] == [t];
    assert ConvertChildren([t]) == Ok([]);
    ChildrenConvertHead([div, t]);
    assert [VoxelElement(Div, map[Style := "x"], [])] + [] == [VoxelElement(Div, map[Style := "x"], [])];
    assert body.children[1..] == [div, t];
    ChildrenSkipText(body.children);
    assert ConvertChildren(body.children) == Ok([VoxelElement(Div, map[Style := "x"], [])]);
  }

  /** `<body><div a/><div b><div c/></div></body>`: `elements` holds the two direct
      children in order, and the grandchild stays nested under the second. */
  lemma GrandchildrenStayNested()
    ensures
      var a := Element("div", [], []);
      var c := Element("div", [], []);
      var b := Element("div", [], [c]);
      var body := Element("body", [], [a, b]);
      var leaf := NewElement(Div);
      DataFromElement(body) == Ok(VoxelData(NewElement(Body), [leaf, VoxelElement(Div, map[], [leaf])]))
  {
    var a := Element("div", [], []);
    var c := Element("div", [], []);
    var b := Element("div", [], [c]);
    var body := Element("body", [], [a, b]);
    var leaf := NewElement(Div);
    ConvertBareElement("div", [], []);
    assert ConvertNode(c) == Ok(leaf);
    assert [c][1..] == [];
    assert ConvertChildren([]) == Ok([]);
    ChildrenConvertHead([c]);
    assert [leaf] + [] == [leaf];
    assert ConvertChildren([c]) == Ok([leaf]);
    ConvertElementStep(b);
    assert ConvertNode(b) == Ok(VoxelElement(Div, map[], [leaf]));
    var converted := VoxelElement(Div, map[], [leaf]);
    assert [b][1..] == [];
    ChildrenConvertHead([b]);
    assert [converted] + [] == [converted];
    assert ConvertChildren([b]) == Ok([converted]);
    assert [a, b][1..] == [b];
    ChildrenConvertHead([a, b]);
    assert [leaf] + [converted] == [leaf, converted];
    assert ConvertChildren(body.children) == Ok([leaf, VoxelElement(Div, map[], [leaf])]);
  }

  /** A comment child is fatal, and so is an unknown tag two levels down. */
  lemma FatalChildren()
    ensures ConvertNode(Element("div", [], [Text("t"), Other(Comment(" note "))])) == Err(VoxelElementParseError(Other(Comment(" note "))))
    ensures ConvertNode(Element("div", [], [Other(Comment("a"))])) != ConvertNode(Element("div", [], [Other(Comment("b"))]))
    ensures ConvertNode(Element("div", [], [Text("a"), Other(Comment("x"))])) == ConvertNode(Element("body", [], [Other(Comment("x"))]))
    ensures
      var deep := Element("div", [], [Element("div", [], [Element("span", [], [])])]);
      ConvertNode(deep) == Err(VoxelTagNameParseError("span"))
  {
  }

  /** Only `style` is kept; `class` is dropped without error. */
  lemma StyleIsKept()
    ensures KeepRecognised([("class", "a"), ("style", "color: red"), ("id", "b")]) == map[Style := "color: red"]
  {
    var attrs := [("class", "a"), ("style", "color: red"), ("id", "b")];
    assert attrs[..2][..1] == [("class", "a")];
    assert KeepRecognised(attrs[..2][..1]) == map[];
    assert attrs[..2] == [("class", "a"), ("style", "color: red")];
    assert KeepRecognised(attrs[..2]) == map[Style := "color: red"];
  }
}
