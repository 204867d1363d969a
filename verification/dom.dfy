/** The crate's own element tree and its construction from an already-parsed
    markup tree: closed tag and attribute vocabularies, the recursive element
    builder, and the document built from a selected root element. */
module Dom {
  import opened Wrappers
  import opened Errors
  import opened Html

  /** Recognised tag names. */
  datatype TagName = Body | Div

  /** The markup spelling of a recognised tag. */
  function TagNameText(t: TagName): string {
    match t
    case Body => "body"
    case Div => "div"
  }

  /** Parses a tag name; exactly the two recognised spellings are accepted,
      compared case-sensitively, and every other name is an error naming it. */
  function ParseTagName(s: string): (r: Result<TagName, Error>)
    ensures r.Ok? <==> s == "body" || s == "div"
    ensures r.Ok? ==> TagNameText(r.value) == s
    ensures r.Err? ==> r.error == VoxelTagNameParseError(s)
  {
    match s
    case "body" => Ok(Body)
    case "div" => Ok(Div)
    case _ => Err(VoxelTagNameParseError(s))
  }

  /** Recognised attribute names. */
  datatype AttributeName = Style

  /** The markup spelling of a recognised attribute. */
  function AttributeNameText(a: AttributeName): string {
    match a
    case Style => "style"
  }

  /** Parses an attribute name; only `style` is accepted. */
  function ParseAttributeName(s: string): (r: Result<AttributeName, Error>)
    ensures r.Ok? <==> s == "style"
    ensures r.Ok? ==> AttributeNameText(r.value) == s
    ensures r.Err? ==> r.error == VoxelAttributeNameParseError(s)
  {
    match s
    case "style" => Ok(Style)
    case _ => Err(VoxelAttributeNameParseError(s))
  }

  /** An element of the crate's tree: its tag, its recognised attributes and its
      converted element children. */
  datatype VoxelElement = VoxelElement(
    tag: TagName,
    attributes: map<AttributeName, string>,
    children: seq<VoxelElement>)

  /** A fresh element carrying only its tag. */
  function NewElement(tag: TagName): (e: VoxelElement)
    ensures e.tag == tag && e.attributes == map[] && e.children == []
  {
    VoxelElement(tag, map[], [])
  }

  /** The attribute map built by inserting, in iteration order, every attribute
      whose name parses; other attributes are dropped. A later insertion under
      the same name replaces an earlier one. */
  function KeepRecognised(attrs: seq<(string, string)>): map<AttributeName, string>
    decreases |attrs|
  {
    if |attrs| == 0 then map[]
    else
      var m := KeepRecognised(attrs[..|attrs| - 1]);
      var (key, val) := attrs[|attrs| - 1];
      match ParseAttributeName(key)
      case Ok(name) => m[name := val]
      case Err(_) => m
  }

  /** Converts one node of the parsed tree. The tag is resolved first and an
      unknown tag is fatal; recognised attributes are kept; then the children are
      converted, and any failure among them fails the element. A node that is not
      an element is an error. */
  function ConvertNode(n: Node): (r: Result<VoxelElement, Error>)
    ensures !n.Element? ==> r == Err(VoxelElementParseError(n))
    ensures n.Element? && ParseTagName(n.name).Err? ==> r == Err(VoxelTagNameParseError(n.name))
    ensures r.Ok? ==>
      && n.Element?
      && ParseTagName(n.name) == Ok(r.value.tag)
      && r.value.attributes == KeepRecognised(n.attrs)
      && |r.value.children| == |NonText(n.children)|
    decreases n
  {
    match n
    case Element(name, attrs, children) =>
      var tag :- ParseTagName(name);
      var ve := NewElement(tag).(attributes := KeepRecognised(attrs));
      var converted :- ConvertChildren(children);
      Ok(ve.(children := converted))
    case _ => Err(VoxelElementParseError(n))
  }

  /** Converts a sequence of children in order: text nodes are skipped, every
      other node is converted, and the first failure ends the conversion. */
  function ConvertChildren(cs: seq<Node>): (r: Result<seq<VoxelElement>, Error>)
    ensures r.Ok? ==> |r.value| == |NonText(cs)|
    decreases cs
  {
    if |cs| == 0 then Ok([])
    else if cs[0].Text? then
      assert NonText(cs) == NonText(cs[1..]);
      ConvertChildren(cs[1..])
    else
      var head :- ConvertNode(cs[0]);
      var tail :- ConvertChildren(cs[1..]);
      Ok([head] + tail)
  }

  /** The document: a root element and the converted children of the selected root. */
  datatype VoxelData = VoxelData(root: VoxelElement, elements: seq<VoxelElement>)

  /** A fresh document whose root carries only the tag. */
  function NewData(tag: TagName): (d: VoxelData)
    ensures d.root == NewElement(tag) && d.elements == []
  {
    VoxelData(NewElement(tag), [])
  }

  /** Builds the document from a selected root element: the root keeps only its
      tag, and `elements` receives the converted direct children of the root. */
  function DataFromElement(root: Node): (r: Result<VoxelData, Error>)
    requires root.Element?
    ensures ParseTagName(root.name).Err? ==> r == Err(VoxelTagNameParseError(root.name))
    ensures ParseTagName(root.name).Ok? && ConvertChildren(root.children).Err? ==>
      r == Err(ConvertChildren(root.children).error)
    ensures r.Err? ==> ConvertNode(root) == Err(r.error)
    ensures r.Ok? ==>
      && ParseTagName(root.name) == Ok(r.value.root.tag)
      && r.value.root.attributes == map[] && r.value.root.children == []
      && ConvertChildren(root.children) == Ok(r.value.elements)
  {
    var tag :- ParseTagName(root.name);
    var elements :- ConvertChildren(root.children);
    Ok(NewData(tag).(elements := elements))
  }
}
