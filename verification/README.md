# voxel_html element tree, modelled in Dafny

This project models how voxel_html turns a parsed HTML tree into its own element
tree (`src/dom.rs`), and the "bridge" records that serialise the engine's vector,
quaternion and transform types (`src/macros.rs`).

- `Html.Node` is the parser's output tree. A node is an element (tag name, attributes
  in iteration order, ordered children), a text node, or some other node (a comment
  with its text, a doctype with its name and identifiers, a processing instruction
  with its target and data, a document, a fragment).
- `Dom` holds the closed tag vocabulary (`body`, `div`) and the closed attribute
  vocabulary (`style`). It has the recursive builder (`ConvertNode` for
  `TryFrom<NodeRef>`, `ConvertChildren` for the body of `children_from_impl!`), and
  `DataFromElement` for `TryFrom<ElementRef> for VoxelData`.
- `DomProperties` proves which trees convert and in what order children come out.
  It also proves which attributes survive, and what the document keeps of its root.
- `Macros` holds `or_else!` and the three bridge pairs with their round trips. It
  also holds the `json_stringify`/`json_parse` composition over an abstract JSON codec.
- `DomExamples` and `MacrosExamples` work through concrete trees and values, two of
  them (`BodyWithOneDiv`, `JsonBridgeVec3`) after the repository's own tests.

Behaviour of the code that a reader might not expect, and that the model follows:

- `VoxelData.elements` holds only the converted direct children of the selected root,
  and grandchildren stay nested inside them. It is not a flattened pre-order list of
  all descendants (src/dom.rs:147, src/dom.rs:206-215).
- The document's root is a fresh element carrying only the root's tag. The root's
  attributes are not copied (src/dom.rs:187).
- Only text children are skipped. Any other non-element child, such as a comment,
  fails the conversion (src/dom.rs:207-212, src/dom.rs:84-87).
- The only attribute kept is `style`, as an uninterpreted string. The code has no
  attribute-path projection into a transform.

Errors carry the value their message is formatted from (the unknown tag, the unknown
attribute name, the offending node) rather than the formatted text. The element
error's message is formatted from the node's own value (src/dom.rs:68,
src/dom.rs:84-87), which shows its kind and content but not its place in the tree;
`Html.OtherKind` carries exactly that.

## Model

| member | source | states |
|---|---|---|
| Dom.ParseTagName | src/dom.rs:15-21 | accepts exactly `body` and `div`, case-sensitively; success spells back to the input; any other name fails with a tag-name error naming it |
| DomProperties.TagNameRoundTrip | src/dom.rs:16-19 | each tag parses from its own spelling and from no other string |
| Dom.ParseAttributeName | src/dom.rs:32-40 | accepts exactly `style`; any other name fails with an attribute-name error naming it |
| DomProperties.AttributeNameRoundTrip | src/dom.rs:33-38 | each attribute name parses from its own spelling and from no other string |
| Dom.NewElement | src/dom.rs:51-57 | a fresh element has the given tag, no attributes and no children |
| Dom.KeepRecognised | src/dom.rs:73-77 | no contract of its own: it is pinned down by `KeepRecognisedKeys` (which names are kept) and `KeepRecognisedLastWins` (which value each keeps) |
| DomProperties.KeepRecognisedKeys | src/dom.rs:73-77 | a name is in the kept map iff some attribute parses to it |
| DomProperties.KeepRecognisedLastWins | src/dom.rs:73-77 | a kept name holds the value of the last attribute that parses to it, since a later insert replaces an earlier one |
| DomProperties.KeepRecognisedDistinctNames | src/dom.rs:73-77 | with distinct attribute names, every recognised attribute is kept with its own value |
| DomProperties.KeepRecognisedIgnoresUnknown | src/dom.rs:74 | inserting an unrecognised attribute at any position leaves the kept map unchanged |
| DomProperties.ConvertIgnoresUnknownAttribute | src/dom.rs:73-77 | an unrecognised attribute never causes an error and never changes the converted element |
| Dom.ConvertNode | src/dom.rs:67-88 | a non-element fails with an element error carrying the node; an unknown tag fails with that tag's error; on success the tag parses from the name and the attributes are the kept ones |
| DomProperties.ConvertElementStep | src/dom.rs:71-81 | one unfolding of `ConvertNode`, used as a proof step: an element converts iff its tag is known and its children convert, and then to its tag, kept attributes and converted children; with a known tag a failure among the children is the element's error, unchanged |
| DomProperties.ConvertBareElement | src/dom.rs:51-57 | an element with a known tag, no recognised attribute and only text children converts to a fresh element |
| Dom.ConvertChildren | src/dom.rs:205-216 | on success there is one output per non-text child |
| DomProperties.ChildrenSkipText | src/dom.rs:207-210 | one unfolding of `ConvertChildren`, used as a proof step: a leading text child is skipped without error |
| DomProperties.ChildrenConvertHead | src/dom.rs:212 | one unfolding of `ConvertChildren`, used as a proof step: a leading non-text child is converted first, and its failure is the result |
| DomProperties.ChildrenLoop | src/dom.rs:205-216 | the loop succeeds iff every non-text child converts; its outputs map the non-text children in order; otherwise it reports the first failure |
| DomProperties.ChildrenOkIff | src/dom.rs:206-215 | the children convert iff every non-text child does |
| DomProperties.ChildrenInOrder | src/dom.rs:206-215 | on success the i-th output is the conversion of the i-th non-text child |
| DomProperties.ChildrenFirstError | src/dom.rs:212 | a failure reports the error of the first failing non-text child, and all earlier ones convert |
| DomProperties.ChildrenStopAt | src/dom.rs:206-215 | when every child before position `i` is text or converts and the non-text child at `i` fails, the loop fails with that child's error |
| DomProperties.OtherChildFails | src/dom.rs:84-87 | a comment or other non-element, non-text child fails its known-tag parent with an element error carrying that child, once every earlier child is text or converts |
| DomProperties.ConvertedHasNothingRejected | src/dom.rs:67-88 | nothing in the subtree of a converted node is an unknown-tag element or a non-text, non-element node |
| DomProperties.FailureHasRejected | src/dom.rs:71 | an element that fails to convert has such a node in its subtree |
| DomProperties.ConvertOkIffNothingRejected | src/dom.rs:67-88 | a node converts iff it is an element and its subtree holds no unknown tag and no non-text, non-element node |
| DomProperties.RejectedDescendantFails | src/dom.rs:212 | one such node anywhere in the subtree fails the whole conversion, with no partial result |
| Dom.NewData | src/dom.rs:98-103 | a fresh document has a fresh root element with the given tag and no elements |
| Dom.DataFromElement | src/dom.rs:186-190 | an unknown root tag fails with its tag error; with a known tag a failure among the children becomes the document's error unchanged, and any failure is the root's own conversion error; on success the document's root has the selected root's tag and no attributes or children, and `elements` is the converted child list of the root |
| DomProperties.DataIsStrippedRoot | src/dom.rs:186-190 | the document is built iff the root converts, and then it is that conversion with the attributes dropped and the children moved to `elements` |
| DomProperties.DataElementsAreDirectChildren | src/dom.rs:147 | `elements` has one entry per non-text direct child of the root, in order, each the whole converted subtree |
| DomProperties.DocumentReportsFirstChildError | src/dom.rs:186-190 | with a known root tag, a document that fails reports the error of the first non-text direct child that fails to convert |
| DomExamples.BodyWithOneDiv | src/dom_test.rs:107 | a body holding one div between whitespace yields exactly one element, and the root keeps only its tag |
| DomExamples.GrandchildrenStayNested | src/dom.rs:206-215 | for nested divs, `elements` holds the two direct children and the grandchild stays nested |
| DomExamples.FatalChildren | src/dom.rs:84-87 | a comment child fails the element with an error carrying the comment, two different comments give different errors while equal comments in different places give equal ones, and an unknown tag two levels down fails the whole conversion |
| DomExamples.TagNamesAreExact | src/dom.rs:16-19 | `Body` and `span` are rejected, and `class` is not an attribute of the vocabulary |
| DomExamples.StyleIsKept | src/dom.rs:73-77 | among `class`, `style` and `id`, only `style` is kept |
| Macros.OrElse | src/macros.rs:8-15 | gives the wrapped value on `Ok` and the fallback on `Err` |
| Macros.Vec3ToBridge | src/macros.rs:24-32 | converting a vector to its bridge and back gives the same x, y and z |
| Macros.BridgeToVec3 | src/macros.rs:34-42 | no contract of its own: `Vec3ToBridge` and `Vec3BridgeRoundTrip` prove it the inverse of `Vec3ToBridge` |
| Macros.Vec3BridgeRoundTrip | src/macros.rs:34-42 | converting a vector bridge to a vector and back gives the same bridge |
| Macros.QuatToBridge | src/macros.rs:49-55 | the bridge array holds the components in x, y, z, w order, and converting back gives the same quaternion |
| Macros.BridgeToQuat | src/macros.rs:57-61 | no contract of its own: `QuatToBridge` and `QuatBridgeRoundTrip` prove it the inverse of `QuatToBridge` |
| Macros.QuatBridgeRoundTrip | src/macros.rs:57-61 | converting a quaternion bridge to a quaternion and back gives the same four entries |
| Macros.TransformToBridge | src/macros.rs:70-78 | converting a transform to its bridge and back gives the same translation, rotation and scale |
| Macros.BridgeToTransform | src/macros.rs:80-88 | no contract of its own: `TransformToBridge` and `TransformBridgeRoundTrip` prove it the inverse of `TransformToBridge` |
| Macros.TransformBridgeRoundTrip | src/macros.rs:80-88 | converting a transform bridge to a transform and back gives the same bridge |
| Macros.TransformBridgeNoSwap | src/macros.rs:72-76 | each bridge field depends only on the transform field of the same name, and vice versa |
| Macros.JsonStringify | src/macros.rs:114-116 | no contract of its own: `JsonRoundTrip` states what parsing its output gives back |
| Macros.JsonParse | src/macros.rs:118-120 | no contract of its own: `JsonRoundTrip` states that it inverts `JsonStringify` |
| Macros.JsonRoundTrip | src/macros.rs:114-120 | under a codec that round-trips on a domain, parsing what was stringified gives back the value, for any value whose bridge lies in the domain and converts back losslessly |
| Macros.Vec3JsonRoundTrip | src/macros.rs:129 | the same holds for vectors with finite leaves, through `Vec3Bridge`, when the codec round-trips bridges with finite leaves |
| Macros.QuatJsonRoundTrip | src/macros.rs:130 | the same holds for quaternions with finite leaves, through `QuatBridge` |
| Macros.TransformJsonRoundTrip | src/macros.rs:131 | the same holds for transforms with finite leaves, through `TransformBridge` |
| MacrosExamples.JsonBridgeVec3 | src/macros_test.rs:4-23 | the vector (22, 23, 24), whose leaves are finite, survives stringify-then-parse |
| MacrosExamples.FiniteExamples | src/macros.rs:114-120 | NaN and both infinities lie outside the round-trip domain; zero, negative zero and 22.0 lie inside it |
| MacrosExamples.OrElseExamples | src/macros.rs:10-13 | an `Ok` gives its value and an `Err` gives the fallback |

## Left out

- File reading, `FromStr for VoxelData` and `from_str_with_selector` (src/dom.rs:105-135, src/dom.rs:149-168): these are I/O plus the foreign HTML parser. The model starts from the parsed tree.
- HTML parse errors and the `<body>`/selector lookup (src/dom.rs:137-143, src/dom.rs:170-199): CSS selector evaluation is a foreign library. The selected root element is an input to `DataFromElement`.
- The `html5ever` parser lower-cases tag names. The model takes tag names as given, so upper-case names can reach `ParseTagName`, which rejects them.
- serde_json's text grammar: the codec is an abstract pair of functions. Round-tripping is a hypothesis (`RoundTrips`), not a proved fact, and it is taken only on a domain: the JSON lemmas assume it for bridges whose leaves are all finite (`Finite`, exponent field not all ones). serde_json writes a NaN or infinite `f32` as `null`, which does not parse back as a float, so nothing is claimed for such values.
- `inline_parse` (src/macros.rs:103-108, src/macros.rs:122-124): its body is `todo!()`.
- Macros.OrElse: its fallback is a value. The macro's fallback is an arbitrary expression that is only evaluated on `Err` and may itself return or jump (`continue`, `return`); that control flow is not modelled.
- `f32` arithmetic: leaves are only copied, so a float is its 32-bit pattern, compared for equality only.
- The `data-transform.*` attribute projection the tests read (src/dom_test.rs:39-111): `VoxelElement` has no `transform` field, so the code shown has no such behaviour.
- `src/errors.rs` is a plain enumeration, modelled as `Errors.Error`. `src/lib.rs` is module wiring. `src/utils_test.rs` tests a `utils` module that is not part of this model.
- The formatted text of error messages: each error carries the datum its message is formatted from.
