/** The crate's error enumeration. Each variant carries the datum its message is
    formatted from rather than the formatted text. */
module Errors {
  import Html

  datatype Error =
    | IoError
    | VoxelTagNameParseError(tag: string)
    | VoxelAttributeNameParseError(attribute: string)
    | VoxelDataParseError(reason: string)
    | VoxelElementParseError(got: Html.Node)
    | VXStyleNameParseError(name: string)
}
