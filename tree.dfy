/** The document tree that the parser builds (the `Segment` enum and the
    style enums of the Rust crate), plus the result shape shared by every
    recognizer. Text-bearing fields are character sequences cut out of the
    input rather than borrowed views. */
module Tree {

  /** An unsigned 8-bit value (Rust's `u8`). */
  newtype Byte = x: int | 0 <= x < 256

  datatype Option<T> = None | Some(value: T)

  /** A recognizer's success on an input buffer: the value it built and the
      index just past what it consumed; the rest of the input starts there. */
  datatype Parsed<T> = Parsed(value: T, next: nat)

  /** An sRGB triple, as the color parameter resolves to. */
  datatype Rgb = Rgb(r: Byte, g: Byte, b: Byte)

  /** Styles that can be applied to decorated spans. */
  datatype DecorationStyle = Bold | Italic | Underline | Center | Color(r: Byte, g: Byte, b: Byte)

  /** The general appearance of a list. */
  datatype ListStyle = Unordered | Numeric | Alphabetic

  /** One entry of a list: the segments after its `[*]`. */
  datatype Item = Item(body: seq<Segment>)

  /** One node of the document tree. */
  datatype Segment =
    | Text(span: seq<char>)
    | Decorated(style: DecorationStyle, body: seq<Segment>)
    | Quote(attribution: Option<seq<char>>, body: seq<Segment>)
    | Code(span: seq<char>)
    | List(listStyle: ListStyle, items: seq<Item>)
    | Link(target: seq<char>, body: seq<Segment>)
    | Image(src: seq<char>)
}
