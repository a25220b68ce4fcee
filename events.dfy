/** The calls a renderer makes on its hooks (the `Renderer` trait,
    src/render.rs:53-77), one constructor per hook. */
module Events {
  import opened Tree

  /** One hook call, with its argument. */
  datatype Event =
    | TextEvent(text: seq<char>)
    | DecorationBegin(style: DecorationStyle)
    | DecorationEnd(style: DecorationStyle)
    | QuoteBegin(attribution: Option<seq<char>>)
    | QuoteEnd(attribution: Option<seq<char>>)
    | CodeEvent(text: seq<char>)
    | ListBegin(listStyle: ListStyle)
    | ItemBegin(listStyle: ListStyle)
    | ItemEnd(listStyle: ListStyle)
    | ListEnd(listStyle: ListStyle)
    | LinkBegin(target: seq<char>)
    | LinkEnd(target: seq<char>)
    | ImageEvent(src: seq<char>)
}
