/** The recursive-descent recognizers of src/lib.rs, src/decoration.rs,
    src/quote.rs, src/list.rs and src/url.rs. They call one another through
    `NextSegment` (the crate's `segment`), so they live in one module. Each
    reads the input buffer `s` from index `i` on and either fails or returns
    what it built together with the index just past what it consumed; the
    rest of the input is `s[next..]`. `terms` is the enclosing construct's
    terminal set: closing literals matched ignoring ASCII case. */
module Parser {
  import opened Tree
  import opened Strings
  import opened Tags

  /** One of the terminal literals occurs at `i`. */
  predicate AtTerminal(s: seq<char>, i: nat, terms: seq<seq<char>>)
    decreases |terms|
  {
    |terms| > 0 && (MatchesAt(s, i, terms[0]) || AtTerminal(s, i, terms[1..]))
  }

  /** The opening literals of the coded segments (any case). A coded
      segment can only start where one of them occurs. */
  predicate Opener(s: seq<char>, i: nat)
  {
    MatchesAt(s, i, "[b]") || MatchesAt(s, i, "[i]") || MatchesAt(s, i, "[u]") ||
    MatchesAt(s, i, "[center]") || MatchesAt(s, i, "[color=") || MatchesAt(s, i, "[code]") ||
    MatchesAt(s, i, "[list") || MatchesAt(s, i, "[quote") || MatchesAt(s, i, "[url")
  }

  /** `parse`: `many1!(segment)` over the whole input, with no terminal. */
  function Parse(names: ColorNames, s: seq<char>): (r: Option<seq<Segment>>)
  {
    var body := Segments(names, s, 0, []);
    if |body.value| == 0 then None else Some(body.value)
  }

  /** `many0!(call!(segment, terms))`: segments one after another until the
      next one fails, which happens exactly at the end of the input or at a
      terminal. */
  function Segments(names: ColorNames, s: seq<char>, i: nat, terms: seq<seq<char>>): (r: Parsed<seq<Segment>>)
    requires i <= |s|
    ensures i <= r.next <= |s|
    ensures r.next == |s| || AtTerminal(s, r.next, terms)
    decreases |s| - i, 8
  {
    match NextSegment(names, s, i, terms)
    case None => Parsed([], i)
    case Some(p) =>
      var more := Segments(names, s, p.next, terms);
      Parsed([p.value] + more.value, more.next)
  }

  /** `segment`: nothing at the end of the input or at a terminal; otherwise
      a coded segment if one is recognised here, else a text run. */
  function NextSegment(names: ColorNames, s: seq<char>, i: nat, terms: seq<seq<char>>): (r: Option<Parsed<Segment>>)
    requires i <= |s|
    ensures r.None? <==> i == |s| || AtTerminal(s, i, terms)
    ensures r.Some? ==> i < r.value.next <= |s|
    decreases |s| - i, 7
  {
    if i == |s| || AtTerminal(s, i, terms) then None
    else
      var c := CodedSegment(names, s, i);
      if c.Some? then c
      else
        var t := TextSegment(names, s, i, terms);
        if t.Some? then Some(Parsed(Text(t.value.value), t.value.next)) else None
  }

  /** `text_segment`: fails on empty input; otherwise the text up to the first
      later index at which a terminal or a coded segment starts, or all of
      the input when there is none. The first character is always taken. */
  function TextSegment(names: ColorNames, s: seq<char>, i: nat, terms: seq<seq<char>>): (r: Option<Parsed<seq<char>>>)
    requires i <= |s|
    ensures r.Some? <==> i < |s|
    ensures r.Some? ==> i < r.value.next <= |s| && r.value.value == s[i..r.value.next]
    decreases |s| - i, 6
  {
    if i == |s| then None
    else
      var k := TextEnd(names, s, i + 1, terms);
      Some(Parsed(s[i..k], k))
  }

  /** The first index from `k` on at which the text run must stop. */
  function TextEnd(names: ColorNames, s: seq<char>, k: nat, terms: seq<seq<char>>): (r: nat)
    requires 0 < k <= |s|
    ensures k <= r <= |s|
    decreases |s| - k, 6
  {
    if k == |s| || StopsAt(names, s, k, terms) then k else TextEnd(names, s, k + 1, terms)
  }

  /** A text run stops where a terminal or a coded segment starts. */
  predicate StopsAt(names: ColorNames, s: seq<char>, k: nat, terms: seq<seq<char>>)
    requires k <= |s|
    decreases |s| - k, 5
  {
    AtTerminal(s, k, terms) || CodedSegment(names, s, k).Some?
  }

  /** `coded_segment`: decorations, code, list, quote and link, tried in
      that order; the first success wins. */
  function CodedSegment(names: ColorNames, s: seq<char>, i: nat): (r: Option<Parsed<Segment>>)
    requires i <= |s|
    ensures r.Some? ==> i < r.value.next <= |s| && Opener(s, i)
    decreases |s| - i, 4
  {
    var d := DecoratedTag(names, s, i);
    if d.Some? then d
    else
      var c := CodeTag(s, i);
      if c.Some? then c
      else
        var l := ListTag(names, s, i);
        if l.Some? then l
        else
          var q := QuoteTag(names, s, i);
          if q.Some? then q
          else UrlTag(names, s, i)
  }

  /** `decorated`: bold, italic, underline, center and color, in that order. */
  function DecoratedTag(names: ColorNames, s: seq<char>, i: nat): (r: Option<Parsed<Segment>>)
    requires i <= |s|
    ensures r.Some? ==> i < r.value.next <= |s| && r.value.value.Decorated?
    ensures r.Some? ==> MatchesAt(s, i, "[b]") || MatchesAt(s, i, "[i]") || MatchesAt(s, i, "[u]") ||
                        MatchesAt(s, i, "[center]") || MatchesAt(s, i, "[color=")
    decreases |s| - i, 3
  {
    var b := BoldTag(names, s, i);
    if b.Some? then Some(Parsed(Decorated(Bold, b.value.value), b.value.next))
    else
      var it := ItalicTag(names, s, i);
      if it.Some? then Some(Parsed(Decorated(Italic, it.value.value), it.value.next))
      else
        var u := UnderlineTag(names, s, i);
        if u.Some? then Some(Parsed(Decorated(Underline, u.value.value), u.value.next))
        else
          var c := CenterTag(names, s, i);
          if c.Some? then Some(Parsed(Decorated(Center, c.value.value), c.value.next))
          else ColorTag(names, s, i)
  }

  /** The `simple_tag` shape: the opening literal (any case), the body
      parsed with the closing literal as terminal, then the closing literal
      (any case). */
  function SimpleTag(names: ColorNames, s: seq<char>, i: nat, open: seq<char>, close: seq<char>): (r: Option<Parsed<seq<Segment>>>)
    requires i <= |s| && |open| > 0
    ensures r.Some? ==> MatchesAt(s, i, open) && i < r.value.next <= |s|
    ensures r.Some? ==> r.value.next >= i + |open| + |close| && MatchesAt(s, r.value.next - |close|, close)
    decreases |s| - i, 1
  {
    if !MatchesAt(s, i, open) then None
    else
      var body := Segments(names, s, i + |open|, [close]);
      if MatchesAt(s, body.next, close) then Some(Parsed(body.value, body.next + |close|))
      else None
  }

  /** `bold`: `[b]...[/b]`. */
  function BoldTag(names: ColorNames, s: seq<char>, i: nat): (r: Option<Parsed<seq<Segment>>>)
    requires i <= |s|
    ensures r.Some? ==> MatchesAt(s, i, "[b]") && i < r.value.next <= |s|
    decreases |s| - i, 2
  {
    SimpleTag(names, s, i, "[b]", "[/b]")
  }

  /** `italic`: `[i]...[/i]`. */
  function ItalicTag(names: ColorNames, s: seq<char>, i: nat): (r: Option<Parsed<seq<Segment>>>)
    requires i <= |s|
    ensures r.Some? ==> MatchesAt(s, i, "[i]") && i < r.value.next <= |s|
    decreases |s| - i, 2
  {
    SimpleTag(names, s, i, "[i]", "[/i]")
  }

  /** `underline`: `[u]...[/u]`. */
  function UnderlineTag(names: ColorNames, s: seq<char>, i: nat): (r: Option<Parsed<seq<Segment>>>)
    requires i <= |s|
    ensures r.Some? ==> MatchesAt(s, i, "[u]") && i < r.value.next <= |s|
    decreases |s| - i, 2
  {
    SimpleTag(names, s, i, "[u]", "[/u]")
  }

  /** `center`: `[center]...[/center]`. */
  function CenterTag(names: ColorNames, s: seq<char>, i: nat): (r: Option<Parsed<seq<Segment>>>)
    requires i <= |s|
    ensures r.Some? ==> MatchesAt(s, i, "[center]") && i < r.value.next <= |s|
    decreases |s| - i, 2
  {
    SimpleTag(names, s, i, "[center]", "[/center]")
  }

  /** `color`: the color head, the body parsed with terminal `[/color]`, then
      `[/color]` (any case). */
  function ColorTag(names: ColorNames, s: seq<char>, i: nat): (r: Option<Parsed<Segment>>)
    requires i <= |s|
    ensures r.Some? ==> MatchesAt(s, i, "[color=") && i < r.value.next <= |s|
    ensures r.Some? ==> r.value.value.Decorated? && r.value.value.style.Color?
    ensures r.Some? ==> r.value.next >= i + 8 && MatchesAt(s, r.value.next - 8, "[/color]")
    decreases |s| - i, 2
  {
    match ColorHead(names, s, i)
    case None => None
    case Some(h) =>
      var body := Segments(names, s, h.next, ["[/color]"]);
      if MatchesAt(s, body.next, "[/color]") then
        Some(Parsed(Decorated(Color(h.value.r, h.value.g, h.value.b), body.value), body.next + 8))
      else None
  }

  /** `quote`: the quote head, the body parsed with terminal `[/quote]`, then
      `[/quote]` (any case). */
  function QuoteTag(names: ColorNames, s: seq<char>, i: nat): (r: Option<Parsed<Segment>>)
    requires i <= |s|
    ensures r.Some? ==> MatchesAt(s, i, "[quote") && i < r.value.next <= |s| && r.value.value.Quote?
    ensures r.Some? ==> r.value.next >= i + 8 && MatchesAt(s, r.value.next - 8, "[/quote]")
    decreases |s| - i, 3
  {
    match QuoteHead(s, i)
    case None => None
    case Some(h) =>
      var body := Segments(names, s, h.next, ["[/quote]"]);
      if MatchesAt(s, body.next, "[/quote]") then Some(Parsed(Quote(h.value, body.value), body.next + 8))
      else None
  }

  /** `list`: the list head, the items, then `[/list]` (any case). */
  function ListTag(names: ColorNames, s: seq<char>, i: nat): (r: Option<Parsed<Segment>>)
    requires i <= |s|
    ensures r.Some? ==> MatchesAt(s, i, "[list") && i < r.value.next <= |s| && r.value.value.List?
    ensures r.Some? ==> r.value.next >= i + 7 && MatchesAt(s, r.value.next - 7, "[/list]")
    decreases |s| - i, 3
  {
    match ListHead(s, i)
    case None => None
    case Some(h) =>
      var items := ListItems(names, s, h.next);
      if MatchesAt(s, items.next, "[/list]") then Some(Parsed(List(h.value, items.value), items.next + 7))
      else None
  }

  /** `many0!(preceded!(tag_no_case!("[*]"), many0!(call!(segment, ...))))`:
      each item is `[*]` followed by segments up to the next `[*]` or
      `[/list]`, whichever comes first. */
  function ListItems(names: ColorNames, s: seq<char>, i: nat): (r: Parsed<seq<Item>>)
    requires i <= |s|
    ensures i <= r.next <= |s| && !MatchesAt(s, r.next, "[*]")
    decreases |s| - i, 2
  {
    if !MatchesAt(s, i, "[*]") then Parsed([], i)
    else
      var item := Segments(names, s, i + 3, ["[*]", "[/list]"]);
      var more := ListItems(names, s, item.next);
      Parsed([Item(item.value)] + more.value, more.next)
  }

  /** `url`: the bare, quoted-target and unquoted-target forms, in that
      order. */
  function UrlTag(names: ColorNames, s: seq<char>, i: nat): (r: Option<Parsed<Segment>>)
    requires i <= |s|
    ensures r.Some? ==> MatchesAt(s, i, "[url") && i < r.value.next <= |s| && r.value.value.Link?
    ensures r.Some? ==> r.value.next >= i + 6 && MatchesAt(s, r.value.next - 6, "[/url]")
    decreases |s| - i, 3
  {
    var bare := UrlBare(s, i);
    if bare.Some? then bare
    else
      var quoted := UrlQuoted(names, s, i);
      if quoted.Some? then quoted
      else UrlUnquoted(names, s, i)
  }

  /** `[url]body[/url]`: the body, verbatim up to the first `[/url]` (any
      case), is both the target and the only text segment. */
  function UrlBare(s: seq<char>, i: nat): (r: Option<Parsed<Segment>>)
    requires i <= |s|
    ensures r.Some? ==> MatchesAt(s, i, "[url]") && i < r.value.next <= |s| && r.value.value.Link?
    ensures r.Some? ==> r.value.next >= i + 6 && MatchesAt(s, r.value.next - 6, "[/url]")
  {
    if !MatchesAt(s, i, "[url]") then None
    else
      match FindNoCase(s, "[/url]", i + 5)
      case None => None
      case Some(k) =>
        if MatchesAt(s, k, "[/url]") then Some(Parsed(Link(s[i + 5..k], [Text(s[i + 5..k])]), k + 6))
        else None
  }

  /** `[url="target"]text[/url]`: the target runs to the first `"]`; the text
      is parsed with terminal `[/url]`. */
  function UrlQuoted(names: ColorNames, s: seq<char>, i: nat): (r: Option<Parsed<Segment>>)
    requires i <= |s|
    ensures r.Some? ==> MatchesAt(s, i, "[url=\"") && i < r.value.next <= |s| && r.value.value.Link?
    ensures r.Some? ==> r.value.next >= i + 6 && MatchesAt(s, r.value.next - 6, "[/url]")
    decreases |s| - i, 2
  {
    if !MatchesAt(s, i, "[url=\"") then None
    else
      match FindExact(s, "\"]", i + 6)
      case None => None
      case Some(k) =>
        var body := Segments(names, s, k + 2, ["[/url]"]);
        if MatchesAt(s, body.next, "[/url]") then Some(Parsed(Link(s[i + 6..k], body.value), body.next + 6))
        else None
  }

  /** `[url=target]text[/url]`: the target runs to the first `]`, quotes
      included; the text is parsed with terminal `[/url]`. */
  function UrlUnquoted(names: ColorNames, s: seq<char>, i: nat): (r: Option<Parsed<Segment>>)
    requires i <= |s|
    ensures r.Some? ==> MatchesAt(s, i, "[url=") && i < r.value.next <= |s| && r.value.value.Link?
    ensures r.Some? ==> r.value.next >= i + 6 && MatchesAt(s, r.value.next - 6, "[/url]")
    decreases |s| - i, 2
  {
    if !MatchesAt(s, i, "[url=") then None
    else
      match FindExact(s, "]", i + 5)
      case None => None
      case Some(k) =>
        var body := Segments(names, s, k + 1, ["[/url]"]);
        if MatchesAt(s, body.next, "[/url]") then Some(Parsed(Link(s[i + 5..k], body.value), body.next + 6))
        else None
  }

  /** The loop of `text_segment` (src/lib.rs:44-57): from the second
      character on, stop at the first index where a terminal or a coded
      segment starts; without one, take everything. */
  method ScanText(names: ColorNames, s: seq<char>, i: nat, terms: seq<seq<char>>) returns (r: Option<Parsed<seq<char>>>)
    requires i <= |s|
    ensures r == TextSegment(names, s, i, terms)
  {
    if i == |s| {
      return None;
    }
    var idx := i + 1;
    while idx < |s|
      invariant i < idx <= |s|
      invariant TextEnd(names, s, i + 1, terms) == TextEnd(names, s, idx, terms)
    {
      if StopsAt(names, s, idx, terms) {
        return Some(Parsed(s[i..idx], idx));
      }
      idx := idx + 1;
    }
    assert s[i..] == s[i..|s|];
    return Some(Parsed(s[i..], |s|));
  }
}
