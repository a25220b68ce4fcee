/** The HTML sink of src/render.rs (`SimpleHtml`): every hook appends to one
    output buffer. Writes into the buffer never fail here; the failure of a
    hook is the business of the traversal in module Render. */
module Html {
  import opened Tree
  import opened Strings
  import opened Tags

  /** Characters that `text` escapes, and what it writes for each. */
  const TextEscapes: seq<char> := ['&', '<', '>', '\n']
  const TextReplacements: seq<seq<char>> := ["&amp;", "&lt;", "&gt;", "<br>"]

  /** Characters that `image` escapes in the source address, and what it
      writes for each. */
  const AttrEscapes: seq<char> := ['<', '>', '"']
  const AttrReplacements: seq<seq<char>> := ["&lt;", "&gt;", "&quot;"]

  /** The first position of `c` among the escapes (the
      `iter().enumerate().find` of `write_escaped`). */
  function IndexOf(es: seq<char>, c: char): (k: nat)
    requires c in es
    ensures k < |es| && es[k] == c
    ensures forall j :: 0 <= j < k ==> es[j] != c
  {
    if es[0] == c then 0 else 1 + IndexOf(es[1..], c)
  }

  /** What `write_escaped` writes for one character. */
  function EscapeChar(c: char, es: seq<char>, rs: seq<seq<char>>): seq<char>
    requires |es| == |rs|
  {
    if c in es then rs[IndexOf(es, c)] else [c]
  }

  /** The whole of what `write_escaped` writes for `s`: each character that
      is an escape replaced by its paired replacement, every other character
      kept. */
  function Escaped(s: seq<char>, es: seq<char>, rs: seq<seq<char>>): seq<char>
    requires |es| == |rs|
    decreases |s|
  {
    if s == [] then [] else Escaped(s[..|s| - 1], es, rs) + EscapeChar(s[|s| - 1], es, rs)
  }

  /** `str::find` with a set of characters: the first index from `from` on
      that holds an escape. */
  function FirstEscape(s: seq<char>, es: seq<char>, from: nat): (r: Option<nat>)
    ensures r.Some? ==> from <= r.value < |s| && s[r.value] in es
    ensures r.Some? ==> forall j :: from <= j < r.value ==> s[j] !in es
    ensures r.None? ==> forall j :: from <= j < |s| ==> s[j] !in es
    decreases |s| - from
  {
    if from >= |s| then None
    else if s[from] in es then Some(from)
    else FirstEscape(s, es, from + 1)
  }

  /** Escaping distributes over concatenation. */
  lemma {:induction false} EscapedAppend(a: seq<char>, b: seq<char>, es: seq<char>, rs: seq<seq<char>>)
    requires |es| == |rs|
    ensures Escaped(a + b, es, rs) == Escaped(a, es, rs) + Escaped(b, es, rs)
    decreases |b|
  {
    if b == [] {
      assert a + b == a;
    } else {
      var b' := b[..|b| - 1];
      var c := b[|b| - 1];
      assert a + b == (a + b') + [c];
      EscapedSnoc(a + b', c, es, rs);
      EscapedAppend(a, b', es, rs);
      EscapedSnoc(b', c, es, rs);
      assert b' + [c] == b;
    }
  }

  /** Text without escape characters is written unchanged. */
  lemma {:induction false} EscapedPlain(s: seq<char>, es: seq<char>, rs: seq<seq<char>>)
    requires |es| == |rs|
    requires forall j :: 0 <= j < |s| ==> s[j] !in es
    ensures Escaped(s, es, rs) == s
    decreases |s|
  {
    if s != [] {
      EscapedPlain(s[..|s| - 1], es, rs);
      assert s[..|s| - 1] + [s[|s| - 1]] == s;
    }
  }

  /** Escaping one more character writes that character's replacement. */
  lemma EscapedSnoc(s: seq<char>, c: char, es: seq<char>, rs: seq<seq<char>>)
    requires |es| == |rs|
    ensures Escaped(s + [c], es, rs) == Escaped(s, es, rs) + EscapeChar(c, es, rs)
  {
    assert (s + [c])[..|s + [c]| - 1] == s;
  }

  /** Escaping a character in front of a string. */
  lemma EscapedCons(c: char, s: seq<char>, es: seq<char>, rs: seq<seq<char>>)
    requires |es| == |rs|
    ensures Escaped([c] + s, es, rs) == EscapeChar(c, es, rs) + Escaped(s, es, rs)
  {
    EscapedAppend([c], s, es, rs);
    assert Escaped([c], es, rs) == Escaped([], es, rs) + EscapeChar(c, es, rs);
  }

  /** One round of `write_escaped`: text without escapes, then an escape,
      which is written as its replacement. */
  lemma EscapedChunk(a: seq<char>, m: seq<char>, c: char, es: seq<char>, rs: seq<seq<char>>)
    requires |es| == |rs| && c in es
    requires forall j :: 0 <= j < |m| ==> m[j] !in es
    ensures Escaped(a + m + [c], es, rs) == Escaped(a, es, rs) + m + rs[IndexOf(es, c)]
  {
    EscapedSnoc(a + m, c, es, rs);
    EscapedAppend(a, m, es, rs);
    EscapedPlain(m, es, rs);
  }

  /** The last write of `write_escaped`: a rest without escapes is written
      as it is. */
  lemma EscapedRest(a: seq<char>, m: seq<char>, es: seq<char>, rs: seq<seq<char>>)
    requires |es| == |rs|
    requires forall j :: 0 <= j < |m| ==> m[j] !in es
    ensures Escaped(a + m, es, rs) == Escaped(a, es, rs) + m
  {
    EscapedAppend(a, m, es, rs);
    EscapedPlain(m, es, rs);
  }

  /** The buffer after one round of `write_escaped` that stops at the
      escape at `k`. */
  lemma WriteStep(o: seq<char>, s: seq<char>, pos: nat, k: nat, es: seq<char>, rs: seq<seq<char>>)
    requires |es| == |rs| && pos <= k < |s| && s[k] in es
    requires forall j :: pos <= j < k ==> s[j] !in es
    ensures o + Escaped(s[..k + 1], es, rs) == (o + Escaped(s[..pos], es, rs)) + s[pos..k] + rs[IndexOf(es, s[k])]
  {
    assert s[..k + 1] == s[..pos] + s[pos..k] + [s[k]];
    EscapedChunk(s[..pos], s[pos..k], s[k], es, rs);
  }

  /** The buffer after the last write of `write_escaped`. */
  lemma WriteLast(o: seq<char>, s: seq<char>, pos: nat, es: seq<char>, rs: seq<seq<char>>)
    requires |es| == |rs| && pos <= |s|
    requires forall j :: pos <= j < |s| ==> s[j] !in es
    ensures o + Escaped(s, es, rs) == (o + Escaped(s[..pos], es, rs)) + s[pos..]
  {
    assert s == s[..pos] + s[pos..];
    EscapedRest(s[..pos], s[pos..], es, rs);
  }

  /** What `text` writes: `&`, `<`, `>` and line breaks escaped. */
  function TextHtml(s: seq<char>): seq<char>
  {
    Escaped(s, TextEscapes, TextReplacements)
  }

  /** What `image` writes for the source address: `<`, `>` and `"`
      escaped. */
  function AttrHtml(s: seq<char>): seq<char>
  {
    Escaped(s, AttrEscapes, AttrReplacements)
  }

  /** The decoder that undoes `text`: each of the four replacements read
      back as its character, every other character kept. */
  function Unescape(t: seq<char>): seq<char>
    decreases |t|
  {
    if t == [] then []
    else if |t| >= 5 && t[..5] == "&amp;" then ['&'] + Unescape(t[5..])
    else if |t| >= 4 && t[..4] == "&lt;" then ['<'] + Unescape(t[4..])
    else if |t| >= 4 && t[..4] == "&gt;" then ['>'] + Unescape(t[4..])
    else if |t| >= 4 && t[..4] == "<br>" then ['\n'] + Unescape(t[4..])
    else [t[0]] + Unescape(t[1..])
  }

  /** Decoding after one escaped character gives that character back. */
  lemma UnescapeStep(c: char, rest: seq<char>)
    ensures Unescape(EscapeChar(c, TextEscapes, TextReplacements) + rest) == [c] + Unescape(rest)
  {
    var e := EscapeChar(c, TextEscapes, TextReplacements);
    var t := e + rest;
    assert t[..|e|] == e;
    if c == '&' {
      assert e == "&amp;";
      assert t[5..] == rest;
    } else if c == '<' {
      assert e == "&lt;";
      assert |t| < 5 || t[..5] != "&amp;" by { assert |t| < 5 || t[..5][1] == 'l'; }
      assert t[4..] == rest;
    } else if c == '>' {
      assert e == "&gt;";
      assert |t| < 5 || t[..5] != "&amp;" by { assert |t| < 5 || t[..5][1] == 'g'; }
      assert t[..4] != "&lt;" by { assert t[..4][1] == 'g'; }
      assert t[4..] == rest;
    } else if c == '\n' {
      assert e == "<br>";
      assert t[..4] != "&lt;" && t[..4] != "&gt;" by { assert t[..4][0] == '<'; }
      assert |t| < 5 || t[..5] != "&amp;" by { assert t[0] == '<'; }
      assert t[4..] == rest;
    } else {
      assert c !in TextEscapes;
      assert e == [c];
      assert t[0] == c && t[1..] == rest;
      assert |t| < 5 || t[..5] != "&amp;" by { assert |t| < 5 || t[..5][0] == c; }
      assert |t| < 4 || (t[..4] != "&lt;" && t[..4] != "&gt;" && t[..4] != "<br>") by {
        assert |t| < 4 || t[..4][0] == c;
      }
    }
  }

  /** `text` loses nothing: decoding what it writes gives the text back. */
  lemma {:induction false} TextRoundTrip(s: seq<char>)
    ensures Unescape(TextHtml(s)) == s
    decreases |s|
  {
    if s != [] {
      TextRoundTrip(s[1..]);
      assert [s[0]] + s[1..] == s;
      EscapedCons(s[0], s[1..], TextEscapes, TextReplacements);
      UnescapeStep(s[0], TextHtml(s[1..]));
    }
  }

  /** What `image` writes for an address holds no `<`, `>` or `"`: it
      cannot end the tag or the attribute early. */
  lemma {:induction false} AttrHtmlSafe(s: seq<char>)
    ensures forall j :: 0 <= j < |AttrHtml(s)| ==> AttrHtml(s)[j] !in AttrEscapes
    decreases |s|
  {
    if s != [] {
      var init := s[..|s| - 1];
      AttrHtmlSafe(init);
      var e := EscapeChar(s[|s| - 1], AttrEscapes, AttrReplacements);
      assert forall j :: 0 <= j < |e| ==> e[j] !in AttrEscapes;
      assert AttrHtml(s) == AttrHtml(init) + e;
    }
  }

  /** A lower-case hex digit (`{:x}`). */
  function HexDigit(d: nat): (c: char)
    requires d < 16
    ensures IsHexDigit(c) && HexValue(c) == d
  {
    if d < 10 then ('0' as int + d) as char else ('a' as int + d - 10) as char
  }

  /** A byte as two lower-case hex digits (`{:02x}`). */
  function Hex2(b: Byte): (h: seq<char>)
    ensures |h| == 2 && IsHexDigit(h[0]) && IsHexDigit(h[1])
  {
    [HexDigit(b as int / 16), HexDigit(b as int % 16)]
  }

  /** Reading the two digits back gives the byte. */
  lemma Hex2RoundTrip(b: Byte)
    ensures PairValue(Hex2(b)[0], Hex2(b)[1]) == b
  {
  }

  /** The color as `decoration_begin` writes it, `#` and six digits. */
  function HexColor(r: Byte, g: Byte, b: Byte): seq<char>
  {
    ['#'] + Hex2(r) + Hex2(g) + Hex2(b)
  }

  /** The color written by `decoration_begin` reads back through the
      parser's `rgb_color` as the same triple, whatever ends the value. */
  lemma HexColorRoundTrip(r: Byte, g: Byte, b: Byte, tail: seq<char>)
    requires tail == [] || !IsHexDigit(tail[0])
    ensures RgbColor(HexColor(r, g, b) + tail, 0) == Some(Parsed(Rgb(r, g, b), 7))
  {
    var s := HexColor(r, g, b) + tail;
    assert s[1..7] == Hex2(r) + Hex2(g) + Hex2(b);
    assert HexRun(s, 7) == 0;
    assert HexRun(s, 1) == 6 by {
      assert HexRun(s, 6) == 1;
      assert HexRun(s, 5) == 2;
      assert HexRun(s, 4) == 3;
      assert HexRun(s, 3) == 4;
      assert HexRun(s, 2) == 5;
    }
    Hex2RoundTrip(r);
    Hex2RoundTrip(g);
    Hex2RoundTrip(b);
  }

  /** The opening tag `decoration_begin` writes for a style. */
  function OpenTag(style: DecorationStyle): (t: seq<char>)
    ensures |t| > 2 && t[0] == '<' && t[|t| - 1] == '>'
  {
    match style
    case Bold => "<b>"
    case Italic => "<i>"
    case Underline => "<u>"
    case Center => "<div style=\"text-align:center\">"
    case Color(r, g, b) => "<span style=\"color: " + HexColor(r, g, b) + "\">"
  }

  /** The element name of a style, which `decoration_end` writes. */
  function TagName(style: DecorationStyle): (n: seq<char>)
    ensures |n| > 0
  {
    match style
    case Bold => "b"
    case Italic => "i"
    case Underline => "u"
    case Center => "div"
    case Color(_, _, _) => "span"
  }

  /** What `decoration_end` writes, as written: the name in angle brackets,
      with no slash, so the output opens a second element instead of
      closing the first. */
  function CloseTag(style: DecorationStyle): (t: seq<char>)
  {
    "<" + TagName(style) + ">"
  }

  /** As written, the end of a plain style repeats its opening tag. */
  lemma CloseRepeatsOpen(style: DecorationStyle)
    requires style.Bold? || style.Italic? || style.Underline?
    ensures CloseTag(style) == OpenTag(style)
  {
  }

  /** What `quote_begin` writes. The attribution goes out unescaped. */
  function QuoteOpen(attribution: Option<seq<char>>): seq<char>
  {
    match attribution
    case Some(orig) => "<div>" + orig + " wrote:</div><div>"
    case None => "<div>Quote:</div><div>"
  }

  /** The output sink: the text written so far. */
  class SimpleHtml {
    var out: seq<char>

    /** `SimpleHtml::new` over an empty writer. */
    constructor ()
      ensures out == []
    {
      out := [];
    }

    /** `write_escaped` (src/render.rs:97-130): find the next escape, write
        the text before it and its replacement, continue after it; then
        write what is left. */
    method WriteEscaped(s: seq<char>, es: seq<char>, rs: seq<seq<char>>)
      requires |es| == |rs|
      modifies this
      ensures out == old(out) + Escaped(s, es, rs)
    {
      var pos := 0;
      while true
        invariant pos <= |s|
        invariant out == old(out) + Escaped(s[..pos], es, rs)
        decreases |s| - pos
      {
        var split := FirstEscape(s, es, pos);
        if split.None? {
          break;
        }
        var k := split.value;
        var repl := IndexOf(es, s[k]);
        WriteStep(old(out), s, pos, k, es, rs);
        out := out + s[pos..k] + rs[repl];
        pos := k + 1;
      }
      WriteLast(old(out), s, pos, es, rs);
      out := out + s[pos..];
    }

    /** `text` (src/render.rs:138-146). */
    method Text(s: seq<char>)
      modifies this
      ensures out == old(out) + TextHtml(s)
    {
      WriteEscaped(s, TextEscapes, TextReplacements);
    }

    /** `decoration_begin` (src/render.rs:148-168). */
    method DecorationBegin(style: DecorationStyle)
      modifies this
      ensures out == old(out) + OpenTag(style)
    {
      out := out + OpenTag(style);
    }

    /** `decoration_end` (src/render.rs:170-181), as written. */
    method DecorationEnd(style: DecorationStyle)
      modifies this
      ensures out == old(out) + CloseTag(style)
    {
      out := out + CloseTag(style);
    }

    /** `quote_begin` (src/render.rs:183-189). */
    method QuoteBegin(attribution: Option<seq<char>>)
      modifies this
      ensures out == old(out) + QuoteOpen(attribution)
    {
      out := out + QuoteOpen(attribution);
    }

    /** `quote_end` (src/render.rs:191-193). */
    method QuoteEnd(attribution: Option<seq<char>>)
      modifies this
      ensures out == old(out) + "</div>"
    {
      out := out + "</div>";
    }

    /** `code` (src/render.rs:195-199): the text escaped as by `text`,
        inside `pre`. */
    method Code(s: seq<char>)
      modifies this
      ensures out == old(out) + "<pre>" + TextHtml(s) + "</pre>"
    {
      out := out + "<pre>";
      Text(s);
      out := out + "</pre>";
    }

    /** `image` (src/render.rs:225-229), as written: the attribute value is
        not closed by a quote. */
    method Image(src: seq<char>)
      modifies this
      ensures out == old(out) + "<img src=\"" + AttrHtml(src) + ">"
    {
      out := out + "<img src=\"";
      WriteEscaped(src, AttrEscapes, AttrReplacements);
      out := out + ">";
    }
  }
}
