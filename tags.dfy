/** The recognizers that do not recurse into the dispatcher: the color
    parameter (src/decoration.rs), the quote head (src/quote.rs), the list
    head (src/list.rs) and verbatim code blocks (src/code.rs). Each reads the
    input buffer `s` from index `i` on. */
module Tags {
  import opened Tree
  import opened Strings

  /** The CSS color-name table (`palette::named::from_str`), which lives
      outside the crate: a name resolves to an sRGB triple or to nothing. */
  type ColorNames = seq<char> -> Option<Rgb>

  /** Value of one hex digit. */
  function HexValue(c: char): (v: nat)
    requires IsHexDigit(c)
    ensures v < 16
  {
    if '0' <= c <= '9' then c as int - '0' as int
    else if 'a' <= c <= 'f' then c as int - 'a' as int + 10
    else c as int - 'A' as int + 10
  }

  /** A channel written as two hex digits, high digit first. */
  function PairValue(hi: char, lo: char): Byte
    requires IsHexDigit(hi) && IsHexDigit(lo)
  {
    (HexValue(hi) * 16 + HexValue(lo)) as Byte
  }

  /** Rust's `u8 << 4`: the bits shifted past the top are lost. */
  function Shl4(x: Byte): Byte
  {
    ((x as int * 16) % 256) as Byte
  }

  /** A channel written as one hex digit, as src/decoration.rs:103-111
      computes it: `r = d << 4` and then `r + (r << 4)`, all in `u8`. */
  function ExpandShortAsWritten(d: nat): Byte
    requires d < 16
  {
    var r := Shl4(d as Byte);
    ShlOfShl(d);
    (r as int + Shl4(r) as int) as Byte
  }

  /** Shifting a nibble left by four twice in `u8` leaves nothing. */
  lemma ShlOfShl(d: nat)
    requires d < 16
    ensures Shl4(Shl4(d as Byte)) == 0
  {
    assert Shl4(d as Byte) as int == d * 16;
    assert d * 16 * 16 == 256 * d;
  }

  /** As written, the digit lands in the high nibble only: the channel is
      `16 * d`. */
  lemma ExpandShortAsWrittenIsShift(d: nat)
    requires d < 16
    ensures ExpandShortAsWritten(d) as int == 16 * d
  {
    ShlOfShl(d);
  }

  /** `#81f` as written: the red channel is 0x80, not the 0x88 that the
      shorthand `#RGB` stands for. */
  lemma ExpandShortAsWrittenLosesLowNibble()
    ensures ExpandShortAsWritten(8) == 0x80
    ensures ExpandShortAsWritten(8) != ExpandShort(8)
  {
    ExpandShortAsWrittenIsShift(8);
  }

  /** A channel written as one hex digit, the digit duplicated into both
      nibbles (`8` stands for 0x88). */
  function ExpandShort(d: nat): (c: Byte)
    requires d < 16
    ensures c as int / 16 == d && c as int % 16 == d
  {
    (d * 17) as Byte
  }

  /** `rgb_color`: `#` and then exactly three or exactly six hex digits
      (`hex_digit1` takes the whole run, so a longer or shorter run fails). */
  function RgbColor(s: seq<char>, i: nat): (r: Option<Parsed<Rgb>>)
    ensures r.Some? ==> i < r.value.next <= |s|
  {
    if i >= |s| || s[i] != '#' then None
    else
      var n := HexRun(s, i + 1);
      if n == 3 then
        Some(Parsed(Rgb(ExpandShort(HexValue(s[i + 1])), ExpandShort(HexValue(s[i + 2])),
                        ExpandShort(HexValue(s[i + 3]))), i + 4))
      else if n == 6 then
        Some(Parsed(Rgb(PairValue(s[i + 1], s[i + 2]), PairValue(s[i + 3], s[i + 4]),
                        PairValue(s[i + 5], s[i + 6])), i + 7))
      else None
  }

  /** `css_color`: the longest run of ASCII letters and digits, resolved
      through the name table; an empty run or an unknown name fails. */
  function CssColor(names: ColorNames, s: seq<char>, i: nat): (r: Option<Parsed<Rgb>>)
    ensures r.Some? ==> i < r.value.next <= |s|
  {
    var n := AlphanumericRun(s, i);
    if n == 0 then None
    else
      match names(s[i..i + n])
      case None => None
      case Some(c) => Some(Parsed(c, i + n))
  }

  /** `css_color` succeeds exactly when a non-empty alphanumeric run follows
      and the table knows that run as a name; it consumes the whole run and
      yields the table's color. */
  lemma CssColorForm(names: ColorNames, s: seq<char>, i: nat)
    ensures CssColor(names, s, i).Some? <==>
      AlphanumericRun(s, i) > 0 && names(s[i..i + AlphanumericRun(s, i)]).Some?
    ensures CssColor(names, s, i).Some? ==>
      CssColor(names, s, i).value.next == i + AlphanumericRun(s, i) &&
      Some(CssColor(names, s, i).value.value) == names(s[i..i + AlphanumericRun(s, i)])
  {
  }

  /** `color_head`: `[color=` (any case), a hex or named color, then `]`. */
  function ColorHead(names: ColorNames, s: seq<char>, i: nat): (r: Option<Parsed<Rgb>>)
    ensures r.Some? ==> MatchesAt(s, i, "[color=") && i < r.value.next <= |s|
  {
    if !MatchesAt(s, i, "[color=") then None
    else
      var v := if RgbColor(s, i + 7).Some? then RgbColor(s, i + 7) else CssColor(names, s, i + 7);
      if v.Some? && v.value.next < |s| && s[v.value.next] == ']' then
        Some(Parsed(v.value.value, v.value.next + 1))
      else None
  }

  /** The color of a head is the hex color when one parses after `[color=`,
      and otherwise the table's color for the whole alphanumeric run that
      follows; `]` comes right after the value. */
  lemma ColorHeadValue(names: ColorNames, s: seq<char>, i: nat)
    ensures var r := ColorHead(names, s, i);
      r.Some? && RgbColor(s, i + 7).Some? ==>
        r.value.value == RgbColor(s, i + 7).value.value && r.value.next == RgbColor(s, i + 7).value.next + 1
    ensures var r := ColorHead(names, s, i);
      r.Some? && RgbColor(s, i + 7).None? ==>
        i + 7 < r.value.next &&
        r.value.next - 1 == i + 7 + AlphanumericRun(s, i + 7) &&
        names(s[i + 7..r.value.next - 1]) == Some(r.value.value)
  {
  }

  /** `qhead`: `[quote` (any case), optionally `="` and an attribution up to
      the next `"` (which is consumed), then `]`. */
  function QuoteHead(s: seq<char>, i: nat): (r: Option<Parsed<Option<seq<char>>>>)
    ensures r.Some? ==> MatchesAt(s, i, "[quote") && i < r.value.next <= |s|
  {
    if !MatchesAt(s, i, "[quote") then None
    else
      var a := i + 6;
      var close := if ExactAt(s, a, "=\"") then FindExact(s, "\"", a + 2) else None;
      match close
      case Some(k) =>
        if k + 1 < |s| && s[k + 1] == ']' then Some(Parsed(Some(s[a + 2..k]), k + 2)) else None
      case None =>
        if a < |s| && s[a] == ']' then Some(Parsed(None, a + 1)) else None
  }

  /** `listhead`: `[list` (any case), optionally `=a` or `=1` (exact case),
      then `]`. */
  function ListHead(s: seq<char>, i: nat): (r: Option<Parsed<ListStyle>>)
    ensures r.Some? ==> MatchesAt(s, i, "[list") && i < r.value.next <= |s|
  {
    if !MatchesAt(s, i, "[list") then None
    else
      var a := i + 5;
      var (style, b) :=
        if ExactAt(s, a, "=a") then (Alphabetic, a + 2)
        else if ExactAt(s, a, "=1") then (Numeric, a + 2)
        else (Unordered, a);
      if b < |s| && s[b] == ']' then Some(Parsed(style, b + 1)) else None
  }

  /** `code`: `[code]`, then the text verbatim up to the first `[/code]`
      (both in any case), then that closer. The body is not parsed further. */
  function CodeTag(s: seq<char>, i: nat): (r: Option<Parsed<Segment>>)
    ensures r.Some? ==> MatchesAt(s, i, "[code]") && i < r.value.next <= |s| && r.value.value.Code?
    ensures r.Some? ==> r.value.next >= i + 13 && MatchesAt(s, r.value.next - 7, "[/code]")
  {
    if !MatchesAt(s, i, "[code]") then None
    else
      match FindNoCase(s, "[/code]", i + 6)
      case None => None
      case Some(k) =>
        if MatchesAt(s, k, "[/code]") then Some(Parsed(Code(s[i + 6..k]), k + 7)) else None
  }

  /** `rgb_color` accepts `#` followed by a run of exactly three or exactly
      six hex digits, and nothing else. */
  lemma RgbColorForms(s: seq<char>, i: nat)
    ensures RgbColor(s, i).Some? <==>
      i < |s| && s[i] == '#' && (HexRun(s, i + 1) == 3 || HexRun(s, i + 1) == 6)
    ensures RgbColor(s, i).Some? ==> RgbColor(s, i).value.next == i + 1 + HexRun(s, i + 1)
  {
  }

  /** In the six-digit form each channel is the value of its digit pair; in
      the three-digit form each channel carries its digit in both nibbles. */
  lemma RgbColorChannels(s: seq<char>, i: nat)
    requires RgbColor(s, i).Some?
    ensures var c := RgbColor(s, i).value.value;
      if HexRun(s, i + 1) == 6 then
        c.r as int == 16 * HexValue(s[i + 1]) + HexValue(s[i + 2]) &&
        c.g as int == 16 * HexValue(s[i + 3]) + HexValue(s[i + 4]) &&
        c.b as int == 16 * HexValue(s[i + 5]) + HexValue(s[i + 6])
      else
        c.r as int / 16 == HexValue(s[i + 1]) && c.r as int % 16 == HexValue(s[i + 1]) &&
        c.g as int / 16 == HexValue(s[i + 2]) && c.g as int % 16 == HexValue(s[i + 2]) &&
        c.b as int / 16 == HexValue(s[i + 3]) && c.b as int % 16 == HexValue(s[i + 3])
  {
  }

  /** The color value is followed by `]`; a value that is neither a hex
      color nor a name the table resolves makes the head fail. */
  lemma ColorHeadForm(names: ColorNames, s: seq<char>, i: nat)
    ensures ColorHead(names, s, i).Some? ==> s[ColorHead(names, s, i).value.next - 1] == ']'
    ensures MatchesAt(s, i, "[color=") && RgbColor(s, i + 7).None? &&
            names(s[i + 7..i + 7 + AlphanumericRun(s, i + 7)]) == None ==>
            ColorHead(names, s, i) == None
  {
  }

  /** The head without a parameter gives no attribution; with `="..."` the
      attribution is the text up to the first `"`, which is consumed, and
      `]` must follow that quote at once. */
  lemma QuoteHeadForms(s: seq<char>, i: nat)
    ensures QuoteHead(s, i).Some? && QuoteHead(s, i).value.value.None? <==>
      MatchesAt(s, i, "[quote") && ExactAt(s, i + 6, "]")
    ensures QuoteHead(s, i).Some? && QuoteHead(s, i).value.value.None? ==>
      QuoteHead(s, i).value.next == i + 7
    ensures QuoteHead(s, i).Some? && QuoteHead(s, i).value.value.Some? ==>
      var a := QuoteHead(s, i).value.value.value;
      var next := QuoteHead(s, i).value.next;
      MatchesAt(s, i, "[quote") && ExactAt(s, i + 6, "=\"") && next == i + 10 + |a| &&
      s[i + 8..next - 2] == a && ExactAt(s, next - 2, "\"]") && '"' !in a
  {
    var a := i + 6;
    if MatchesAt(s, i, "[quote") && ExactAt(s, a, "=\"") {
      FindExactFirst(s, "\"", a + 2);
      var close := FindExact(s, "\"", a + 2);
      if close.Some? {
        var k := close.value;
        forall j | a + 2 <= j < k
          ensures s[j] != '"'
        {
          assert !ExactAt(s, j, "\"");
        }
      }
    }
  }

  /** `[list]` is unordered, `[list=a]` alphabetic and `[list=1]` numeric;
      any other parameter fails, letter case of the parameter included. */
  lemma ListHeadForms(s: seq<char>, i: nat)
    ensures ListHead(s, i) == Some(Parsed(Unordered, i + 6)) <==>
      MatchesAt(s, i, "[list") && ExactAt(s, i + 5, "]")
    ensures ListHead(s, i) == Some(Parsed(Alphabetic, i + 8)) <==>
      MatchesAt(s, i, "[list") && ExactAt(s, i + 5, "=a]")
    ensures ListHead(s, i) == Some(Parsed(Numeric, i + 8)) <==>
      MatchesAt(s, i, "[list") && ExactAt(s, i + 5, "=1]")
    ensures ListHead(s, i).Some? ==>
      ListHead(s, i) in {Some(Parsed(Unordered, i + 6)), Some(Parsed(Alphabetic, i + 8)), Some(Parsed(Numeric, i + 8))}
  {
  }

  /** `char!` is case-sensitive: `[list=A]` is not a list head. */
  lemma ListHeadUpperA()
    ensures ListHead("[list=A]", 0) == None
  {
  }

  /** A code block is recognised exactly when `[code]` opens it and a
      `[/code]` occurs somewhere after the opener. */
  lemma CodeTagNeedsCloser(s: seq<char>, i: nat)
    ensures CodeTag(s, i).Some? <==> MatchesAt(s, i, "[code]") && ContainsNoCase(s, i + 6, "[/code]")
  {
    FindNoCaseFirst(s, "[/code]", i + 6);
  }

  /** The body is the text between the opener and the first closer, taken
      verbatim; later closers stay in the rest of the input. */
  lemma CodeTagVerbatim(s: seq<char>, i: nat)
    requires CodeTag(s, i).Some?
    ensures var next := CodeTag(s, i).value.next;
      CodeTag(s, i).value.value.span == s[i + 6..next - 7] &&
      forall j :: i + 6 <= j < next - 7 ==> !MatchesAt(s, j, "[/code]")
  {
    FindNoCaseFirst(s, "[/code]", i + 6);
  }

  /** `code` once the closer has been found. */
  lemma CodeTagStep(s: seq<char>, i: nat, b: nat, k: nat, body: seq<char>)
    requires b == i + 6 && MatchesAt(s, i, "[code]") && FindNoCase(s, "[/code]", b) == Some(k)
    requires k == b + |body| && ExactAt(s, b, body)
    ensures CodeTag(s, i) == Some(Parsed(Code(body), k + 7))
  {
    ExactAtSlice(s, b, body);
  }
}
