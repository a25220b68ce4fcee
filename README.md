# bbcode-rs in Dafny

A model of the core of `bbcode-rs`, a Rust crate that parses BBCode markup
into a document tree and walks that tree to produce HTML.

The crate has two halves:

- **The parser.** A set of nom recognizers reads the input and builds `Segment`s:
  - plain text;
  - decorated spans (`[b]`, `[i]`, `[u]`, `[center]`, `[color=...]`);
  - quotes (`[quote]`, `[quote="who"]`);
  - verbatim code blocks (`[code]`);
  - lists (`[list]`, `[list=1]`, `[list=a]` with `[*]` items);
  - links (`[url]`, `[url="..."]`, `[url=...]`).

  A body is parsed by calling `segment` again with the enclosing closer as its terminal. A text run goes up to the next place where a construct starts.
- **The renderer.**
  - `Renderer::render` walks the tree depth-first. It puts every compound node between a begin hook and an end hook, and stops at the first hook that fails.
  - `SimpleHtml` implements those hooks by appending HTML to an output writer. Text is escaped on the way out.

The Dafny modules follow the crate's files:

| module | file | contents |
|---|---|---|
| `Tree` | `tree.dfy` | the `Segment` tree, the style enums, `Option` and the recognizer result `Parsed` |
| `Strings` | `strings.dfy` | case-insensitive and exact matching, `take_until_no_case!` and the `str::find` searches, digit runs |
| `Tags` | `tags.dfy` | the recognizers that do not recurse: color parameter, quote head, list head, code block |
| `Parser` | `parser.dfy` | `parse`, `segment`, `coded_segment`, `text_segment` and the recursive recognizers |
| `ParserFacts` | `parserfacts.dfy` | properties relating several recognizer calls |
| `Cases` | `cases.dfy` | the crate's unit tests, restated as lemmas |
| `TextScan` | `textscan.dfy` | `text_segment`'s loop as written, with one failure kind and the five coded alternatives (see Findings) |
| `Events`, `Delivery`, `Render` | `events.dfy`, `delivery.dfy`, `render.dfy` | the hook calls, fail-fast delivery, and the `render` traversal as a class |
| `Html` | `html.dfy` | `SimpleHtml` as a class with a `seq<char>` output buffer |

### How the parser is modelled

- **Input and results.** A recognizer reads the whole input buffer `s` from an index `i`. It returns `None` or `Some(Parsed(value, next))`, and the rest of the input is `s[next..]`.
- **Failures.** nom's `Incomplete` and `Error` are the same failure here.
- **Colour names.** The CSS colour-name table is a parameter `names` of type `seq<char> -> Option<Rgb>`.
- **The snapshot is mid-refactor, and the model reconciles it as follows:**
  - `Segment` has all seven variants that the recognizers and the renderer use.
  - `segment` takes a terminal list of closing literals, matched ignoring ASCII case. It fails at the end of the input and at a terminal.
  - `coded_segment` tries decorations, code, list, quote and link, in that order.
  - The text scanner follows the doc comment of `text_segment`: the text runs up to the next terminal or coded segment.
  - No recognizer exists for `Image`; it is only rendered.

### How the renderer is modelled

- **`Render.Recorder`** runs `render` against abstract hooks. Each hook call appends an `Event` to the recorded `trace`. The call fails when the oracle `refuse`, given the call's position and event, returns an error.
  - `Render` and its helpers are proved to record exactly `Deliver(Trace(segs), ...)`, and to return that delivery's error.
  - `Trace` is the complete sequence of hook calls for a tree.
  - `Deliver` is that sequence cut right after the first failing call.
- **`Html.SimpleHtml`** keeps its output in `out`. Each hook method states the exact string it appends.
  - `write_escaped` is a loop. It is proved to write `Escaped(s, escapes, replacements)`, which replaces each character one at a time.
  - Two hooks are modelled as written even though their output is not well-formed HTML:
    - `decoration_end` writes `<b>` rather than `</b>`;
    - `image` does not close the `src` attribute's quote.

## Model

| member | source | states |
|---|---|---|
| `Strings.MatchesAtChars` | src/macros.rs:20-21 | a literal matches at an index exactly when every character agrees with the input ignoring ASCII case |
| `Strings.FindNoCase` | src/macros.rs:13-25 | the search of `take_until_no_case!`: a result is an index at or after the start where the target matches ignoring case |
| `Strings.FindNoCaseFirst` | src/macros.rs:13-25 | the split falls at the first match, nothing earlier matches, and the search fails exactly when there is no match |
| `Strings.TakeUntilNoCase` | src/macros.rs:9-27 | the loop over character indices, with its early break once the target no longer fits, returns the split point `FindNoCase` defines |
| `Strings.FindExact` | src/quote.rs:19 | the search of `take_until_and_consume!`: a result is an index at which the literal occurs exactly |
| `Strings.FindExactFirst` | src/quote.rs:19 | the exact search returns the first occurrence and fails only when there is none |
| `Strings.HexRun` | src/decoration.rs:100 | `hex_digit1` takes the whole run of hex digits: all are digits and the next character is not |
| `Strings.AlphanumericRun` | src/decoration.rs:124 | `alphanumeric1` takes the whole run of ASCII letters and digits |
| `Tags.ExpandShortAsWrittenIsShift` | src/decoration.rs:103-111 | as written, a 3-digit color channel `d` becomes `16 * d`: the second `<< 4` in `u8` discards the digit |
| `Tags.ExpandShortAsWrittenLosesLowNibble` | src/decoration.rs:103-111 | as written, `8` gives 0x80, which differs from the intended 0x88 |
| `Tags.ExpandShort` | src/decoration.rs:103-111 | corrected: the digit fills both nibbles of the channel |
| `Tags.RgbColorForms` | src/decoration.rs:96-101 | `rgb_color` accepts `#` followed by a run of exactly 3 or exactly 6 hex digits, and consumes exactly that |
| `Tags.RgbColorChannels` | src/decoration.rs:102-116 | 6 digits are read in pairs, high digit first; with 3 digits each channel carries its digit in both nibbles: corrected (see Findings) |
| `Tags.ColorHead` | src/decoration.rs:88-94 | a color head starts with `[color=` in any case |
| `Tags.ColorHeadValue` | src/decoration.rs:88-94 | the head's color is the hex color when one parses, otherwise the table's color for the whole alphanumeric run; `]` follows the value |
| `Tags.CssColorForm` | src/decoration.rs:121-129 | `css_color` succeeds exactly when a non-empty alphanumeric run follows and the table knows it; it consumes the run and yields the table's color |
| `Tags.ColorHeadForm` | src/decoration.rs:88-129 | the value is followed by `]`; a value that is neither a hex color nor a known name makes the head fail |
| `Tags.QuoteHead` | src/quote.rs:16-22 | a quote head starts with `[quote` in any case |
| `Tags.QuoteHeadForms` | src/quote.rs:16-22 | `[quote]` gives no attribution; with `="..."` the attribution is the text up to the first `"`, which holds no quote, and `"]` must follow |
| `Tags.ListHeadForms` | src/list.rs:34-52 | `[list]`, `[list=a]` and `[list=1]` give Unordered, Alphabetic and Numeric, and nothing else is a list head |
| `Tags.ListHeadUpperA` | src/list.rs:38-44 | `char!` is case-sensitive: `[list=A]` fails |
| `Tags.CodeTag` | src/code.rs:6-15 | a code block opens with `[code]`, builds `Code`, and ends with `[/code]` |
| `Tags.CodeTagNeedsCloser` | src/code.rs:6-15 | a code block is recognised exactly when `[code]` opens it and a `[/code]` follows somewhere |
| `Tags.CodeTagVerbatim` | src/code.rs:6-15 | the body is the verbatim text up to the first closer, which holds no closer; later closers stay in the rest |
| `Parser.Segments` | src/decoration.rs:35 | `many0!(call!(segment, terms))` stops only at the end of the input or at a terminal |
| `Parser.NextSegment` | src/lib.rs:24-28 | `segment` fails exactly at the end of the input or at a terminal, and otherwise consumes at least one character |
| `Parser.TextSegment` | src/lib.rs:36-58 | `text_segment` fails exactly on empty input, and otherwise returns a non-empty prefix of the rest |
| `Parser.ScanText` | src/lib.rs:44-57 | the scanning loop, with its early return, computes `TextSegment` |
| `Parser.CodedSegment` | src/lib.rs:30-34 | a coded segment consumes input and starts with one of the opening literals |
| `Parser.DecoratedTag` | src/decoration.rs:22-29 | `decorated` yields a `Decorated` node that starts with one of the five decoration openers |
| `Parser.SimpleTag` | src/macros.rs:48-56 | `[tag]`, the body with terminal `[/tag]`, then `[/tag]`: success means opener at the start and closer at the end |
| `Parser.BoldTag` | src/decoration.rs:32-38 | `bold` starts with `[b]` in any case |
| `Parser.ItalicTag` | src/decoration.rs:45-51 | `italic` starts with `[i]` in any case |
| `Parser.UnderlineTag` | src/decoration.rs:53-59 | `underline` starts with `[u]` in any case |
| `Parser.CenterTag` | src/decoration.rs:66-72 | `center` starts with `[center]` in any case |
| `Parser.ColorTag` | src/decoration.rs:74-86 | `color` yields a colored `Decorated` node, opened by `[color=` and closed by `[/color]` |
| `Parser.QuoteTag` | src/quote.rs:6-14 | `quote` yields a `Quote` node, opened by `[quote` and closed by `[/quote]` |
| `Parser.ListTag` | src/list.rs:24-32 | `list` yields a `List` node, opened by `[list` and closed by `[/list]` |
| `Parser.ListItems` | src/list.rs:27-28 | the item loop stops where no `[*]` follows |
| `Parser.UrlTag` | src/url.rs:9-35 | `url` yields a `Link` node, opened by `[url` and closed by `[/url]` |
| `Parser.UrlBare` | src/url.rs:11-19 | the bare form opens with `[url]` and ends with `[/url]` |
| `ParserFacts.UrlBareBody` | src/url.rs:11-19 | the bare form succeeds exactly when a `[/url]` follows; the verbatim body up to the first one is both the target and the only text segment |
| `Parser.UrlQuoted` | src/url.rs:20-26 | the quoted-target form opens with `[url="` and ends with `[/url]` |
| `ParserFacts.UrlQuotedTarget` | src/url.rs:20-22 | the target is the text up to the first `"]`, which holds no `"]` |
| `ParserFacts.UrlQuotedText` | src/url.rs:23-25 | the link text is the segments after the target's `"]`, stopping exactly at `[/url]` |
| `Parser.UrlUnquoted` | src/url.rs:27-33 | the unquoted-target form opens with `[url=` and ends with `[/url]` |
| `ParserFacts.UrlUnquotedTarget` | src/url.rs:27-29 | the target is the text up to the first `]`, quotes included |
| `ParserFacts.UrlUnquotedText` | src/url.rs:30-32 | the link text is the segments after the target's `]`, stopping exactly at `[/url]` |
| `ParserFacts.UrlTagUnterminated` | src/url.rs:9-35 | a link with no `[/url]` after `[url` fails in all three forms |
| `ParserFacts.TextEndFirst` | src/lib.rs:46-52 | the text run stops at the first later index where a terminal or coded segment starts, and at none before it |
| `ParserFacts.TextSegmentSplit` | src/lib.rs:36-58 | the text is non-empty; text plus rest is the input exactly; the split is the first later index that starts a construct |
| `ParserFacts.TextSegmentWhole` | src/lib.rs:55-57 | all the input is text exactly when no later index starts a construct |
| `ParserFacts.NextSegmentPrefersCoded` | src/lib.rs:24-28 | `segment` takes a coded segment when there is one and falls back to text only otherwise |
| `ParserFacts.ParseTotal` | src/lib.rs:13-15 | `parse` fails exactly on empty input, and otherwise the loop of segments consumes the whole input |
| `ParserFacts.Exclusive` | src/lib.rs:30-34 | two opening literals that disagree ignoring case cannot both occur at one index |
| `ParserFacts.CodedSegmentOrderFree` | src/lib.rs:30-34 | whichever recognizer succeeds is what `coded_segment` returns: the order of the alternatives does not matter |
| `ParserFacts.DecoratedOrderFree` | src/decoration.rs:22-29 | the same among the five decorations of `decorated` |
| `ParserFacts.UrlForms` | src/url.rs:9-35 | the bare form excludes the other two; the quoted form wins over the unquoted one |
| `ParserFacts.SimpleTagParts` | src/macros.rs:48-56 | a simple tag succeeds exactly when its opener is at the start and its closer starts where the body, parsed with that closer as terminal, stops; the body is those segments |
| `ParserFacts.SimpleTagUnterminated` | src/macros.rs:48-56 | a tag whose closer occurs nowhere after the opener is not recognised |
| `ParserFacts.ColorTagParts` | src/decoration.rs:74-86 | a color span carries its head's color; its body is the segments after the head, stopping exactly at `[/color]` |
| `ParserFacts.ColorTagUnterminated` | src/decoration.rs:74-86 | a color span with no `[/color]` after `[color=` fails |
| `ParserFacts.QuoteTagParts` | src/quote.rs:6-14 | a quote carries its head's attribution; its body is the segments after the head, stopping exactly at `[/quote]` |
| `ParserFacts.QuoteTagUnterminated` | src/quote.rs:6-14 | a quote with no `[/quote]` after `[quote` fails |
| `ParserFacts.ListTagParts` | src/list.rs:24-32 | a list carries its head's style; its items are what the item loop yields after the head, which stops exactly at `[/list]` |
| `ParserFacts.ListTagUnterminated` | src/list.rs:24-32 | a list with no `[/list]` after `[list` fails |
| `ParserFacts.ListItemsFirst` | src/list.rs:27-28 | an item is yielded exactly when `[*]` follows; its body ends at the end of the input or at a segment boundary where `[*]` or `[/list]` starts, and the next items start there |
| `Cases.BoldText` | src/decoration.rs:40-43 | `[b]BOLD![/b]` gives `[Text("BOLD!")]` and consumes everything |
| `Cases.UnderlinedText` | src/decoration.rs:61-64 | `[u]um[/u]` gives `[Text("um")]` |
| `Cases.TakeUntilFirstMatch` | src/macros.rs:37-40 | `FooBarBAZbaz` splits before `BAZ` |
| `Cases.TakeUntilAtStart` | src/macros.rs:41 | a match at the start leaves an empty prefix |
| `Cases.TakeUntilNoMatch` | src/macros.rs:42-45 | no match is a failure |
| `Cases.JustQuoteHead` | src/quote.rs:24-28 | `[quote]` has no attribution; `[quote="たみや"]` has `たみや` |
| `Cases.EmptyQuote` | src/quote.rs:38-50 | `[quote][/quote])` is an empty quote, leaving `)` |
| `Cases.QuoteWithoutAttribution` | src/quote.rs:52-64 | `[quote]lol[/quote]More stuff` has body `[Text("lol")]`, leaving `More stuff` |
| `Cases.EmptyCodeBlock` | src/code.rs:17-20 | `[code][/code]` is `Code("")` |
| `Cases.CodeTakesTextToFirstClose` | src/code.rs:22-28 | the code body stops at the first `[/code]`; `sup[/code]` is left |
| `Cases.ListHeads` | src/list.rs:55-80 | the list heads of the list tests |
| `Cases.ListWithMultipleItems` | src/list.rs:55-66 | two items `[Text(" One\n")]` and `[Text(" Two")]`, leaving `Tail` |
| `Cases.EmptyList` | src/list.rs:68-80 | `[list=a][/list]` is an alphabetic list with no items |
| `Cases.UrlBareSample` | src/url.rs:41-50 | `[URL]example.com[/URL]` links to its own text |
| `Cases.UrlUnquotedSample` | src/url.rs:51-60 | the unquoted target keeps its quotes; an unclosed `[i]` stays literal text |
| `Cases.UrlQuotedSample` | src/url.rs:61-73 | nested bold parses inside the link text; `more` is left |
| `Cases.UrlOrderMatters` | src/url.rs:9-35 | where both target forms apply they differ, and the quoted form, tried first, is the result |
| `Cases.UnterminatedBold` | src/lib.rs:13-15 | `[b]unterminated` parses as one text segment |
| `Cases.HexColors` | src/decoration.rs:96-116 | 3-digit, 6-digit and 4-digit hex colors; the 3-digit values are the corrected ones (see Findings) |
| `TextScan.TextSegmentAsWritten` | src/lib.rs:36-58 | as written: a result is a non-empty prefix of the rest |
| `TextScan.SegmentAsWrittenTotal` | src/lib.rs:24-28 | as written, `segment` succeeds on every non-empty input |
| `TextScan.TextSegmentAsWrittenOneChar` | src/lib.rs:44-52 | as written, text followed by anything is cut after one character |
| `TextScan.TextSegmentAsWrittenSplitsPlainText` | src/lib.rs:36-58 | on `ab` the code as written gives `a`, while the doc comment's reading gives `ab` |
| `Delivery.FirstFailureFirst` | src/render.rs:8-51 | the first failing hook call is found, none before it fails, and there is none exactly when no call fails |
| `Delivery.Deliver` | src/render.rs:8-51 | without an error, every hook call is made |
| `Delivery.DeliverFirstFailure` | src/render.rs:8-51 | the calls made are a prefix of the traversal; on an error it is the last call's own error and no earlier call failed |
| `Delivery.DeliverAppend` | src/render.rs:9-48 | two runs of calls in a row: an error in the first stops everything, otherwise the second runs |
| `Delivery.Bracket` | src/render.rs:16-18 | begin, body, end: a failing begin stops at once; a failing body skips the end hook |
| `Render.TraceWellNested` | src/render.rs:8-51 | every begin hook in a traversal is matched by its own end hook, properly nested |
| `Render.SegmentNests` | src/render.rs:10-47 | one node's hook calls form a balanced bracket sequence |
| `Render.TraceAppend` | src/render.rs:9-48 | the traversal of consecutive segments is their traversals one after another |
| `Render.ItemsTraceAppend` | src/render.rs:31-35 | the same for the items of a list |
| `Render.Recorder.Hook` | src/render.rs:53-77 | a hook call is recorded and fails as the oracle says |
| `Render.Recorder.Render` | src/render.rs:8-51 | the calls made are the traversal's calls up to and including the first failure, whose error is returned |
| `Render.Recorder.RenderSegment` | src/render.rs:10-47 | the same for one node |
| `Render.Recorder.RenderBracketed` | src/render.rs:12-27 | begin hook, children, end hook, stopping at the first failure |
| `Render.Recorder.RenderList` | src/render.rs:29-37 | `list_begin`, the items, `list_end`; zero items give begin then end |
| `Render.Recorder.RenderItems` | src/render.rs:31-35 | each item is `list_item_begin`, its segments, `list_item_end` |
| `Html.IndexOf` | src/render.rs:117-122 | the first position of the matched escape among the escapes |
| `Html.FirstEscape` | src/render.rs:107-110 | `str::find` with a character set finds the first escape, or there is none left |
| `Html.EscapedAppend` | src/render.rs:97-130 | escaping distributes over concatenation |
| `Html.EscapedPlain` | src/render.rs:97-130 | text without escape characters is written unchanged |
| `Html.TextRoundTrip` | src/render.rs:138-146 | decoding what `text` writes gives the text back |
| `Html.AttrHtmlSafe` | src/render.rs:225-229 | the escaped image address holds no `<`, `>` or `"` |
| `Html.Hex2` | src/render.rs:157-162 | `{:02x}` is two hex digits |
| `Html.Hex2RoundTrip` | src/render.rs:157-162 | reading the two digits back gives the byte |
| `Html.HexColorRoundTrip` | src/render.rs:157-162 | the color `decoration_begin` writes reads back through `rgb_color` as the same triple |
| `Html.OpenTag` | src/render.rs:148-168 | every opening tag is one `<...>` tag |
| `Html.CloseRepeatsOpen` | src/render.rs:170-181 | as written, `decoration_end` for bold, italic and underline repeats the opening tag |
| `Html.SimpleHtml.WriteEscaped` | src/render.rs:97-130 | the loop appends exactly `Escaped(s)`: each escape replaced by its paired replacement, other characters kept |
| `Html.SimpleHtml.Text` | src/render.rs:138-146 | appends the text with `&`, `<`, `>` and line breaks escaped |
| `Html.SimpleHtml.DecorationBegin` | src/render.rs:148-168 | appends the opening tag of the style |
| `Html.SimpleHtml.DecorationEnd` | src/render.rs:170-181 | appends `<name>`, without a slash, as written |
| `Html.SimpleHtml.QuoteBegin` | src/render.rs:183-189 | appends the attribution header and opens the body `div` |
| `Html.SimpleHtml.QuoteEnd` | src/render.rs:191-193 | appends `</div>` |
| `Html.SimpleHtml.Code` | src/render.rs:195-199 | appends `<pre>`, the text escaped as by `text`, `</pre>` |
| `Html.SimpleHtml.Image` | src/render.rs:225-229 | appends `<img src="`, the escaped address and `>` |

## Left out

- The command-line tool (src/bin/bbcode2html.rs) reads stdin and writes stdout. It is only I/O around `parse` and `render`.
- The Python bindings (bindings/python) are a build script and a foreign-function wrapper.
- `palette::named::from_str`, the CSS colour-name table, lives outside the crate. It is the parameter `names`.
- The `println!` debug tracing in `text_segment` and `take_until_no_case!` is side-effect noise.
- nom distinguishes `Incomplete` from `Error` and reports `Needed` sizes. Both are one failure here. This includes the `Incomplete(Size(n))` of `take_until_no_case!`.
- The list and link hooks of `SimpleHtml` (src/render.rs:201-223) are `unimplemented!()` panics. Lists and links are covered only by the traversal in module `Render`.
- `std::io::Write` failures are not modelled:
  - In `Render.Recorder`, the oracle `refuse` decides which hook call fails.
  - In `Html.SimpleHtml`, appending to `out` never fails, so the `?` inside `code`, `image` and `write_escaped` never triggers.
- The `Size` arm of `decoration_begin` (src/render.rs:163-164) is not modelled. `DecorationStyle` has no `Size` variant.
- Strings are character sequences. UTF-8 byte offsets and byte lengths (src/macros.rs:15, the single-byte requirement of `write_escaped`) are not modelled.
- Borrowed `&str` slices are copied character sequences.
- `Vec<Vec<Segment>>` list items are wrapped as `Item(body)`, so that recursion over the tree terminates.
- `Parser.Parse` fails on empty input, as `many1!` does.
- `Tags.RgbColor` uses the corrected 3-digit expansion `Tags.ExpandShort`, so the parser as a whole yields the intended color where src/decoration.rs:103-111 computes `16 * d`; see Findings.
- `TextScan.SegmentAsWritten` probes with the model's five-way `Parser.CodedSegment`, not the quote-only `coded_segment` of src/lib.rs:30-34, and with one failure kind: nom's `Incomplete` also passes through `alt!`, so a tail that is a prefix of an opener (the `[` of `a[`) does not fall back to text in the crate.
- `Parser.TextSegment` follows the doc comment of `text_segment`, not its loop. The loop as written is `TextScan.TextSegmentAsWritten`; see Findings.
- `Html.SimpleHtml.QuoteBegin` writes the attribution unescaped, as the source does. No safety property is claimed for it.

## Findings

| source | as written | input that shows it | evidently intended | confidence | as-written member | corrected member |
|---|---|---|---|---|---|---|
| src/decoration.rs:103-111 | a 3-digit color computes `r = d << 4`, then `r + (r << 4)` in `u8`; the second shift discards everything, so the channel is `16 * d` | `[color=#81f]`: red comes out as 0x80 | the CSS shorthand: each digit duplicated into both nibbles, 0x88 | high, not executed | `Tags.ExpandShortAsWrittenLosesLowNibble` | `Tags.ExpandShort` |
| src/lib.rs:44-52 | each later offset is probed with `segment`, which falls back to `text_segment` and so succeeds on any non-empty input; every text run is one character long | `ab`: text `a`, then text `b` | the text up to the next coded segment, as the doc comment at src/lib.rs:36 says: `ab` | high, not executed | `TextScan.TextSegmentAsWrittenSplitsPlainText` | `Parser.TextSegment` |
