/** Properties of the recognizers of src/lib.rs and src/macros.rs that
    relate several calls: where a text run ends, how the dispatcher chooses,
    and what the top-level loop consumes. */
module ParserFacts {
  import opened Tree
  import opened Strings
  import opened Tags
  import opened Parser

  /** The text run from `k` ends at the first index from `k` on at which it
      must stop, or at the end of the input. */
  lemma {:induction false} TextEndFirst(names: ColorNames, s: seq<char>, k: nat, terms: seq<seq<char>>)
    requires 0 < k <= |s|
    ensures TextEnd(names, s, k, terms) == |s| || StopsAt(names, s, TextEnd(names, s, k, terms), terms)
    ensures forall j :: k <= j < TextEnd(names, s, k, terms) ==> !StopsAt(names, s, j, terms)
    decreases |s| - k
  {
    if k < |s| && !StopsAt(names, s, k, terms) {
      TextEndFirst(names, s, k + 1, terms);
    }
  }

  /** `text_segment` splits the input: a non-empty prefix, which with the
      rest gives back the input exactly, ending at the first later index at
      which a terminal or a coded segment starts. */
  lemma TextSegmentSplit(names: ColorNames, s: seq<char>, i: nat, terms: seq<seq<char>>)
    requires i < |s|
    ensures var t := TextSegment(names, s, i, terms).value;
      |t.value| > 0 && t.value + s[t.next..] == s[i..] &&
      (t.next == |s| || StopsAt(names, s, t.next, terms)) &&
      forall j :: i < j < t.next ==> !StopsAt(names, s, j, terms)
  {
    TextEndFirst(names, s, i + 1, terms);
    var t := TextSegment(names, s, i, terms).value;
    assert s[i..t.next] + s[t.next..] == s[i..];
  }

  /** The text run takes all the rest of the input exactly when no later
      index starts a terminal or a coded segment. */
  lemma TextSegmentWhole(names: ColorNames, s: seq<char>, i: nat, terms: seq<seq<char>>)
    requires i < |s|
    ensures TextSegment(names, s, i, terms).value.next == |s| <==>
      forall j :: i < j < |s| ==> !StopsAt(names, s, j, terms)
  {
    TextSegmentSplit(names, s, i, terms);
  }

  /** `segment` takes a coded segment when one is recognised and falls back
      to a text run only otherwise. */
  lemma NextSegmentPrefersCoded(names: ColorNames, s: seq<char>, i: nat, terms: seq<seq<char>>)
    requires i < |s| && !AtTerminal(s, i, terms)
    ensures CodedSegment(names, s, i).Some? ==> NextSegment(names, s, i, terms) == CodedSegment(names, s, i)
    ensures CodedSegment(names, s, i).None? ==>
      var t := TextSegment(names, s, i, terms).value;
      NextSegment(names, s, i, terms) == Some(Parsed(Text(t.value), t.next))
  {
  }

  /** `parse` fails only on empty input; otherwise the loop of segments runs
      to the end of the input, each step consuming at least one character. */
  lemma ParseTotal(names: ColorNames, s: seq<char>)
    ensures Parse(names, s).Some? <==> |s| > 0
    ensures Segments(names, s, 0, []).next == |s|
  {
    if |s| > 0 {
      assert !AtTerminal(s, 0, []);
    }
  }

  /** Two literals that both occur at the same index agree, ignoring case,
      on their common length. */
  predicate Compatible(a: seq<char>, b: seq<char>)
  {
    |a| == 0 || |b| == 0 || (Lower(a[0]) == Lower(b[0]) && Compatible(a[1..], b[1..]))
  }

  lemma {:induction false} BothMatch(s: seq<char>, i: nat, a: seq<char>, b: seq<char>)
    requires MatchesAt(s, i, a) && MatchesAt(s, i, b)
    ensures Compatible(a, b)
    decreases |a|
  {
    if |a| > 0 && |b| > 0 {
      MatchesAtChars(s, i, a);
      MatchesAtChars(s, i, b);
      MatchesAtChars(s, i + 1, a[1..]);
      MatchesAtChars(s, i + 1, b[1..]);
      BothMatch(s, i + 1, a[1..], b[1..]);
    }
  }

  /** A literal that occurs at `i` rules out every literal incompatible
      with it. */
  lemma Exclusive(s: seq<char>, i: nat, a: seq<char>, b: seq<char>)
    requires MatchesAt(s, i, a) && !Compatible(a, b)
    ensures !MatchesAt(s, i, b)
  {
    if MatchesAt(s, i, b) {
      BothMatch(s, i, a, b);
    }
  }

  /** No decoration opener occurs where `lit` does. */
  lemma NoDecorationAt(names: ColorNames, s: seq<char>, i: nat, lit: seq<char>)
    requires i <= |s| && MatchesAt(s, i, lit)
    requires !Compatible(lit, "[b]") && !Compatible(lit, "[i]") && !Compatible(lit, "[u]")
    requires !Compatible(lit, "[center]") && !Compatible(lit, "[color=")
    ensures DecoratedTag(names, s, i).None?
  {
    Exclusive(s, i, lit, "[b]");
    Exclusive(s, i, lit, "[i]");
    Exclusive(s, i, lit, "[u]");
    Exclusive(s, i, lit, "[center]");
    Exclusive(s, i, lit, "[color=");
  }

  /** The opening literals of the coded segments exclude one another, so
      whichever recognizer succeeds is the one `coded_segment` returns: the
      order in which they are tried does not change the result. */
  lemma CodedSegmentOrderFree(names: ColorNames, s: seq<char>, i: nat)
    requires i <= |s|
    ensures DecoratedTag(names, s, i).Some? ==> CodedSegment(names, s, i) == DecoratedTag(names, s, i)
    ensures CodeTag(s, i).Some? ==> CodedSegment(names, s, i) == CodeTag(s, i)
    ensures ListTag(names, s, i).Some? ==> CodedSegment(names, s, i) == ListTag(names, s, i)
    ensures QuoteTag(names, s, i).Some? ==> CodedSegment(names, s, i) == QuoteTag(names, s, i)
    ensures UrlTag(names, s, i).Some? ==> CodedSegment(names, s, i) == UrlTag(names, s, i)
  {
    if CodeTag(s, i).Some? {
      NoDecorationAt(names, s, i, "[code]");
    } else if ListTag(names, s, i).Some? {
      NoDecorationAt(names, s, i, "[list");
      Exclusive(s, i, "[list", "[code]");
    } else if QuoteTag(names, s, i).Some? {
      NoDecorationAt(names, s, i, "[quote");
      Exclusive(s, i, "[quote", "[code]");
      Exclusive(s, i, "[quote", "[list");
    } else if UrlTag(names, s, i).Some? {
      NoDecorationAt(names, s, i, "[url");
      Exclusive(s, i, "[url", "[code]");
      Exclusive(s, i, "[url", "[list");
      Exclusive(s, i, "[url", "[quote");
    }
  }

  /** The same holds among the five decorations tried by `decorated`. */
  lemma DecoratedOrderFree(names: ColorNames, s: seq<char>, i: nat)
    requires i <= |s|
    ensures BoldTag(names, s, i).Some? ==>
      DecoratedTag(names, s, i) == Some(Parsed(Decorated(Bold, BoldTag(names, s, i).value.value), BoldTag(names, s, i).value.next))
    ensures ItalicTag(names, s, i).Some? ==>
      DecoratedTag(names, s, i) == Some(Parsed(Decorated(Italic, ItalicTag(names, s, i).value.value), ItalicTag(names, s, i).value.next))
    ensures UnderlineTag(names, s, i).Some? ==>
      DecoratedTag(names, s, i) == Some(Parsed(Decorated(Underline, UnderlineTag(names, s, i).value.value), UnderlineTag(names, s, i).value.next))
    ensures CenterTag(names, s, i).Some? ==>
      DecoratedTag(names, s, i) == Some(Parsed(Decorated(Center, CenterTag(names, s, i).value.value), CenterTag(names, s, i).value.next))
    ensures ColorTag(names, s, i).Some? ==> DecoratedTag(names, s, i) == ColorTag(names, s, i)
  {
    if ItalicTag(names, s, i).Some? {
      Exclusive(s, i, "[i]", "[b]");
    } else if UnderlineTag(names, s, i).Some? {
      Exclusive(s, i, "[u]", "[b]");
      Exclusive(s, i, "[u]", "[i]");
    } else if CenterTag(names, s, i).Some? {
      Exclusive(s, i, "[center]", "[b]");
      Exclusive(s, i, "[center]", "[i]");
      Exclusive(s, i, "[center]", "[u]");
    } else if ColorTag(names, s, i).Some? {
      Exclusive(s, i, "[color=", "[b]");
      Exclusive(s, i, "[color=", "[i]");
      Exclusive(s, i, "[color=", "[u]");
      Exclusive(s, i, "[color=", "[center]");
    }
  }

  /** Among the forms of `url`, only the quoted and the unquoted target can
      both apply; the bare form excludes both. */
  lemma UrlForms(names: ColorNames, s: seq<char>, i: nat)
    requires i <= |s|
    ensures UrlBare(s, i).Some? ==> UrlTag(names, s, i) == UrlBare(s, i)
    ensures UrlQuoted(names, s, i).Some? ==> UrlTag(names, s, i) == UrlQuoted(names, s, i)
    ensures UrlUnquoted(names, s, i).Some? && UrlQuoted(names, s, i).None? ==>
      UrlTag(names, s, i) == UrlUnquoted(names, s, i)
  {
    if UrlQuoted(names, s, i).Some? {
      Exclusive(s, i, "[url=\"", "[url]");
    } else if UrlUnquoted(names, s, i).Some? {
      Exclusive(s, i, "[url=", "[url]");
    }
  }

  /** A simple tag whose closer occurs nowhere after its opener is not
      recognised. */
  lemma SimpleTagUnterminated(names: ColorNames, s: seq<char>, i: nat, open: seq<char>, close: seq<char>)
    requires i <= |s| && |open| > 0 && |close| > 0
    requires !ContainsNoCase(s, i + |open|, close)
    ensures SimpleTag(names, s, i, open, close).None?
  {
    if MatchesAt(s, i, open) {
      var body := Segments(names, s, i + |open|, [close]);
      assert !MatchesAt(s, body.next, close);
    }
  }

  /** A simple tag is recognised exactly when its opener is at `i` and its
      closer starts where the body's segments, parsed with that closer as
      terminal, stop; the body is those segments. */
  lemma SimpleTagParts(names: ColorNames, s: seq<char>, i: nat, open: seq<char>, close: seq<char>)
    requires i <= |s| && |open| > 0
    ensures SimpleTag(names, s, i, open, close).Some? <==>
      MatchesAt(s, i, open) && MatchesAt(s, Segments(names, s, i + |open|, [close]).next, close)
    ensures SimpleTag(names, s, i, open, close).Some? ==>
      var r := SimpleTag(names, s, i, open, close).value;
      Segments(names, s, i + |open|, [close]) == Parsed(r.value, r.next - |close|)
  {
  }

  /** Every terminal literal begins with `[`, as all closers and item
      markers of the grammar do. */
  predicate Bracketed(terms: seq<seq<char>>)
  {
    |terms| == 0 || (|terms[0]| > 0 && terms[0][0] == '[' && Bracketed(terms[1..]))
  }

  lemma {:induction false} NotAtTerminal(s: seq<char>, k: nat, terms: seq<seq<char>>)
    requires k < |s| && s[k] != '[' && Bracketed(terms)
    ensures !AtTerminal(s, k, terms)
    decreases |terms|
  {
    if |terms| > 0 {
      assert !MatchesAt(s, k, terms[0]);
      NotAtTerminal(s, k, terms[1..]);
    }
  }

  /** Nothing can start at a character other than `[`. */
  lemma NoStopAt(names: ColorNames, s: seq<char>, k: nat, terms: seq<seq<char>>)
    requires k < |s| && s[k] != '[' && Bracketed(terms)
    ensures !AtTerminal(s, k, terms) && CodedSegment(names, s, k).None?
  {
    NotAtTerminal(s, k, terms);
  }

  /** A text run crosses a stretch without `[`. */
  lemma {:induction false} TextEndSkip(names: ColorNames, s: seq<char>, k: nat, e: nat, terms: seq<seq<char>>)
    requires 0 < k <= e <= |s| && Absent(s, '[', k, e) && Bracketed(terms)
    ensures TextEnd(names, s, k, terms) == TextEnd(names, s, e, terms)
    decreases e - k
  {
    if k < e {
      NoStopAt(names, s, k, terms);
      TextEndSkip(names, s, k + 1, e, terms);
    }
  }

  /** A text run crosses an index at which nothing starts. */
  lemma TextEndPast(names: ColorNames, s: seq<char>, k: nat, terms: seq<seq<char>>)
    requires 0 < k < |s| && !AtTerminal(s, k, terms) && CodedSegment(names, s, k).None?
    ensures TextEnd(names, s, k, terms) == TextEnd(names, s, k + 1, terms)
  {
  }

  /** Where no segment but text starts at `i`, `segment` takes the text `t`
      that runs up to where the text run ends. */
  lemma TextRun(names: ColorNames, s: seq<char>, i: nat, e: nat, t: seq<char>, terms: seq<seq<char>>)
    requires e == i + |t| && |t| > 0 && ExactAt(s, i, t)
    requires !AtTerminal(s, i, terms) && CodedSegment(names, s, i).None?
    requires TextEnd(names, s, i + 1, terms) == e
    ensures NextSegment(names, s, i, terms) == Some(Parsed(Text(t), e))
  {
    ExactAtSlice(s, i, t);
  }

  /** The same, for a text `t` that holds no `[` at all and is followed by
      a terminal, a coded segment or the end of the input. */
  lemma PlainText(names: ColorNames, s: seq<char>, i: nat, e: nat, t: seq<char>, terms: seq<seq<char>>)
    requires e == i + |t| && |t| > 0 && ExactAt(s, i, t) && Bracketed(terms)
    requires Absent(s, '[', i, e)
    requires e == |s| || StopsAt(names, s, e, terms)
    ensures NextSegment(names, s, i, terms) == Some(Parsed(Text(t), e))
  {
    NoStopAt(names, s, i, terms);
    TextEndSkip(names, s, i + 1, e, terms);
    TextRun(names, s, i, e, t, terms);
  }

  /** `many0!` stops at once at a terminal or at the end of the input. */
  lemma SegmentsStop(names: ColorNames, s: seq<char>, e: nat, terms: seq<seq<char>>)
    requires e <= |s| && (e == |s| || AtTerminal(s, e, terms))
    ensures Segments(names, s, e, terms) == Parsed([], e)
  {
  }

  /** `many0!` after one more segment. */
  lemma SegmentsCons(names: ColorNames, s: seq<char>, i: nat, terms: seq<seq<char>>, seg: Segment, e: nat)
    requires i <= |s| && NextSegment(names, s, i, terms) == Some(Parsed(seg, e))
    ensures e <= |s|
    ensures Segments(names, s, i, terms) ==
      Parsed([seg] + Segments(names, s, e, terms).value, Segments(names, s, e, terms).next)
  {
  }

  /** `simple_tag` once its body is known. */
  lemma SimpleTagStep(names: ColorNames, s: seq<char>, i: nat, open: seq<char>, close: seq<char>,
                      b: nat, e: nat, body: seq<Segment>)
    requires i <= |s| && |open| > 0 && b == i + |open| && MatchesAt(s, i, open)
    requires Segments(names, s, b, [close]) == Parsed(body, e) && MatchesAt(s, e, close)
    ensures SimpleTag(names, s, i, open, close) == Some(Parsed(body, e + |close|))
  {
  }

  /** A body made of one text run `t` (holding no `[`) that ends at a
      terminal or at the end of the input. */
  lemma SingleText(names: ColorNames, s: seq<char>, i: nat, e: nat, t: seq<char>, terms: seq<seq<char>>)
    requires e == i + |t| && |t| > 0 && ExactAt(s, i, t) && Bracketed(terms)
    requires Absent(s, '[', i, e)
    requires e == |s| || AtTerminal(s, e, terms)
    ensures Segments(names, s, i, terms) == Parsed([Text(t)], e)
  {
    PlainText(names, s, i, e, t, terms);
    SegmentsStop(names, s, e, terms);
    SegmentsCons(names, s, i, terms, Text(t), e);
    assert [Text(t)] + [] == [Text(t)];
  }

  /** `segment` where a coded segment is recognised. */
  lemma CodedStep(names: ColorNames, s: seq<char>, i: nat, terms: seq<seq<char>>, seg: Segment, e: nat)
    requires i <= |s| && !AtTerminal(s, i, terms) && CodedSegment(names, s, i) == Some(Parsed(seg, e))
    ensures NextSegment(names, s, i, terms) == Some(Parsed(seg, e))
  {
  }

  /** `quote` once its head and body are known. */
  lemma QuoteTagStep(names: ColorNames, s: seq<char>, i: nat, h: Parsed<Option<seq<char>>>,
                     body: seq<Segment>, e: nat)
    requires i <= |s| && QuoteHead(s, i) == Some(h)
    requires Segments(names, s, h.next, ["[/quote]"]) == Parsed(body, e) && MatchesAt(s, e, "[/quote]")
    ensures QuoteTag(names, s, i) == Some(Parsed(Quote(h.value, body), e + 8))
  {
  }

  /** `list` once its head and items are known. */
  lemma ListTagStep(names: ColorNames, s: seq<char>, i: nat, h: Parsed<ListStyle>,
                    items: seq<Item>, e: nat)
    requires i <= |s| && ListHead(s, i) == Some(h)
    requires ListItems(names, s, h.next) == Parsed(items, e) && MatchesAt(s, e, "[/list]")
    ensures ListTag(names, s, i) == Some(Parsed(List(h.value, items), e + 7))
  {
  }

  /** The item loop of `list` stops where no `[*]` follows. */
  lemma ListItemsStop(names: ColorNames, s: seq<char>, i: nat)
    requires i <= |s| && !MatchesAt(s, i, "[*]")
    ensures ListItems(names, s, i) == Parsed([], i)
  {
  }

  /** The item loop of `list` after one more item. */
  lemma ListItemsCons(names: ColorNames, s: seq<char>, i: nat, b: nat, item: seq<Segment>, e: nat)
    requires i <= |s| && b == i + 3 && MatchesAt(s, i, "[*]")
    requires Segments(names, s, b, ["[*]", "[/list]"]) == Parsed(item, e)
    ensures ListItems(names, s, i) == Parsed([Item(item)] + ListItems(names, s, e).value, ListItems(names, s, e).next)
  {
  }

  /** `[url="target"]...[/url]` once the target and body are known. */
  lemma UrlQuotedStep(names: ColorNames, s: seq<char>, i: nat, k: nat, b: nat, target: seq<char>,
                      body: seq<Segment>, e: nat)
    requires i <= |s| && MatchesAt(s, i, "[url=\"") && FindExact(s, "\"]", i + 6) == Some(k)
    requires k == i + 6 + |target| && ExactAt(s, i + 6, target) && b == k + 2
    requires Segments(names, s, b, ["[/url]"]) == Parsed(body, e) && MatchesAt(s, e, "[/url]")
    ensures UrlQuoted(names, s, i) == Some(Parsed(Link(target, body), e + 6))
  {
    ExactAtSlice(s, i + 6, target);
  }

  /** `[url=target]...[/url]` once the target and body are known. */
  lemma UrlUnquotedStep(names: ColorNames, s: seq<char>, i: nat, k: nat, b: nat, target: seq<char>,
                        body: seq<Segment>, e: nat)
    requires i <= |s| && MatchesAt(s, i, "[url=") && FindExact(s, "]", i + 5) == Some(k)
    requires k == i + 5 + |target| && ExactAt(s, i + 5, target) && b == k + 1
    requires Segments(names, s, b, ["[/url]"]) == Parsed(body, e) && MatchesAt(s, e, "[/url]")
    ensures UrlUnquoted(names, s, i) == Some(Parsed(Link(target, body), e + 6))
  {
    ExactAtSlice(s, i + 5, target);
  }

  /** `[url]body[/url]` is recognised exactly when a `[/url]` (any case)
      follows the opener; the body up to the first one is, verbatim, both
      the target and the only text segment. */
  lemma UrlBareBody(s: seq<char>, i: nat)
    requires i <= |s|
    ensures UrlBare(s, i).Some? <==> MatchesAt(s, i, "[url]") && ContainsNoCase(s, i + 5, "[/url]")
    ensures UrlBare(s, i).Some? ==>
      var next := UrlBare(s, i).value.next;
      UrlBare(s, i).value.value == Link(s[i + 5..next - 6], [Text(s[i + 5..next - 6])]) &&
      forall j :: i + 5 <= j < next - 6 ==> !MatchesAt(s, j, "[/url]")
  {
    FindNoCaseFirst(s, "[/url]", i + 5);
  }

  /** `[url="target"]text[/url]`: the target is the text up to the first
      `"]`, which holds no `"]`. */
  lemma UrlQuotedTarget(names: ColorNames, s: seq<char>, i: nat)
    requires i <= |s|
    ensures UrlQuoted(names, s, i).Some? ==>
      var t := UrlQuoted(names, s, i).value.value.target;
      var k := i + 6 + |t|;
      k + 2 <= |s| && t == s[i + 6..k] && ExactAt(s, k, "\"]") &&
      forall j :: i + 6 <= j < k ==> !ExactAt(s, j, "\"]")
  {
    FindExactFirst(s, "\"]", i + 6);
    if UrlQuoted(names, s, i).Some? {
      var k := FindExact(s, "\"]", i + 6).value;
      assert UrlQuoted(names, s, i).value.value.target == s[i + 6..k];
    }
  }

  /** `[url="target"]text[/url]`: the link text is the run of segments
      after the target's `"]`, which stops exactly at the closing `[/url]`. */
  lemma UrlQuotedText(names: ColorNames, s: seq<char>, i: nat)
    requires i <= |s|
    ensures UrlQuoted(names, s, i).Some? ==>
      var u := UrlQuoted(names, s, i).value;
      var b := i + 8 + |u.value.target|;
      b <= |s| && Segments(names, s, b, ["[/url]"]) == Parsed(u.value.body, u.next - 6)
  {
    if UrlQuoted(names, s, i).Some? {
      var k := FindExact(s, "\"]", i + 6).value;
      var body := Segments(names, s, k + 2, ["[/url]"]);
      assert UrlQuoted(names, s, i) == Some(Parsed(Link(s[i + 6..k], body.value), body.next + 6));
    }
  }

  /** `[url=target]text[/url]`: the target is the text up to the first `]`,
      quotes included. */
  lemma UrlUnquotedTarget(names: ColorNames, s: seq<char>, i: nat)
    requires i <= |s|
    ensures UrlUnquoted(names, s, i).Some? ==>
      var t := UrlUnquoted(names, s, i).value.value.target;
      var k := i + 5 + |t|;
      k + 1 <= |s| && t == s[i + 5..k] && s[k] == ']' &&
      forall j :: i + 5 <= j < k ==> s[j] != ']'
  {
    FindExactFirst(s, "]", i + 5);
    if UrlUnquoted(names, s, i).Some? {
      var k := FindExact(s, "]", i + 5).value;
      assert UrlUnquoted(names, s, i).value.value.target == s[i + 5..k];
      forall j | i + 5 <= j < k
        ensures s[j] != ']'
      {
        assert !ExactAt(s, j, "]");
      }
    }
  }

  /** `[url=target]text[/url]`: the link text is the run of segments after
      the target's `]`, which stops exactly at the closing `[/url]`. */
  lemma UrlUnquotedText(names: ColorNames, s: seq<char>, i: nat)
    requires i <= |s|
    ensures UrlUnquoted(names, s, i).Some? ==>
      var u := UrlUnquoted(names, s, i).value;
      var b := i + 6 + |u.value.target|;
      b <= |s| && Segments(names, s, b, ["[/url]"]) == Parsed(u.value.body, u.next - 6)
  {
    if UrlUnquoted(names, s, i).Some? {
      var k := FindExact(s, "]", i + 5).value;
      var body := Segments(names, s, k + 1, ["[/url]"]);
      assert UrlUnquoted(names, s, i) == Some(Parsed(Link(s[i + 5..k], body.value), body.next + 6));
    }
  }

  /** A link whose `[/url]` occurs nowhere after `[url` is not recognised,
      in any of its three forms. */
  lemma UrlTagUnterminated(names: ColorNames, s: seq<char>, i: nat)
    requires i <= |s| && !ContainsNoCase(s, i + 5, "[/url]")
    ensures UrlTag(names, s, i).None?
  {
  }

  /** A color span carries the color of its head; its body is the run of
      segments after the head, which stops exactly at the closing
      `[/color]`. */
  lemma ColorTagParts(names: ColorNames, s: seq<char>, i: nat)
    requires i <= |s|
    ensures ColorTag(names, s, i).Some? <==>
      ColorHead(names, s, i).Some? &&
      MatchesAt(s, Segments(names, s, ColorHead(names, s, i).value.next, ["[/color]"]).next, "[/color]")
    ensures ColorTag(names, s, i).Some? ==>
      var h := ColorHead(names, s, i).value;
      var d := ColorTag(names, s, i).value;
      d.value.style == Color(h.value.r, h.value.g, h.value.b) &&
      Segments(names, s, h.next, ["[/color]"]) == Parsed(d.value.body, d.next - 8)
  {
  }

  /** A color span whose `[/color]` occurs nowhere after `[color=` is not
      recognised. */
  lemma ColorTagUnterminated(names: ColorNames, s: seq<char>, i: nat)
    requires i <= |s| && !ContainsNoCase(s, i + 7, "[/color]")
    ensures ColorTag(names, s, i).None?
  {
    var h := ColorHead(names, s, i);
    if h.Some? {
      var body := Segments(names, s, h.value.next, ["[/color]"]);
      assert !MatchesAt(s, body.next, "[/color]");
    }
  }

  /** A quote carries the attribution of its head; its body is the run of
      segments after the head, which stops exactly at the closing
      `[/quote]`. */
  lemma QuoteTagParts(names: ColorNames, s: seq<char>, i: nat)
    requires i <= |s|
    ensures QuoteTag(names, s, i).Some? <==>
      QuoteHead(s, i).Some? &&
      MatchesAt(s, Segments(names, s, QuoteHead(s, i).value.next, ["[/quote]"]).next, "[/quote]")
    ensures QuoteTag(names, s, i).Some? ==>
      var h := QuoteHead(s, i).value;
      var q := QuoteTag(names, s, i).value;
      q.value.attribution == h.value &&
      Segments(names, s, h.next, ["[/quote]"]) == Parsed(q.value.body, q.next - 8)
  {
  }

  /** A quote whose `[/quote]` occurs nowhere after `[quote` is not
      recognised. */
  lemma QuoteTagUnterminated(names: ColorNames, s: seq<char>, i: nat)
    requires i <= |s| && !ContainsNoCase(s, i + 6, "[/quote]")
    ensures QuoteTag(names, s, i).None?
  {
    var h := QuoteHead(s, i);
    if h.Some? {
      var body := Segments(names, s, h.value.next, ["[/quote]"]);
      assert !MatchesAt(s, body.next, "[/quote]");
    }
  }

  /** A list carries the style of its head; its items are what the item
      loop yields after the head, and the loop stops exactly at the closing
      `[/list]`. */
  lemma ListTagParts(names: ColorNames, s: seq<char>, i: nat)
    requires i <= |s|
    ensures ListTag(names, s, i).Some? <==>
      ListHead(s, i).Some? && MatchesAt(s, ListItems(names, s, ListHead(s, i).value.next).next, "[/list]")
    ensures ListTag(names, s, i).Some? ==>
      var h := ListHead(s, i).value;
      var l := ListTag(names, s, i).value;
      l.value.listStyle == h.value && ListItems(names, s, h.next) == Parsed(l.value.items, l.next - 7)
  {
  }

  /** A list whose `[/list]` occurs nowhere after `[list` is not
      recognised. */
  lemma ListTagUnterminated(names: ColorNames, s: seq<char>, i: nat)
    requires i <= |s| && !ContainsNoCase(s, i + 5, "[/list]")
    ensures ListTag(names, s, i).None?
  {
    var h := ListHead(s, i);
    if h.Some? {
      var items := ListItems(names, s, h.value.next);
      assert !MatchesAt(s, items.next, "[/list]");
    }
  }

  /** The item loop yields an item exactly when `[*]` follows. The item's
      body is the run of segments after the marker; it ends at the end of
      the input or at a segment boundary where `[*]` or `[/list]` starts,
      and the remaining items start there. */
  lemma ListItemsFirst(names: ColorNames, s: seq<char>, i: nat)
    requires i <= |s|
    ensures |ListItems(names, s, i).value| > 0 <==> MatchesAt(s, i, "[*]")
    ensures MatchesAt(s, i, "[*]") ==>
      var body := Segments(names, s, i + 3, ["[*]", "[/list]"]);
      (body.next == |s| || MatchesAt(s, body.next, "[*]") || MatchesAt(s, body.next, "[/list]")) &&
      ListItems(names, s, i).value == [Item(body.value)] + ListItems(names, s, body.next).value
  {
    if MatchesAt(s, i, "[*]") {
      var terms: seq<seq<char>> := ["[*]", "[/list]"];
      var body := Segments(names, s, i + 3, terms);
      assert terms[1..] == ["[/list]"];
      assert terms[1..][1..] == [];
      if body.next < |s| {
        assert AtTerminal(s, body.next, terms);
      }
    }
  }
}
