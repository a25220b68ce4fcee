/** The unit tests of the crate, restated as facts about the model. Longer
    inputs are written as concatenations of short literals
    (`"[url=exa" + "mple.com" + ...`): the concatenation is the test's input,
    and the pieces let each proof step look at a few characters at a time. */
module Cases {
  import opened Tree
  import opened Strings
  import opened Tags
  import opened Parser
  import opened ParserFacts

  /** src/decoration.rs:40-43. */
  lemma BoldText(names: ColorNames)
    ensures BoldTag(names, "[b]BOLD![/b]", 0) == Some(Parsed([Text("BOLD!")], 12))
  {
    var s := "[b]BOLD![/b]";
    SingleText(names, s, 3, 8, "BOLD!", ["[/b]"]);
    SimpleTagStep(names, s, 0, "[b]", "[/b]", 3, 8, [Text("BOLD!")]);
  }

  /** src/decoration.rs:61-64. */
  lemma UnderlinedText(names: ColorNames)
    ensures UnderlineTag(names, "[u]um[/u]", 0) == Some(Parsed([Text("um")], 9))
  {
    var s := "[u]um[/u]";
    SingleText(names, s, 3, 5, "um", ["[/u]"]);
    SimpleTagStep(names, s, 0, "[u]", "[/u]", 3, 5, [Text("um")]);
  }

  /** src/macros.rs:37-40: the split falls at the first match, ignoring
      case. */
  lemma TakeUntilFirstMatch()
    ensures FindNoCase("FooBarBAZbaz", "baz", 0) == Some(6)
  {
  }

  /** src/macros.rs:41: a match at the start leaves an empty prefix. */
  lemma TakeUntilAtStart()
    ensures FindNoCase("BuZz", "BUZZ", 0) == Some(0)
  {
  }

  /** src/macros.rs:42-45: no match is a failure. */
  lemma TakeUntilNoMatch()
    ensures FindNoCase("BooFarQuux", "baz", 0) == None
  {
  }

  /** src/quote.rs:26-27. */
  lemma JustQuoteHead()
    ensures QuoteHead("[quote]", 0) == Some(Parsed(None, 7))
    ensures QuoteHead("[quote=\"たみや\"]", 0) == Some(Parsed(Some("たみや"), 13))
  {
    var s := "[quote=\"たみや\"]";
    assert FindExact(s, "\"", 8) == Some(11);
    assert s[8..11] == "たみや";
  }

  /** src/code.rs:17-20. */
  lemma EmptyCodeBlock()
    ensures CodeTag("[code][/code]", 0) == Some(Parsed(Code(""), 13))
  {
    assert FindNoCase("[code][/code]", "[/code]", 6) == Some(6);
    CodeTagStep("[code][/code]", 0, 6, 6, "");
  }

  /** The input of src/code.rs:22-28 (written in pieces of at most eight
      characters) holds no `[` between its opener and index 37 ... */
  lemma CodeSampleNoBracketHead()
    ensures Absent("[code]10" + " PRINT H" + "ELLO WOR" + "LD\n20 GO" + "TO 10" + "[/code]" + "sup[/code]", '[', 6, 22)
  {
    var s := "[code]10" + " PRINT H" + "ELLO WOR" + "LD\n20 GO" + "TO 10" + "[/code]" + "sup[/code]";
    assert Absent(s, '[', 6, 14) && Absent(s, '[', 14, 22);
    AbsentJoin(s, '[', 6, 14, 22);
  }

  lemma CodeSampleNoBracket()
    ensures Absent("[code]10" + " PRINT H" + "ELLO WOR" + "LD\n20 GO" + "TO 10" + "[/code]" + "sup[/code]", '[', 6, 37)
  {
    var s := "[code]10" + " PRINT H" + "ELLO WOR" + "LD\n20 GO" + "TO 10" + "[/code]" + "sup[/code]";
    CodeSampleNoBracketHead();
    assert Absent(s, '[', 22, 30) && Absent(s, '[', 30, 37);
    AbsentJoin(s, '[', 22, 30, 37);
    AbsentJoin(s, '[', 6, 22, 37);
  }

  /** ... so its first closer is at index 37 ... */
  lemma CodeSampleCloser()
    ensures FindNoCase("[code]10" + " PRINT H" + "ELLO WOR" + "LD\n20 GO" + "TO 10" + "[/code]" + "sup[/code]", "[/code]", 6) == Some(37)
  {
    CodeSampleNoBracket();
    FindNoCaseSkip("[code]10" + " PRINT H" + "ELLO WOR" + "LD\n20 GO" + "TO 10" + "[/code]" + "sup[/code]", "[/code]", 6, 37);
    assert FindNoCase("[code]10" + " PRINT H" + "ELLO WOR" + "LD\n20 GO" + "TO 10" + "[/code]" + "sup[/code]", "[/code]", 37) == Some(37);
  }

  lemma CodeSampleFirstHalf()
    ensures ExactAt("[code]10" + " PRINT H" + "ELLO WOR" + "LD\n20 GO" + "TO 10" + "[/code]" + "sup[/code]", 6, "10" + " PRINT H" + "ELLO WOR")
  {
    var s := "[code]10" + " PRINT H" + "ELLO WOR" + "LD\n20 GO" + "TO 10" + "[/code]" + "sup[/code]";
    ExactAtJoin(s, 6, 8, "10", " PRINT H");
    ExactAtJoin(s, 6, 16, "10" + " PRINT H", "ELLO WOR");
  }

  /** ... and the text before it is the expected body. */
  lemma CodeSampleText()
    ensures ExactAt("[code]10" + " PRINT H" + "ELLO WOR" + "LD\n20 GO" + "TO 10" + "[/code]" + "sup[/code]", 6, "10" + " PRINT H" + "ELLO WOR" + "LD\n20 GO" + "TO 10")
  {
    var s := "[code]10" + " PRINT H" + "ELLO WOR" + "LD\n20 GO" + "TO 10" + "[/code]" + "sup[/code]";
    CodeSampleFirstHalf();
    ExactAtJoin(s, 6, 24, "10" + " PRINT H" + "ELLO WOR", "LD\n20 GO");
    ExactAtJoin(s, 6, 32, "10" + " PRINT H" + "ELLO WOR" + "LD\n20 GO", "TO 10");
  }

  /** src/code.rs:22-28: the body runs to the first closer only; the text
      after it, `sup[/code]`, is left over. */
  lemma CodeTakesTextToFirstClose()
    ensures CodeTag("[code]10" + " PRINT H" + "ELLO WOR" + "LD\n20 GO" + "TO 10" + "[/code]" + "sup[/code]", 0) == Some(Parsed(Code("10" + " PRINT H" + "ELLO WOR" + "LD\n20 GO" + "TO 10"), 44))
  {
    CodeSampleCloser();
    CodeSampleText();
    CodeTagStep("[code]10" + " PRINT H" + "ELLO WOR" + "LD\n20 GO" + "TO 10" + "[/code]" + "sup[/code]", 0, 6, 37, "10" + " PRINT H" + "ELLO WOR" + "LD\n20 GO" + "TO 10");
  }

  /** The list heads of src/list.rs:68-80 and src/list.rs:55-66. */
  lemma ListHeads()
    ensures ListHead("[list=a][/list]", 0) == Some(Parsed(Alphabetic, 8))
    ensures ListHead("[LIST=1]", 0) == Some(Parsed(Numeric, 8))
    ensures ListHead("[list][*]", 0) == Some(Parsed(Unordered, 6))
  {
  }

  /** Hex colors: three digits are duplicated into both nibbles, six digits
      are read in pairs, any other count fails. */
  lemma HexColors()
    ensures RgbColor("#81f", 0) == Some(Parsed(Rgb(0x88, 0x11, 0xFF), 4))
    ensures RgbColor("#01FE9A]", 0) == Some(Parsed(Rgb(0x01, 0xFE, 0x9A), 7))
    ensures RgbColor("#1234", 0) == None
  {
  }

  /** src/quote.rs:39-50: an empty body and no attribution; `)` is left. */
  lemma EmptyQuote(names: ColorNames)
    ensures QuoteTag(names, "[quote][/quote])", 0) == Some(Parsed(Quote(None, []), 15))
  {
    var s := "[quote][/quote])";
    assert QuoteHead(s, 0) == Some(Parsed(None, 7)) by {
      assert !ExactAt(s, 6, "=\"");
    }
    assert AtTerminal(s, 7, ["[/quote]"]) by {
      assert MatchesAt(s, 7, "[/quote]");
    }
    SegmentsStop(names, s, 7, ["[/quote]"]);
    QuoteTagStep(names, s, 0, Parsed(None, 7), [], 7);
  }

  /** The body of the quote of src/quote.rs:52-64 ... */
  lemma QuoteLolBody(names: ColorNames)
    ensures Segments(names, "[quote]l" + "ol[/quot" + "e]More s" + "tuff", 7, ["[/quote]"]) == Parsed([Text("lol")], 10)
  {
    var s := "[quote]l" + "ol[/quot" + "e]More s" + "tuff";
    assert AtTerminal(s, 10, ["[/quote]"]) by {
      assert MatchesAt(s, 10, "[/quote]");
    }
    assert ExactAt(s, 7, "lol");
    assert Absent(s, '[', 7, 10);
    SingleText(names, s, 7, 10, "lol", ["[/quote]"]);
  }

  /** ... and the whole quote: the body stops at the closer, and
      `More stuff` is left. */
  lemma QuoteWithoutAttribution(names: ColorNames)
    ensures QuoteTag(names, "[quote]l" + "ol[/quot" + "e]More s" + "tuff", 0) == Some(Parsed(Quote(None, [Text("lol")]), 18))
  {
    var s := "[quote]l" + "ol[/quot" + "e]More s" + "tuff";
    assert QuoteHead(s, 0) == Some(Parsed(None, 7)) by {
      assert !ExactAt(s, 6, "=\"");
    }
    QuoteLolBody(names);
    assert MatchesAt(s, 10, "[/quote]");
    QuoteTagStep(names, s, 0, Parsed(None, 7), [Text("lol")], 10);
  }

  /** The first item of the list of src/list.rs:55-66 runs to the next
      `[*]` ... */
  lemma ListSampleFirstItem(names: ColorNames)
    ensures Segments(names, "[list][*" + "] One\n[*" + "] Two[/l" + "ist]Tail", 9, ["[*]", "[/list]"]) == Parsed([Text(" One\n")], 14)
  {
    var s := "[list][*" + "] One\n[*" + "] Two[/l" + "ist]Tail";
    assert AtTerminal(s, 14, ["[*]", "[/list]"]) by {
      assert MatchesAt(s, 14, "[*]");
    }
    assert ExactAt(s, 9, " One\n");
    assert Absent(s, '[', 9, 14);
    SingleText(names, s, 9, 14, " One\n", ["[*]", "[/list]"]);
  }

  /** ... the second to `[/list]` ... */
  lemma ListSampleSecondItem(names: ColorNames)
    ensures Segments(names, "[list][*" + "] One\n[*" + "] Two[/l" + "ist]Tail", 17, ["[*]", "[/list]"]) == Parsed([Text(" Two")], 21)
  {
    var s := "[list][*" + "] One\n[*" + "] Two[/l" + "ist]Tail";
    assert AtTerminal(s, 21, ["[*]", "[/list]"]) by {
      assert MatchesAt(s, 21, "[/list]");
      assert AtTerminal(s, 21, ["[/list]"]);
    }
    assert ExactAt(s, 17, " Two");
    assert Absent(s, '[', 17, 21);
    SingleText(names, s, 17, 21, " Two", ["[*]", "[/list]"]);
  }

  /** ... so the items are those two ... */
  lemma ListSampleItems(names: ColorNames)
    ensures ListItems(names, "[list][*" + "] One\n[*" + "] Two[/l" + "ist]Tail", 6) == Parsed([Item([Text(" One\n")]), Item([Text(" Two")])], 21)
  {
    var s := "[list][*" + "] One\n[*" + "] Two[/l" + "ist]Tail";
    assert !MatchesAt(s, 21, "[*]");
    ListItemsStop(names, s, 21);
    assert MatchesAt(s, 14, "[*]");
    ListSampleSecondItem(names);
    ListItemsCons(names, s, 14, 17, [Text(" Two")], 21);
    assert MatchesAt(s, 6, "[*]");
    ListSampleFirstItem(names);
    ListItemsCons(names, s, 6, 9, [Text(" One\n")], 14);
    assert [Item([Text(" Two")])] + [] == [Item([Text(" Two")])];
    assert [Item([Text(" One\n")])] + [Item([Text(" Two")])] == [Item([Text(" One\n")]), Item([Text(" Two")])];
  }

  /** ... and `Tail` is left after the closer (src/list.rs:55-66). */
  lemma ListWithMultipleItems(names: ColorNames)
    ensures ListTag(names, "[list][*" + "] One\n[*" + "] Two[/l" + "ist]Tail", 0) ==
      Some(Parsed(List(Unordered, [Item([Text(" One\n")]), Item([Text(" Two")])]), 28))
  {
    var s := "[list][*" + "] One\n[*" + "] Two[/l" + "ist]Tail";
    assert ListHead(s, 0) == Some(Parsed(Unordered, 6)) by {
      assert !ExactAt(s, 5, "=a") && !ExactAt(s, 5, "=1");
    }
    ListSampleItems(names);
    assert MatchesAt(s, 21, "[/list]");
    ListTagStep(names, s, 0, Parsed(Unordered, 6), [Item([Text(" One\n")]), Item([Text(" Two")])], 21);
  }

  /** src/list.rs:68-80: no items at all. */
  lemma EmptyList(names: ColorNames)
    ensures ListTag(names, "[list=a][/list]", 0) == Some(Parsed(List(Alphabetic, []), 15))
  {
    var s := "[list=a][/list]";
    assert ListHead(s, 0) == Some(Parsed(Alphabetic, 8));
    assert !MatchesAt(s, 8, "[*]");
    ListItemsStop(names, s, 8);
    assert MatchesAt(s, 8, "[/list]");
    ListTagStep(names, s, 0, Parsed(Alphabetic, 8), [], 8);
  }

  /** src/url.rs:41-50: in the bare form the body, read verbatim, is both
      the target and the text. */
  lemma UrlBareSample(names: ColorNames)
    ensures UrlTag(names, "[URL]exa" + "mple.com" + "[/URL]", 0) ==
      Some(Parsed(Link("example.com", [Text("example.com")]), 22))
  {
    var s := "[URL]exa" + "mple.com" + "[/URL]";
    assert MatchesAt(s, 0, "[url]");
    assert Absent(s, '[', 5, 16);
    FindNoCaseSkip(s, "[/url]", 5, 16);
    assert MatchesAt(s, 16, "[/url]");
    assert FindNoCase(s, "[/url]", 16) == Some(16);
    assert s[5..16] == "example.com";
    UrlForms(names, s, 0);
  }

  /** The unquoted target of src/url.rs:51-60 runs to the first `]` ... */
  lemma UrlSampleTarget()
    ensures FindExact("[url=exa" + "mple.com" + "/\"quote\"" + "]for [i]" + "example[" + "/url]", "]", 5) == Some(24)
    ensures ExactAt("[url=exa" + "mple.com" + "/\"quote\"" + "]for [i]" + "example[" + "/url]", 5, "exa" + "mple.com" + "/\"quote\"")
  {
    var s := "[url=exa" + "mple.com" + "/\"quote\"" + "]for [i]" + "example[" + "/url]";
    assert Absent(s, ']', 5, 8) && Absent(s, ']', 8, 16) && Absent(s, ']', 16, 24);
    AbsentJoin(s, ']', 5, 8, 16);
    AbsentJoin(s, ']', 5, 16, 24);
    FindExactSkip(s, "]", 5, 24);
    assert ExactAt(s, 24, "]");
    ExactAtJoin(s, 5, 8, "exa", "mple.com");
    ExactAtJoin(s, 5, 16, "exa" + "mple.com", "/\"quote\"");
  }

  /** ... the `[i]` inside its text has no `[/i]` after it ... */
  lemma UrlSampleNoItalicCloser()
    ensures !ContainsNoCase("[url=exa" + "mple.com" + "/\"quote\"" + "]for [i]" + "example[" + "/url]", 32, "[/i]")
  {
    var s := "[url=exa" + "mple.com" + "/\"quote\"" + "]for [i]" + "example[" + "/url]";
    assert Absent(s, '[', 32, 39) && Absent(s, '[', 40, 45);
    forall j | 32 <= j < |s|
      ensures !MatchesAt(s, j, "[/i]")
    {
      if j < 39 {
        AbsentAt(s, '[', 32, 39, j);
      } else if j > 39 {
        AbsentAt(s, '[', 40, 45, j);
      }
    }
  }

  /** ... so nothing is recognised at the `[i]` ... */
  lemma UrlSampleNoItalic(names: ColorNames)
    ensures CodedSegment(names, "[url=exa" + "mple.com" + "/\"quote\"" + "]for [i]" + "example[" + "/url]", 29).None?
  {
    var s := "[url=exa" + "mple.com" + "/\"quote\"" + "]for [i]" + "example[" + "/url]";
    UrlSampleNoItalicCloser();
    SimpleTagUnterminated(names, s, 29, "[i]", "[/i]");
    assert ItalicTag(names, s, 29).None?;
    assert !MatchesAt(s, 29, "[b]") && !MatchesAt(s, 29, "[u]") && !MatchesAt(s, 29, "[center]");
    assert !MatchesAt(s, 29, "[color=");
    assert DecoratedTag(names, s, 29).None?;
    assert !MatchesAt(s, 29, "[code]") && !MatchesAt(s, 29, "[list");
    assert !MatchesAt(s, 29, "[quote") && !MatchesAt(s, 29, "[url");
  }

  /** ... the text run from the start of the link text ends at `[/url]` ... */
  lemma UrlSampleTextEnd(names: ColorNames)
    ensures TextEnd(names, "[url=exa" + "mple.com" + "/\"quote\"" + "]for [i]" + "example[" + "/url]", 26, ["[/url]"]) == 39
  {
    var s := "[url=exa" + "mple.com" + "/\"quote\"" + "]for [i]" + "example[" + "/url]";
    var terms := ["[/url]"];
    assert Bracketed(terms);
    assert Absent(s, '[', 26, 29) && Absent(s, '[', 30, 39);
    TextEndSkip(names, s, 26, 29, terms);
    UrlSampleNoItalic(names);
    assert !MatchesAt(s, 29, "[/url]");
    assert !AtTerminal(s, 29, terms);
    TextEndPast(names, s, 29, terms);
    TextEndSkip(names, s, 30, 39, terms);
    assert MatchesAt(s, 39, "[/url]");
    assert AtTerminal(s, 39, terms);
  }

  /** ... so the text keeps the `[i]` ... */
  lemma UrlSampleTextSegment(names: ColorNames)
    ensures NextSegment(names, "[url=exa" + "mple.com" + "/\"quote\"" + "]for [i]" + "example[" + "/url]", 25, ["[/url]"]) ==
      Some(Parsed(Text("for [i]" + "example"), 39))
  {
    var s := "[url=exa" + "mple.com" + "/\"quote\"" + "]for [i]" + "example[" + "/url]";
    var terms := ["[/url]"];
    assert Bracketed(terms);
    NoStopAt(names, s, 25, terms);
    UrlSampleTextEnd(names);
    ExactAtJoin(s, 25, 32, "for [i]", "example");
    TextRun(names, s, 25, 39, "for [i]" + "example", terms);
  }

  /** ... and is all of the link text ... */
  lemma UrlSampleText(names: ColorNames)
    ensures Segments(names, "[url=exa" + "mple.com" + "/\"quote\"" + "]for [i]" + "example[" + "/url]", 25, ["[/url]"]) ==
      Parsed([Text("for [i]" + "example")], 39)
  {
    var s := "[url=exa" + "mple.com" + "/\"quote\"" + "]for [i]" + "example[" + "/url]";
    var terms := ["[/url]"];
    var seg := Text("for [i]" + "example");
    UrlSampleTextSegment(names);
    assert MatchesAt(s, 39, "[/url]");
    assert AtTerminal(s, 39, terms);
    SegmentsStop(names, s, 39, terms);
    SegmentsCons(names, s, 25, terms, seg, 39);
    assert [seg] + [] == [seg];
  }

  /** ... which src/url.rs:51-60 expects. */
  lemma UrlUnquotedSample(names: ColorNames)
    ensures UrlTag(names, "[url=exa" + "mple.com" + "/\"quote\"" + "]for [i]" + "example[" + "/url]", 0) ==
      Some(Parsed(Link("exa" + "mple.com" + "/\"quote\"", [Text("for [i]" + "example")]), 45))
  {
    var s := "[url=exa" + "mple.com" + "/\"quote\"" + "]for [i]" + "example[" + "/url]";
    assert MatchesAt(s, 0, "[url=");
    assert !MatchesAt(s, 0, "[url]") && !MatchesAt(s, 0, "[url=\"");
    UrlSampleTarget();
    UrlSampleText(names);
    assert MatchesAt(s, 39, "[/url]");
    UrlUnquotedStep(names, s, 0, 24, 25, "exa" + "mple.com" + "/\"quote\"", [Text("for [i]" + "example")], 39);
    UrlForms(names, s, 0);
  }

  /** The bold text inside the link of src/url.rs:61-73 ... */
  lemma UrlSampleBoldTag(names: ColorNames)
    ensures BoldTag(names, "[url=\"ex" + "ample.co" + "m\"][b]or" + "ly?[/b][" + "/url]mor" + "e", 19) ==
      Some(Parsed([Text("orly?")], 31))
  {
    var s := "[url=\"ex" + "ample.co" + "m\"][b]or" + "ly?[/b][" + "/url]mor" + "e";
    assert MatchesAt(s, 19, "[b]");
    assert AtTerminal(s, 27, ["[/b]"]) by {
      assert MatchesAt(s, 27, "[/b]");
    }
    ExactAtJoin(s, 22, 24, "or", "ly?");
    assert Absent(s, '[', 22, 27);
    SingleText(names, s, 22, 27, "or" + "ly?", ["[/b]"]);
    assert MatchesAt(s, 27, "[/b]");
    SimpleTagStep(names, s, 19, "[b]", "[/b]", 22, 27, [Text("or" + "ly?")]);
    assert "or" + "ly?" == "orly?";
  }

  /** ... is the one segment of the link text ... */
  lemma UrlSampleBold(names: ColorNames)
    ensures Segments(names, "[url=\"ex" + "ample.co" + "m\"][b]or" + "ly?[/b][" + "/url]mor" + "e", 19, ["[/url]"]) ==
      Parsed([Decorated(Bold, [Text("orly?")])], 31)
  {
    var s := "[url=\"ex" + "ample.co" + "m\"][b]or" + "ly?[/b][" + "/url]mor" + "e";
    var seg := Decorated(Bold, [Text("orly?")]);
    UrlSampleBoldTag(names);
    DecoratedOrderFree(names, s, 19);
    CodedSegmentOrderFree(names, s, 19);
    assert !MatchesAt(s, 19, "[/url]");
    CodedStep(names, s, 19, ["[/url]"], seg, 31);
    assert AtTerminal(s, 31, ["[/url]"]) by {
      assert MatchesAt(s, 31, "[/url]");
    }
    SegmentsStop(names, s, 31, ["[/url]"]);
    SegmentsCons(names, s, 19, ["[/url]"], seg, 31);
    assert [seg] + [] == [seg];
  }

  /** ... its target runs to the first `"]` ... */
  lemma UrlSampleQuotedTarget()
    ensures FindExact("[url=\"ex" + "ample.co" + "m\"][b]or" + "ly?[/b][" + "/url]mor" + "e", "\"]", 6) == Some(17)
    ensures ExactAt("[url=\"ex" + "ample.co" + "m\"][b]or" + "ly?[/b][" + "/url]mor" + "e", 6, "ex" + "ample.co" + "m")
  {
    var s := "[url=\"ex" + "ample.co" + "m\"][b]or" + "ly?[/b][" + "/url]mor" + "e";
    assert Absent(s, '"', 6, 8) && Absent(s, '"', 8, 16) && Absent(s, '"', 16, 17);
    AbsentJoin(s, '"', 6, 8, 16);
    AbsentJoin(s, '"', 6, 16, 17);
    FindExactSkip(s, "\"]", 6, 17);
    assert ExactAt(s, 17, "\"]");
    assert FindExact(s, "\"]", 17) == Some(17);
    ExactAtJoin(s, 6, 8, "ex", "ample.co");
    ExactAtJoin(s, 6, 16, "ex" + "ample.co", "m");
  }

  /** ... and the whole link, with `more` left after it. */
  lemma UrlQuotedSample(names: ColorNames)
    ensures UrlTag(names, "[url=\"ex" + "ample.co" + "m\"][b]or" + "ly?[/b][" + "/url]mor" + "e", 0) ==
      Some(Parsed(Link("ex" + "ample.co" + "m", [Decorated(Bold, [Text("orly?")])]), 37))
  {
    var s := "[url=\"ex" + "ample.co" + "m\"][b]or" + "ly?[/b][" + "/url]mor" + "e";
    assert MatchesAt(s, 0, "[url=\"");
    UrlSampleQuotedTarget();
    UrlSampleBold(names);
    assert MatchesAt(s, 31, "[/url]");
    UrlQuotedStep(names, s, 0, 17, 19, "ex" + "ample.co" + "m", [Decorated(Bold, [Text("orly?")])], 31);
    UrlForms(names, s, 0);
  }

  /** In `[url="a"]b[/url]` the quoted target ends at 7 and the unquoted
      one at 8 ... */
  lemma UrlOrderTargets()
    ensures FindExact("[url=\"a" + "\"]b[/url" + "]", "\"]", 6) == Some(7)
    ensures FindExact("[url=\"a" + "\"]b[/url" + "]", "]", 5) == Some(8)
  {
    var s := "[url=\"a" + "\"]b[/url" + "]";
    assert Absent(s, '"', 6, 7) && ExactAt(s, 7, "\"]");
    FindExactSkip(s, "\"]", 6, 7);
    assert FindExact(s, "\"]", 7) == Some(7);
    assert Absent(s, ']', 5, 8) && ExactAt(s, 8, "]");
    FindExactSkip(s, "]", 5, 8);
    assert FindExact(s, "]", 8) == Some(8);
  }

  /** ... and the text after either is `b` ... */
  lemma UrlOrderText(names: ColorNames)
    ensures Segments(names, "[url=\"a" + "\"]b[/url" + "]", 9, ["[/url]"]) == Parsed([Text("b")], 10)
  {
    var s := "[url=\"a" + "\"]b[/url" + "]";
    assert AtTerminal(s, 10, ["[/url]"]) by {
      assert MatchesAt(s, 10, "[/url]");
    }
    assert ExactAt(s, 9, "b");
    assert Absent(s, '[', 9, 10);
    SingleText(names, s, 9, 10, "b", ["[/url]"]);
  }

  /** ... so where both targets apply the quoted one, tried first, wins; the
      unquoted reading would keep the quotes. */
  lemma UrlOrderMatters(names: ColorNames)
    ensures UrlQuoted(names, "[url=\"a" + "\"]b[/url" + "]", 0) == Some(Parsed(Link("a", [Text("b")]), 16))
    ensures UrlUnquoted(names, "[url=\"a" + "\"]b[/url" + "]", 0) == Some(Parsed(Link("\"a\"", [Text("b")]), 16))
    ensures UrlTag(names, "[url=\"a" + "\"]b[/url" + "]", 0) == Some(Parsed(Link("a", [Text("b")]), 16))
  {
    var s := "[url=\"a" + "\"]b[/url" + "]";
    assert MatchesAt(s, 0, "[url=\"") && MatchesAt(s, 0, "[url=");
    UrlOrderTargets();
    UrlOrderText(names);
    assert MatchesAt(s, 10, "[/url]");
    assert ExactAt(s, 6, "a") && ExactAt(s, 5, "\"a\"");
    UrlQuotedStep(names, s, 0, 7, 9, "a", [Text("b")], 10);
    UrlUnquotedStep(names, s, 0, 8, 9, "\"a\"", [Text("b")], 10);
    UrlForms(names, s, 0);
  }

  /** A bold opener without its closer is not recognised ... */
  lemma UnterminatedBoldNotCoded(names: ColorNames)
    ensures CodedSegment(names, "[b]unter" + "minated", 0).None?
  {
    var s := "[b]unter" + "minated";
    assert Absent(s, '[', 1, 15);
    assert !ContainsNoCase(s, 3, "[/b]") by {
      forall j | 3 <= j < |s|
        ensures !MatchesAt(s, j, "[/b]")
      {
        AbsentAt(s, '[', 1, 15, j);
      }
    }
    SimpleTagUnterminated(names, s, 0, "[b]", "[/b]");
    assert BoldTag(names, s, 0).None?;
    assert !MatchesAt(s, 0, "[i]") && !MatchesAt(s, 0, "[u]") && !MatchesAt(s, 0, "[center]");
    assert !MatchesAt(s, 0, "[color=");
    assert DecoratedTag(names, s, 0).None?;
    assert !MatchesAt(s, 0, "[code]") && !MatchesAt(s, 0, "[list");
    assert !MatchesAt(s, 0, "[quote") && !MatchesAt(s, 0, "[url");
  }

  /** ... so the whole input is read as one text segment. */
  lemma UnterminatedBold(names: ColorNames)
    ensures Parse(names, "[b]unter" + "minated") == Some([Text("[b]unter" + "minated")])
  {
    var s := "[b]unter" + "minated";
    UnterminatedBoldNotCoded(names);
    assert Absent(s, '[', 1, 15);
    assert Bracketed([]);
    TextEndSkip(names, s, 1, 15, []);
    ExactAtSlice(s, 0, s);
    assert s[0..15] == s;
    assert !AtTerminal(s, 0, []);
    TextRun(names, s, 0, 15, s, []);
    SegmentsStop(names, s, 15, []);
    SegmentsCons(names, s, 0, [], Text(s), 15);
    assert [Text(s)] + [] == [Text(s)];
  }
}
