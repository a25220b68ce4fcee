/** `text_segment` as src/lib.rs:36-58 writes it. Its loop probes each later
    offset with `segment` itself (src/lib.rs:24-28), and `segment` falls
    back to `text_segment`, which succeeds on any non-empty input, so the
    first probe always succeeds: every text run is one character long. The
    doc comment asks for the text up to the next coded segment; module
    Parser implements that reading (`Parser.TextSegment`). */
module TextScan {
  import opened Tree
  import opened Tags
  import opened Parser

  /** `segment` as written: a coded segment, else a text run; no terminal. */
  function SegmentAsWritten(names: ColorNames, s: seq<char>, i: nat): (r: Option<Parsed<Segment>>)
    requires i <= |s|
    ensures r.Some? ==> i < r.value.next <= |s|
    decreases |s| - i, |s| - i + 2
  {
    var c := CodedSegment(names, s, i);
    if c.Some? then c
    else
      match TextSegmentAsWritten(names, s, i)
      case None => None
      case Some(t) => Some(Parsed(Text(t.value), t.next))
  }

  /** `text_segment` as written: fails on empty input, otherwise takes the
      text up to the first later offset at which `segment` succeeds. */
  function TextSegmentAsWritten(names: ColorNames, s: seq<char>, i: nat): (r: Option<Parsed<seq<char>>>)
    requires i <= |s|
    ensures r.Some? ==> i < r.value.next <= |s| && r.value.value == s[i..r.value.next]
    decreases |s| - i, |s| - i + 1
  {
    if i == |s| then None
    else
      var k := ProbeAsWritten(names, s, i, i + 1);
      Some(Parsed(s[i..k], k))
  }

  /** The loop of src/lib.rs:46-52: the first offset from `k` on at which
      `segment` succeeds, or the end of the input. */
  function ProbeAsWritten(names: ColorNames, s: seq<char>, i: nat, k: nat): (r: nat)
    requires i < k <= |s|
    ensures k <= r <= |s|
    decreases |s| - i, |s| - k
  {
    if k == |s| || SegmentAsWritten(names, s, k).Some? then k
    else ProbeAsWritten(names, s, i, k + 1)
  }

  /** As written, `segment` succeeds on every non-empty input. */
  lemma SegmentAsWrittenTotal(names: ColorNames, s: seq<char>, i: nat)
    requires i <= |s|
    ensures SegmentAsWritten(names, s, i).Some? <==> i < |s|
  {
  }

  /** As written, a text run followed by anything stops after one
      character, coded segment or not. */
  lemma TextSegmentAsWrittenOneChar(names: ColorNames, s: seq<char>, i: nat)
    requires i + 1 < |s|
    ensures TextSegmentAsWritten(names, s, i) == Some(Parsed([s[i]], i + 1))
  {
    SegmentAsWrittenTotal(names, s, i + 1);
    assert s[i..i + 1] == [s[i]];
  }

  /** On "ab" the run as written is "a", while the text up to the next coded
      segment, which the doc comment asks for, is all of "ab". */
  lemma TextSegmentAsWrittenSplitsPlainText(names: ColorNames)
    ensures TextSegmentAsWritten(names, "ab", 0) == Some(Parsed("a", 1))
    ensures TextSegment(names, "ab", 0, []) == Some(Parsed("ab", 2))
  {
    TextSegmentAsWrittenOneChar(names, "ab", 0);
    assert !AtTerminal("ab", 1, []);
    assert !Opener("ab", 1);
    assert TextEnd(names, "ab", 2, []) == 2;
    assert TextEnd(names, "ab", 1, []) == 2;
    assert "ab"[0..2] == "ab";
  }
}
