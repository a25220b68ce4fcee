/** The default traversal of the `Renderer` trait (src/render.rs:8-51):
    depth first, each compound node between its begin and end hooks, a list
    as `list_begin`, then per item `list_item_begin`, the item's segments and
    `list_item_end`, then `list_end`; the first hook that fails stops the
    traversal and its error is returned unchanged. The hooks themselves are
    abstract here: a `Recorder` logs every call and asks an oracle whether
    that call fails. */
module Render {
  import opened Tree
  import opened Events
  import opened Delivery

  /** The hook calls of a traversal in which no hook fails. */
  function Trace(segs: seq<Segment>): seq<Event>
    decreases segs
  {
    if |segs| == 0 then [] else SegmentTrace(segs[0]) + Trace(segs[1..])
  }

  function SegmentTrace(seg: Segment): seq<Event>
    decreases seg
  {
    match seg
    case Text(t) => [TextEvent(t)]
    case Decorated(style, body) => [DecorationBegin(style)] + Trace(body) + [DecorationEnd(style)]
    case Quote(a, body) => [QuoteBegin(a)] + Trace(body) + [QuoteEnd(a)]
    case Code(t) => [CodeEvent(t)]
    case List(style, items) => [ListBegin(style)] + ItemsTrace(style, items) + [ListEnd(style)]
    case Link(target, body) => [LinkBegin(target)] + Trace(body) + [LinkEnd(target)]
    case Image(src) => [ImageEvent(src)]
  }

  /** The hook calls for the items of a list. */
  function ItemsTrace(style: ListStyle, items: seq<Item>): seq<Event>
    decreases items
  {
    if |items| == 0 then []
    else ItemTrace(style, items[0]) + ItemsTrace(style, items[1..])
  }

  function ItemTrace(style: ListStyle, item: Item): seq<Event>
    decreases item
  {
    [ItemBegin(style)] + Trace(item.body) + [ItemEnd(style)]
  }

  /** The end hook that closes a begin hook, if `ev` is one. */
  function Closer(ev: Event): Option<Event>
  {
    match ev
    case DecorationBegin(style) => Some(DecorationEnd(style))
    case QuoteBegin(a) => Some(QuoteEnd(a))
    case ListBegin(style) => Some(ListEnd(style))
    case ItemBegin(style) => Some(ItemEnd(style))
    case LinkBegin(target) => Some(LinkEnd(target))
    case _ => None
  }

  predicate IsEnd(ev: Event)
  {
    ev.DecorationEnd? || ev.QuoteEnd? || ev.ListEnd? || ev.ItemEnd? || ev.LinkEnd?
  }

  /** Reads `evs` against a stack of the end hooks still owed, innermost
      first: a begin hook pushes its end, an end hook must be the innermost
      one owed. `None` when an end hook comes out of turn. */
  function Nest(evs: seq<Event>, open: seq<Event>): Option<seq<Event>>
    decreases |evs|
  {
    if |evs| == 0 then Some(open)
    else if Closer(evs[0]).Some? then Nest(evs[1..], [Closer(evs[0]).value] + open)
    else if IsEnd(evs[0]) then
      if |open| > 0 && open[0] == evs[0] then Nest(evs[1..], open[1..]) else None
    else Nest(evs[1..], open)
  }

  /** A traversal closes everything it opens, in the right order: reading
      its hook calls leaves the stack of owed end hooks as it was. */
  lemma {:induction false} TraceNests(segs: seq<Segment>, rest: seq<Event>, open: seq<Event>)
    ensures Nest(Trace(segs) + rest, open) == Nest(rest, open)
    decreases segs
  {
    if |segs| > 0 {
      assert Trace(segs) + rest == SegmentTrace(segs[0]) + (Trace(segs[1..]) + rest);
      SegmentNests(segs[0], Trace(segs[1..]) + rest, open);
      TraceNests(segs[1..], rest, open);
    } else {
      assert Trace(segs) + rest == rest;
    }
  }

  lemma {:induction false} SegmentNests(seg: Segment, rest: seq<Event>, open: seq<Event>)
    ensures Nest(SegmentTrace(seg) + rest, open) == Nest(rest, open)
    decreases seg
  {
    match seg
    case Text(t) =>
      assert (SegmentTrace(seg) + rest)[1..] == rest;
    case Code(t) =>
      assert (SegmentTrace(seg) + rest)[1..] == rest;
    case Image(src) =>
      assert (SegmentTrace(seg) + rest)[1..] == rest;
    case Decorated(style, body) =>
      Bracketed(DecorationBegin(style), Trace(body), DecorationEnd(style), rest, open);
      TraceNests(body, [DecorationEnd(style)] + rest, [DecorationEnd(style)] + open);
    case Quote(a, body) =>
      Bracketed(QuoteBegin(a), Trace(body), QuoteEnd(a), rest, open);
      TraceNests(body, [QuoteEnd(a)] + rest, [QuoteEnd(a)] + open);
    case Link(target, body) =>
      Bracketed(LinkBegin(target), Trace(body), LinkEnd(target), rest, open);
      TraceNests(body, [LinkEnd(target)] + rest, [LinkEnd(target)] + open);
    case List(style, items) =>
      Bracketed(ListBegin(style), ItemsTrace(style, items), ListEnd(style), rest, open);
      ItemsNest(style, items, [ListEnd(style)] + rest, [ListEnd(style)] + open);
  }

  lemma {:induction false} ItemsNest(style: ListStyle, items: seq<Item>, rest: seq<Event>, open: seq<Event>)
    ensures Nest(ItemsTrace(style, items) + rest, open) == Nest(rest, open)
    decreases items
  {
    if |items| > 0 {
      var tail := ItemsTrace(style, items[1..]) + rest;
      assert ItemsTrace(style, items) + rest
        == [ItemBegin(style)] + Trace(items[0].body) + [ItemEnd(style)] + tail;
      Bracketed(ItemBegin(style), Trace(items[0].body), ItemEnd(style), tail, open);
      TraceNests(items[0].body, [ItemEnd(style)] + tail, [ItemEnd(style)] + open);
      ItemsNest(style, items[1..], rest, open);
    } else {
      assert ItemsTrace(style, items) + rest == rest;
    }
  }

  /** Reading a begin hook, a middle and the matching end hook. */
  lemma Bracketed(begin: Event, mid: seq<Event>, end: Event, rest: seq<Event>, open: seq<Event>)
    requires Closer(begin) == Some(end) && IsEnd(end)
    ensures Nest([begin] + mid + [end] + rest, open) == Nest(mid + ([end] + rest), [end] + open)
    ensures Nest([end] + rest, [end] + open) == Nest(rest, open)
  {
    assert ([begin] + mid + [end] + rest)[1..] == mid + ([end] + rest);
    assert ([end] + rest)[1..] == rest;
  }

  /** Every complete traversal is well nested. */
  lemma TraceWellNested(segs: seq<Segment>)
    ensures Nest(Trace(segs), []) == Some([])
  {
    TraceNests(segs, [], []);
    assert Trace(segs) + [] == Trace(segs);
  }

  /** Splitting a sequence of segments splits its hook calls. */
  lemma {:induction false} TraceAppend(a: seq<Segment>, b: seq<Segment>)
    ensures Trace(a + b) == Trace(a) + Trace(b)
    decreases a
  {
    if |a| == 0 {
      assert a + b == b;
    } else {
      assert (a + b)[1..] == a[1..] + b;
      TraceAppend(a[1..], b);
    }
  }

  lemma {:induction false} ItemsTraceAppend(style: ListStyle, a: seq<Item>, b: seq<Item>)
    ensures ItemsTrace(style, a + b) == ItemsTrace(style, a) + ItemsTrace(style, b)
    decreases a
  {
    if |a| == 0 {
      assert a + b == b;
    } else {
      assert (a + b)[1..] == a[1..] + b;
      ItemsTraceAppend(style, a[1..], b);
    }
  }

  /** The calls for the segments from `j` on. */
  lemma TraceFrom(segs: seq<Segment>, j: nat)
    requires j < |segs|
    ensures Trace(segs[j..]) == SegmentTrace(segs[j]) + Trace(segs[j + 1..])
  {
    assert segs[j..][1..] == segs[j + 1..];
  }

  lemma ItemsTraceFrom(style: ListStyle, items: seq<Item>, j: nat)
    requires j < |items|
    ensures ItemsTrace(style, items[j..]) == ItemTrace(style, items[j]) + ItemsTrace(style, items[j + 1..])
  {
    assert items[j..][1..] == items[j + 1..];
  }

  /** A renderer whose hooks are abstract: each call is logged in `trace`,
      and the hook call at position `n` of the log fails with
      `refuse(n, ev)` when that is `Some`. */
  class Recorder<E> {
    var trace: seq<Event>
    const refuse: (nat, Event) -> Option<E>

    constructor (refuse: (nat, Event) -> Option<E>)
      ensures trace == [] && this.refuse == refuse
    {
      trace := [];
      this.refuse := refuse;
    }

    /** One hook call. */
    method Hook(ev: Event) returns (err: Option<E>)
      modifies this
      ensures trace == old(trace) + [ev] && err == refuse(|old(trace)|, ev)
    {
      err := refuse(|trace|, ev);
      trace := trace + [ev];
    }

    /** `Renderer::render`: the segments in order, stopping at the first
        failed hook call. */
    method Render(segs: seq<Segment>) returns (err: Option<E>)
      modifies this
      ensures trace == old(trace) + Deliver(Trace(segs), refuse, |old(trace)|).delivered
      ensures err == Deliver(Trace(segs), refuse, |old(trace)|).error
      decreases segs, 1
    {
      err := None;
      var j := 0;
      ghost var done: seq<Event> := [];
      assert segs[0..] == segs;
      while j < |segs|
        invariant j <= |segs|
        invariant trace == old(trace) + done
        invariant Trace(segs) == done + Trace(segs[j..])
        invariant Deliver(done, refuse, |old(trace)|) == Outcome(done, None)
        invariant err.None?
        decreases |segs| - j
      {
        ghost var before := trace;
        TraceFrom(segs, j);
        err := RenderSegment(segs[j]);
        assert |before| == |old(trace)| + |done|;
        if err.Some? {
          StepFails(Trace(segs), done, SegmentTrace(segs[j]), Trace(segs[j + 1..]), refuse, |old(trace)|);
          Assoc3(old(trace), done, Deliver(SegmentTrace(segs[j]), refuse, |before|).delivered);
          return;
        }
        StepGoesOn(done, SegmentTrace(segs[j]), refuse, |old(trace)|);
        Assoc3(old(trace), done, SegmentTrace(segs[j]));
        Assoc3(done, SegmentTrace(segs[j]), Trace(segs[j + 1..]));
        done := done + SegmentTrace(segs[j]);
        j := j + 1;
      }
      assert segs[j..] == [];
      assert done + [] == done;
    }

    /** One segment: its hook, or its begin hook, its body and its end
        hook. */
    method RenderSegment(seg: Segment) returns (err: Option<E>)
      modifies this
      ensures trace == old(trace) + Deliver(SegmentTrace(seg), refuse, |old(trace)|).delivered
      ensures err == Deliver(SegmentTrace(seg), refuse, |old(trace)|).error
      decreases seg, 0
    {
      match seg
      case Text(t) =>
        err := Hook(TextEvent(t));
      case Code(t) =>
        err := Hook(CodeEvent(t));
      case Image(src) =>
        err := Hook(ImageEvent(src));
      case Decorated(style, body) =>
        err := RenderBracketed(DecorationBegin(style), body, DecorationEnd(style));
      case Quote(a, body) =>
        err := RenderBracketed(QuoteBegin(a), body, QuoteEnd(a));
      case Link(target, body) =>
        err := RenderBracketed(LinkBegin(target), body, LinkEnd(target));
      case List(style, items) =>
        err := RenderList(style, items);
    }

    /** A list: `list_begin`, the items, `list_end`. */
    method RenderList(style: ListStyle, items: seq<Item>) returns (err: Option<E>)
      modifies this
      ensures trace == old(trace) + Deliver([ListBegin(style)] + ItemsTrace(style, items) + [ListEnd(style)], refuse, |old(trace)|).delivered
      ensures err == Deliver([ListBegin(style)] + ItemsTrace(style, items) + [ListEnd(style)], refuse, |old(trace)|).error
      decreases items, 4
    {
      Bracket(ListBegin(style), ItemsTrace(style, items), ListEnd(style), refuse, |trace|);
      err := Hook(ListBegin(style));
      if err.Some? {
        return;
      }
      err := RenderItems(style, items);
      if err.Some? {
        Assoc3(old(trace), [ListBegin(style)], Deliver(ItemsTrace(style, items), refuse, |old(trace)| + 1).delivered);
        return;
      }
      err := Hook(ListEnd(style));
      Assoc(old(trace), [ListBegin(style)], ItemsTrace(style, items), [ListEnd(style)]);
    }

    /** A decorated block, a quote or a link: the begin hook, the body, the
        end hook. */
    method RenderBracketed(begin: Event, body: seq<Segment>, end: Event) returns (err: Option<E>)
      modifies this
      ensures trace == old(trace) + Deliver([begin] + Trace(body) + [end], refuse, |old(trace)|).delivered
      ensures err == Deliver([begin] + Trace(body) + [end], refuse, |old(trace)|).error
      decreases body, 2
    {
      Bracket(begin, Trace(body), end, refuse, |trace|);
      err := Hook(begin);
      if err.Some? {
        return;
      }
      err := Render(body);
      if err.Some? {
        Assoc3(old(trace), [begin], Deliver(Trace(body), refuse, |old(trace)| + 1).delivered);
        return;
      }
      err := Hook(end);
      Assoc(old(trace), [begin], Trace(body), [end]);
    }

    /** The item loop of a list: each item between its begin and end
        hooks. */
    method RenderItems(style: ListStyle, items: seq<Item>) returns (err: Option<E>)
      modifies this
      ensures trace == old(trace) + Deliver(ItemsTrace(style, items), refuse, |old(trace)|).delivered
      ensures err == Deliver(ItemsTrace(style, items), refuse, |old(trace)|).error
      decreases items, 3
    {
      err := None;
      var j := 0;
      ghost var done: seq<Event> := [];
      assert items[0..] == items;
      while j < |items|
        invariant j <= |items|
        invariant trace == old(trace) + done
        invariant ItemsTrace(style, items) == done + ItemsTrace(style, items[j..])
        invariant Deliver(done, refuse, |old(trace)|) == Outcome(done, None)
        invariant err.None?
        decreases |items| - j
      {
        ghost var before := trace;
        ItemsTraceFrom(style, items, j);
        err := RenderBracketed(ItemBegin(style), items[j].body, ItemEnd(style));
        assert |before| == |old(trace)| + |done|;
        if err.Some? {
          StepFails(ItemsTrace(style, items), done, ItemTrace(style, items[j]), ItemsTrace(style, items[j + 1..]), refuse, |old(trace)|);
          Assoc3(old(trace), done, Deliver(ItemTrace(style, items[j]), refuse, |before|).delivered);
          return;
        }
        StepGoesOn(done, ItemTrace(style, items[j]), refuse, |old(trace)|);
        Assoc3(old(trace), done, ItemTrace(style, items[j]));
        Assoc3(done, ItemTrace(style, items[j]), ItemsTrace(style, items[j + 1..]));
        done := done + ItemTrace(style, items[j]);
        j := j + 1;
      }
      assert items[j..] == [];
      assert done + [] == done;
    }
  }
}
