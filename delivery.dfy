/** Fail-fast delivery of hook calls: every hook call of `render` is
    followed by `?` (src/render.rs:8-51), so the traversal stops at the first
    call that fails and returns that call's error. */
module Delivery {
  import opened Tree
  import opened Events

  /** Where a traversal stops: the hook calls made, and the error of the
      last one when it failed. */
  datatype Outcome<E> = Outcome(delivered: seq<Event>, error: Option<E>)

  /** The position of the first call from `k` on that fails, where the
      call at overall position `base + j` fails with
      `refuse(base + j, evs[j])` when that is `Some`. */
  function FirstFailure<E>(evs: seq<Event>, refuse: (nat, Event) -> Option<E>, base: nat, k: nat): (r: Option<nat>)
    requires k <= |evs|
    ensures r.Some? ==> k <= r.value < |evs| && refuse(base + r.value, evs[r.value]).Some?
    decreases |evs| - k
  {
    if k == |evs| then None
    else if refuse(base + k, evs[k]).Some? then Some(k)
    else FirstFailure(evs, refuse, base, k + 1)
  }

  /** No call before the first failure fails, and there is no failure
      exactly when no call fails. */
  lemma {:induction false} FirstFailureFirst<E>(evs: seq<Event>, refuse: (nat, Event) -> Option<E>, base: nat, k: nat)
    requires k <= |evs|
    ensures FirstFailure(evs, refuse, base, k).Some? ==>
      forall j :: k <= j < FirstFailure(evs, refuse, base, k).value ==> refuse(base + j, evs[j]).None?
    ensures FirstFailure(evs, refuse, base, k).None? <==>
      forall j :: k <= j < |evs| ==> refuse(base + j, evs[j]).None?
    decreases |evs| - k
  {
    if k < |evs| && refuse(base + k, evs[k]).None? {
      FirstFailureFirst(evs, refuse, base, k + 1);
    }
  }

  function Shift(r: Option<nat>, n: nat): Option<nat>
  {
    if r.None? then None else Some(r.value + n)
  }

  /** Past the end of `a`, the search in `a + b` is the search in `b`. */
  lemma {:induction false} FirstFailureSuffix<E>(a: seq<Event>, b: seq<Event>, refuse: (nat, Event) -> Option<E>, base: nat, m: nat)
    requires m <= |b|
    ensures FirstFailure(a + b, refuse, base, |a| + m) == Shift(FirstFailure(b, refuse, base + |a|, m), |a|)
    decreases |b| - m
  {
    if m < |b| {
      assert (a + b)[|a| + m] == b[m];
      FirstFailureSuffix(a, b, refuse, base, m + 1);
    }
  }

  /** The search in `a + b` finds the failure in `a` if there is one, and
      otherwise the one in `b`. */
  lemma {:induction false} FirstFailurePrefix<E>(a: seq<Event>, b: seq<Event>, refuse: (nat, Event) -> Option<E>, base: nat, k: nat)
    requires k <= |a|
    ensures FirstFailure(a + b, refuse, base, k) ==
      if FirstFailure(a, refuse, base, k).Some? then FirstFailure(a, refuse, base, k)
      else Shift(FirstFailure(b, refuse, base + |a|, 0), |a|)
    decreases |a| - k
  {
    if k == |a| {
      FirstFailureSuffix(a, b, refuse, base, 0);
    } else {
      assert (a + b)[k] == a[k];
      FirstFailurePrefix(a, b, refuse, base, k + 1);
    }
  }

  /** The hook calls `evs` made in order, stopping right after the first
      that fails, with that call's error (the `?` after every hook call in
      src/render.rs:8-51). */
  function Deliver<E>(evs: seq<Event>, refuse: (nat, Event) -> Option<E>, base: nat): (o: Outcome<E>)
    ensures o.error.None? ==> o.delivered == evs
  {
    match FirstFailure(evs, refuse, base, 0)
    case None => Outcome(evs, None)
    case Some(k) => Outcome(evs[..k + 1], refuse(base + k, evs[k]))
  }

  /** The calls made are a prefix of those asked for; a traversal that does
      not run to the end stops right after its first failing call, with that
      call's own error. */
  lemma DeliverFirstFailure<E>(evs: seq<Event>, refuse: (nat, Event) -> Option<E>, base: nat)
    ensures var o := Deliver(evs, refuse, base);
      |o.delivered| <= |evs| && o.delivered == evs[..|o.delivered|] &&
      (o.error.None? <==> forall j :: 0 <= j < |evs| ==> refuse(base + j, evs[j]).None?) &&
      (o.error.Some? ==>
        |o.delivered| > 0 &&
        o.error == refuse(base + |o.delivered| - 1, evs[|o.delivered| - 1]) &&
        forall j :: 0 <= j < |o.delivered| - 1 ==> refuse(base + j, evs[j]).None?)
  {
    FirstFailureFirst(evs, refuse, base, 0);
  }

  /** Delivering two runs of hook calls in a row. */
  lemma DeliverAppend<E>(a: seq<Event>, b: seq<Event>, refuse: (nat, Event) -> Option<E>, base: nat)
    ensures Deliver(a, refuse, base).error.Some? ==> Deliver(a + b, refuse, base) == Deliver(a, refuse, base)
    ensures Deliver(a, refuse, base).error.None? ==>
      Deliver(a + b, refuse, base) == Outcome(a + Deliver(b, refuse, base + |a|).delivered, Deliver(b, refuse, base + |a|).error)
  {
    FirstFailurePrefix(a, b, refuse, base, 0);
    if FirstFailure(a, refuse, base, 0).Some? {
      FailureInFirst(a, b, refuse, base);
    } else {
      FailureInSecond(a, b, refuse, base);
    }
  }

  lemma FailureInFirst<E>(a: seq<Event>, b: seq<Event>, refuse: (nat, Event) -> Option<E>, base: nat)
    requires FirstFailure(a, refuse, base, 0).Some?
    requires FirstFailure(a + b, refuse, base, 0) == FirstFailure(a, refuse, base, 0)
    ensures Deliver(a + b, refuse, base) == Deliver(a, refuse, base)
  {
    var k := FirstFailure(a, refuse, base, 0).value;
    assert (a + b)[..k + 1] == a[..k + 1];
    assert (a + b)[k] == a[k];
  }

  lemma FailureInSecond<E>(a: seq<Event>, b: seq<Event>, refuse: (nat, Event) -> Option<E>, base: nat)
    requires FirstFailure(a, refuse, base, 0).None?
    requires FirstFailure(a + b, refuse, base, 0) == Shift(FirstFailure(b, refuse, base + |a|, 0), |a|)
    ensures Deliver(a, refuse, base) == Outcome(a, None)
    ensures Deliver(a + b, refuse, base) == Outcome(a + Deliver(b, refuse, base + |a|).delivered, Deliver(b, refuse, base + |a|).error)
  {
    if FirstFailure(b, refuse, base + |a|, 0).Some? {
      var m := FirstFailure(b, refuse, base + |a|, 0).value;
      assert (a + b)[..|a| + m + 1] == a + b[..m + 1];
      assert (a + b)[|a| + m] == b[m];
    }
  }

  /** Delivering a begin hook, a middle and an end hook, when the begin
      hook fails. */
  lemma BracketFailsAtBegin<E>(begin: Event, mid: seq<Event>, end: Event, refuse: (nat, Event) -> Option<E>, base: nat)
    requires refuse(base, begin).Some?
    ensures Deliver([begin] + mid + [end], refuse, base) == Outcome([begin], refuse(base, begin))
  {
    DeliverOne(begin, refuse, base);
    DeliverAppend([begin], mid + [end], refuse, base);
    Assoc3([begin], mid, [end]);
  }

  /** ... when the begin hook succeeds and the middle fails. */
  lemma BracketFailsInside<E>(begin: Event, mid: seq<Event>, end: Event, refuse: (nat, Event) -> Option<E>, base: nat)
    requires refuse(base, begin).None? && Deliver(mid, refuse, base + 1).error.Some?
    ensures Deliver([begin] + mid + [end], refuse, base) ==
      Outcome([begin] + Deliver(mid, refuse, base + 1).delivered, Deliver(mid, refuse, base + 1).error)
  {
    DeliverOne(begin, refuse, base);
    DeliverAppend(mid, [end], refuse, base + 1);
    DeliverAppend([begin], mid + [end], refuse, base);
    Assoc3([begin], mid, [end]);
  }

  /** Delivering a begin hook, a middle and an end hook, in each of the
      three ways it can end. */
  lemma Bracket<E>(begin: Event, mid: seq<Event>, end: Event, refuse: (nat, Event) -> Option<E>, base: nat)
    ensures refuse(base, begin).Some? ==>
      Deliver([begin] + mid + [end], refuse, base) == Outcome([begin], refuse(base, begin))
    ensures refuse(base, begin).None? && Deliver(mid, refuse, base + 1).error.Some? ==>
      Deliver([begin] + mid + [end], refuse, base) ==
        Outcome([begin] + Deliver(mid, refuse, base + 1).delivered, Deliver(mid, refuse, base + 1).error)
    ensures refuse(base, begin).None? && Deliver(mid, refuse, base + 1).error.None? ==>
      Deliver([begin] + mid + [end], refuse, base) == Outcome([begin] + mid + [end], refuse(base + 1 + |mid|, end))
  {
    if refuse(base, begin).Some? {
      BracketFailsAtBegin(begin, mid, end, refuse, base);
    } else if Deliver(mid, refuse, base + 1).error.Some? {
      BracketFailsInside(begin, mid, end, refuse, base);
    } else {
      BracketReachesEnd(begin, mid, end, refuse, base);
    }
  }

  /** A loop step whose calls went through, after steps that did. */
  lemma StepGoesOn<E>(done: seq<Event>, one: seq<Event>, refuse: (nat, Event) -> Option<E>, base: nat)
    requires Deliver(done, refuse, base) == Outcome(done, None)
    requires Deliver(one, refuse, base + |done|).error.None?
    ensures Deliver(done + one, refuse, base) == Outcome(done + one, None)
  {
    DeliverAppend(done, one, refuse, base);
  }

  /** A loop step in which a call failed, after steps that went through:
      the rest of the loop is never reached. */
  lemma StepFails<E>(all: seq<Event>, done: seq<Event>, one: seq<Event>, rest: seq<Event>, refuse: (nat, Event) -> Option<E>, base: nat)
    requires all == done + (one + rest)
    requires Deliver(done, refuse, base) == Outcome(done, None)
    requires Deliver(one, refuse, base + |done|).error.Some?
    ensures Deliver(all, refuse, base) ==
      Outcome(done + Deliver(one, refuse, base + |done|).delivered, Deliver(one, refuse, base + |done|).error)
  {
    DeliverAppend(done, one + rest, refuse, base);
    DeliverAppend(one, rest, refuse, base + |done|);
  }

  /** One hook call on its own. */
  lemma DeliverOne<E>(ev: Event, refuse: (nat, Event) -> Option<E>, base: nat)
    ensures Deliver([ev], refuse, base) == Outcome([ev], refuse(base, ev))
  {
    assert [ev][1..] == [];
  }

  /** A last hook call after a run that went through. */
  lemma DeliverLast<E>(evs: seq<Event>, ev: Event, refuse: (nat, Event) -> Option<E>, base: nat)
    requires Deliver(evs, refuse, base).error.None?
    ensures Deliver(evs + [ev], refuse, base) == Outcome(evs + [ev], refuse(base + |evs|, ev))
  {
    DeliverOne(ev, refuse, base + |evs|);
    DeliverAppend(evs, [ev], refuse, base);
  }

  /** ... when the begin hook and the middle succeed: the end hook decides. */
  lemma BracketReachesEnd<E>(begin: Event, mid: seq<Event>, end: Event, refuse: (nat, Event) -> Option<E>, base: nat)
    requires refuse(base, begin).None? && Deliver(mid, refuse, base + 1).error.None?
    ensures Deliver([begin] + mid + [end], refuse, base) ==
      Outcome([begin] + mid + [end], refuse(base + 1 + |mid|, end))
  {
    DeliverOne(begin, refuse, base);
    DeliverLast(mid, end, refuse, base + 1);
    DeliverAppend([begin], mid + [end], refuse, base);
    Assoc3([begin], mid, [end]);
  }

  lemma Assoc<T>(a: seq<T>, b: seq<T>, c: seq<T>, d: seq<T>)
    ensures a + b + c + d == a + (b + c + d)
  {
  }

  lemma Assoc3<T>(a: seq<T>, b: seq<T>, c: seq<T>)
    ensures a + b + c == a + (b + c)
  {
  }
}
