/** Character-level matching used by every recognizer: the crate's
    `take_until_no_case!` macro (src/macros.rs) and the nom primitives the
    grammar is built from (`tag_no_case!`, `tag!`, `char!`,
    `take_until_and_consume!`, `hex_digit1`, `alphanumeric1`). Every
    recognizer reads one input buffer `s` from an index on, so a tail of the
    input is written as an index into `s`. */
module Strings {
  import opened Tree

  /** ASCII lower-casing, as `char::eq_ignore_ascii_case` compares. */
  function Lower(c: char): char
  {
    if 'A' <= c <= 'Z' then (c as int + 32) as char else c
  }

  /** `lit` occurs in `s` at index `i`, ignoring ASCII case
      (`tag_no_case!`). */
  predicate MatchesAt(s: seq<char>, i: nat, lit: seq<char>)
  {
    i + |lit| <= |s| && MatchesFrom(s, i, lit, 0)
  }

  /** Characters `k` onwards of `lit` agree with `s` from `i + k` on,
      ignoring ASCII case. */
  predicate MatchesFrom(s: seq<char>, i: nat, lit: seq<char>, k: nat)
    requires i + |lit| <= |s|
    decreases |lit| - k
  {
    k >= |lit| || (Lower(s[i + k]) == Lower(lit[k]) && MatchesFrom(s, i, lit, k + 1))
  }

  /** `lit` occurs in `s` at index `i` exactly (`tag!`, `char!`). */
  predicate ExactAt(s: seq<char>, i: nat, lit: seq<char>)
  {
    i + |lit| <= |s| && ExactFrom(s, i, lit, 0)
  }

  /** Characters `k` onwards of `lit` equal those of `s` from `i + k` on. */
  predicate ExactFrom(s: seq<char>, i: nat, lit: seq<char>, k: nat)
    requires i + |lit| <= |s|
    decreases |lit| - k
  {
    k >= |lit| || (s[i + k] == lit[k] && ExactFrom(s, i, lit, k + 1))
  }

  /** The recursive definition agrees with the character-wise reading. */
  lemma {:induction false} MatchesFromChars(s: seq<char>, i: nat, lit: seq<char>, k: nat)
    requires i + |lit| <= |s|
    ensures MatchesFrom(s, i, lit, k) <==> forall j :: k <= j < |lit| ==> Lower(s[i + j]) == Lower(lit[j])
    decreases |lit| - k
  {
    if k < |lit| {
      MatchesFromChars(s, i, lit, k + 1);
    }
  }

  /** A case-insensitive occurrence, character by character. */
  lemma MatchesAtChars(s: seq<char>, i: nat, lit: seq<char>)
    ensures MatchesAt(s, i, lit) <==>
      i + |lit| <= |s| && forall j :: 0 <= j < |lit| ==> Lower(s[i + j]) == Lower(lit[j])
  {
    if i + |lit| <= |s| {
      MatchesFromChars(s, i, lit, 0);
    }
  }

  lemma {:induction false} ExactFromChars(s: seq<char>, i: nat, lit: seq<char>, k: nat)
    requires i + |lit| <= |s|
    ensures ExactFrom(s, i, lit, k) <==> forall j :: k <= j < |lit| ==> s[i + j] == lit[j]
    decreases |lit| - k
  {
    if k < |lit| {
      ExactFromChars(s, i, lit, k + 1);
    }
  }

  /** An exact occurrence is the slice of `s` being equal to `lit`. */
  lemma ExactAtSlice(s: seq<char>, i: nat, lit: seq<char>)
    ensures ExactAt(s, i, lit) <==> i + |lit| <= |s| && s[i..i + |lit|] == lit
  {
    if i + |lit| <= |s| {
      ExactFromChars(s, i, lit, 0);
      if forall j :: 0 <= j < |lit| ==> s[i + j] == lit[j] {
        assert s[i..i + |lit|] == lit;
      }
    }
  }

  /** Some index of `s` from `from` on at which `target` begins, ignoring
      ASCII case. */
  predicate ContainsNoCase(s: seq<char>, from: nat, target: seq<char>)
  {
    exists j :: from <= j < |s| && MatchesAt(s, j, target)
  }

  /** The search of `take_until_no_case!` applied to the tail of `s` that
      starts at `from`: the first index at which `target` matches, giving up
      as soon as fewer than `|target|` characters remain (and on an empty
      tail). */
  function FindNoCase(s: seq<char>, target: seq<char>, from: nat): (r: Option<nat>)
    ensures r.Some? ==> from <= r.value < |s| && MatchesAt(s, r.value, target)
    decreases |s| - from
  {
    if from >= |s| || |target| > |s| - from then None
    else if MatchesAt(s, from, target) then Some(from)
    else FindNoCase(s, target, from + 1)
  }

  /** The search finds the first match, and fails exactly when there is none
      (`take_until_no_case!` returns the text before the match and leaves the
      match in the rest; src/macros.rs:13-25). */
  lemma {:induction false} FindNoCaseFirst(s: seq<char>, target: seq<char>, from: nat)
    ensures FindNoCase(s, target, from).Some? ==>
      forall j :: from <= j < FindNoCase(s, target, from).value ==> !MatchesAt(s, j, target)
    ensures FindNoCase(s, target, from).None? <==> !ContainsNoCase(s, from, target)
    decreases |s| - from
  {
    if from >= |s| || |target| > |s| - from {
      assert forall j :: from <= j < |s| ==> !MatchesAt(s, j, target);
    } else if !MatchesAt(s, from, target) {
      FindNoCaseFirst(s, target, from + 1);
      if ContainsNoCase(s, from, target) {
        var j :| from <= j < |s| && MatchesAt(s, j, target);
        assert j != from;
      }
    }
  }

  /** The loop of `take_until_no_case!` (src/macros.rs:13-26): walk the
      character indices of the tail, give up once the target no longer fits,
      stop at the first match. */
  method TakeUntilNoCase(s: seq<char>, from: nat, target: seq<char>) returns (r: Option<nat>)
    ensures r == FindNoCase(s, target, from)
  {
    r := None;
    var idx := from;
    while idx < |s|
      invariant from <= idx
      invariant FindNoCase(s, target, from) == FindNoCase(s, target, idx)
      invariant r == None
    {
      if |target| > |s| - idx {
        break;
      }
      if MatchesAt(s, idx, target) {
        r := Some(idx);
        return;
      }
      idx := idx + 1;
    }
  }

  /** The first index from `from` on at which `lit` occurs exactly
      (`take_until_and_consume!` searches with `str::find`). */
  function FindExact(s: seq<char>, lit: seq<char>, from: nat): (r: Option<nat>)
    ensures r.Some? ==> from <= r.value && ExactAt(s, r.value, lit)
    decreases |s| - from
  {
    if from > |s| || |lit| > |s| - from then None
    else if ExactAt(s, from, lit) then Some(from)
    else FindExact(s, lit, from + 1)
  }

  /** The exact search finds the first occurrence, and fails only when there
      is none. */
  lemma {:induction false} FindExactFirst(s: seq<char>, lit: seq<char>, from: nat)
    ensures FindExact(s, lit, from).Some? ==>
      forall j :: from <= j < FindExact(s, lit, from).value ==> !ExactAt(s, j, lit)
    ensures FindExact(s, lit, from).None? ==> forall j :: from <= j <= |s| ==> !ExactAt(s, j, lit)
    decreases |s| - from
  {
    if from > |s| || |lit| > |s| - from {
    } else if !ExactAt(s, from, lit) {
      FindExactFirst(s, lit, from + 1);
    }
  }

  predicate IsHexDigit(c: char)
  {
    '0' <= c <= '9' || 'a' <= c <= 'f' || 'A' <= c <= 'F'
  }

  predicate IsAlphanumeric(c: char)
  {
    '0' <= c <= '9' || 'a' <= c <= 'z' || 'A' <= c <= 'Z'
  }

  /** Length of the run of hex digits in `s` from `i` on (`hex_digit1` takes
      all of them). */
  function HexRun(s: seq<char>, i: nat): (n: nat)
    ensures i + n <= |s| || n == 0
    ensures forall k :: i <= k < i + n ==> IsHexDigit(s[k])
    ensures i + n < |s| ==> !IsHexDigit(s[i + n])
    decreases |s| - i
  {
    if i >= |s| || !IsHexDigit(s[i]) then 0 else 1 + HexRun(s, i + 1)
  }

  /** Length of the run of ASCII letters and digits in `s` from `i` on
      (`alphanumeric1` takes all of them). */
  function AlphanumericRun(s: seq<char>, i: nat): (n: nat)
    ensures i + n <= |s| || n == 0
    ensures forall k :: i <= k < i + n ==> IsAlphanumeric(s[k])
    ensures i + n < |s| ==> !IsAlphanumeric(s[i + n])
    decreases |s| - i
  {
    if i >= |s| || !IsAlphanumeric(s[i]) then 0 else 1 + AlphanumericRun(s, i + 1)
  }

  /** No index from `k` up to (not including) `e` holds `c`. */
  predicate Absent(s: seq<char>, c: char, k: nat, e: nat)
    decreases if k < e then e - k else 0
  {
    k >= e || (k < |s| && s[k] != c && Absent(s, c, k + 1, e))
  }

  lemma {:induction false} AbsentAt(s: seq<char>, c: char, k: nat, e: nat, j: nat)
    requires Absent(s, c, k, e) && k <= j < e
    ensures j < |s| && s[j] != c
    decreases e - k
  {
    if k < j {
      AbsentAt(s, c, k + 1, e, j);
    }
  }

  /** Two adjacent stretches without `c` make one. */
  lemma {:induction false} AbsentJoin(s: seq<char>, c: char, k: nat, m: nat, e: nat)
    requires k <= m <= e && Absent(s, c, k, m) && Absent(s, c, m, e)
    ensures Absent(s, c, k, e)
    decreases m - k
  {
    if k < m {
      AbsentJoin(s, c, k + 1, m, e);
    }
  }

  /** The case-insensitive search for a literal opening with `[` passes over
      a stretch without `[`. */
  lemma {:induction false} FindNoCaseSkip(s: seq<char>, target: seq<char>, from: nat, k: nat)
    requires from <= k && |target| > 0 && target[0] == '[' && Absent(s, '[', from, k)
    ensures FindNoCase(s, target, from) == FindNoCase(s, target, k)
    decreases k - from
  {
    if from < k {
      assert !MatchesAt(s, from, target);
      FindNoCaseSkip(s, target, from + 1, k);
    }
  }

  /** The exact search passes over a stretch that lacks the first character
      of the literal. */
  lemma {:induction false} FindExactSkip(s: seq<char>, lit: seq<char>, from: nat, k: nat)
    requires from <= k && |lit| > 0 && Absent(s, lit[0], from, k)
    ensures FindExact(s, lit, from) == FindExact(s, lit, k)
    decreases k - from
  {
    if from < k {
      assert !ExactAt(s, from, lit);
      FindExactSkip(s, lit, from + 1, k);
    }
  }

  /** Two adjacent exact occurrences make one of the concatenation. */
  lemma ExactAtJoin(s: seq<char>, i: nat, m: nat, a: seq<char>, b: seq<char>)
    requires m == i + |a| && ExactAt(s, i, a) && ExactAt(s, m, b)
    ensures ExactAt(s, i, a + b)
  {
    ExactAtSlice(s, i, a);
    ExactAtSlice(s, m, b);
    ExactAtSlice(s, i, a + b);
    assert s[i..i + |a + b|] == s[i..m] + s[m..m + |b|];
  }
}
