/**
 * Bit stuffing as `Frame.__addStuffing` and `Frame.__removeStuffing` perform it.
 *
 * After five consecutive equal bits the complement is inserted. Unlike the CAN
 * specification, the encoder then resets its counter to 0 and keeps the
 * original bit as the last bit seen, so the inserted bit does not start the
 * next run: a stuffed stream may hold six equal bits in a row, never seven.
 */
module Stuffing {
  import opened Common

  /** Number of complement bits the stuffing loop inserts into `s`, from a state
      with run counter `count` and previous input bit `last`: one each time a
      bit completes five equal input bits. */
  function Insertions(s: seq<Bit>, count: nat, last: Option<Bit>): nat
    decreases |s|
  {
    if s == [] then 0
    else
      var b := s[0];
      if last == Some(b) then
        if count + 1 == 5 then 1 + Insertions(s[1..], 0, Some(b))
        else Insertions(s[1..], count + 1, Some(b))
      else Insertions(s[1..], 1, Some(b))
  }

  /** From a reachable state (`count < 5`) there is at most one insertion per
      five input bits, counting the run already in progress. */
  lemma {:induction false} InsertionsBound(s: seq<Bit>, count: nat, last: Option<Bit>)
    requires count < 5
    ensures Insertions(s, count, last) <= (|s| + count) / 5
    decreases |s|
  {
    if s != [] {
      var b := s[0];
      var n := |s| - 1;
      if last == Some(b) && count + 1 == 5 {
        InsertionsBound(s[1..], 0, Some(b));
        assert (n + 5) / 5 == n / 5 + 1;
      } else if last == Some(b) {
        InsertionsBound(s[1..], count + 1, Some(b));
      } else {
        InsertionsBound(s[1..], 1, Some(b));
        assert (n + 1) / 5 <= (n + 1 + count) / 5;
      }
    }
  }

  /** Bits appended by the stuffing loop, from a state with run counter `count`
      and previous input bit `last`: every input bit plus one inserted bit per
      completed run of five. */
  function StuffFrom(s: seq<Bit>, count: nat, last: Option<Bit>): (r: seq<Bit>)
    ensures |s| <= |r|
    decreases |s|
  {
    if s == [] then []
    else
      var b := s[0];
      if last == Some(b) then
        if count + 1 == 5 then [b, 1 - b] + StuffFrom(s[1..], 0, Some(b))
        else [b] + StuffFrom(s[1..], count + 1, Some(b))
      else [b] + StuffFrom(s[1..], 1, Some(b))
  }

  /** The stuffing loop appends every input bit plus one bit per insertion. */
  lemma {:induction false} StuffLength(s: seq<Bit>, count: nat, last: Option<Bit>)
    ensures |StuffFrom(s, count, last)| == |s| + Insertions(s, count, last)
    decreases |s|
  {
    if s != [] {
      var b := s[0];
      if last == Some(b) && count + 1 == 5 {
        StuffLength(s[1..], 0, Some(b));
      } else if last == Some(b) {
        StuffLength(s[1..], count + 1, Some(b));
      } else {
        StuffLength(s[1..], 1, Some(b));
      }
    }
  }

  /** The stuffed form of a whole bit list (the loop starts with `count = 0`,
      `lastBit = None`): the input plus one bit per insertion. */
  function Stuff(s: seq<Bit>): (r: seq<Bit>)
    ensures |r| == |s| + Insertions(s, 0, None)
  {
    StuffLength(s, 0, None);
    StuffFrom(s, 0, None)
  }

  /** Bits kept by the unstuffing loop from a state with run counter `count` and
      previous kept bit `last`: when the counter is 5 the next bit is dropped
      and the state forgets the run. */
  function UnstuffFrom(s: seq<Bit>, count: nat, last: Option<Bit>): (r: seq<Bit>)
    ensures |r| <= |s|
    decreases |s|
  {
    if s == [] then []
    else if count == 5 then UnstuffFrom(s[1..], 0, None)
    else
      var b := s[0];
      [b] + UnstuffFrom(s[1..], if last == Some(b) then count + 1 else 1, Some(b))
  }

  /** The unstuffed form of a whole bit list: never longer than its input. */
  function Unstuff(s: seq<Bit>): (r: seq<Bit>)
    ensures |r| <= |s|
  {
    UnstuffFrom(s, 0, None)
  }

  /** `Frame.__addStuffing`: one pass over the input, appending each bit and,
      after the fifth equal bit, its complement. */
  method AddStuffing(bitFrame: seq<Bit>) returns (stuffed: seq<Bit>)
    ensures stuffed == Stuff(bitFrame)
    ensures |stuffed| == |bitFrame| + Insertions(bitFrame, 0, None)
    ensures |bitFrame| <= |stuffed| <= |bitFrame| + |bitFrame| / 5
  {
    stuffed := [];
    var count: nat := 0;
    var lastBit: Option<Bit> := None;
    ghost var goal := Stuff(bitFrame);
    var i := 0;
    while i < |bitFrame|
      invariant 0 <= i <= |bitFrame|
      invariant count < 5
      invariant stuffed + StuffFrom(bitFrame[i..], count, lastBit) == goal
    {
      var bit := bitFrame[i];
      StuffLoopStep(bitFrame, i, count, lastBit, stuffed);
      stuffed := stuffed + [bit];
      if lastBit == Some(bit) {
        count := count + 1;
        if count == 5 {
          stuffed := stuffed + [1 - bit];
          count := 0;
        }
      } else {
        count := 1;
      }
      lastBit := Some(bit);
      i := i + 1;
    }
    assert bitFrame[i..] == [];
    InsertionsBound(bitFrame, 0, None);
  }

  /** Proof step for `RunBoundFrom`: the output so far followed by the bits
      one encoder step emits and the rest of the stuffed output regroups.
      Stated apart because asserting it inline makes `RunBoundFrom` costlier. */
  lemma Appended(p: seq<Bit>, x: seq<Bit>, q: seq<Bit>)
    ensures (p + x) + q == p + (x + q)
  {
  }

  /** One turn of the stuffing loop, after `done` bits were appended: the bits
      still to come from position `i` are those the turn appends and the rest. */
  lemma StuffLoopStep(s: seq<Bit>, i: nat, count: nat, last: Option<Bit>, done: seq<Bit>)
    requires i < |s|
    ensures done + StuffFrom(s[i..], count, last) ==
      if last == Some(s[i]) && count + 1 == 5 then done + [s[i]] + [1 - s[i]] + StuffFrom(s[i + 1..], 0, Some(s[i]))
      else done + [s[i]] + StuffFrom(s[i + 1..], if last == Some(s[i]) then count + 1 else 1, Some(s[i]))
  {
    StuffStep(s, i, count, last);
    var b := s[i];
    if last == Some(b) && count + 1 == 5 {
      var rest := StuffFrom(s[i + 1..], 0, Some(b));
      assert done + ([b, 1 - b] + rest) == done + [b] + [1 - b] + rest;
    } else {
      var rest := StuffFrom(s[i + 1..], if last == Some(b) then count + 1 else 1, Some(b));
      assert done + ([b] + rest) == done + [b] + rest;
    }
  }

  /** One turn of the stuffing loop, at position `i` of `s`. */
  lemma StuffStep(s: seq<Bit>, i: nat, count: nat, last: Option<Bit>)
    requires i < |s|
    ensures StuffFrom(s[i..], count, last) ==
      if last == Some(s[i]) && count + 1 == 5 then [s[i], 1 - s[i]] + StuffFrom(s[i + 1..], 0, Some(s[i]))
      else [s[i]] + StuffFrom(s[i + 1..], if last == Some(s[i]) then count + 1 else 1, Some(s[i]))
  {
    assert s[i..][0] == s[i] && s[i..][1..] == s[i + 1..];
  }

  /** `Frame.__removeStuffing`: one pass that skips the bit following each run
      of five equal kept bits. */
  method RemoveStuffing(bitFrame: seq<Bit>) returns (unstuffed: seq<Bit>)
    ensures unstuffed == Unstuff(bitFrame)
    ensures |unstuffed| <= |bitFrame|
  {
    unstuffed := [];
    var count: nat := 0;
    var lastBit: Option<Bit> := None;
    var i := 0;
    while i < |bitFrame|
      invariant 0 <= i <= |bitFrame|
      invariant count <= 5
      invariant unstuffed + UnstuffFrom(bitFrame[i..], count, lastBit) == Unstuff(bitFrame)
    {
      UnstuffStep(bitFrame, i, count, lastBit);
      if count == 5 {
        count := 0;
        lastBit := None;
        i := i + 1;
        continue;
      }
      var bit := bitFrame[i];
      if lastBit == Some(bit) {
        count := count + 1;
      } else {
        count := 1;
      }
      lastBit := Some(bit);
      unstuffed := unstuffed + [bit];
      i := i + 1;
    }
    assert bitFrame[i..] == [];
  }

  /** One turn of the unstuffing loop, at position `i` of `s`. */
  lemma UnstuffStep(s: seq<Bit>, i: nat, count: nat, last: Option<Bit>)
    requires i < |s|
    ensures count == 5 ==> UnstuffFrom(s[i..], count, last) == UnstuffFrom(s[i + 1..], 0, None)
    ensures count != 5 ==>
      UnstuffFrom(s[i..], count, last) ==
      [s[i]] + UnstuffFrom(s[i + 1..], if last == Some(s[i]) then count + 1 else 1, Some(s[i]))
  {
    assert s[i..][0] == s[i] && s[i..][1..] == s[i + 1..];
  }

  // ---------------------------------------------------------------------------
  // Round trip

  /** The two loops stay in step: after a stuffed bit the encoder remembers the
      original bit with counter 0 and the decoder forgets it, which behave the
      same on the next bit. */
  lemma {:induction false} RoundTripFrom(s: seq<Bit>, count: nat, lastS: Option<Bit>, lastU: Option<Bit>)
    requires count < 5
    requires lastS == lastU || count == 0
    ensures UnstuffFrom(StuffFrom(s, count, lastS), count, lastU) == s
    decreases |s|
  {
    if s != [] {
      var b := s[0];
      if lastS == Some(b) && count + 1 == 5 {
        RoundTripFrom(s[1..], 0, Some(b), None);
        RoundTripFifth(s, count, lastS, lastU);
      } else {
        var next := if lastS == Some(b) then count + 1 else 1;
        RoundTripFrom(s[1..], next, Some(b), Some(b));
        RoundTripKept(s, count, lastS, lastU, next);
      }
    }
  }

  /** The fifth equal bit: the decoder keeps it and drops the stuffed bit. */
  lemma RoundTripFifth(s: seq<Bit>, count: nat, lastS: Option<Bit>, lastU: Option<Bit>)
    requires s != [] && lastS == Some(s[0]) && count + 1 == 5 && lastU == lastS
    requires UnstuffFrom(StuffFrom(s[1..], 0, lastS), 0, None) == s[1..]
    ensures UnstuffFrom(StuffFrom(s, count, lastS), count, lastU) == s
  {
    var b := s[0];
    var rest := StuffFrom(s[1..], 0, Some(b));
    assert StuffFrom(s, count, lastS) == [b, 1 - b] + rest;
    assert ([b, 1 - b] + rest)[1..] == [1 - b] + rest;
    assert ([1 - b] + rest)[1..] == rest;
  }

  /** Any other bit: both loops append it and move to the same counter. */
  lemma RoundTripKept(s: seq<Bit>, count: nat, lastS: Option<Bit>, lastU: Option<Bit>, next: nat)
    requires s != [] && count < 5 && !(lastS == Some(s[0]) && count + 1 == 5)
    requires lastS == lastU || count == 0
    requires next == if lastS == Some(s[0]) then count + 1 else 1
    requires UnstuffFrom(StuffFrom(s[1..], next, Some(s[0])), next, Some(s[0])) == s[1..]
    ensures UnstuffFrom(StuffFrom(s, count, lastS), count, lastU) == s
  {
    var b := s[0];
    var rest := StuffFrom(s[1..], next, Some(b));
    assert StuffFrom(s, count, lastS) == [b] + rest;
    assert ([b] + rest)[1..] == rest;
  }

  /** Unstuffing inverts stuffing for every bit list. */
  lemma UnstuffStuff(s: seq<Bit>)
    ensures Unstuff(Stuff(s)) == s
  {
    RoundTripFrom(s, 0, None, None);
  }

  // ---------------------------------------------------------------------------
  // The input survives in order

  /** `a` can be obtained from `b` by deleting elements. */
  predicate IsSubsequence(a: seq<Bit>, b: seq<Bit>)
    decreases |b|
  {
    if a == [] then true
    else if b == [] then false
    else (a[0] == b[0] && IsSubsequence(a[1..], b[1..])) || IsSubsequence(a, b[1..])
  }

  lemma {:induction false} SubsequenceFrom(s: seq<Bit>, count: nat, last: Option<Bit>)
    ensures IsSubsequence(s, StuffFrom(s, count, last))
    decreases |s|
  {
    if s != [] {
      var b := s[0];
      if last == Some(b) && count + 1 == 5 {
        SubsequenceFrom(s[1..], 0, Some(b));
        var rest := StuffFrom(s[1..], 0, Some(b));
        var out := [b] + ([1 - b] + rest);
        assert StuffFrom(s, count, last) == out;
        assert out[1..] == [1 - b] + rest;
        assert ([1 - b] + rest)[1..] == rest;
        assert s[1..] == [] || IsSubsequence(s[1..], [1 - b] + rest);
      } else if last == Some(b) {
        SubsequenceFrom(s[1..], count + 1, Some(b));
        assert StuffFrom(s, count, last)[1..] == StuffFrom(s[1..], count + 1, Some(b));
      } else {
        SubsequenceFrom(s[1..], 1, Some(b));
        assert StuffFrom(s, count, last)[1..] == StuffFrom(s[1..], 1, Some(b));
      }
    }
  }

  /** Stuffing only inserts bits: the input is a subsequence of the output. */
  lemma InputIsSubsequence(s: seq<Bit>)
    ensures IsSubsequence(s, Stuff(s))
  {
    SubsequenceFrom(s, 0, None);
  }

  // ---------------------------------------------------------------------------
  // Run lengths

  /** Length of the run of equal bits that ends at index `i`. */
  function RunAt(r: seq<Bit>, i: nat): (n: nat)
    requires i < |r|
    ensures 1 <= n <= i + 1
  {
    if i > 0 && r[i - 1] == r[i] then RunAt(r, i - 1) + 1 else 1
  }

  lemma {:induction false} RunAtPrefix(p: seq<Bit>, q: seq<Bit>, i: nat)
    requires i < |p|
    ensures RunAt(p + q, i) == RunAt(p, i)
  {
    if i > 0 && p[i - 1] == p[i] {
      RunAtPrefix(p, q, i - 1);
    }
  }

  /** Seven equal bits starting at `i` make a run of at least seven. */
  lemma {:induction false} EqualWindowRun(r: seq<Bit>, i: nat, k: nat)
    requires 1 <= k && i + k <= |r|
    requires forall j :: i <= j < i + k ==> r[j] == r[i]
    ensures RunAt(r, i + k - 1) >= k
  {
    if k > 1 {
      EqualWindowRun(r, i, k - 1);
    }
  }

  /** The bookkeeping of the encoder bounds the run at the end of its output. */
  ghost predicate RunState(p: seq<Bit>, count: nat, last: Option<Bit>)
  {
    (forall i :: 0 <= i < |p| ==> RunAt(p, i) <= 6) &&
    (if last.None? then p == [] && count == 0
     else
       |p| > 0 && count < 5 &&
       (if count == 0 then p[|p| - 1] == 1 - last.value && RunAt(p, |p| - 1) == 1
        else p[|p| - 1] == last.value && RunAt(p, |p| - 1) <= count + 1))
  }

  lemma AppendBit(p: seq<Bit>, b: Bit)
    requires |p| > 0
    ensures RunAt(p + [b], |p|) == if p[|p| - 1] == b then RunAt(p, |p| - 1) + 1 else 1
    ensures forall i :: 0 <= i < |p| ==> RunAt(p + [b], i) == RunAt(p, i)
  {
    RunAtPrefix(p, [b], |p| - 1);
    forall i | 0 <= i < |p| ensures RunAt(p + [b], i) == RunAt(p, i) {
      RunAtPrefix(p, [b], i);
    }
  }

  /** Appending a bit that repeats the last input bit without completing five. */
  lemma RepeatKeepsRunState(p: seq<Bit>, b: Bit, count: nat)
    requires RunState(p, count, Some(b)) && count + 1 < 5
    ensures RunState(p + [b], count + 1, Some(b))
  {
    AppendBit(p, b);
  }

  /** Appending the fifth equal bit and its stuffed complement. */
  lemma FifthKeepsRunState(p: seq<Bit>, b: Bit, count: nat)
    requires RunState(p, count, Some(b)) && count + 1 == 5
    ensures RunState(p + [b, 1 - b], 0, Some(b))
  {
    AppendBit(p, b);
    AppendBit(p + [b], 1 - b);
    assert p + [b] + [1 - b] == p + [b, 1 - b];
  }

  /** Appending a bit that differs from the last input bit (or the first bit). */
  lemma ChangeKeepsRunState(p: seq<Bit>, b: Bit, count: nat, last: Option<Bit>)
    requires RunState(p, count, last) && last != Some(b)
    ensures RunState(p + [b], 1, Some(b))
  {
    if p == [] {
      assert RunAt(p + [b], 0) == 1;
    } else {
      AppendBit(p, b);
    }
  }

  lemma {:induction false} RunBoundFrom(p: seq<Bit>, s: seq<Bit>, count: nat, last: Option<Bit>)
    requires RunState(p, count, last)
    ensures forall i :: 0 <= i < |p + StuffFrom(s, count, last)| ==> RunAt(p + StuffFrom(s, count, last), i) <= 6
    decreases |s|
  {
    if s == [] {
      assert p + StuffFrom(s, count, last) == p;
    } else {
      var b := s[0];
      var emitted: seq<Bit>, next: nat;
      if last == Some(b) && count + 1 == 5 {
        emitted, next := [b, 1 - b], 0;
        FifthKeepsRunState(p, b, count);
      } else if last == Some(b) {
        emitted, next := [b], count + 1;
        RepeatKeepsRunState(p, b, count);
      } else {
        emitted, next := [b], 1;
        ChangeKeepsRunState(p, b, count, last);
      }
      StuffStep(s, 0, count, last);
      assert s[0..] == s;
      RunBoundFrom(p + emitted, s[1..], next, Some(b));
      Appended(p, emitted, StuffFrom(s[1..], next, Some(b)));
    }
  }

  /** Some bit of the window `r[i..i+k]` differs from its first bit. */
  predicate ChangeWithin(r: seq<Bit>, i: int, k: nat)
    requires 0 <= i && i + k <= |r|
  {
    exists j :: i < j < i + k && r[j] != r[i]
  }

  /** Every window of `k` consecutive bits of `r` holds two different bits. */
  predicate NoRunOf(r: seq<Bit>, k: nat)
  {
    forall i :: 0 <= i && i + k <= |r| ==> ChangeWithin(r, i, k)
  }

  /** A window whose last bit ends a run shorter than the window holds a change. */
  lemma WindowHasChange(r: seq<Bit>, i: nat, k: nat)
    requires 1 <= k && i + k <= |r|
    requires RunAt(r, i + k - 1) < k
    ensures ChangeWithin(r, i, k)
  {
    if forall j :: i <= j < i + k ==> r[j] == r[i] {
      EqualWindowRun(r, i, k);
    }
  }

  /** The stuffed output never holds seven equal bits in a row. */
  lemma NoRunOfSeven(s: seq<Bit>)
    ensures NoRunOf(Stuff(s), 7)
  {
    var r := Stuff(s);
    RunBoundFrom([], s, 0, None);
    assert [] + r == r;
    forall i: int | 0 <= i && i + 7 <= |r|
      ensures ChangeWithin(r, i, 7)
    {
      WindowHasChange(r, i, 7);
    }
  }

  /** Five 1s after a run of 0s stuff to five 1s and a 0: the counter starts
      again at the first 1. */
  lemma FiveOnesAfterZeros()
    ensures StuffFrom([1, 1, 1, 1, 1], 0, Some(0)) == [1, 1, 1, 1, 1, 0]
  {
    assert StuffFrom([1], 4, Some(1)) == [1, 0];
    assert StuffFrom([1, 1], 3, Some(1)) == [1, 1, 0];
    assert StuffFrom([1, 1, 1], 2, Some(1)) == [1, 1, 1, 0];
    assert StuffFrom([1, 1, 1, 1], 1, Some(1)) == [1, 1, 1, 1, 0];
  }

  /** The fifth 0 of a run is followed by a stuffed 1 that the next five 1s
      join. */
  lemma TwoZerosThenOnes()
    ensures StuffFrom([0, 0, 1, 1, 1, 1, 1], 3, Some(0)) == [0, 0, 1, 1, 1, 1, 1, 1, 0]
  {
    FiveOnesAfterZeros();
    assert StuffFrom([0, 1, 1, 1, 1, 1], 4, Some(0)) == [0, 1, 1, 1, 1, 1, 1, 0];
  }

  /** A third 0 of that run before them. */
  lemma ThreeZerosThenOnes()
    ensures StuffFrom([0, 0, 0, 1, 1, 1, 1, 1], 2, Some(0)) == [0, 0, 0, 1, 1, 1, 1, 1, 1, 0]
  {
    TwoZerosThenOnes();
  }

  /** A fourth 0 of that run before them. */
  lemma FourZerosThenOnes()
    ensures StuffFrom([0, 0, 0, 0, 1, 1, 1, 1, 1], 1, Some(0)) == [0, 0, 0, 0, 1, 1, 1, 1, 1, 1, 0]
  {
    ThreeZerosThenOnes();
  }

  /** Six equal bits do occur: five originals after a stuffed bit of the same
      value, because the stuffed bit does not count toward the next run. */
  lemma RunOfSixOccurs()
    ensures Stuff([0, 0, 0, 0, 0, 1, 1, 1, 1, 1]) == [0, 0, 0, 0, 0, 1, 1, 1, 1, 1, 1, 0]
  {
    FourZerosThenOnes();
  }
}
