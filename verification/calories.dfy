/** Calorie counting: the elves' food lists are groups of lines separated
    by a blank line; the answers are the largest group total and the sum
    of the `n` largest group totals, the latter kept in a min-heap of at
    most `n` totals while the groups stream past.

    The heap is modelled as a sequence kept in ascending order, so its
    minimum, the element `pop` removes from a `BinaryHeap<Reverse<u32>>`,
    is the first element.
 */
module Calories {
  import opened Wrappers
  import Text

  datatype CaloriesError =
    | BadCalories        // a line that is not a `u32`
    | CaloriesOverflow   // a `u32` sum that overflows

  function Sum(xs: seq<nat>): nat
    decreases |xs|
  {
    if xs == [] then 0 else xs[0] + Sum(xs[1..])
  }

  function ParseCalories(line: string): (r: Result<nat, CaloriesError>)
    ensures r.Ok? <==> Text.ParseU32(line).Some?
    ensures r.Ok? ==> r.value == Text.ParseU32(line).value && r.value <= Text.U32_MAX
  {
    match Text.ParseU32(line)
    case Some(v) => Ok(v)
    case None => Err(BadCalories)
  }

  /** A `u32` sum: the running total only grows, so it overflows exactly
      when the whole total is out of range. */
  function SumU32(xs: seq<nat>): (r: Result<nat, CaloriesError>)
    ensures r.Ok? <==> Sum(xs) <= Text.U32_MAX
    ensures r.Ok? ==> r.value == Sum(xs)
  {
    if Sum(xs) <= Text.U32_MAX then Ok(Sum(xs)) else Err(CaloriesOverflow)
  }

  /** The total of one elf's food list, one number per line. */
  function GroupCalories(group: string): (r: Result<nat, CaloriesError>)
    ensures r.Ok? ==> r.value <= Text.U32_MAX
    ensures r.Ok? ==> exists values :: TryMap(Text.Lines(group), ParseCalories) == Ok(values) && r.value == Sum(values)
  {
    var values :- TryMap(Text.Lines(group), ParseCalories);
    SumU32(values)
  }

  /** One total per blank-line-separated group, in input order; there is
      always at least one group. */
  function ElfCalories(input: string): (r: Result<seq<nat>, CaloriesError>)
    ensures r.Ok? ==> |r.value| == |Text.Split(input, "\n\n")| >= 1
    ensures r.Ok? ==> forall i :: 0 <= i < |r.value| ==> GroupCalories(Text.Split(input, "\n\n")[i]) == Ok(r.value[i])
  {
    TryMap(Text.Split(input, "\n\n"), GroupCalories)
  }

  // ---------------------------------------------------------------------
  // The largest total
  // ---------------------------------------------------------------------

  function MaxOf(xs: seq<nat>): (m: nat)
    requires xs != []
    ensures m in xs && forall i :: 0 <= i < |xs| ==> xs[i] <= m
    decreases |xs|
  {
    if |xs| == 1 then xs[0]
    else
      var rest := MaxOf(xs[1..]);
      assert forall i :: 1 <= i < |xs| ==> xs[i] == xs[1..][i - 1];
      if xs[0] < rest then rest else xs[0]
  }

  /** The largest group total. */
  function MostCalories(input: string): (r: Result<nat, CaloriesError>)
    ensures r.Ok? <==> ElfCalories(input).Ok?
    ensures r.Ok? ==> var cals := ElfCalories(input).value;
      r.value in cals && forall i :: 0 <= i < |cals| ==> cals[i] <= r.value
  {
    var cals :- ElfCalories(input);
    Ok(MaxOf(cals))
  }

  // ---------------------------------------------------------------------
  // The top `n` totals
  // ---------------------------------------------------------------------

  predicate Ascending(h: seq<nat>) {
    forall i, j :: 0 <= i < j < |h| ==> h[i] <= h[j]
  }

  /** `heap.push(x)`. */
  function Push(x: nat, h: seq<nat>): (r: seq<nat>)
    requires Ascending(h)
    ensures Ascending(r) && |r| == |h| + 1
    ensures multiset(r) == multiset(h) + multiset{x}
    ensures h == [] || x <= h[0] ==> r == [x] + h
    ensures h != [] && h[0] < x ==> r[0] == h[0]
    decreases |h|
  {
    if h == [] || x <= h[0] then [x] + h
    else
      var rest := Push(x, h[1..]);
      assert h == [h[0]] + h[1..];
      assert h[0] <= rest[0];
      [h[0]] + rest
  }

  /** `heap.push(x); heap.pop()`: the smallest of the heap and `x` is
      dropped. */
  function PushPop(x: nat, h: seq<nat>): (r: seq<nat>)
    requires Ascending(h)
    ensures Ascending(r) && |r| == |h|
  {
    Push(x, h)[1..]
  }

  /** The first `n` pushes. */
  function Fill(h: seq<nat>, xs: seq<nat>): (r: seq<nat>)
    requires Ascending(h)
    ensures Ascending(r) && |r| == |h| + |xs|
    ensures multiset(r) == multiset(h) + multiset(xs)
    decreases |xs|
  {
    if xs == [] then h
    else
      assert xs == [xs[0]] + xs[1..];
      Fill(Push(xs[0], h), xs[1..])
  }

  /** The remaining totals, each pushed and followed by a pop. */
  function Drain(h: seq<nat>, xs: seq<nat>): (r: seq<nat>)
    requires Ascending(h)
    ensures Ascending(r) && |r| == |h|
    decreases |xs|
  {
    if xs == [] then h else Drain(PushPop(xs[0], h), xs[1..])
  }

  /** The heap after every total has gone past it. */
  function TopHeap(cals: seq<nat>, n: nat): (h: seq<nat>)
    requires n <= |cals|
    ensures Ascending(h) && |h| == n
  {
    Drain(Fill([], cals[..n]), cals[n..])
  }

  /** The `n` largest totals summed; nothing when there are fewer than
      `n` groups. */
  function TopCalories(input: string, n: nat): (r: Result<Option<nat>, CaloriesError>)
    ensures r.Ok? ==> ElfCalories(input).Ok?
    ensures r.Ok? && r.value.None? <==> ElfCalories(input).Ok? && |ElfCalories(input).value| < n
  {
    var cals :- ElfCalories(input);
    if |cals| < n then Ok(None)
    else
      var total :- SumU32(TopHeap(cals, n));
      Ok(Some(total))
  }

  // ---------------------------------------------------------------------
  // What the heap holds
  // ---------------------------------------------------------------------

  /** Every total that has left the heap is at most the heap's minimum. */
  predicate Floor(h: seq<nat>, gone: multiset<nat>) {
    h != [] ==> forall y :: y in gone ==> y <= h[0]
  }

  /** Every element of `top` is at least every element of `others`. */
  predicate Beats(top: multiset<nat>, others: multiset<nat>) {
    forall x, y :: x in top && y in others ==> y <= x
  }

  /** The totals popped while `xs` streams through the heap. */
  function Dropped(h: seq<nat>, xs: seq<nat>): multiset<nat>
    requires Ascending(h)
    decreases |xs|
  {
    if xs == [] then multiset{} else multiset{Push(xs[0], h)[0]} + Dropped(PushPop(xs[0], h), xs[1..])
  }

  /** One push and pop keeps every total: the heap and the popped one
      together are the old heap and the pushed one. */
  lemma PushPopKeeps(h: seq<nat>, x: nat)
    requires Ascending(h)
    ensures multiset(PushPop(x, h)) + multiset{Push(x, h)[0]} == multiset(h) + multiset{x}
  {
    var p := Push(x, h);
    assert p == [p[0]] + PushPop(x, h);
    assert multiset(p) == multiset{p[0]} + multiset(PushPop(x, h));
  }

  /** One push and pop: the popped total stays below the new minimum. */
  lemma PushPopFloor(h: seq<nat>, x: nat, gone: multiset<nat>)
    requires Ascending(h) && Floor(h, gone)
    ensures Floor(PushPop(x, h), gone + multiset{Push(x, h)[0]})
  {
    if h == [] || x <= h[0] {
      PushPopDropsNew(h, x, gone);
    } else {
      PushPopDropsMin(h, x, gone);
    }
  }

  /** `x` is no larger than the heap's minimum: it is dropped again. */
  lemma PushPopDropsNew(h: seq<nat>, x: nat, gone: multiset<nat>)
    requires Ascending(h) && Floor(h, gone)
    requires h == [] || x <= h[0]
    ensures Push(x, h)[0] == x && PushPop(x, h) == h
    ensures Floor(h, gone + multiset{x})
  {
    assert Push(x, h) == [x] + h;
  }

  /** `x` is larger than the heap's minimum: the minimum is dropped. */
  lemma PushPopDropsMin(h: seq<nat>, x: nat, gone: multiset<nat>)
    requires Ascending(h) && Floor(h, gone)
    requires h != [] && h[0] < x
    ensures Push(x, h)[0] == h[0]
    ensures multiset(PushPop(x, h)) + multiset{h[0]} == multiset(h) + multiset{x}
    ensures Floor(PushPop(x, h), gone + multiset{h[0]})
  {
    PushPastMin(x, h);
    DropsMinKeeps(x, h);
    var q := PushPop(x, h);
    assert h[0] <= q[0];
  }

  lemma DropsMinKeeps(x: nat, h: seq<nat>)
    requires Ascending(h) && h != [] && h[0] < x
    requires Push(x, h) == [h[0]] + Push(x, h[1..])
    ensures multiset(PushPop(x, h)) + multiset{h[0]} == multiset(h) + multiset{x}
  {
    var tail := h[1..];
    assert PushPop(x, h) == Push(x, tail);
    assert multiset(h) == multiset{h[0]} + multiset(tail) by {
      assert h == [h[0]] + tail;
    }
    Rotate(multiset(tail), multiset{x}, multiset{h[0]});
  }

  lemma Rotate(a: multiset<nat>, b: multiset<nat>, c: multiset<nat>)
    ensures a + b + c == c + a + b
  {
    forall e
      ensures (a + b + c)[e] == (c + a + b)[e]
    {
    }
  }

  lemma PushPastMin(x: nat, h: seq<nat>)
    requires Ascending(h) && h != [] && h[0] < x
    ensures Push(x, h) == [h[0]] + Push(x, h[1..])
  {
  }

  /** Streaming totals through the heap loses none of them: what is
      left and what was popped are what was there and what came. */
  lemma {:induction false} DrainKeeps(h: seq<nat>, xs: seq<nat>)
    requires Ascending(h)
    ensures multiset(Drain(h, xs)) + Dropped(h, xs) == multiset(h) + multiset(xs)
    decreases |xs|
  {
    if xs != [] {
      var q := PushPop(xs[0], h);
      var m := Push(xs[0], h)[0];
      PushPopKeeps(h, xs[0]);
      DrainKeeps(q, xs[1..]);
      assert multiset(xs) == multiset{xs[0]} + multiset(xs[1..]) by {
        assert xs == [xs[0]] + xs[1..];
      }
      Regroup(multiset(Drain(q, xs[1..])), Dropped(q, xs[1..]), multiset(q), multiset(xs[1..]),
        multiset(h), multiset{m}, multiset{xs[0]});
    }
  }

  /** The multiset bookkeeping of one step of `DrainKeeps`. */
  lemma Regroup(kept: multiset<nat>, gone: multiset<nat>, q: multiset<nat>, rest: multiset<nat>,
                h: multiset<nat>, popped: multiset<nat>, pushed: multiset<nat>)
    requires kept + gone == q + rest
    requires q + popped == h + pushed
    ensures kept + (popped + gone) == h + (pushed + rest)
  {
    forall e
      ensures (kept + (popped + gone))[e] == (h + (pushed + rest))[e]
    {
      assert (kept + gone)[e] == (q + rest)[e];
      assert (q + popped)[e] == (h + pushed)[e];
    }
  }

  /** Every total popped is no larger than the minimum of what is left. */
  lemma {:induction false} DrainFloor(h: seq<nat>, xs: seq<nat>, gone: multiset<nat>)
    requires Ascending(h) && Floor(h, gone)
    ensures Floor(Drain(h, xs), gone + Dropped(h, xs))
    decreases |xs|
  {
    if xs != [] {
      var q := PushPop(xs[0], h);
      var m := Push(xs[0], h)[0];
      PushPopFloor(h, xs[0], gone);
      DrainFloor(q, xs[1..], gone + multiset{m});
      assert Dropped(h, xs) == multiset{m} + Dropped(q, xs[1..]);
      Associate(gone, multiset{m}, Dropped(q, xs[1..]));
    }
  }

  lemma Associate(a: multiset<nat>, b: multiset<nat>, c: multiset<nat>)
    ensures a + b + c == a + (b + c)
  {
    forall e
      ensures (a + b + c)[e] == (a + (b + c))[e]
    {
    }
  }

  lemma FloorBeats(h: seq<nat>, gone: multiset<nat>)
    requires Ascending(h) && Floor(h, gone)
    ensures Beats(multiset(h), gone)
  {
    forall x, y | x in multiset(h) && y in gone
      ensures y <= x
    {
      var k :| 0 <= k < |h| && h[k] == x;
      assert h[0] <= h[k];
    }
  }

  /** The first `n` pushes hold exactly the first `n` totals. */
  lemma FillHoldsPrefix(cals: seq<nat>, n: nat)
    requires n <= |cals|
    ensures multiset(Fill([], cals[..n])) + multiset{} == multiset(cals[..n])
    ensures Floor(Fill([], cals[..n]), multiset{})
  {
  }

  /** The totals the heap let go of. */
  function TopDropped(cals: seq<nat>, n: nat): multiset<nat>
    requires n <= |cals|
  {
    Dropped(Fill([], cals[..n]), cals[n..])
  }

  /** The heap holds `n` of the totals, and none it let go is larger
      than any it kept: a greatest `n`-element sub-multiset. */
  lemma TopHeapIsTop(cals: seq<nat>, n: nat)
    requires n <= |cals|
    ensures |TopHeap(cals, n)| == n
    ensures multiset(TopHeap(cals, n)) <= multiset(cals)
    ensures Beats(multiset(TopHeap(cals, n)), multiset(cals) - multiset(TopHeap(cals, n)))
  {
    var h := TopHeap(cals, n);
    TopHeapKeeps(cals, n);
    TopHeapFloor(cals, n);
    FloorBeats(h, TopDropped(cals, n));
    assert TopDropped(cals, n) == multiset(cals) - multiset(h);
  }

  lemma TopHeapKeeps(cals: seq<nat>, n: nat)
    requires n <= |cals|
    ensures multiset(TopHeap(cals, n)) + TopDropped(cals, n) == multiset(cals)
  {
    FillHoldsPrefix(cals, n);
    DrainKeeps(Fill([], cals[..n]), cals[n..]);
    MultisetSplit(cals, n);
  }

  lemma TopHeapFloor(cals: seq<nat>, n: nat)
    requires n <= |cals|
    ensures Floor(TopHeap(cals, n), TopDropped(cals, n))
  {
    DrainFloor(Fill([], cals[..n]), cals[n..], multiset{});
    assert multiset{} + TopDropped(cals, n) == TopDropped(cals, n);
  }

  lemma MultisetSplit(cals: seq<nat>, n: nat)
    requires n <= |cals|
    ensures multiset(cals[..n]) + multiset(cals[n..]) == multiset(cals)
  {
    assert cals == cals[..n] + cals[n..];
  }

  /** The top-1 total is the largest total. */
  lemma TopOneIsMost(cals: seq<nat>)
    requires cals != []
    ensures TopHeap(cals, 1) == [MaxOf(cals)]
  {
    var h := TopHeap(cals, 1);
    TopHeapIsTop(cals, 1);
    var m := MaxOf(cals);
    assert multiset(h) == multiset{h[0]};
    assert h[0] in multiset(cals);
    assert m == h[0] || m in multiset(cals) - multiset(h);
  }

  /** With at least `n` groups, the answer is the sum of `n` group totals
      that no other total beats, when that sum fits in a `u32`. */
  lemma TopCaloriesIsTop(input: string, n: nat)
    requires ElfCalories(input).Ok? && n <= |ElfCalories(input).value|
    ensures var cals := ElfCalories(input).value;
      exists top: seq<nat> ::
        |top| == n && multiset(top) <= multiset(cals) &&
        Beats(multiset(top), multiset(cals) - multiset(top)) &&
        (TopCalories(input, n).Ok? <==> Sum(top) <= Text.U32_MAX) &&
        (TopCalories(input, n).Ok? ==> TopCalories(input, n).value == Some(Sum(top)))
  {
    var cals := ElfCalories(input).value;
    var top := TopHeap(cals, n);
    TopHeapIsTop(cals, n);
    TopCaloriesSums(input, n, cals, top);
  }

  lemma TopCaloriesSums(input: string, n: nat, cals: seq<nat>, top: seq<nat>)
    requires ElfCalories(input) == Ok(cals) && n <= |cals| && top == TopHeap(cals, n)
    ensures TopCalories(input, n).Ok? <==> Sum(top) <= Text.U32_MAX
    ensures TopCalories(input, n).Ok? ==> TopCalories(input, n).value == Some(Sum(top))
  {
  }

  /** The top-1 answer agrees with the largest-total answer wherever
      the sum fits. */
  lemma TopCaloriesOne(input: string)
    requires MostCalories(input).Ok?
    ensures TopCalories(input, 1) == Ok(Some(MostCalories(input).value))
  {
    var cals := ElfCalories(input).value;
    TopOneIsMost(cals);
    assert Sum([MaxOf(cals)]) == MaxOf(cals);
    assert MaxOf(cals) <= Text.U32_MAX by {
      var i :| 0 <= i < |cals| && cals[i] == MaxOf(cals);
    }
  }
}
