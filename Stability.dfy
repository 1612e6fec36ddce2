/**
 * The sliding window of live counts in `ResearchStability`
 * (Life/Program.cs): a queue of the last `stablePeriod` counts, and the test
 * that the window is full and constant. `counts` is the history of live
 * counts, generation 0 first.
 */
module Stability {

  /** One generation's update of the queue: enqueue the new count, then
      dequeue once if the queue is longer than the period. */
  function Slide(window: seq<int>, alive: int, stablePeriod: int): (w: seq<int>)
    ensures |window| <= stablePeriod ==> |w| <= stablePeriod
    ensures w == window + [alive] || w == (window + [alive])[1..]
  {
    var queue := window + [alive];
    if |queue| > stablePeriod then queue[1..] else queue
  }

  /** The queue is full and every count in it equals the one at its head,
      that is, it holds `stablePeriod` counts that are all the same. */
  predicate Settled(window: seq<int>, stablePeriod: int)
    ensures Settled(window, stablePeriod) <==>
      |window| == stablePeriod && forall i, j :: 0 <= i < |window| && 0 <= j < |window| ==> window[i] == window[j]
  {
    |window| == stablePeriod && forall i :: 0 <= i < |window| ==> window[i] == window[0]
  }

  function Min(a: int, b: int): int {
    if a < b then a else b
  }

  function Max(a: int, b: int): int {
    if a < b then b else a
  }

  /** The queue once every count of `counts` has been slid in: the last
      min(|counts|, stablePeriod) of them, oldest first. */
  function Window(counts: seq<int>, stablePeriod: int): (w: seq<int>)
    ensures |w| == Min(|counts|, Max(stablePeriod, 0))
    ensures forall j :: 0 <= j < |w| ==> w[j] == counts[|counts| - |w| + j]
  {
    counts[|counts| - Min(|counts|, Max(stablePeriod, 0))..]
  }

  /** The counts of generations g - stablePeriod + 1 .. g exist and are all
      equal. */
  predicate StableAt(counts: seq<int>, g: nat, stablePeriod: int)
    requires g < |counts|
  {
    0 <= stablePeriod <= g + 1 &&
    forall i :: g + 1 - stablePeriod <= i <= g ==> counts[i] == counts[g]
  }

  /** Sliding the next count into the window of a history gives the window
      of the longer history. */
  lemma WindowSlide(counts: seq<int>, alive: int, stablePeriod: int)
    ensures Slide(Window(counts, stablePeriod), alive, stablePeriod) == Window(counts + [alive], stablePeriod)
  {
    var s := Slide(Window(counts, stablePeriod), alive, stablePeriod);
    var v := Window(counts + [alive], stablePeriod);
    assert |s| == |v|;
    forall j | 0 <= j < |v|
      ensures s[j] == v[j]
    {
    }
  }

  /** The queue test after the last generation of a history holds exactly
      when the last `stablePeriod` counts are equal. */
  lemma SettledIffStable(counts: seq<int>, stablePeriod: int)
    requires |counts| > 0
    ensures Settled(Window(counts, stablePeriod), stablePeriod) <==> StableAt(counts, |counts| - 1, stablePeriod)
  {
    var g := |counts| - 1;
    var w := Window(counts, stablePeriod);
    if Settled(w, stablePeriod) {
      forall i | g + 1 - stablePeriod <= i <= g
        ensures counts[i] == counts[g]
      {
        assert w[i - (g + 1 - stablePeriod)] == counts[i];
        assert w[stablePeriod - 1] == counts[g];
      }
    }
    if StableAt(counts, g, stablePeriod) {
      forall i | 0 <= i < |w|
        ensures w[i] == w[0]
      {
        assert w[i] == counts[g + 1 - stablePeriod + i];
      }
    }
  }

  /** No generation before n is stable, checked from generation n - 1 down. */
  predicate NoneStableBefore(counts: seq<int>, n: nat, stablePeriod: int)
    requires n <= |counts|
    decreases n
  {
    n == 0 || (!StableAt(counts, n - 1, stablePeriod) && NoneStableBefore(counts, n - 1, stablePeriod))
  }

  /** `NoneStableBefore` says that every generation before n is unstable. */
  lemma {:induction false} NoneStableBeforeMeans(counts: seq<int>, n: nat, stablePeriod: int)
    requires n <= |counts|
    ensures NoneStableBefore(counts, n, stablePeriod) <==> forall k :: 0 <= k < n ==> !StableAt(counts, k, stablePeriod)
    decreases n
  {
    if n > 0 {
      NoneStableBeforeMeans(counts, n - 1, stablePeriod);
    }
  }

  /** Whether generation k is stable depends only on the counts up to k. */
  lemma StableAtPrefix(counts: seq<int>, more: seq<int>, k: nat, stablePeriod: int)
    requires k < |counts|
    ensures StableAt(counts + more, k, stablePeriod) <==> StableAt(counts, k, stablePeriod)
  {
    var c := counts + more;
    assert forall i :: 0 <= i <= k ==> c[i] == counts[i];
  }

  /** Nor does the absence of a stable generation before n. */
  lemma {:induction false} NoneStablePrefix(counts: seq<int>, more: seq<int>, n: nat, stablePeriod: int)
    requires n <= |counts|
    ensures NoneStableBefore(counts + more, n, stablePeriod) <==> NoneStableBefore(counts, n, stablePeriod)
    decreases n
  {
    if n > 0 {
      StableAtPrefix(counts, more, n - 1, stablePeriod);
      NoneStablePrefix(counts, more, n - 1, stablePeriod);
    }
  }

  /** One more count that is not stable keeps "no stable generation yet". */
  lemma NoneStableExtend(counts: seq<int>, alive: int, stablePeriod: int)
    requires NoneStableBefore(counts, |counts|, stablePeriod)
    requires !StableAt(counts + [alive], |counts|, stablePeriod)
    ensures NoneStableBefore(counts + [alive], |counts| + 1, stablePeriod)
  {
    NoneStablePrefix(counts, [alive], |counts|, stablePeriod);
  }

  /** `r` is the first stable generation of `counts`, or -1 when none of
      them is stable. */
  predicate FirstStable(counts: seq<int>, stablePeriod: int, r: int)
  {
    if r < 0 then r == -1 && NoneStableBefore(counts, |counts|, stablePeriod)
    else r < |counts| && StableAt(counts, r, stablePeriod) && NoneStableBefore(counts, r, stablePeriod)
  }

  /** The search has a single answer. */
  lemma FirstStableUnique(counts: seq<int>, stablePeriod: int, r1: int, r2: int)
    requires FirstStable(counts, stablePeriod, r1) && FirstStable(counts, stablePeriod, r2)
    ensures r1 == r2
  {
    if r1 >= 0 {
      NoneStableBeforeMeans(counts, r1, stablePeriod);
    }
    if r2 >= 0 {
      NoneStableBeforeMeans(counts, r2, stablePeriod);
    }
    NoneStableBeforeMeans(counts, |counts|, stablePeriod);
  }
}
