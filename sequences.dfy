/**
 * List surgery used by the generation loop: `list.pop(i)`, repeated removal at drawn positions,
 * and what "the remaining elements keep their relative order" means.
 */
module Sequences {

  /** Strictly increasing. */
  predicate Increasing(s: seq<nat>) {
    forall a, b :: 0 <= a < b < |s| ==> s[a] < s[b]
  }

  /** `s.pop(i)` on a Python list: the element at `i` goes, the others close up in order. */
  function RemoveAt<T>(s: seq<T>, i: nat): (r: seq<T>)
    requires i < |s|
    ensures |r| == |s| - 1
    ensures forall t :: 0 <= t < |r| ==> r[t] == if t < i then s[t] else s[t + 1]
  {
    s[..i] + s[i + 1..]
  }

  /** Each drawn position is valid for the list as it is when that removal happens. */
  predicate ValidRemovals(removals: seq<nat>, len: nat) {
    |removals| <= len && forall t :: 0 <= t < |removals| ==> removals[t] < len - t
  }

  /** The list left after popping the drawn positions one after the other. */
  function Removed<T>(s: seq<T>, removals: seq<nat>): (r: seq<T>)
    requires ValidRemovals(removals, |s|)
    ensures |r| == |s| - |removals|
    decreases |removals|
  {
    if removals == [] then s else Removed(RemoveAt(s, removals[0]), removals[1..])
  }

  /** `ys` is `xs` with some elements left out: `idx` says, in increasing order, where each came from. */
  ghost predicate EmbeddedBy<T>(ys: seq<T>, xs: seq<T>, idx: seq<nat>) {
    |idx| == |ys| && Increasing(idx) && forall t :: 0 <= t < |idx| ==> idx[t] < |xs| && ys[t] == xs[idx[t]]
  }

  /** `ys` is a subsequence of `xs`: its elements appear in `xs` in the same relative order. */
  ghost predicate KeepsOrder<T>(ys: seq<T>, xs: seq<T>) {
    exists idx :: EmbeddedBy(ys, xs, idx)
  }

  /** Removing the same positions from a list and from the positions it was read at commutes. */
  lemma {:induction false} RemovedFollowsPositions<T>(s: seq<T>, src: seq<T>, idx: seq<nat>, removals: seq<nat>)
    requires |idx| == |s| && ValidRemovals(removals, |s|)
    requires forall t :: 0 <= t < |s| ==> idx[t] < |src| && s[t] == src[idx[t]]
    ensures var kept, at := Removed(s, removals), Removed<nat>(idx, removals);
      |at| == |kept| && forall t :: 0 <= t < |kept| ==> at[t] < |src| && kept[t] == src[at[t]]
    decreases |removals|
  {
    if removals != [] {
      RemovedFollowsPositions(RemoveAt(s, removals[0]), src, RemoveAt(idx, removals[0]), removals[1..]);
    }
  }

  /** Removals keep a position list strictly increasing. */
  lemma {:induction false} RemovedIncreasing(idx: seq<nat>, removals: seq<nat>)
    requires Increasing(idx) && ValidRemovals(removals, |idx|)
    ensures Increasing(Removed<nat>(idx, removals))
    decreases |removals|
  {
    if removals != [] {
      var r := RemoveAt(idx, removals[0]);
      assert Increasing(r) by {
        forall a, b | 0 <= a < b < |r|
          ensures r[a] < r[b]
        {
          assert r[a] == if a < removals[0] then idx[a] else idx[a + 1];
          assert r[b] == if b < removals[0] then idx[b] else idx[b + 1];
        }
      }
      RemovedIncreasing(r, removals[1..]);
    }
  }

  /** What is left after the removals is a subsequence of the original list. */
  lemma RemovedKeepsOrder<T>(xs: seq<T>, removals: seq<nat>)
    requires ValidRemovals(removals, |xs|)
    ensures KeepsOrder(Removed(xs, removals), xs)
  {
    var positions: seq<nat> := seq(|xs|, i requires 0 <= i < |xs| => i);
    assert forall t :: 0 <= t < |xs| ==> positions[t] == t;
    RemovedFollowsPositions(xs, xs, positions, removals);
    RemovedIncreasing(positions, removals);
    var kept, at := Removed(xs, removals), Removed<nat>(positions, removals);
    assert EmbeddedBy(kept, xs, at);
  }

  /**
   * The trim loop of `executa`: while the list is longer than `n`, pop the element at the next drawn
   * position. It stops at exactly `n` elements (or leaves a list no longer than `n` alone), and what
   * it returns is a subsequence of its input.
   */
  method Trim<T>(xs: seq<T>, n: nat, removals: seq<nat>) returns (ys: seq<T>)
    requires |removals| == if |xs| > n then |xs| - n else 0
    requires ValidRemovals(removals, |xs|)
    ensures |ys| == if |xs| > n then n else |xs|
    ensures ys == Removed(xs, removals)
    ensures KeepsOrder(ys, xs)
  {
    ys := xs;
    var t := 0;
    while |ys| > n
      invariant 0 <= t <= |removals| && |ys| == |xs| - t
      invariant ValidRemovals(removals[t..], |ys|)
      invariant Removed(ys, removals[t..]) == Removed(xs, removals)
    {
      assert removals[t..][1..] == removals[t + 1..];
      ys := RemoveAt(ys, removals[t]);
      t := t + 1;
    }
    assert removals[t..] == [];
    RemovedKeepsOrder(xs, removals);
  }
}
