/**
 * The LINQ `Skip`/`Take` slicing DeleteMany uses to cut the matched list into batches,
 * and the facts that the batches cut at 0, size, 2*size, ... cover the list exactly once, in order.
 */
module Batching {

  /** `Skip(n)`: the list without its first `n` elements (empty when `n` runs past the end). */
  function Skip<T>(s: seq<T>, n: nat): (r: seq<T>)
    ensures |r| == if n >= |s| then 0 else |s| - n
  {
    if n >= |s| then [] else s[n..]
  }

  /** `Take(n)`: the first `n` elements of the list (all of it when it is shorter). */
  function Take<T>(s: seq<T>, n: nat): (r: seq<T>)
    ensures |r| == if n >= |s| then |s| else n
  {
    if n >= |s| then s else s[..n]
  }

  /** The batches `Skip(i).Take(size)` for `i = 0, size, 2*size, ...` while `i < |s|`. */
  function Batches<T>(s: seq<T>, size: nat): (bs: seq<seq<T>>)
    requires size > 0
    ensures forall k :: 0 <= k < |bs| ==> 0 < |bs[k]| <= size
    ensures s == [] <==> bs == []
    decreases |s|
  {
    if s == [] then [] else [Take(s, size)] + Batches(Skip(s, size), size)
  }

  /** The batches laid end to end. */
  function Flatten<T>(bs: seq<seq<T>>): seq<T> {
    if bs == [] then [] else bs[0] + Flatten(bs[1..])
  }

  /** Laid end to end, the batches give back the list: every element once, in order. */
  lemma {:induction false} BatchesCover<T>(s: seq<T>, size: nat)
    requires size > 0
    ensures Flatten(Batches(s, size)) == s
    decreases |s|
  {
    if s != [] {
      var first, rest := Take(s, size), Skip(s, size);
      BatchesCover(rest, size);
      var bs := Batches(s, size);
      assert bs == [first] + Batches(rest, size);
      assert bs[1..] == Batches(rest, size);
      assert Flatten(bs) == first + Flatten(Batches(rest, size));
      if size < |s| {
        assert first == s[..size] && rest == s[size..];
      }
    }
  }

  /** Skipping twice is skipping the sum. */
  lemma SkipSkip<T>(s: seq<T>, m: nat, n: nat)
    ensures Skip(Skip(s, m), n) == Skip(s, m + n)
  {
  }

  /** Cutting the batches from position `i` on: the batch at `i`, then those from `i + size`. */
  lemma BatchesFrom<T>(s: seq<T>, size: nat, i: nat)
    requires size > 0 && i < |s|
    ensures Batches(Skip(s, i), size) == [Take(Skip(s, i), size)] + Batches(Skip(s, i + size), size)
  {
    SkipSkip(s, i, size);
  }

  /** Cutting one more batch at `i` moves it from the batches still to come to those already cut. */
  lemma BatchesAdvance<T>(s: seq<T>, size: nat, i: nat, cut: seq<seq<T>>)
    requires size > 0 && i < |s|
    requires cut + Batches(Skip(s, i), size) == Batches(s, size)
    ensures (cut + [Take(Skip(s, i), size)]) + Batches(Skip(s, i + size), size) == Batches(s, size)
  {
    BatchesFrom(s, size, i);
    assert (cut + [Take(Skip(s, i), size)]) + Batches(Skip(s, i + size), size)
        == cut + ([Take(Skip(s, i), size)] + Batches(Skip(s, i + size), size));
  }

  /** The batch cut at `i` is the slice from `i` to `i + size`, or to the end. */
  lemma TakeSkipSlice<T>(s: seq<T>, size: nat, i: nat)
    requires i <= |s|
    ensures Take(Skip(s, i), size) == s[i..if i + size < |s| then i + size else |s|]
  {
  }
}
