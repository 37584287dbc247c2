/**
 * Reduction of one frame's detection scores to a people count
 * (main.py:168-180). The scores arrive as a sequence of reals: extracting
 * them from the raw output tensor is not part of this model.
 */
module Detections {

  /** Number of scores strictly above the threshold, defined on the prefix
      so that it follows the order in which the loop visits the scores. */
  function CountAbove(probs: seq<real>, threshold: real): (n: nat)
    ensures n <= |probs|
  {
    if probs == [] then 0
    else CountAbove(probs[..|probs| - 1], threshold) + (if probs[|probs| - 1] > threshold then 1 else 0)
  }

  /** The positions of the accepted detections: an independent description of the count. */
  ghost function AboveIndices(probs: seq<real>, threshold: real): set<int>
  {
    set i | 0 <= i < |probs| && probs[i] > threshold
  }

  /** The count is the number of positions whose score is strictly above the threshold. */
  lemma {:induction false} CountAboveIsCardinality(probs: seq<real>, threshold: real)
    ensures CountAbove(probs, threshold) == |AboveIndices(probs, threshold)|
  {
    if probs == [] {
      assert AboveIndices(probs, threshold) == {};
    } else {
      var n := |probs|;
      var front := probs[..n - 1];
      CountAboveIsCardinality(front, threshold);
      var a := AboveIndices(front, threshold);
      assert n - 1 !in a;
      if probs[n - 1] > threshold {
        assert AboveIndices(probs, threshold) == a + {n - 1};
      } else {
        assert AboveIndices(probs, threshold) == a;
      }
    }
  }

  /** A frame is a detection frame (count > 0) exactly when some score exceeds the threshold. */
  lemma DetectionFrameIff(probs: seq<real>, threshold: real)
    ensures CountAbove(probs, threshold) > 0 <==> exists i :: 0 <= i < |probs| && probs[i] > threshold
  {
    CountAboveIsCardinality(probs, threshold);
    if i :| 0 <= i < |probs| && probs[i] > threshold {
      assert i in AboveIndices(probs, threshold);
    }
    if |AboveIndices(probs, threshold)| > 0 {
      var i :| i in AboveIndices(probs, threshold);
      assert 0 <= i < |probs| && probs[i] > threshold;
    }
  }

  /** The count of a concatenation is the sum of the counts. */
  lemma {:induction false} CountAboveAppend(u: seq<real>, v: seq<real>, threshold: real)
    ensures CountAbove(u + v, threshold) == CountAbove(u, threshold) + CountAbove(v, threshold)
  {
    if v == [] {
      assert u + v == u;
    } else {
      var n := |v|;
      CountAboveAppend(u, v[..n - 1], threshold);
      assert (u + v)[..|u + v| - 1] == u + v[..n - 1];
    }
  }

  /** The count does not depend on the order of the detections. */
  lemma {:induction false} CountAbovePermutation(a: seq<real>, b: seq<real>, threshold: real)
    requires multiset(a) == multiset(b)
    ensures CountAbove(a, threshold) == CountAbove(b, threshold)
  {
    if a == [] {
      assert b == [];
    } else {
      var x := a[|a| - 1];
      var u, v := SplitAtLast(a, b);
      CountAbovePermutation(a[..|a| - 1], u + v, threshold);
      CountAboveAppend(u, v, threshold);
      CountAboveAppend(u + [x], v, threshold);
      CountAboveAppend(u, [x], threshold);
      assert [x][..0] == [];
    }
  }

  /** A permutation b of a non-empty a is a's last element surrounded by a
      permutation of the rest of a. */
  lemma SplitAtLast(a: seq<real>, b: seq<real>) returns (u: seq<real>, v: seq<real>)
    requires multiset(a) == multiset(b) && a != []
    ensures b == u + [a[|a| - 1]] + v
    ensures multiset(a[..|a| - 1]) == multiset(u + v)
  {
    var x := a[|a| - 1];
    assert a == a[..|a| - 1] + [x];
    assert x in multiset(b);
    var j :| 0 <= j < |b| && b[j] == x;
    u, v := b[..j], b[j + 1..];
    assert b == u + [x] + v;
    calc {
      multiset(a[..|a| - 1]);
      multiset(a) - multiset{x};
      multiset(b) - multiset{x};
      multiset(u) + multiset(v);
      multiset(u + v);
    }
  }

  /**
   * The loop over the scores of one frame (main.py:168-180): it counts the
   * accepted detections, raises the lifetime peak `lastCount` whenever the
   * running count passes it, and notes whether any detection was accepted.
   */
  method ScanFrame(probs: seq<real>, threshold: real, lastCount: nat)
    returns (people: nat, peak: nat, detected: bool)
    ensures people == CountAbove(probs, threshold)
    ensures peak == if lastCount < people then people else lastCount
    ensures detected <==> exists i :: 0 <= i < |probs| && probs[i] > threshold
  {
    people, peak, detected := 0, lastCount, false;
    for i := 0 to |probs|
      invariant people == CountAbove(probs[..i], threshold)
      invariant peak == if lastCount < people then people else lastCount
      invariant detected == (people > 0)
    {
      assert probs[..i + 1][..i] == probs[..i];
      if probs[i] > threshold {
        people := people + 1;
        detected := true;
        if peak < people {
          peak := people;
        }
      }
    }
    assert probs[..|probs|] == probs;
    DetectionFrameIff(probs, threshold);
  }
}
