/** Sequence helpers used by the repository lookups. */
module Seqs {

  /** Position of the first element satisfying `p`, or `|xs|` when there is none:
      the scan a repository finder performs over its rows. */
  function FirstIndex<T>(xs: seq<T>, p: T -> bool): (i: nat)
    ensures i <= |xs|
    ensures i < |xs| ==> p(xs[i])
    ensures forall j :: 0 <= j < i ==> !p(xs[j])
    decreases |xs|
  {
    if |xs| == 0 then 0
    else if p(xs[0]) then 0
    else 1 + FirstIndex(xs[1..], p)
  }

  /** `xs` with the element at position `i` removed; the others keep their order. */
  function RemoveAt<T>(xs: seq<T>, i: nat): (r: seq<T>)
    requires i < |xs|
    ensures |r| == |xs| - 1
    ensures multiset(r) == multiset(xs) - multiset{xs[i]}
    ensures forall j :: 0 <= j < i ==> r[j] == xs[j]
    ensures forall j :: i < j < |xs| ==> r[j - 1] == xs[j]
  {
    assert xs == xs[..i] + [xs[i]] + xs[i + 1..];
    xs[..i] + xs[i + 1..]
  }

  /** An element survives `RemoveAt(xs, i)` exactly when it occurs in `xs` at a
      position other than `i`. */
  lemma RemoveAtMembership<T>(xs: seq<T>, i: nat, x: T)
    requires i < |xs|
    ensures x in RemoveAt(xs, i) <==> exists j :: 0 <= j < |xs| && j != i && xs[j] == x
  {
    var r := RemoveAt(xs, i);
    if x in r {
      var k :| 0 <= k < |r| && r[k] == x;
      if k < i {
        assert xs[k] == x;
      } else {
        assert xs[k + 1] == x;
      }
    }
    if j :| 0 <= j < |xs| && j != i && xs[j] == x {
      if j < i {
        assert r[j] == x;
      } else {
        assert r[j - 1] == x;
      }
    }
  }
}
