/** The elevator insertion of `add_request` (kernel/blk_drv/ll_rw_blk.c),
    over an abstract strict order `less` that stands for `IN_ORDER`.
    A device queue is the sequence of its linked requests, head first. */
module Elevator {

  /** The condition on which the insertion scan stops at node `j` and links
      `x` between `q[j]` and `q[j + 1]`: `x` follows `q[j]` in order, or
      `q[j]` is the wrap point of the queue, and `x` precedes `q[j + 1]`. */
  predicate StopsAt<T>(q: seq<T>, x: T, less: (T, T) -> bool, j: nat)
    requires j + 1 < |q|
  {
    (less(q[j], x) || !less(q[j], q[j + 1])) && less(x, q[j + 1])
  }

  /** The insertion scan, started at node `j`: the position `x` is linked at. */
  function ScanFrom<T>(q: seq<T>, x: T, less: (T, T) -> bool, j: nat): (p: nat)
    requires j < |q|
    ensures j + 1 <= p <= |q|
    ensures forall k :: j <= k < p - 1 ==> !StopsAt(q, x, less, k)
    ensures p < |q| ==> StopsAt(q, x, less, p - 1)
    decreases |q| - j
  {
    if j + 1 == |q| then |q|
    else if StopsAt(q, x, less, j) then j + 1
    else ScanFrom(q, x, less, j + 1)
  }

  /** Where `add_request` links a new request into a non-empty queue: right
      after the first node at which the scan stops, or at the tail. Never
      before the head, which is the request the driver is serving. */
  function InsertPos<T>(q: seq<T>, x: T, less: (T, T) -> bool): (p: nat)
    requires |q| >= 1
    ensures 1 <= p <= |q|
    ensures forall k :: 0 <= k < p - 1 ==> !StopsAt(q, x, less, k)
    ensures p < |q| ==> StopsAt(q, x, less, p - 1)
  {
    ScanFrom(q, x, less, 0)
  }

  /** The queue after `add_request` links `x` into the non-empty queue `q`. */
  function Insert<T>(q: seq<T>, x: T, less: (T, T) -> bool): (r: seq<T>)
    requires |q| >= 1
    ensures |r| == |q| + 1
    ensures r[0] == q[0]
    ensures r[InsertPos(q, x, less)] == x
    ensures r[..InsertPos(q, x, less)] + r[InsertPos(q, x, less) + 1..] == q
    ensures multiset(r) == multiset(q) + multiset{x}
  {
    var p := InsertPos(q, x, less);
    assert q == q[..p] + q[p..];
    var r := q[..p] + [x] + q[p..];
    assert r[..p] == q[..p];
    assert r[p + 1..] == q[p..];
    r
  }

  /** The pair at `i` is in order. */
  predicate Ascends<T>(q: seq<T>, less: (T, T) -> bool, i: nat)
    requires i + 1 < |q|
  {
    less(q[i], q[i + 1])
  }

  /** The queue has at most one adjacent pair out of order: the point where
      the sweep wraps round to the lowest pending request. */
  ghost predicate AtMostOneWrap<T>(q: seq<T>, less: (T, T) -> bool) {
    forall i, j :: 0 <= i < j && j + 1 < |q| && !Ascends(q, less, i) ==> Ascends(q, less, j)
  }

  /** `less` is a strict total order on the elements of `s`, and the elements
      of `s` are pairwise distinct under it: of two different positions,
      exactly one precedes the other. */
  ghost predicate StrictTotalOn<T>(s: seq<T>, less: (T, T) -> bool) {
    && (forall i, j :: 0 <= i < |s| && 0 <= j < |s| && i != j ==> (less(s[i], s[j]) <==> !less(s[j], s[i])))
    && (forall i, j, k ::
          0 <= i < |s| && 0 <= j < |s| && 0 <= k < |s| && less(s[i], s[j]) && less(s[j], s[k])
          ==> less(s[i], s[k]))
  }

  /** When the scan runs off the end of `q` and `q` wraps at `d`, then `x`
      follows every node after the wrap point up to `j`. */
  lemma {:induction false} PastWrap<T>(q: seq<T>, x: T, less: (T, T) -> bool, d: nat, j: nat)
    requires d + 1 <= j < |q|
    requires AtMostOneWrap(q, less)
    requires StrictTotalOn(q + [x], less)
    requires !Ascends(q, less, d)
    requires forall k :: 0 <= k < |q| - 1 ==> !StopsAt(q, x, less, k)
    ensures less(q[j], x)
    decreases j
  {
    var s := q + [x];
    assert s[j] == q[j] && s[|q|] == x;
    if j == d + 1 {
      assert !StopsAt(q, x, less, d);
      assert !less(x, q[j]);
    } else {
      PastWrap(q, x, less, d, j - 1);
      assert Ascends(q, less, j - 1);
      assert !StopsAt(q, x, less, j - 1);
      assert !less(x, q[j]);
    }
  }

  /** The elevator invariant: if the queue had at most one wrap point before
      `add_request` linked `x` in, it has at most one afterwards. */
  lemma InsertKeepsOneWrap<T>(q: seq<T>, x: T, less: (T, T) -> bool)
    requires |q| >= 1
    requires AtMostOneWrap(q, less)
    requires StrictTotalOn(q + [x], less)
    ensures AtMostOneWrap(Insert(q, x, less), less)
  {
    if InsertPos(q, x, less) < |q| {
      InsertInside(q, x, less);
    } else {
      InsertAtTail(q, x, less);
    }
  }

  /** `x` linked before the tail: the scan stopped, so the pair it breaks
      was in order or was the wrap point, and `x` ascends into its successor. */
  lemma InsertInside<T>(q: seq<T>, x: T, less: (T, T) -> bool)
    requires |q| >= 1 && InsertPos(q, x, less) < |q|
    requires AtMostOneWrap(q, less)
    ensures AtMostOneWrap(Insert(q, x, less), less)
  {
    var p := InsertPos(q, x, less);
    var r := Insert(q, x, less);
    assert r == q[..p] + [x] + q[p..];
    assert StopsAt(q, x, less, p - 1);
    // How each pair of r relates to a pair of q.
    forall k | 0 <= k && k + 1 < |r|
      ensures k < p - 1 ==> (Ascends(r, less, k) <==> Ascends(q, less, k))
      ensures k == p - 1 ==> (Ascends(q, less, k) ==> Ascends(r, less, k))
      ensures k == p ==> Ascends(r, less, k)
      ensures k > p ==> (Ascends(r, less, k) <==> Ascends(q, less, k - 1))
    {
      if k < p - 1 {
        assert r[k] == q[k] && r[k + 1] == q[k + 1];
      } else if k == p - 1 {
        assert r[k] == q[p - 1] && r[k + 1] == x;
      } else if k == p {
        assert r[k] == x && r[k + 1] == q[p];
      } else {
        assert r[k] == q[k - 1] && r[k + 1] == q[k];
      }
    }
    forall i, j | 0 <= i < j && j + 1 < |r| && !Ascends(r, less, i)
      ensures Ascends(r, less, j)
    {
      var qi := if i < p then i else i - 1;
      var qj := if j < p then j else j - 1;
      assert !Ascends(q, less, qi);
      if j != p {
        assert qi < qj;
        assert Ascends(q, less, qj);
      }
    }
  }

  /** `x` linked at the tail: the scan never stopped, so past the wrap point
      `x` follows the last node. */
  lemma InsertAtTail<T>(q: seq<T>, x: T, less: (T, T) -> bool)
    requires |q| >= 1 && InsertPos(q, x, less) == |q|
    requires AtMostOneWrap(q, less)
    requires StrictTotalOn(q + [x], less)
    ensures AtMostOneWrap(Insert(q, x, less), less)
  {
    var r := q + [x];
    assert Insert(q, x, less) == r;
    forall i, j | 0 <= i < j && j + 1 < |r| && !Ascends(r, less, i)
      ensures Ascends(r, less, j)
    {
      assert r[i] == q[i] && r[i + 1] == q[i + 1];
      assert !Ascends(q, less, i);
      if j + 1 < |q| {
        assert r[j] == q[j] && r[j + 1] == q[j + 1];
        assert Ascends(q, less, j);
      } else {
        var last := |q| - 1;
        assert j == last;
        PastWrap(q, x, less, i, last);
        assert r[last] == q[last] && r[last + 1] == x;
      }
    }
  }
}
