/**
 The drain loop of `main`: futures are taken in the order they complete, and
 each one that returned contributes its `(address, owns)` record to the
 results while each one that raised contributes nothing.
 */
module Collect {
  import opened Scanner

  /** A completed scan task: it returned a record, or it raised. Either way
      it remembers the address it was submitted for. */
  datatype Future<A> = Returned(submitted: A, record: Record<A>) | Raised(submitted: A)

  /** The results list after draining `futures` (in completion order): one
      record per returned future, none for a raised one. */
  function Drain<A>(futures: seq<Future<A>>): (results: seq<Record<A>>)
    ensures |results| <= |futures|
    ensures (forall i :: 0 <= i < |futures| ==> futures[i].Returned?) ==> |results| == |futures|
    ensures (forall i :: 0 <= i < |futures| ==> futures[i].Raised?) ==> results == []
    ensures forall k :: 0 <= k < |results| ==>
      exists i :: 0 <= i < |futures| && futures[i].Returned? && futures[i].record == results[k]
  {
    if |futures| == 0 then []
    else
      var earlier := futures[..|futures| - 1];
      var last := futures[|futures| - 1];
      var before := Drain(earlier);
      assert forall i :: 0 <= i < |earlier| ==> earlier[i] == futures[i];
      before + (if last.Returned? then [last.record] else [])
  }

  /** The results keep completion order: draining two stretches of futures
      one after the other gives the two stretches' results one after the
      other. */
  lemma {:induction false} DrainAppend<A>(xs: seq<Future<A>>, ys: seq<Future<A>>)
    ensures Drain(xs + ys) == Drain(xs) + Drain(ys)
    decreases |ys|
  {
    if |ys| == 0 {
      assert xs + ys == xs;
    } else {
      var zs := xs + ys;
      assert zs[..|zs| - 1] == xs + ys[..|ys| - 1];
      DrainAppend(xs, ys[..|ys| - 1]);
    }
  }

  /** Every returned future's record is in the results. */
  lemma {:induction false} DrainKeepsReturned<A>(futures: seq<Future<A>>, i: nat)
    requires i < |futures| && futures[i].Returned?
    ensures futures[i].record in Drain(futures)
  {
    var xs, ys := futures[..i], futures[i..];
    assert futures == xs + ys;
    DrainAppend(xs, ys);
    assert ys == [futures[i]] + ys[1..];
    DrainAppend([futures[i]], ys[1..]);
    assert [futures[i]] == [] + [futures[i]];
  }

  /** Taking the first element out of `xs` and one equal element out of a
      reordering `ys` leaves two reorderings of each other. */
  lemma TakeOut<T>(xs: seq<T>, ys: seq<T>, p: nat)
    requires multiset(xs) == multiset(ys) && |xs| > 0
    requires p < |ys| && ys[p] == xs[0]
    ensures xs == [xs[0]] + xs[1..] && ys == ys[..p] + [xs[0]] + ys[p + 1..]
    ensures multiset(xs[1..]) == multiset(ys[..p] + ys[p + 1..])
  {
    assert xs == [xs[0]] + xs[1..];
    assert ys == ys[..p] + [ys[p]] + ys[p + 1..];
    forall y
      ensures multiset(xs[1..])[y] == multiset(ys[..p] + ys[p + 1..])[y]
    {
      assert multiset(xs)[y] == multiset(ys)[y];
    }
  }

  /** A future taken out of the middle of a completion order contributes the
      same records as when it is put first. */
  lemma DrainAround<A>(before: seq<Future<A>>, x: Future<A>, after: seq<Future<A>>)
    ensures multiset(Drain(before + [x] + after)) == multiset(Drain([x])) + multiset(Drain(before + after))
  {
    DrainAppend(before + [x], after);
    DrainAppend(before, [x]);
    DrainAppend(before, after);
  }

  /** Draining is insensitive to completion order up to reordering: futures
      that complete in another order give the same records in another order. */
  lemma {:induction false} DrainPermutation<A>(xs: seq<Future<A>>, ys: seq<Future<A>>)
    requires multiset(xs) == multiset(ys)
    ensures multiset(Drain(xs)) == multiset(Drain(ys))
    decreases |xs|
  {
    if |xs| == 0 {
      assert |multiset(ys)| == 0;
    } else {
      assert xs[0] in multiset(ys);
      var p :| 0 <= p < |ys| && ys[p] == xs[0];
      TakeOut(xs, ys, p);
      DrainPermutation(xs[1..], ys[..p] + ys[p + 1..]);
      DrainAppend([xs[0]], xs[1..]);
      DrainAround(ys[..p], xs[0], ys[p + 1..]);
    }
  }

  /** No address occurs in two records. */
  ghost predicate DistinctAddresses<A>(results: seq<Record<A>>) {
    forall k, l :: 0 <= k < l < |results| ==> results[k].address != results[l].address
  }

  /** When each returned record carries the address it was submitted for and
      no address was submitted twice, no address appears twice in the
      results. */
  lemma {:induction false} DrainDistinct<A>(futures: seq<Future<A>>)
    requires forall i :: 0 <= i < |futures| && futures[i].Returned? ==> futures[i].record.address == futures[i].submitted
    requires forall i, j :: 0 <= i < j < |futures| ==> futures[i].submitted != futures[j].submitted
    ensures DistinctAddresses(Drain(futures))
  {
    if |futures| > 0 {
      var earlier := futures[..|futures| - 1];
      var last := futures[|futures| - 1];
      DrainDistinct(earlier);
      var before := Drain(earlier);
      if last.Returned? {
        forall k | 0 <= k < |before|
          ensures before[k].address != last.record.address
        {
          var i :| 0 <= i < |earlier| && earlier[i].Returned? && earlier[i].record == before[k];
          assert earlier[i] == futures[i];
          assert futures[i].submitted != futures[|futures| - 1].submitted;
        }
        var results := Drain(futures);
        assert results == before + [last.record];
        assert DistinctAddresses(before);
        forall k, l | 0 <= k < l < |results|
          ensures results[k].address != results[l].address
        {
          assert results[k] == before[k];
          if l < |before| {
            assert results[l] == before[l];
          }
        }
      } else {
        assert Drain(futures) == before;
      }
    }
  }

  /** The `for future in as_completed(futures)` loop of `main`, appending the
      result of every future that did not raise. */
  method DrainLoop<A>(futures: seq<Future<A>>) returns (results: seq<Record<A>>)
    ensures results == Drain(futures)
  {
    results := [];
    var n := 0;
    while n < |futures|
      invariant n <= |futures|
      invariant results == Drain(futures[..n])
    {
      match futures[n] {
        case Returned(_, record) => results := results + [record];
        case Raised(_) =>
      }
      assert futures[..n + 1][..n] == futures[..n];
      n := n + 1;
    }
    assert futures[..n] == futures;
  }
}
