/**
 `main`: load the inputs, return early when any of them is empty, scan every
 validated address in its own task, drain the tasks in completion order and
 hand the collected records to `save_results`. The thread pool is not
 modelled: the order in which tasks complete, and which of them raise, are
 parameters.
 */
module Pipeline {
  import opened Remote
  import opened Retry
  import opened Scanner
  import opened Loading
  import opened Collect
  import opened Wrappers

  /** Why `main` returned before scanning anything. */
  datatype Stop = NoAddresses | NoContracts | NoAbi | NoValidAddresses | NoValidContracts

  /** How a run of `main` ends: an early return, or the records passed to
      `save_results`. */
  datatype Ending<A> = Stopped(reason: Stop) | Saved(results: seq<Record<A>>)

  /** `order` lists each of `n` submitted tasks exactly once: an order in
      which `as_completed` can yield them. */
  predicate IsCompletionOrder(order: seq<nat>, n: nat) {
    && |order| == n
    && (forall k :: 0 <= k < n ==> order[k] < n)
    && (forall k, l :: 0 <= k < l < n ==> order[k] != order[l])
  }

  /** Distinct numbers below `m` are at most `m` many. */
  lemma {:induction false} DistinctBelow(xs: seq<nat>, m: nat)
    requires forall k :: 0 <= k < |xs| ==> xs[k] < m
    requires forall k, l :: 0 <= k < l < |xs| ==> xs[k] != xs[l]
    ensures |xs| <= m
    decreases m
  {
    if |xs| > 0 {
      assert xs[0] < m;
      if p :| 0 <= p < |xs| && xs[p] == m - 1 {
        var ys := xs[..p] + xs[p + 1..];
        assert forall k :: 0 <= k < |ys| ==> ys[k] == if k < p then xs[k] else xs[k + 1];
        DistinctBelow(ys, m - 1);
      } else {
        DistinctBelow(xs, m - 1);
      }
    }
  }

  /** Every one of the `n` tasks completes at some position of a completion
      order. */
  lemma OrderCovers(order: seq<nat>, n: nat, i: nat)
    requires IsCompletionOrder(order, n) && i < n
    ensures exists k :: 0 <= k < n && order[k] == i
  {
    if forall k :: 0 <= k < n ==> order[k] != i {
      // Closing the gap at `i` packs the n distinct positions below n - 1.
      var ys: seq<nat> := seq(n, k requires 0 <= k < n => if order[k] > i then order[k] - 1 else order[k]);
      DistinctBelow(ys, n - 1);
      assert false;
    }
  }

  /** The `has_nft` answers task `task` sees. Every submitted task makes its
      own `balanceOf` calls, so two tasks for one address may see different
      outcomes. */
  function TaskView<A, C>(hasNft: (nat, A, C) -> Check, task: nat): (A, C) -> Check {
    (address: A, contract: C) => hasNft(task, address, contract)
  }

  /** The record task `i` returns when it does not raise: `check_nft_ownership`
      of `addresses[i]`, with the answers that task sees. */
  function TaskRecord<A, C>(addresses: seq<A>, contracts: seq<C>, hasNft: (nat, A, C) -> Check, i: nat): (r: Record<A>)
    requires i < |addresses|
    ensures r.address == addresses[i]
    ensures r.owns <==> exists j :: 0 <= j < |contracts| && hasNft(i, addresses[i], contracts[j]).owns
  {
    var scan := CheckOwnership(addresses[i], contracts, TaskView(hasNft, i));
    assert forall j :: 0 <= j < |contracts| ==> TaskView(hasNft, i)(addresses[i], contracts[j]) == hasNft(i, addresses[i], contracts[j]);
    scan.record
  }

  /** The scan tasks as they complete: task `order[k]`, for
      `addresses[order[k]]`, completes k-th, raises when its index is in
      `raised`, and otherwise returns its `check_nft_ownership` record. */
  function Completed<A, C>(addresses: seq<A>, contracts: seq<C>, hasNft: (nat, A, C) -> Check,
                           order: seq<nat>, raised: set<nat>): (futures: seq<Future<A>>)
    requires forall k :: 0 <= k < |order| ==> order[k] < |addresses|
    ensures |futures| == |order|
    ensures forall k :: 0 <= k < |order| ==> futures[k].submitted == addresses[order[k]]
    ensures forall k :: 0 <= k < |order| ==> (futures[k].Raised? <==> order[k] in raised)
    ensures forall k :: 0 <= k < |order| && futures[k].Returned? ==>
      futures[k].record == TaskRecord(addresses, contracts, hasNft, order[k])
  {
    seq(|order|, k requires 0 <= k < |order| =>
      var i := order[k];
      if i in raised then Raised(addresses[i]) else Returned(addresses[i], TaskRecord(addresses, contracts, hasNft, i)))
  }

  /** The task indices `0, 1, ..., n - 1`, in submission order. */
  function Indices(n: nat): seq<nat> {
    seq(n, k requires 0 <= k < n => k as nat)
  }

  /** A sequence without repetitions holds each of its elements once. */
  lemma {:induction false} DistinctOnce(xs: seq<nat>, y: nat)
    requires forall k, l :: 0 <= k < l < |xs| ==> xs[k] != xs[l]
    ensures multiset(xs)[y] == if y in xs then 1 else 0
  {
    if |xs| > 0 {
      assert xs == [xs[0]] + xs[1..];
      assert forall k, l :: 0 <= k < l < |xs| - 1 ==> xs[1..][k] == xs[k + 1] && xs[1..][l] == xs[l + 1];
      DistinctOnce(xs[1..], y);
    }
  }

  /** A completion order of `n` tasks is a reordering of their indices. */
  lemma CompletionOrderPermutes(order: seq<nat>, n: nat)
    requires IsCompletionOrder(order, n)
    ensures multiset(order) == multiset(Indices(n))
  {
    forall y: nat
      ensures multiset(order)[y] == multiset(Indices(n))[y]
    {
      DistinctOnce(order, y);
      DistinctOnce(Indices(n), y);
      if y < n {
        OrderCovers(order, n, y);
        assert Indices(n)[y] == y;
      }
    }
  }

  /** Completing two stretches of tasks one after the other. */
  lemma CompletedAppend<A, C>(addresses: seq<A>, contracts: seq<C>, hasNft: (nat, A, C) -> Check,
                              xs: seq<nat>, ys: seq<nat>, raised: set<nat>)
    requires forall k :: 0 <= k < |xs| ==> xs[k] < |addresses|
    requires forall k :: 0 <= k < |ys| ==> ys[k] < |addresses|
    ensures Completed(addresses, contracts, hasNft, xs + ys, raised)
      == Completed(addresses, contracts, hasNft, xs, raised) + Completed(addresses, contracts, hasNft, ys, raised)
  {
  }

  /** Every task index in `tasks` is below `n`. */
  predicate AllBelow(tasks: seq<nat>, n: nat) {
    forall k :: 0 <= k < |tasks| ==> tasks[k] < n
  }

  /** Taking task `ys[p]` out of the middle of a completion order: it
      contributes the same future as when it is put first. */
  lemma CompletedAround<A, C>(addresses: seq<A>, contracts: seq<C>, hasNft: (nat, A, C) -> Check,
                              ys: seq<nat>, p: nat, raised: set<nat>)
    requires forall k :: 0 <= k < |ys| ==> ys[k] < |addresses|
    requires p < |ys|
    ensures AllBelow(ys[..p] + ys[p + 1..], |addresses|)
    ensures multiset(Completed(addresses, contracts, hasNft, ys, raised))
      == multiset(Completed(addresses, contracts, hasNft, [ys[p]], raised))
         + multiset(Completed(addresses, contracts, hasNft, ys[..p] + ys[p + 1..], raised))
  {
    var before, after := ys[..p], ys[p + 1..];
    assert ys == before + [ys[p]] + after;
    CompletedAppend(addresses, contracts, hasNft, before + [ys[p]], after, raised);
    CompletedAppend(addresses, contracts, hasNft, before, [ys[p]], raised);
    CompletedAppend(addresses, contracts, hasNft, before, after, raised);
  }

  /** Tasks completing in another order give the same futures in another
      order. */
  lemma {:induction false} CompletedPermutation<A, C>(addresses: seq<A>, contracts: seq<C>, hasNft: (nat, A, C) -> Check,
                                                      xs: seq<nat>, ys: seq<nat>, raised: set<nat>)
    requires forall k :: 0 <= k < |xs| ==> xs[k] < |addresses|
    requires forall k :: 0 <= k < |ys| ==> ys[k] < |addresses|
    requires multiset(xs) == multiset(ys)
    ensures multiset(Completed(addresses, contracts, hasNft, xs, raised))
      == multiset(Completed(addresses, contracts, hasNft, ys, raised))
    decreases |xs|
  {
    if |xs| == 0 {
      assert |multiset(ys)| == 0;
    } else {
      assert xs[0] in multiset(ys);
      var p :| 0 <= p < |ys| && ys[p] == xs[0];
      TakeOut(xs, ys, p);
      CompletedAround(addresses, contracts, hasNft, ys, p, raised);
      CompletedAround(addresses, contracts, hasNft, xs, 0, raised);
      assert xs[..0] + xs[1..] == xs[1..];
      CompletedPermutation(addresses, contracts, hasNft, xs[1..], ys[..p] + ys[p + 1..], raised);
    }
  }

  /** The records a run saves when its tasks complete in submission order:
      the record of each task below `n` that did not raise, by index. */
  function KeptRecords<A, C>(addresses: seq<A>, contracts: seq<C>, hasNft: (nat, A, C) -> Check,
                             raised: set<nat>, n: nat): (records: seq<Record<A>>)
    requires n <= |addresses|
    ensures |records| <= n
    ensures (forall i :: 0 <= i < n ==> i !in raised) ==> |records| == n
  {
    if n == 0 then []
    else
      KeptRecords(addresses, contracts, hasNft, raised, n - 1)
      + (if n - 1 in raised then [] else [TaskRecord(addresses, contracts, hasNft, n - 1)])
  }

  /** Draining the tasks in submission order saves `KeptRecords`. */
  lemma {:induction false} SubmissionOrder<A, C>(addresses: seq<A>, contracts: seq<C>, hasNft: (nat, A, C) -> Check,
                                                 raised: set<nat>, n: nat)
    requires n <= |addresses|
    ensures Drain(Completed(addresses, contracts, hasNft, Indices(n), raised))
      == KeptRecords(addresses, contracts, hasNft, raised, n)
  {
    if n > 0 {
      assert Indices(n) == Indices(n - 1) + [n - 1];
      SubmissionOrder(addresses, contracts, hasNft, raised, n - 1);
      CompletedAppend(addresses, contracts, hasNft, Indices(n - 1), [n - 1], raised);
      DrainAppend(Completed(addresses, contracts, hasNft, Indices(n - 1), raised),
                  Completed(addresses, contracts, hasNft, [n - 1], raised));
    }
  }

  /** What the saved results of a run promise: they are the records of the
      tasks that did not raise, one per task, in some order; so at most one
      record per submitted task and exactly one when no task raised, the
      record of every task that did not raise is saved, and every saved record
      is the record of such a task; no address twice when no address was
      submitted twice. */
  ghost predicate Reports<A, C>(results: seq<Record<A>>, addresses: seq<A>, contracts: seq<C>,
                                hasNft: (nat, A, C) -> Check, raised: set<nat>) {
    && multiset(results) == multiset(KeptRecords(addresses, contracts, hasNft, raised, |addresses|))
    && |results| <= |addresses|
    && ((forall i :: 0 <= i < |addresses| ==> i !in raised) ==> |results| == |addresses|)
    && (forall i :: 0 <= i < |addresses| && i !in raised ==> TaskRecord(addresses, contracts, hasNft, i) in results)
    && (forall k :: 0 <= k < |results| ==>
          exists i :: 0 <= i < |addresses| && i !in raised && results[k] == TaskRecord(addresses, contracts, hasNft, i))
    && ((forall i, j :: 0 <= i < j < |addresses| ==> addresses[i] != addresses[j]) ==> DistinctAddresses(results))
  }

  /** What the drained results say about a completed set of scan tasks. */
  lemma DrainedScans<A, C>(addresses: seq<A>, contracts: seq<C>, hasNft: (nat, A, C) -> Check,
                           order: seq<nat>, raised: set<nat>)
    requires IsCompletionOrder(order, |addresses|)
    ensures Reports(Drain(Completed(addresses, contracts, hasNft, order, raised)), addresses, contracts, hasNft, raised)
  {
    DrainedReordering(addresses, contracts, hasNft, order, raised);
    DrainedCount(addresses, contracts, hasNft, order, raised);
    DrainedKept(addresses, contracts, hasNft, order, raised);
    DrainedRecords(addresses, contracts, hasNft, order, raised);
    DrainedDistinct(addresses, contracts, hasNft, order, raised);
  }

  /** Whatever the completion order, the saved records are those of the tasks
      that did not raise, each saved once, reordered. */
  lemma DrainedReordering<A, C>(addresses: seq<A>, contracts: seq<C>, hasNft: (nat, A, C) -> Check,
                                order: seq<nat>, raised: set<nat>)
    requires IsCompletionOrder(order, |addresses|)
    ensures multiset(Drain(Completed(addresses, contracts, hasNft, order, raised)))
      == multiset(KeptRecords(addresses, contracts, hasNft, raised, |addresses|))
  {
    var n := |addresses|;
    CompletionOrderPermutes(order, n);
    CompletedPermutation(addresses, contracts, hasNft, order, Indices(n), raised);
    DrainPermutation(Completed(addresses, contracts, hasNft, order, raised),
                     Completed(addresses, contracts, hasNft, Indices(n), raised));
    SubmissionOrder(addresses, contracts, hasNft, raised, n);
  }

  /** One record at most per task, and one per task when none raised. */
  lemma DrainedCount<A, C>(addresses: seq<A>, contracts: seq<C>, hasNft: (nat, A, C) -> Check,
                           order: seq<nat>, raised: set<nat>)
    requires IsCompletionOrder(order, |addresses|)
    ensures var results := Drain(Completed(addresses, contracts, hasNft, order, raised));
      && |results| <= |addresses|
      && ((forall i :: 0 <= i < |addresses| ==> i !in raised) ==> |results| == |addresses|)
  {
    var futures := Completed(addresses, contracts, hasNft, order, raised);
    if forall i :: 0 <= i < |addresses| ==> i !in raised {
      assert forall k :: 0 <= k < |futures| ==> futures[k].Returned?;
    }
  }

  /** The record of every task that did not raise is saved. */
  lemma DrainedKept<A, C>(addresses: seq<A>, contracts: seq<C>, hasNft: (nat, A, C) -> Check,
                          order: seq<nat>, raised: set<nat>)
    requires IsCompletionOrder(order, |addresses|)
    ensures var results := Drain(Completed(addresses, contracts, hasNft, order, raised));
      forall i :: 0 <= i < |addresses| && i !in raised ==> TaskRecord(addresses, contracts, hasNft, i) in results
  {
    var futures := Completed(addresses, contracts, hasNft, order, raised);
    forall i | 0 <= i < |addresses| && i !in raised
      ensures TaskRecord(addresses, contracts, hasNft, i) in Drain(futures)
    {
      OrderCovers(order, |addresses|, i);
      var k :| 0 <= k < |addresses| && order[k] == i;
      DrainKeepsReturned(futures, k);
    }
  }

  /** Every saved record is the record of a task that did not raise. */
  lemma DrainedRecords<A, C>(addresses: seq<A>, contracts: seq<C>, hasNft: (nat, A, C) -> Check,
                             order: seq<nat>, raised: set<nat>)
    requires IsCompletionOrder(order, |addresses|)
    ensures var results := Drain(Completed(addresses, contracts, hasNft, order, raised));
      forall k :: 0 <= k < |results| ==>
        exists i :: 0 <= i < |addresses| && i !in raised && results[k] == TaskRecord(addresses, contracts, hasNft, i)
  {
    var futures := Completed(addresses, contracts, hasNft, order, raised);
    var results := Drain(futures);
    forall k | 0 <= k < |results|
      ensures exists i :: 0 <= i < |addresses| && i !in raised && results[k] == TaskRecord(addresses, contracts, hasNft, i)
    {
      var m :| 0 <= m < |futures| && futures[m].Returned? && futures[m].record == results[k];
      assert results[k] == TaskRecord(addresses, contracts, hasNft, order[m]);
    }
  }

  /** Distinct submitted addresses give distinct recorded addresses. */
  lemma DrainedDistinct<A, C>(addresses: seq<A>, contracts: seq<C>, hasNft: (nat, A, C) -> Check,
                              order: seq<nat>, raised: set<nat>)
    requires IsCompletionOrder(order, |addresses|)
    ensures (forall i, j :: 0 <= i < j < |addresses| ==> addresses[i] != addresses[j]) ==>
      DistinctAddresses(Drain(Completed(addresses, contracts, hasNft, order, raised)))
  {
    var futures := Completed(addresses, contracts, hasNft, order, raised);
    if forall i, j :: 0 <= i < j < |addresses| ==> addresses[i] != addresses[j] {
      forall i, j | 0 <= i < j < |futures|
        ensures futures[i].submitted != futures[j].submitted
      {
        assert order[i] != order[j];
      }
      DrainDistinct(futures);
    }
  }

  /** The scan stage of `main`: one task per validated address, drained in
      completion order. Its results satisfy `Reports`. */
  function ScanAll<A, C>(addresses: seq<A>, contracts: seq<C>, hasNft: (nat, A, C) -> Check,
                         order: seq<nat>, raised: set<nat>): (results: seq<Record<A>>)
    requires IsCompletionOrder(order, |addresses|)
    ensures Reports(results, addresses, contracts, hasNft, raised)
  {
    DrainedScans(addresses, contracts, hasNft, order, raised);
    Drain(Completed(addresses, contracts, hasNft, order, raised))
  }

  /** The early returns of `main`, checked in its order: the first empty
      input found, or none when every input is present. */
  function Gate<A, C>(addressNames: set<string>, contractNames: set<string>, abiLoaded: bool,
                      addresses: seq<A>, contracts: seq<C>): (stop: Option<Stop>)
    ensures stop == Some(NoAddresses) <==> addressNames == {}
    ensures stop == Some(NoContracts) <==> addressNames != {} && contractNames == {}
    ensures stop == Some(NoAbi) <==> addressNames != {} && contractNames != {} && !abiLoaded
    ensures stop == Some(NoValidAddresses) <==> addressNames != {} && contractNames != {} && abiLoaded && addresses == []
    ensures stop == Some(NoValidContracts) <==>
      addressNames != {} && contractNames != {} && abiLoaded && addresses != [] && contracts == []
    ensures stop == None <==> addressNames != {} && contractNames != {} && abiLoaded && addresses != [] && contracts != []
  {
    if addressNames == {} then Some(NoAddresses)
    else if contractNames == {} then Some(NoContracts)
    else if !abiLoaded then Some(NoAbi)
    else if addresses == [] then Some(NoValidAddresses)
    else if contracts == [] then Some(NoValidContracts)
    else None
  }

  /** `main` from its first guard on, given what its loads returned: the
      stripped names of the address and contract files, whether the ABI
      loaded, the addresses `validate_addresses` kept, the outcome of
      `init_contract` for each contract name, the `has_nft` answers each task
      sees (with the retry loop, task `i` sees `Retrying(remote(i))`), and
      the completion order of the scan tasks with
      the set of those that raised. It stops at the first empty input;
      otherwise it saves the records the scan stage collects over the loaded
      contracts, which satisfy `Reports`. */
  function Run<A, C>(addressNames: set<string>, contractNames: set<string>, abiLoaded: bool, addresses: seq<A>,
                     inits: seq<Option<C>>, hasNft: (nat, A, C) -> Check, order: seq<nat>, raised: set<nat>): (r: Ending<A>)
    requires IsCompletionOrder(order, |addresses|)
    ensures r.Stopped? <==> Gate(addressNames, contractNames, abiLoaded, addresses, LoadContracts(inits)).Some?
    ensures r.Stopped? ==> Gate(addressNames, contractNames, abiLoaded, addresses, LoadContracts(inits)) == Some(r.reason)
    ensures r.Saved? ==> Reports(r.results, addresses, LoadContracts(inits), hasNft, raised)
  {
    var contracts := LoadContracts(inits);
    match Gate(addressNames, contractNames, abiLoaded, addresses, contracts)
    case Some(stop) => Stopped(stop)
    case None => Saved(ScanAll(addresses, contracts, hasNft, order, raised))
  }

  /** A file that yields no name: missing, unreadable, or blank on every line. */
  predicate NoNames(file: FileRead) {
    !file.Lines? || forall k :: 0 <= k < |file.lines| ==> Blank(file.lines[k])
  }

  /** `main` from the two input files as read: their names go through
      `load_lines` before the guards. A file without names stops the run
      before anything is scanned. */
  function RunFromFiles<A, C>(addressFile: FileRead, contractFile: FileRead, abiLoaded: bool, addresses: seq<A>,
                              inits: seq<Option<C>>, hasNft: (nat, A, C) -> Check, order: seq<nat>, raised: set<nat>): (r: Ending<A>)
    requires IsCompletionOrder(order, |addresses|)
    ensures NoNames(addressFile) ==> r == Stopped(NoAddresses)
    ensures !NoNames(addressFile) && NoNames(contractFile) ==> r == Stopped(NoContracts)
    ensures r.Saved? ==> Reports(r.results, addresses, LoadContracts(inits), hasNft, raised)
  {
    EmptyNames(addressFile);
    EmptyNames(contractFile);
    Run(LoadLines(addressFile), LoadLines(contractFile), abiLoaded, addresses, inits, hasNft, order, raised)
  }

  /** `load_lines` yields no name exactly for a file without names. */
  lemma EmptyNames(file: FileRead)
    ensures LoadLines(file) == {} <==> NoNames(file)
  {
    if file.Lines? {
      var lines := file.lines;
      if LoadLines(file) == {} {
        forall k | 0 <= k < |lines|
          ensures Blank(lines[k])
        {
          if !Blank(lines[k]) {
            NormaliseKeeps(lines, lines[k]);
          }
        }
      } else {
        var x :| x in LoadLines(file);
        var line :| line in lines && Strip(line) == x;
        StripOfBlank(line, Whitespace);
      }
    }
  }
}
