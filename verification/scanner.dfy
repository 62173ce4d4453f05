/**
 `check_nft_ownership(address, contracts)`: ask `has_nft` about each contract
 in list order and stop at the first positive answer. The scan is stated for
 any `hasNft` collaborator; `Retrying(remote)` is the retry loop of `has_nft`
 over the remote's outcome scripts, and the cost lemmas are about that
 instance.
 */
module Scanner {
  import opened Remote
  import opened Retry

  /** One row of the results: the address and whether it owns an NFT. */
  datatype Record<A> = Record(address: A, owns: bool)

  /** A scan's record together with how many contracts were asked
      (`probed`, always a prefix of the list) and the total numbers of
      `balanceOf` calls and retry sleeps spent on them. */
  datatype Scan<A> = Scan(record: Record<A>, probed: nat, calls: nat, sleeps: nat)

  /** `has_nft` where `remote(address, contract)` lists the outcomes of the
      successive `balanceOf` calls for that pair. */
  function Retrying<A, C>(remote: (A, C) -> seq<Outcome>): (A, C) -> Check {
    (address: A, contract: C) => HasNft(remote(address, contract))
  }

  /** The `balanceOf` calls `hasNft` spends on each of `contracts` in turn. */
  function CallsOn<A, C>(address: A, contracts: seq<C>, hasNft: (A, C) -> Check): nat {
    if |contracts| == 0 then 0
    else hasNft(address, contracts[0]).calls + CallsOn(address, contracts[1..], hasNft)
  }

  /** The retry sleeps `hasNft` takes on each of `contracts` in turn. */
  function SleepsOn<A, C>(address: A, contracts: seq<C>, hasNft: (A, C) -> Check): nat {
    if |contracts| == 0 then 0
    else hasNft(address, contracts[0]).sleeps + SleepsOn(address, contracts[1..], hasNft)
  }

  /** `check_nft_ownership`: the address comes back unchanged, paired with
      "some contract answered positively"; exactly the contracts up to and
      including the first positive one are asked (all of them when none is
      positive). */
  function CheckOwnership<A, C>(address: A, contracts: seq<C>, hasNft: (A, C) -> Check): (r: Scan<A>)
    ensures r.record.address == address
    ensures r.record.owns <==> exists i :: 0 <= i < |contracts| && hasNft(address, contracts[i]).owns
    ensures r.probed <= |contracts|
    ensures r.record.owns ==> 1 <= r.probed && hasNft(address, contracts[r.probed - 1]).owns
    ensures forall i :: 0 <= i < r.probed - 1 ==> !hasNft(address, contracts[i]).owns
    ensures !r.record.owns ==> r.probed == |contracts|
  {
    if |contracts| == 0 then
      Scan(Record(address, false), 0, 0, 0)
    else
      var first := hasNft(address, contracts[0]);
      if first.owns then
        Scan(Record(address, true), 1, first.calls, first.sleeps)
      else
        var rest := CheckOwnership(address, contracts[1..], hasNft);
        assert forall i :: 1 <= i < |contracts| ==> contracts[i] == contracts[1..][i - 1];
        Scan(rest.record, rest.probed + 1, first.calls + rest.calls, first.sleeps + rest.sleeps)
  }

  /** The calls and sleeps a scan spends are exactly those `hasNft` spends on
      the contracts it asked. */
  lemma {:induction false} ScanCost<A, C>(address: A, contracts: seq<C>, hasNft: (A, C) -> Check)
    ensures var r := CheckOwnership(address, contracts, hasNft);
      && r.calls == CallsOn(address, contracts[..r.probed], hasNft)
      && r.sleeps == SleepsOn(address, contracts[..r.probed], hasNft)
  {
    if |contracts| > 0 {
      var first := hasNft(address, contracts[0]);
      if first.owns {
        assert contracts[..1][1..] == [];
      } else {
        var rest := CheckOwnership(address, contracts[1..], hasNft);
        ScanCost(address, contracts[1..], hasNft);
        assert contracts[..rest.probed + 1][1..] == contracts[1..][..rest.probed];
      }
    }
  }

  /** An empty contract list answers (address, false) without any call. */
  lemma NoContractsNoCalls<A, C>(address: A, hasNft: (A, C) -> Check)
    ensures CheckOwnership(address, [], hasNft) == Scan(Record(address, false), 0, 0, 0)
  {
  }

  /** Each contract asked through the retry loop costs between one and
      MaxRetries calls and one sleep less than its calls. */
  lemma {:induction false} RetryingCost<A, C>(address: A, contracts: seq<C>, remote: (A, C) -> seq<Outcome>)
    ensures |contracts| <= CallsOn(address, contracts, Retrying(remote)) <= MaxRetries * |contracts|
    ensures SleepsOn(address, contracts, Retrying(remote)) + |contracts| == CallsOn(address, contracts, Retrying(remote))
  {
    if |contracts| > 0 {
      RetryingCost(address, contracts[1..], remote);
      var first := HasNft(remote(address, contracts[0]));
      assert Retrying(remote)(address, contracts[0]) == first;
    }
  }

  /** With the retry loop as `has_nft`, a scan that asked `probed` contracts
      made at least one and at most MaxRetries calls per asked contract and
      slept once less than it called per asked contract. */
  lemma ScanCostBounds<A, C>(address: A, contracts: seq<C>, remote: (A, C) -> seq<Outcome>)
    ensures var r := CheckOwnership(address, contracts, Retrying(remote));
      && r.probed <= r.calls <= MaxRetries * r.probed
      && r.sleeps + r.probed == r.calls
  {
    var r := CheckOwnership(address, contracts, Retrying(remote));
    ScanCost(address, contracts, Retrying(remote));
    RetryingCost(address, contracts[..r.probed], remote);
  }

  /** The `for contract in contracts` loop of `check_nft_ownership` with its
      early return. It returns the same record and asks the same prefix as
      `CheckOwnership`. */
  method CheckOwnershipLoop<A, C>(address: A, contracts: seq<C>, hasNft: (A, C) -> Check)
    returns (record: Record<A>, probed: nat)
    ensures record.address == address
    ensures record.owns <==> exists i :: 0 <= i < |contracts| && hasNft(address, contracts[i]).owns
    ensures probed <= |contracts|
    ensures record.owns ==> 1 <= probed && hasNft(address, contracts[probed - 1]).owns
    ensures forall i :: 0 <= i < probed - 1 ==> !hasNft(address, contracts[i]).owns
    ensures !record.owns ==> probed == |contracts|
  {
    probed := 0;
    while probed < |contracts|
      invariant probed <= |contracts|
      invariant forall i :: 0 <= i < probed ==> !hasNft(address, contracts[i]).owns
    {
      var owns := hasNft(address, contracts[probed]).owns;
      probed := probed + 1;
      if owns {
        record := Record(address, true);
        return;
      }
    }
    record := Record(address, false);
  }
}
