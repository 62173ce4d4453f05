/**
 The remote call the checker makes: `balanceOf(address).call()` on one ERC-721
 contract. The network is not modelled; instead every call draws its outcome
 from a script that lists, in order, what successive calls would produce.
 */
module Remote {

  /** What one `balanceOf` call produces: a balance, a rejection by the
      contract itself (web3's `ContractLogicError`), or any other exception
      (timeouts, connection errors, rate limiting, ...). */
  datatype Outcome = Ok(balance: int) | LogicError | OtherError

  /** Number of attempts per (address, contract) pair (MAX_RETRIES). */
  const MaxRetries: nat := 3

  /** The outcome of the call numbered `k` (0-based) under `script`. A call past
      the end of the script fails like an unreachable endpoint. */
  function Respond(script: seq<Outcome>, k: nat): Outcome {
    if k < |script| then script[k] else OtherError
  }
}
