/**
 The retry loop of `has_nft`: up to MaxRetries attempts, a successful call
 answers at once, a contract rejection answers `false` at once, any other
 failure is retried after a fixed sleep except after the last attempt, and
 exhausting every attempt answers `false`.
 */
module Retry {
  import opened Remote

  /** Which of the three ways out of the attempt loop was taken. */
  datatype Exit = Answered | Rejected | Exhausted

  /** What `has_nft` returns, with the number of `balanceOf` calls it made and
      the number of retry sleeps it took. */
  datatype Check = Check(owns: bool, calls: nat, sleeps: nat, exit: Exit)

  /** `r` is how the loop ends when the attempt numbered `attempt` (1-based)
      produced `o` and that attempt was the last one made. */
  predicate Settles(o: Outcome, attempt: nat, r: Check) {
    match o
    case Ok(b) => r.owns == (b > 0) && r.exit == Answered
    case LogicError => !r.owns && r.exit == Rejected
    case OtherError => attempt == MaxRetries && !r.owns && r.exit == Exhausted
  }

  /** The attempt loop from attempt number `attempt` on; the counts are those
      of the remaining attempts only. */
  function Attempts(script: seq<Outcome>, attempt: nat): (r: Check)
    requires 1 <= attempt <= MaxRetries + 1
    ensures r.calls <= MaxRetries + 1 - attempt
    ensures attempt <= MaxRetries ==> 1 <= r.calls && r.sleeps == r.calls - 1
    ensures attempt == MaxRetries + 1 ==> r.calls == 0 && r.sleeps == 0 && !r.owns && r.exit == Exhausted
    ensures forall j :: attempt - 1 <= j < attempt + r.calls - 2 ==> Respond(script, j) == OtherError
    ensures 1 <= r.calls ==> Settles(Respond(script, attempt + r.calls - 2), attempt + r.calls - 1, r)
    decreases MaxRetries + 1 - attempt
  {
    if attempt > MaxRetries then
      Check(false, 0, 0, Exhausted)
    else
      match Respond(script, attempt - 1)
      case Ok(balance) => Check(balance > 0, 1, 0, Answered)
      case LogicError => Check(false, 1, 0, Rejected)
      case OtherError =>
        var rest := Attempts(script, attempt + 1);
        var slept := if attempt < MaxRetries then 1 else 0;
        Check(rest.owns, rest.calls + 1, rest.sleeps + slept, rest.exit)
  }

  /** `has_nft(address, contract)`, where `script` lists the outcomes of the
      successive `balanceOf` calls for that pair. The calls made are the
      leading transient failures plus the one attempt that settled the loop,
      never more than MaxRetries, and a sleep separates consecutive calls
      only: there is none after the final call. */
  function HasNft(script: seq<Outcome>): (r: Check)
    ensures 1 <= r.calls <= MaxRetries
    ensures r.sleeps == r.calls - 1
    ensures forall j :: 0 <= j < r.calls - 1 ==> Respond(script, j) == OtherError
    ensures Settles(Respond(script, r.calls - 1), r.calls, r)
  {
    Attempts(script, 1)
  }

  /** The attempt at which the loop settles, found independently of the loop:
      the first attempt that did not fail transiently, or the last one. */
  function SettlingAttempt(script: seq<Outcome>, attempt: nat): (k: nat)
    requires 1 <= attempt <= MaxRetries
    ensures attempt <= k <= MaxRetries
    decreases MaxRetries - attempt
  {
    if attempt == MaxRetries || Respond(script, attempt - 1) != OtherError then attempt
    else SettlingAttempt(script, attempt + 1)
  }

  /** A first balance after transient failures only: `has_nft` returns
      `balance > 0` after exactly k calls and k - 1 sleeps. */
  lemma FirstAnswerAfterTransientFailures(script: seq<Outcome>, k: nat, balance: int)
    requires 1 <= k <= MaxRetries
    requires forall j :: 0 <= j < k - 1 ==> Respond(script, j) == OtherError
    requires Respond(script, k - 1) == Ok(balance)
    ensures HasNft(script) == Check(balance > 0, k, k - 1, Answered)
  {
  }

  /** A contract rejection ends `has_nft` with `false` on the attempt that
      produced it: no later call and no sleep for that attempt. */
  lemma RejectionStopsAtOnce(script: seq<Outcome>, k: nat)
    requires 1 <= k <= MaxRetries
    requires forall j :: 0 <= j < k - 1 ==> Respond(script, j) == OtherError
    requires Respond(script, k - 1) == LogicError
    ensures HasNft(script) == Check(false, k, k - 1, Rejected)
  {
  }

  /** Every attempt failing transiently: `false` after MaxRetries calls and
      MaxRetries - 1 sleeps, so no sleep follows the final attempt. */
  lemma AllTransientFailuresExhaust(script: seq<Outcome>)
    requires forall j :: 0 <= j < MaxRetries ==> Respond(script, j) == OtherError
    ensures HasNft(script) == Check(false, MaxRetries, MaxRetries - 1, Exhausted)
  {
  }

  /** The loop settles exactly at the first attempt that did not fail
      transiently (or at the last attempt when there is none). */
  lemma {:induction false} CallsAreSettlingAttempt(script: seq<Outcome>)
    ensures HasNft(script).calls == SettlingAttempt(script, 1)
  {
    SettlingAttemptIsFirst(script, 1);
  }

  lemma {:induction false} SettlingAttemptIsFirst(script: seq<Outcome>, attempt: nat)
    requires 1 <= attempt <= MaxRetries
    ensures forall j :: attempt - 1 <= j < SettlingAttempt(script, attempt) - 1 ==> Respond(script, j) == OtherError
    ensures var k := SettlingAttempt(script, attempt); k == MaxRetries || Respond(script, k - 1) != OtherError
    decreases MaxRetries - attempt
  {
    if attempt < MaxRetries && Respond(script, attempt - 1) == OtherError {
      SettlingAttemptIsFirst(script, attempt + 1);
    }
  }

  /** The `for attempt in range(1, MAX_RETRIES + 1)` loop of `has_nft`, step by
      step; it agrees with `HasNft` on the answer and on both counts. */
  method HasNftLoop(script: seq<Outcome>) returns (owns: bool, calls: nat, sleeps: nat)
    ensures owns == HasNft(script).owns
    ensures calls == HasNft(script).calls
    ensures sleeps == HasNft(script).sleeps
  {
    calls, sleeps := 0, 0;
    var attempt := 1;
    while attempt <= MaxRetries
      invariant 1 <= attempt <= MaxRetries + 1
      invariant var rest := Attempts(script, attempt);
        && HasNft(script).owns == rest.owns
        && HasNft(script).calls == calls + rest.calls
        && HasNft(script).sleeps == sleeps + rest.sleeps
      decreases MaxRetries + 1 - attempt
    {
      calls := calls + 1;
      match Respond(script, attempt - 1) {
        case Ok(balance) =>
          return balance > 0, calls, sleeps;
        case LogicError =>
          return false, calls, sleeps;
        case OtherError =>
          if attempt < MaxRetries {
            sleeps := sleeps + 1;
          }
      }
      attempt := attempt + 1;
    }
    owns := false;
  }
}
