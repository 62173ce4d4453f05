# NFT ownership checker: a Dafny model

The checker reads a list of Ethereum addresses and a list of ERC-721
contract addresses. For every address it asks the contracts in turn, through
`balanceOf(address)`, whether the address holds a token. It stops at the first
contract that reports a positive balance. Each remote call is retried a bounded
number of times. The scans run in a thread pool, and the records are
collected in the order the scans complete.

This project models the sequential decision logic of that program as pure
Dafny functions and proves what each part promises:

- `Remote`: one `balanceOf` call is one element of an outcome script,
  `Ok(balance) | LogicError | OtherError`. `LogicError` stands for web3's
  `ContractLogicError`; `OtherError` is any other exception.
- `Retry`: the retry loop of `has_nft`. It returns the answer together with
  the number of calls made, the number of retry sleeps taken and which of
  the three exits was used.
- `Scanner`: the short-circuit scan of `check_nft_ownership`. It is stated
  for any `has_nft` collaborator, and `Retrying(remote)` plugs in the retry
  loop.
- `Loading`: `load_lines`, which strips each line, drops blank lines and
  collects the rest into a set, and the filter of `load_contracts`.
  Stripping is defined for any character set, as `str.strip(chars)` is, and
  `line.strip()` is its instance for the 29 characters for which
  `str.isspace()` holds.
- `Collect`: the drain loop of `main`, written as a fold over futures in
  completion order.
- `Wrappers`: the `Option` type shared by the loading code and `main`.
- `Pipeline`: `main`'s chain of early returns. It also connects the drained
  futures to the scans that produced them.

Outside inputs become parameters: the file contents, whether the ABI loaded,
the result of `validate_addresses`, the result of `init_contract` per
contract address, the outcome scripts of the remote, and the order in which
tasks complete.

The code has no exponential backoff, jitter, cancellation, batching or
incremental persistence. The retry delay is the constant `RETRY_DELAY`, and
results are written once at the end. The model follows the code.
`validate_addresses` maps two spellings of one address to the same checksummed
string, so the same address can be submitted and reported twice. For that
reason the "no address twice" promise (`Collect.DrainDistinct`,
`Pipeline.Reports`) is stated under the hypothesis that the validated
addresses are distinct. Without it, `Pipeline.Reports` still fixes how often
each record is saved: the saved results are a reordering of the records of the
tasks that did not raise, one per task. Every submitted task makes its own `balanceOf` calls,
so the remote's answers are indexed by task. Two tasks for one address may
then see different outcomes and report different answers.

A proved fact worth noting: in every outcome, `has_nft` sleeps exactly once
fewer than it calls `balanceOf`. A sleep follows each failure except the
final attempt, and a successful call or a contract rejection ends the loop
without a sleep.

## Model

| member | source | states |
|---|---|---|
| Retry.HasNft | check_nft_ownership.py:84-97 | `has_nft` makes between 1 and MAX_RETRIES calls and sleeps once fewer than it calls. Every call before the last one failed transiently. The last call decides the answer: a balance answers `balance > 0`, a contract rejection answers false, and a transient failure can only be the last call when it is attempt MAX_RETRIES, which answers false. |
| Retry.Attempts | check_nft_ownership.py:86-96 | From attempt n on, the loop makes at most MAX_RETRIES + 1 - n calls. It sleeps only between calls. It settles on the first attempt that does not fail transiently. |
| Retry.FirstAnswerAfterTransientFailures | check_nft_ownership.py:86-89 | If attempt k is the first `Ok(b)` and every earlier attempt failed transiently, the result is `b > 0` after exactly k calls and k - 1 sleeps. |
| Retry.RejectionStopsAtOnce | check_nft_ownership.py:90-92 | A `ContractLogicError` on attempt k ends the loop with false after k calls. There is no further call and no sleep for that attempt. |
| Retry.AllTransientFailuresExhaust | check_nft_ownership.py:93-97 | If every attempt fails transiently, the result is false after MAX_RETRIES calls and MAX_RETRIES - 1 sleeps, so there is no sleep after the final attempt. |
| Retry.CallsAreSettlingAttempt | check_nft_ownership.py:86-97 | The number of calls equals an independently defined settling attempt: the first attempt that did not fail transiently, or the last attempt when every one did. |
| Retry.HasNftLoop | check_nft_ownership.py:86-97 | The imperative `for` loop, with its early returns and its `attempt < MAX_RETRIES` sleep guard, computes the same answer, call count and sleep count as `HasNft`. |
| Scanner.CheckOwnership | check_nft_ownership.py:99-106 | Returns the address unchanged, with true iff some contract's `has_nft` is true. It asks exactly the contracts up to and including the first positive one, or all of them when none is positive. |
| Scanner.ScanCost | check_nft_ownership.py:101-104 | The calls and sleeps a scan spends are exactly those `has_nft` spends on the contracts it asked, and nothing is spent on the contracts after the first positive one. |
| Scanner.NoContractsNoCalls | check_nft_ownership.py:101-106 | An empty contract list gives `(address, False)` with no contract asked and no call made. |
| Scanner.RetryingCost | check_nft_ownership.py:86-97 | Through the retry loop, each asked contract costs between 1 and MAX_RETRIES calls and one sleep fewer than its calls. |
| Scanner.ScanCostBounds | check_nft_ownership.py:99-104 | A scan that asked p contracts made between p and MAX_RETRIES * p calls and took calls - p sleeps. |
| Scanner.CheckOwnershipLoop | check_nft_ownership.py:99-106 | The imperative loop with its early return gives the same record and asks the same prefix as `CheckOwnership` promises. |
| Loading.StripChars | check_nft_ownership.py:55 | `str.strip(chars)`: the result has no character of `chars` at either end. |
| Loading.StripTrims | check_nft_ownership.py:55 | The result of `str.strip(chars)` is what remains of the line once margins made only of `chars` are cut from both ends. |
| Loading.Strip | check_nft_ownership.py:55 | `line.strip()` with no argument: the same promise, with `str.isspace()` whitespace as the stripped characters. |
| Loading.StripUnique | check_nft_ownership.py:55 | Strip has exactly one possible answer: for a stripped core between two margins made of the stripped characters, Strip returns that core. |
| Loading.StripIdempotent | check_nft_ownership.py:55 | Stripping twice is the same as stripping once. |
| Loading.StripOfBlank | check_nft_ownership.py:55 | A line strips to the empty string exactly when it is made only of the stripped characters. With whitespace, the `if line.strip()` filter therefore drops exactly the blank lines. |
| Loading.Normalise | check_nft_ownership.py:55 | Every element is non-empty and already stripped, and every element is the stripped form of some line. |
| Loading.NormaliseKeeps | check_nft_ownership.py:55 | Every non-blank line contributes its stripped form to the set. |
| Loading.NormaliseIdempotent | check_nft_ownership.py:55 | Normalising the elements of a normalised set again, in any order, gives back the same set. |
| Loading.LoadLines | check_nft_ownership.py:49-58 | A missing or unreadable file gives the empty set. A readable file gives the normalised set of its lines, whose elements are non-empty and stripped. |
| Loading.LoadContracts | check_nft_ownership.py:133-138 | Every kept binding came from a successful init, and the result is no longer than the input. The result is empty exactly when every init failed. |
| Loading.LoadContractsKeeps | check_nft_ownership.py:135 | No successful init is dropped. |
| Loading.LoadContractsAppend | check_nft_ownership.py:134-135 | The filter preserves order: filtering a concatenation gives the concatenation of the filtered parts. |
| Collect.Drain | check_nft_ownership.py:167-181 | Produces at most one record per future, exactly one per future when none raised, none when all raised, and only records that some future returned. |
| Collect.DrainAppend | check_nft_ownership.py:174-181 | Results follow completion order: draining two stretches of futures one after the other gives the two result lists one after the other. |
| Collect.DrainKeepsReturned | check_nft_ownership.py:174-177 | Every record returned by a future appears in the results. |
| Collect.DrainPermutation | check_nft_ownership.py:174-177 | Futures that complete in another order give the same records, each as often, in another order. |
| Collect.DrainDistinct | check_nft_ownership.py:169-177 | If no address was submitted twice and each record carries its submitted address, no address appears twice in the results. |
| Collect.DrainLoop | check_nft_ownership.py:167-181 | The imperative loop, which appends on return and skips on an exception, builds exactly the `Drain` list. |
| Pipeline.OrderCovers | check_nft_ownership.py:169-174 | Every submitted task appears in the completion order: a sequence of n distinct task indices below n lists each of them. |
| Pipeline.TaskRecord | check_nft_ownership.py:99-106 | The record a task returns is for its submitted address, and says true iff some contract's `has_nft` answer, as that task sees it, is true. |
| Pipeline.Completed | check_nft_ownership.py:169-175 | The k-th completed future is for task `order[k]`: it carries that task's submitted address, it raised exactly when that task is in `raised`, and otherwise its result is that task's `check_nft_ownership` record. |
| Pipeline.CompletionOrderPermutes | check_nft_ownership.py:169-174 | A completion order of n tasks is a reordering of the task indices 0 to n - 1: each task completes exactly once. |
| Pipeline.CompletedPermutation | check_nft_ownership.py:169-175 | Tasks that complete in another order give the same futures, each as often, in another order. |
| Pipeline.KeptRecords | check_nft_ownership.py:174-177 | The records saved when the tasks complete in submission order: at most one per task, and one per task when none raised. |
| Pipeline.SubmissionOrder | check_nft_ownership.py:169-177 | Draining the tasks in submission order saves exactly `KeptRecords`: the record of each task that did not raise, once, by task index. |
| Pipeline.Gate | check_nft_ownership.py:148-165 | The early returns are taken in source order. Each stop reason is chosen exactly when its input is the first empty one, and the run continues exactly when every input is present. |
| Pipeline.ScanAll | check_nft_ownership.py:167-181 | The scan stage, for any completion order and any set of raising tasks, produces records that satisfy `Reports`. The records are those of the tasks that did not raise, one per task, in some order. So an address is reported at most as often as it was submitted, and exactly as often as its tasks that did not raise. |
| Pipeline.Run | check_nft_ownership.py:148-183 | Given what the loads returned, `main` stops exactly as `Gate` says. Otherwise it saves results that satisfy `Reports` for the validated addresses and the loaded contracts: a reordering of the records of the tasks that did not raise, one per task, each with the `has_nft` answers its own task saw. |
| Pipeline.RunFromFiles | check_nft_ownership.py:143-153 | A missing, unreadable or all-blank address file stops the run with "no addresses". When the address file has a name, such a contract file stops it with "no contracts". Saved results satisfy `Reports`: one record per task that did not raise, in some order. |
| Pipeline.EmptyNames | check_nft_ownership.py:49-58 | `load_lines` returns the empty set exactly when the file is missing, unreadable or blank on every line. |
| Pipeline.DrainedScans | check_nft_ownership.py:167-181 | For any completion order and any set of raising tasks, the drained scan records satisfy `Reports`: they are a reordering of `KeptRecords`, one record per task that did not raise. The record of every such task is saved, every saved record is the record of such a task, and no address appears twice when none was submitted twice. |
| Pipeline.DrainedReordering | check_nft_ownership.py:169-177 | Whatever the completion order, the saved records are `KeptRecords` reordered: each task that did not raise contributes its record exactly once, and nothing else is saved. |
| Pipeline.DrainedCount | check_nft_ownership.py:169-177 | There are at most as many records as addresses, and exactly as many when no task raised. |
| Pipeline.DrainedKept | check_nft_ownership.py:174-177 | The record of every task that did not raise is among the saved results. |
| Pipeline.DrainedRecords | check_nft_ownership.py:170-177 | Every saved record is the record of some task that did not raise: it is for that task's address, and it says true iff some contract's `has_nft` answer, as that task saw it, is true. |
| Pipeline.DrainedDistinct | check_nft_ownership.py:169-177 | Distinct validated addresses give distinct recorded addresses. |

## Left out

- Web3/Infura connection setup (lines 42-44), `init_contract`, `validate_addresses` and the EIP-55 checksum conversion are foreign library calls. Their results are parameters: `inits`, and the validated `addresses`.
- `load_abi`: JSON parsing is I/O plumbing. Only whether it succeeded (`abiLoaded`) matters to `main`.
- `time.sleep` and the float `RETRY_DELAY`: sleeps are counted and durations are not modelled.
- `ThreadPoolExecutor`, `NUM_THREADS` and real completion nondeterminism: completion is an arbitrary permutation `order` of the submitted tasks, plus the set of tasks that raised. The concurrency bound is not modelled.
- Splitting a file into lines, newline translation and UTF-8 decoding: a readable file is given as its sequence of lines. A decoding or OS error is the `Unreadable` case.
- Set iteration order of the loaded addresses and contract addresses: the model takes the validated addresses and the init results as arbitrary sequences.
- `save_results` (pandas CSV write, overwrite warning), logging, the tqdm progress bar, and the timing and fatal-error handler of the entry point (lines 188-196) are I/O with no decision logic. The model ends with the records handed to `save_results`.
- Pipeline.RunFromFiles: its contract states only the two file-level stops and the `Reports` promise. The later stops are those of `Run` on the loaded sets, by definition, and the contract does not restate them in terms of the files.
- Remote.Respond: a call beyond the end of an outcome script is read as a transient failure. A script longer than MAX_RETRIES expresses the same behaviour, so no outcome sequence of one `has_nft` call is lost.
- Remote answers that change over time within one task are modelled only per task and per contract. `Run` takes the `has_nft` answers as a function of the task index, the address and the contract, so every task has its own script for each contract. A task asks each contract at most once, so this covers every sequence of answers one task can see.
- Pipeline.DrainedCount: states only the bound by the number of tasks and the exact count when no task raised, because it is the counting corollary that needs no permutation argument. The exact count in every case, one record per task that did not raise, is the multiset equality of `Pipeline.DrainedReordering`.
- Loading.LoadContracts: `if c` is read as "the init did not return `None`". A contract binding is assumed to be truthy.
- The remote's balance is an unbounded integer. `balanceOf` returns a uint256, and `balance > 0` is modelled as written.
