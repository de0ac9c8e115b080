# 2gwall image deduplication store, in Dafny

2gwall keeps downloading images from one endpoint. It saves each image whose
content it has not seen before. It stops once it sees a long enough run of
repeats, or once a cap on unique images is reached (when a cap is set).
This project models the core of `main.go` and proves properties of that
model:

- **Store** (`ImageManager`): fingerprints seen so far, the unique counter, the
  consecutive-duplicate streak and the two thresholds. `SaveIfUnique` and
  `ShouldStop` are pure transitions on an immutable record. The mutex
  serialises every call, so each call is one atomic step here.
- **Fingerprint**: the MD5 hex digest is opaque. Every operation takes the
  fingerprint function `hash` as a parameter and assumes nothing about it.
  Deduplication is keyed on `hash(payload)`, never on the payload itself.
- **File names**: `image_<N>.jpg`, with `N` written in base ten as Go's `%d`
  writes it (module `Decimal`).
- **Trace**: `Feed` folds a sequence of downloaded payloads through
  `SaveIfUnique`, in the order the mutex admitted them. The lemmas describe the
  store and the replies after any such sequence.
- **Worker** (`downloadWorker`): the cache-busting URL `baseUrl + "?" * id` and
  the classification of what the endpoint did. Only status 200 with a fully
  read body reaches the store.
- **Dispatcher** (`main`'s loop): a sequential abstraction that checks
  `ShouldStop` before launching each task, then runs that task to completion.

Modules: `Decimal` (decimal.dfy), `Store` (store.dfy), `Trace` (trace.dfy),
`Worker` (worker.dfy), `Dispatcher` (dispatcher.dfy).

Three facts about the code shape the model:
- only `http.StatusOK` (200) is accepted (main.go:88); any other status,
  including other 2xx codes, is logged and dropped;
- the cancellation context's `cancel()` is only deferred until `main` returns
  (main.go:133), so reaching the stop condition cancels nothing in flight and
  no cancellation is modelled;
- the thresholds are the constants 100 (streak) and 0 (no cap) declared in
  `main` (main.go:126-127); the store itself takes them as parameters.

## Model

| member | source | states |
|---|---|---|
| Decimal.NatToString | main.go:50 | the `%d` rendering of a counter is a non-empty digit string with no leading zero, and 0 renders as `"0"` |
| Decimal.ParseNatToString | main.go:50 | reading the rendered digits back gives the number: rendering loses nothing |
| Decimal.NatToStringInjective | main.go:50 | distinct counters render as distinct digit strings |
| Store.NewImageManager | main.go:28-34 | a new store has no fingerprints, both counters at zero, the given thresholds, and satisfies `counter == \|hashes\|` |
| Store.FileName | main.go:50 | the `n`-th unique image is named `image_` followed by the decimal digits of `n` followed by `.jpg` |
| Store.FileNameInjective | main.go:50 | `image_<a>.jpg == image_<b>.jpg` only when `a == b`, so no unique image overwrites another's file |
| Store.SaveIfUnique | main.go:36-56 | a seen fingerprint: streak +1, nothing else changes, reply `(false, "")`; an unseen one: inserted, counter +1, streak reset to 0, reply `(true, image_<new counter>.jpg)`; the reply is new iff the fingerprint was unseen; `counter == \|hashes\|` is preserved |
| Store.WriteFailureIgnored | main.go:51-55 | a failed file write changes neither the store nor the reply; it is only logged |
| Store.ShouldStop | main.go:58-62 | a reached streak threshold always stops; with no positive cap only the streak decides (`repeated >= limit`); below the streak threshold only a reached positive cap stops |
| Store.DuplicateKeepsStop | main.go:42-62 | a duplicate never turns a stopped store into a running one |
| Store.UniqueResetsStreak | main.go:47-61 | after a unique payload the store is stopped iff the streak threshold is not positive or the new counter reaches a positive cap |
| Trace.FeedHashes | main.go:42-48 | after any sequence of calls the store holds exactly the fingerprints it started with plus those of the payloads fed |
| Trace.FeedCounter | main.go:42-49 | after any sequence of calls the thresholds are unchanged and the counter has grown by the number of `true` replies |
| Trace.FeedValid | main.go:42-49 | every sequence of calls keeps `counter == \|hashes\|` |
| Trace.CounterGrows | main.go:47 | the unique counter never decreases |
| Trace.UniqueCountIsDistinctFingerprints | main.go:28-49 | from a store with no fingerprints and a zero counter (a fresh store), the counter after any sequence of calls equals the number of distinct fingerprints among the payloads fed |
| Trace.ValidAlongRun | main.go:28-49 | from a fresh store, `counter == \|hashes\|` holds after every prefix of every sequence of calls |
| Trace.ReplyIsNewIffUnseen | main.go:37-49 | the i-th reply is `true` iff the i-th payload's fingerprint was neither in the starting store nor among the earlier payloads |
| Trace.ReplyNames | main.go:47-55 | the k-th `true` reply names `image_<counter+k>.jpg`; every `false` reply carries `""` |
| Trace.SequentialNames | main.go:47-50 | from a fresh store the k-th `true` reply is `image_k.jpg` |
| Trace.NamesNeverReused | main.go:47-51 | no two `true` replies of a run carry the same file name |
| Trace.SeenPayloadsOnlyGrowStreak | main.go:42-45 | payloads whose fingerprints are all known get `(false, "")` every time; only the streak changes, growing by one per call |
| Trace.RepeatedPayload | main.go:42-55 | the same unseen payload N >= 1 times in a row gives one `true` then N-1 `(false, "")`; the counter grows by 1 and the streak ends at N-1 |
| Trace.CapIsPermanent | main.go:47-61 | once a positive cap is reached, the store stays stopped whatever comes next |
| Trace.DuplicateRunStops | main.go:42-61 | a run of already-seen payloads as long as the remaining streak budget stops the store |
| Trace.FeedKeepsGap | main.go:42-49 | from any starting store, `counter - \|hashes\|` is the same after any sequence of calls, because each new reply adds exactly one fingerprint and one unique image |
| Trace.CompletionOrderIrrelevant | main.go:39-49 | from any starting store, any two orders of the same multiset of payloads leave the same fingerprint set and the same counter |
| Trace.SamePayloadsSameFingerprints | main.go:37-42 | reordering the payloads leaves their set of fingerprints, the store's only key, unchanged |
| Worker.Repeat | main.go:72 | `strings.Repeat` of one character n times has length n and holds only that character |
| Worker.Variant | main.go:72 | task `id`'s URL is `baseUrl` followed by exactly `id` question marks (prefix, length `\|baseUrl\| + id`) |
| Worker.VariantRoundTrip | main.go:72 | the id can be read back from the URL, and the only URL that reads back as `id` is `Variant(baseUrl, id)` |
| Worker.VariantInjective | main.go:72 | distinct task ids request distinct URLs |
| Worker.Downloaded | main.go:74-97 | a payload reaches the store iff the request was built, the transport succeeded, the status is exactly 200 and the body was fully read |
| Worker.Work | main.go:64-104 | a task requests its variant URL; every failure leaves the store exactly as it was; a downloaded body goes through `SaveIfUnique` and the log reports new (with its name) or repeated |
| Worker.FailuresAreLogged | main.go:74-97 | each failure kind ends the task with its own log line |
| Dispatcher.ReplayIsFeedOfSuccesses | main.go:74-99 | running tasks changes the store exactly as feeding it only the successfully downloaded bodies, in order |
| Dispatcher.WorkCountsAtMostOne | main.go:88-104 | one task adds at most one unique image and at most one duplicate to the streak, and keeps the thresholds and `counter == \|hashes\|` |
| Dispatcher.UnstoppedPrefixBounds | main.go:139-145 | in the sequential abstraction, tasks each launched from an unstopped store never push the counter past a positive cap, nor the streak past a positive threshold |
| Dispatcher.Run | main.go:139-151 | the loop launches tasks 0..n-1, each from an unstopped store, and ends early only at a stopped store (n is the first stopped index); the thresholds and `counter == \|hashes\|` are kept; in this sequential abstraction the cap is never overshot |
| Dispatcher.StreakNeedsLaunches | main.go:139-148 | unique images plus the current streak never outnumber the tasks launched |
| Dispatcher.Program | main.go:124-151 | with the configured thresholds, the reported total is the number of distinct fingerprints among the downloaded bodies; an early stop needs at least 100 launches beyond the total |
| Dispatcher.CapScenario | main.go:139-148 | in the sequential abstraction, with a cap of 2 and three distinct downloads, exactly two tasks are launched and two images are counted |
| Dispatcher.StreakScenario | main.go:42-61 | with a streak threshold of 3, payloads A, B, A, A, A are answered new, new, dup, dup, dup, and the store is then stopped |

## Left out

- The mutex, goroutines, `sync.WaitGroup` and the semaphore channel (main.go:20, 65-70, 135-150) exist only for concurrency. Each store operation is one atomic step, and the dispatcher runs tasks one after another.
- Dispatcher.Run: the concurrent program may overshoot a positive cap, and the duplicate streak may end past `repeatLimit`. Tasks still in flight when the stop condition is observed all finish and call `SaveIfUnique`, because `cancel()` is only deferred (main.go:133). The overshoot is bounded only by the number of tasks launched but not yet finished at that moment. That number has no fixed bound: the semaphore is acquired inside `downloadWorker` (main.go:69), so the loop (main.go:139-148) launches a task every 50 ms however many are waiting for a slot. A further task may also be launched 50 ms after tasks in flight reach a threshold. The sequential model has no tasks in flight, so its cap and streak bounds are exact; the overshoot is not modelled.
- Dispatcher.UnstoppedPrefixBounds: the bounds `counter <= maxUnique` and `repeated <= limit` hold only when each task finishes before the next stop check, as in the sequential model; the concurrent program can exceed both by the number of tasks launched but not finished when the stop is observed, which has no fixed bound because the semaphore is acquired inside `downloadWorker` (main.go:69).
- Dispatcher.CapScenario: "exactly two tasks launched" holds in the sequential model; in the concurrent program a third task can start before the first two finish, and a third image may be counted.
- Dispatcher.Run: the Go loop never ends until `ShouldStop` holds. The model consumes a finite sequence of task outcomes and also ends when that sequence runs out.
- The `maxConcurrentDownloads` constant (main.go:125) only sizes the semaphore, so it does not appear in the model.
- MD5 and `%x` formatting (main.go:37) are a foreign library. The fingerprint is an opaque function parameter.
- The HTTP client, request construction, `context` and closing the body (main.go:74-93, 131-133) are network I/O. What the endpoint did is an input (`Response`).
- `os.WriteFile` and every log line's text (main.go:51-54, 76-102) are I/O. Only two things are kept: whether a write error was logged, and which kind of log line a task ends with.
- `godotenv`, the environment lookup and base64 decoding of the URL (main.go:107-122) are start-up configuration. The base URL is a parameter.
- Worker.Variant: Go strings are byte sequences and the base URL comes from base64-decoded bytes (main.go:122), while a Dafny `string` counts characters. The length and suffix properties still hold in bytes, because `?` is a single byte.
- `time.Sleep` pacing (main.go:147) is timing, not logic.
- Store.SaveIfUnique: Go's `int` counters wrap after 2^31 increments on 32-bit platforms and 2^63 on 64-bit ones. The model uses unbounded naturals for `counter`, `repeated` and the task id, because at one task per 50 ms even 2^31 increments take more than three years.
