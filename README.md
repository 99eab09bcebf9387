# AMQP helper core: message envelopes and topology bootstrap

This project models the logic of `utility.go`, the helper layer that sits in
front of an AMQP broker. It proves properties of that model. Two parts are
covered.

- **The message envelope factory.** `CreateMessage` serialises a body into a
  fresh publishing whose only header is `retryCount = 0`. `GetNextMessage`
  forwards a delivery with a new body and resets the retry count.
  `GetKickbackMessage` requeues a delivery unchanged except for its retry
  count. It refuses with "too many retries" when the count found is greater
  than `maxRetries`. `amqpMessage` binds a fixed `maxRetries` to these three
  calls.
- **Topology bootstrap.** `AssertUniqueQueues` checks at startup that the
  queue configurations name pairwise distinct queues. The per-service bind
  task inside `BindQueuesToExchange` skips the default exchange. Otherwise it
  binds the queue under its own name as the routing key.

## How the model is built

- `envelope.dfy` (module `Envelope`) holds the data model. It defines
  `int64` and `uint8`, and header values as a tagged union (`Value`). The
  header table is the class `Table`: a Go map is a reference, so the model
  keeps it on the heap. `Delivery` and `Publishing` hold a `Table?`, where
  `null` is a nil map. `Properties` holds the twelve broker properties of a
  publishing. `RetryCount` is the count a table records: 0 when the header is
  absent, the value when it is an int64, and `RetryCountNotInt64` when Go's
  `.(int64)` assertion would panic. `WrapIncrement` is Go's int64 `+ 1`,
  which wraps from the largest value to the smallest.
- `factory.dfy` (module `Factory`) holds the three factory operations as
  methods that write the header table in place, as the source does. Each
  method is specified by value-level functions (`CreatedHeaders`,
  `ForwardedHeaders`, `KickbackHeaders`, `ForwardedProperties`,
  `KickbackProperties`). Those functions carry their own contracts, stated
  through `RetryCount` and `OtherHeaders` (every header except the retry
  count).
- The aliasing is explicit. When the delivery has a header table, the
  publishing that `GetNextMessage` or `GetKickbackMessage` returns holds the
  SAME table. So the delivery ends up with the new retry count too. Only a
  nil table is replaced by a fresh one.
- `retry_budget.dfy` (module `RetryBudget`) defines `KickbackChain`: `n`
  kickbacks in a row, each applied to the headers the previous one produced.
  It proves the bounded-retry policy over this chain.
- `amqp_message.dfy` (module `Messenger`) holds the class `AmqpMessage`. Its
  `maxRetries` is a `const` field, and each method hands the call to
  `Factory`.
- `topology.dfy` (module `Topology`) holds the uniqueness check, written as
  the source's loop over a `map<string, bool>`, and the bind task as a
  function.

`json.Marshal` is foreign code, so every operation that serialises takes it
as a parameter `marshal: B -> Result<Bytes, string>`. For the bind task, the
outcome of acquiring a channel and the broker's answer to a bind call are
parameters as well.

Behaviour of the code that the model keeps exactly:

- The kickback compares the count BEFORE the increment against `maxRetries`
  with `>`. From a count of 0, a message is therefore kicked back
  `maxRetries + 1` times, and the call after that is refused. With
  `maxRetries = 2` the counts are 1, 2, 3 and then a refusal.
- The kickback copies ten properties: content type, content encoding,
  delivery mode, priority, correlation id, reply-to, expiration, message id,
  timestamp and type. It does not copy the user id or the application id,
  which end up empty. A forward copies only content type, content encoding,
  delivery mode and type.
- When the retry header is missing, the kickback writes `retryCount = 0`
  into the delivery's table before it checks the budget. With a negative
  `maxRetries` that write survives the refusal.
- The `+ 1` wraps at the largest int64. With `maxRetries` equal to the
  largest int64 the check never refuses, and the count goes from the largest
  int64 to the smallest.
- The factory is not pure: it writes the retry count into the delivery's
  own header map.
- The uniqueness check stops at the first index where the map size minus
  one differs from the index. It then logs every configuration's index and
  name, not only those seen so far.

## Model

| member | source | states |
|---|---|---|
| `Envelope.WrapIncrement` | utility.go:203 | Go's int64 `+ 1`: the successor taken modulo 2^64 within the int64 range, so the largest int64 wraps to the smallest |
| `Envelope.RetryCount` | utility.go:196-200 | the count reads as 0 when the header is absent, as the stored value when it is an int64, and is the type-assertion error exactly when the header holds anything else |
| `Envelope.Table.Set` | utility.go:169 | a map write in place: the table afterwards is the old table with that one key set, so every holder of the table sees it (also lines 198 and 203) |
| `Factory.CreatedHeaders` | utility.go:141-144 | a created envelope's headers have exactly one key, `retryCount`, recording a count of 0 |
| `Factory.ForwardedHeaders` | utility.go:166-169 | after a forward the retry count is 0 whatever it was; every other header is kept; the key set gains only `retryCount` |
| `Factory.ForwardedProperties` | utility.go:159-163 | a forward keeps content type, content encoding, delivery mode and type; every other property is at its zero value |
| `Factory.KickbackProperties` | utility.go:178-191 | a kickback keeps all ten broker properties unchanged; user id and application id are empty |
| `Factory.WithRetryDefault` | utility.go:193-199 | filling in a missing retry count leaves the count read from the table unchanged (absent reads as 0), makes the key present, keeps a present count as it is, and keeps every other header |
| `Factory.KickbackHeaders` | utility.go:193-204 | the kickback succeeds iff the count is an int64 not greater than `maxRetries`; a non-int64 count gives the type-assertion error; a larger count gives "too many retries"; on success the count becomes the int64 increment of the old count and every other header is kept |
| `Factory.CreateMessage` | utility.go:135-148 | a serialisation failure gives the empty publishing and the error; otherwise a fresh table holding exactly `retryCount = 0`, zero properties and the serialised bytes as body |
| `Factory.GetNextMessage` | utility.go:152-172 | a serialisation failure gives the empty publishing and the error, and the delivery's table is untouched; otherwise the headers are the delivery's with the count reset to 0, in the delivery's own table (a fresh one if it was nil); the four properties are copied and the body is the serialised bytes |
| `Factory.GetKickbackMessage` | utility.go:177-205 | fails exactly when `KickbackHeaders` fails, with the same error and the empty publishing; on success the headers are `KickbackHeaders`' result, in the delivery's own table (fresh if nil); the properties are `KickbackProperties` of the delivery's and the body is the delivery's body byte for byte; on failure the delivery's table holds the count default written at line 198 |
| `Messenger.AmqpMessage.constructor` | utility.go:26-33 | the bound factory keeps the budget it was built with, in an immutable field |
| `Messenger.AmqpMessage.CreateMessage` | utility.go:36-38 | same contract as `Factory.CreateMessage` |
| `Messenger.AmqpMessage.GetNextMessage` | utility.go:42-44 | same contract as `Factory.GetNextMessage` |
| `Messenger.AmqpMessage.GetKickbackMessage` | utility.go:49-51 | the contract of `Factory.GetKickbackMessage` with the object's own `maxRetries` |
| `RetryBudget.ChainCounts` | utility.go:196-203 | from a count of 0 (absent or stored), the k-th kickback in a row succeeds with count k for every k up to `maxRetries + 1`, keeping every other header |
| `RetryBudget.ChainExhausted` | utility.go:200-203 | for `-1 <= maxRetries <` the largest int64, a message starting at count 0 is kicked back exactly `maxRetries + 1` times and the next kickback is refused with "too many retries" |
| `RetryBudget.NegativeBudgetRefusesAtOnce` | utility.go:196-202 | with a negative budget the first kickback of a message at count 0 is refused |
| `RetryBudget.ScenarioMaxRetriesTwo` | utility.go:196-203 | `maxRetries = 2`, no retry header: three kickbacks give counts 1, 2, 3 with all other headers kept, and the fourth is refused |
| `RetryBudget.ChainMonotone` | utility.go:200-203 | below the largest budget, every successful kickback in a chain raises the count by exactly one |
| `RetryBudget.LargestBudgetNeverRefuses` | utility.go:200-203 | with `maxRetries` equal to the largest int64, no number of kickbacks is ever refused |
| `RetryBudget.KickbackWrapsAtLargestCount` | utility.go:203 | a count at the largest int64 that passes the check comes back as the smallest int64 |
| `RetryBudget.ForwardRestoresBudget` | utility.go:166-169 | after a forward, whatever the earlier count, the message again has exactly `maxRetries + 1` kickbacks before a refusal |
| `RetryBudget.CreatedHasFullBudget` | utility.go:141-144 | a created message has exactly `maxRetries + 1` kickbacks before a refusal |
| `Topology.AssertUniqueQueues` | utility.go:54-65 | the loop keeps the source's invariant that the map holds exactly the first i names and has size i; it passes iff the queue names are pairwise distinct; on failure it names the first index whose name repeats an earlier one, all names before it are distinct, and the log holds every configuration's index and name in order |
| `Topology.LogConfigs` | utility.go:59-61 | the diagnostic dump has one line per configuration, with its index and queue name, in order |
| `Topology.DistinctIffAllNamesCounted` | utility.go:55-58 | the first n configurations name pairwise distinct queues iff they name exactly n different queues; `AssertUniqueQueues` derives its verdict from the map size through this lemma |
| `Topology.BindQueueToExchange` | utility.go:110-122 | a channel error is reported with no bind call and no channel to close; with a channel (`channelErr` is None), the channel is always closed; a bind call is made iff there is a channel and the exchange name is non-empty; the default exchange reports no error; the one bind call binds the queue name under the queue name as routing key to the configured exchange without no-wait and with a nil argument table, and its answer is the reported error |

## Left out

- `TryCreateQueues` (utility.go:85-103): the goroutine fan-out and the completion counting. Their point is concurrency, which this model does not cover; each create call is an external broker operation.
- `BindQueuesToExchange` (utility.go:107-132): the fan-out and the draining of the result channel. Only the per-service task body is modelled (`Topology.BindQueueToExchange`). The Debug-level logging of the reported errors is left out.
- `AutoSetup` (utility.go:79-82): it runs the two concurrent phases one after the other and has no logic of its own.
- `OpenAMQPConnection` (utility.go:68-76): network dialing and URL formatting.
- `json.Marshal`: foreign code, taken as a parameter that may fail.
- logrus logging: `AssertUniqueQueues` returns the lines it would log, and `log.Panic` becomes the `NotUnique` result.
- Header value kinds: `Value` keeps int64, int32, string, bool, byte slice, time and nil. Floats, decimals, nested tables and arrays are not modelled; like int32, they would only reach the `RetryCountNotInt64` error.
- `time.Time` is modelled as an integer whose zero value is 0.
- `amqp.Delivery` broker fields (delivery tag, redelivered flag, exchange, routing key, acknowledger and the rest) are not modelled: the factory never reads them.
- Configuration loading (config/config.go) and the broker channel interface (externals/amqpChannel.go) are not part of this model. Only the queue name and the exchange name of a configuration are kept.
- `RetryBudget.ChainCounts`: stated only for counts up to the largest int64, because past that the count wraps (see `RetryBudget.KickbackWrapsAtLargestCount`).
