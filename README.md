# Inventory availability check

A Dafny model of the inventory service's availability-check consumer. The
service subscribes to the `inventory_check` queue. Each message asks whether a
list of `{ productId, quantity }` items can be served from the `inventories`
collection. The consumer looks every product up by id. A missing product
counts as unavailable. A found product is available when its stock covers the
requested quantity. The consumer ANDs the item results and publishes
`{"status":"available"}` or `{"status":"out_of_stock"}` to
`inventory_response`. On an open channel, and when every lookup settles, it
acknowledges the message on every path. When the body is not JSON, `products`
is not an array, or a lookup rejects, the `catch` block acknowledges the
message and nothing is published.
Once the channel has closed, publishing and acknowledging both throw, so the
`catch` block's own acknowledgement throws too and nothing is recorded.

Modules, one per component:

- `Wrappers` (`wrappers.dfy`): `Option`, and `Settled` (a promise that resolved
  with a value, or rejected).
- `Store` (`store.dfy`): the collection as a `Catalog`. It holds a map from
  product id to stock quantity, and the set of ids whose `findById` rejects.
  `FindById` is the lookup.
- `Evaluator` (`evaluator.dfy`): the per-item check, `Promise.all`, `every`,
  and the resulting `Verdict`. It also holds the short-circuit loop of the
  earliest revision (`SequentialCheck`) with its specification `ShortCircuit`,
  and the lemmas that compare the two revisions.
- `Protocol` (`protocol.dfy`): the queue names, the parsed `Request`, the
  response body (`Encode`/`Decode`), and `Reply`. `Reply` is the response a
  request earns, or `None` when nothing is published.
- `Consumer` (`consumer.dfy`): the `Channel` class. It keeps a log of
  publishes and acknowledgements, and a `closed` flag that makes
  `sendToQueue` and `ack` throw. It also holds the three handler revisions as methods
  over the channel, and the lemmas about the log.

Inputs that come from outside the code are parameters. `JSON.parse` and the
destructuring of `products` give a `Request`. The store's contents and which
lookups reject form a `Catalog`. Whether the channel has closed is the
`closed` field.

The commented-out revisions at `index.js:39-73` and `index.js:118-154` look
products up by name. The model of that loop (`SequentialCheck`,
`HandleMessageSequential`) looks them up by id, as the live code does, so
that the decision rules can be compared on the same lookups.

## Model

| member | source | states |
|---|---|---|
| `Evaluator.CheckItem` | index.js:283-296 | an item's check rejects exactly when its lookup rejects; it is `true` exactly when the product is found and its stock is at least the requested quantity; a product that is not found gives `false` |
| `Evaluator.CheckAll` | index.js:283-298 | `Promise.all` over the item checks rejects exactly when some item's lookup rejects; otherwise it resolves to one result per item, in input order, each equal to that item's check |
| `Evaluator.Every` | index.js:299 | the `every` reduction is true exactly when every element is true (so it is true for none) |
| `Evaluator.Verdict` | index.js:283-299 | the verdict rejects exactly when some lookup rejects; it is `true` exactly when every item is found with enough stock |
| `Evaluator.EmptyRequestAvailable` | index.js:298-299 | an empty `products` array resolves to `true` |
| `Evaluator.VerdictIgnoresOrder` | index.js:283-299 | two requests with the same items, counted with multiplicity, get the same verdict whatever their order |
| `Store.FindById` | index.js:285 | a lookup rejects exactly for the ids whose query fails; it finds nothing exactly for the other ids not in the collection; a found product carries its stored quantity |
| `Evaluator.ShortCircuit` | index.js:49-58 | the sequential scan rejects only when some item's lookup rejects, and is `true` only when every item passes; `Evaluator.ShortCircuitMeaning` states both directions |
| `Evaluator.ShortCircuitMeaning` | index.js:49-58 | the sequential scan rejects exactly when a lookup rejects with every earlier item passing; it is `true` exactly when every item passes |
| `Evaluator.SequentialCheck` | index.js:49-58 | the `allAvailable` loop with its `break` computes the sequential verdict; when no lookup rejects, that equals the live `every` verdict |
| `Evaluator.RevisionsAgreeOnAvailable` | index.js:49-58 | the sequential and the live revision answer `true` for exactly the same requests |
| `Evaluator.RevisionsAgreeWithoutRejections` | index.js:49-58 | when no lookup rejects, both revisions settle to the same verdict |
| `Evaluator.RevisionsDiverge` | index.js:49-58 | for every request whose first failing item is missing or short (not rejecting) and is followed by a rejecting lookup, the sequential scan resolves `false` while `Promise.all` over all items rejects |
| `Protocol.StatusFor` | index.js:304 | the status is `available` exactly when every item was available, and `out_of_stock` otherwise |
| `Protocol.Encode` | index.js:304 | the published body is exactly `{"status":"available"}` for `available` and exactly `{"status":"out_of_stock"}` for `out_of_stock` |
| `Protocol.Decode` | inventoryService.test.js:84-85 | a body is read back as a status only when it is exactly the body written for that status |
| `Protocol.DecodeEncode` | index.js:304 | each published body reads back as the status it was written for |
| `Protocol.Reply` | index.js:275-317 | a response is published exactly when the body parsed to an array and no lookup rejected; it is `available` exactly when, in addition, every item is found with enough stock |
| `Protocol.ReplySequential` | index.js:39-73 | the sequential revision answers `available` exactly when every item passes; it publishes nothing exactly when the body is malformed or a lookup rejects before any item fails |
| `Protocol.SequentialAnswersWhenLiveDoes` | index.js:39-73 | whenever the live handler answers, the sequential one gives the same answer; whenever the sequential one stays silent, so does the live one |
| `Protocol.StockScenario` | inventoryService.test.js:66-85 | with 50 of `p1` in stock, asking for 30 is available (the test's one case); with 10 of `p2` as well, the extra cases 30+10 is available, 30+11 is out of stock, an unknown id is out of stock, and an empty request is available |
| `Consumer.EffectExtends` | index.js:302-316 | on an open channel, handling one delivery appends its tag once to the acknowledgements and, last, after any publish; it appends the reply's body to the published responses exactly when there is a reply and the channel is open; on a closed channel it appends nothing |
| `Consumer.AckedExactlyOnce` | index.js:312-315 | on an open channel, a delivery not acknowledged before is acknowledged exactly once after its handling |
| `Consumer.Channel.constructor` | index.js:262 | a fresh channel has an empty log and is open |
| `Consumer.Channel.SendToQueue` | index.js:302-306 | publishing appends the body to the log when the channel is open, and fails, changing nothing, when it is closed |
| `Consumer.Channel.Ack` | index.js:312 | acknowledging appends the delivery tag to the log when the channel is open, and fails, changing nothing, when it is closed |
| `Consumer.HandleMessage` | index.js:275-317 | the live callback appends to the channel log exactly the reply's publish (when there is a reply) followed by one acknowledgement when the channel is open, and nothing when it is closed; nothing else is read or kept between deliveries |
| `Consumer.HandleMessageGuarded` | index.js:199-232 | for requests whose items all carry a `productId`, the revision with the `Array.isArray` guard has exactly the live callback's effect on the channel |
| `Consumer.HandleMessageSequential` | index.js:39-73 | the sequential revision appends its own reply's publish and one acknowledgement |
| `Consumer.ServeScenario` | inventoryService.test.js:66-85 | the test's delivery asking for 30 of `p1` (here together with 10 of `p2`) is followed by three extra ones (a body that is not JSON, one short item, one unknown id); the four publish `available`, `out_of_stock`, `out_of_stock` and acknowledge tags 1 to 4 in order |

## Left out

- Connecting to MongoDB and RabbitMQ, creating the channel, asserting the queues, and `process.exit` on startup errors: external I/O. The store is the `Catalog` value and the transport is the `Channel` class.
- `console.log` and `console.error`: no behaviour.
- `Promise.all` concurrency and async suspension: lookups are evaluated one after another. A rejection anywhere rejects the whole request, which is what `Promise.all` does, and none of the verdicts depend on completion order.
- JSON parsing: the result of `JSON.parse` and of reading `products` is the `Request` input. A body that parses to `null` is grouped with `NotArray`, since it also throws before any lookup.
- Array elements without a `productId`. A `null` element throws inside its `map` callback and acts like an item whose lookup rejects. A primitive (`5`, `"x"`, `true`, `[]`) or an object without `productId` gives `findById(undefined)`, which queries `{ _id: null }`, finds nothing, and so acts like a product that is not found. The model's `Item` always carries a `productId`, so none of these is among its inputs.
- `Consumer.HandleMessageGuarded`: for an element without a `productId`, the guarded revision queries `findOne({ _id: undefined })` (`index.js:212`), which drops the key, matches any document, and may answer differently from the live callback. The equality with the live effect holds only for requests whose items all carry a `productId`.
- JavaScript number semantics: quantities are unbounded integers. Comparisons with non-numeric or missing quantities, which JavaScript coerces, are not modelled. `price`, `name`, `description`, `category` and the timestamps of `models/productModel.js` play no part in the decision and are not modelled.
- Name-based lookup in the first two commented revisions: replaced by id lookup, as described above.
- The `persistent: false` flag on publishes, and queue durability: no logic depends on them.
- `channel.ack` on an open channel is taken not to throw. On a closed channel it throws, the `catch` block's `ack` throws too, and the delivery stays unacknowledged; the model records nothing in that case. That second throw rejects the callback's promise, and nothing handles the rejection. Other ways for `ack` to throw on an open channel are not modelled.
- `Consumer.Channel.SendToQueue`: a publish on an open channel is taken not to throw. The ack that the `catch` block would then send after a failed publish on an open channel is not modelled.
- The test file's jest mocks of the channel: not behaviour.
- `Consumer.ServeScenario`: deliveries are handled one after another. In the source, `channel.consume` does not await the `async` callback (`index.js:275`) and no `prefetch` limit is set. So while one delivery waits at `index.js:298`, a later one can run, and it can be answered and acknowledged first. "Tags 1 to 4 in order", and the order of the responses, hold only for one-at-a-time handling. Within one delivery the publish and the ack stay adjacent, because nothing is awaited between `index.js:302` and `index.js:312`.
- `Consumer.HandleMessage`: every lookup is assumed to settle. `Promise.all` at `index.js:298` rejects as soon as one lookup rejects, so a request with another rejecting lookup is still acknowledged by the `catch`; when no other lookup of the request rejects, a lookup that never settles leaves the callback suspended at that `await` and the delivery unacknowledged. The model has no such case.
- `Consumer.AckedExactlyOnce`: holds on the assumption that every lookup settles and that the channel is open; when no other lookup of the request rejects, a lookup that never settles leaves the delivery unacknowledged.
- `Consumer.HandleMessage`: its contract states the new log in terms of `Effect`. The acknowledgement and publish counts it implies are stated by `Consumer.EffectExtends` and `Consumer.AckedExactlyOnce` rather than by the method's own `ensures`.
