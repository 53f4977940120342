/** The wire protocol of the availability check: the channel names, the
    parsed request, the response body, and which response (if any) a request
    earns. */
module Protocol {
  import opened Wrappers
  import opened Store
  import opened Evaluator

  /** The queue requests arrive on: every `Delivery` comes from it. */
  const RequestQueue: string := "inventory_check"

  /** The queue responses are published to. */
  const ResponseQueue: string := "inventory_response"

  /** The `status` field of a response. */
  datatype Status = Available | OutOfStock

  /** A delivered request body after `JSON.parse` and the destructuring of
      `products`: not JSON at all, JSON whose `products` is not an array
      (absent, null, an object, a string, ...), or an array of items. */
  datatype Request = NotJson | NotArray | Products(items: seq<Item>)

  /** `allAvailable ? 'available' : 'out_of_stock'`. */
  function StatusFor(allAvailable: bool): (s: Status)
    ensures s == Available <==> allAvailable
  {
    if allAvailable then Available else OutOfStock
  }

  /** `JSON.stringify({ status })`, the body published to `ResponseQueue`. */
  function Encode(s: Status): (body: string)
    ensures body == "{\"status\":\"available\"}" <==> s == Available
    ensures body == "{\"status\":\"out_of_stock\"}" <==> s == OutOfStock
  {
    match s
    case Available => "{\"status\":\"available\"}"
    case OutOfStock => "{\"status\":\"out_of_stock\"}"
  }

  /** Reads the status back from a response body. Only the two exact bodies
      the publisher writes are recognised; the same JSON with other spacing or
      key order is not. */
  function Decode(body: string): (r: Option<Status>)
    ensures r.Some? ==> Encode(r.value) == body
    ensures r.None? ==> body != Encode(Available) && body != Encode(OutOfStock)
  {
    if body == Encode(Available) then Some(Available)
    else if body == Encode(OutOfStock) then Some(OutOfStock)
    else None
  }

  /** Every published body decodes to the status it was written for, so the
      two statuses are told apart on the wire. */
  lemma DecodeEncode(s: Status)
    ensures Decode(Encode(s)) == Some(s)
  {
  }

  /** The response the live handler publishes for a request, or `None` when
      it publishes nothing: a body that is not JSON, a `products` that is not
      an array, or a rejected lookup ends in the catch block. */
  function Reply(c: Catalog, req: Request): (r: Option<Status>)
    ensures r.Some? <==> (req.Products? &&
      forall i :: 0 <= i < |req.items| ==> req.items[i].productId !in c.rejecting)
    ensures r == Some(Available) <==> (req.Products? &&
      forall i :: 0 <= i < |req.items| ==> Passes(c, req.items[i]))
  {
    match req
    case NotJson => None
    case NotArray => None
    case Products(items) =>
      match Verdict(c, items)
      case Rejected => None
      case Resolved(allAvailable) => Some(StatusFor(allAvailable))
  }

  /** The response of the sequential revision of the handler, which guards
      `products` with `Array.isArray` and scans the items one by one. */
  function ReplySequential(c: Catalog, req: Request): (r: Option<Status>)
    ensures r == Some(Available) <==> (req.Products? &&
      forall i :: 0 <= i < |req.items| ==> Passes(c, req.items[i]))
    ensures r.None? <==> (!req.Products? ||
      exists j :: 0 <= j < |req.items| && req.items[j].productId in c.rejecting &&
        forall k :: 0 <= k < j ==> Passes(c, req.items[k]))
  {
    match req
    case NotJson => None
    case NotArray => None
    case Products(items) =>
      ShortCircuitMeaning(c, items);
      match ShortCircuit(c, items)
      case Rejected => None
      case Resolved(allAvailable) => Some(StatusFor(allAvailable))
  }

  /** Whenever the live handler answers, the sequential revision gives the
      same answer; it answers `out_of_stock` to some requests the live
      handler drops. */
  lemma SequentialAnswersWhenLiveDoes(c: Catalog, req: Request)
    ensures Reply(c, req).Some? ==> ReplySequential(c, req) == Reply(c, req)
    ensures ReplySequential(c, req).None? ==> Reply(c, req).None?
  {
  }

  /** Requests against a catalog with no rejecting lookups that holds 50 of
      `p1`, 10 of `p2` and no `p3`: asking for 30 of `p1` is available (the
      service's own availability test); asking for 30 and 10 is available,
      30 and 11 is not, an unknown id is not, and asking for nothing is. */
  lemma StockScenario(c: Catalog)
    requires c.rejecting == {} && "p3" !in c.stock
    requires "p1" in c.stock && c.stock["p1"] == 50 && "p2" in c.stock && c.stock["p2"] == 10
    ensures Reply(c, Products([Item("p1", 30)])) == Some(Available)
    ensures Reply(c, Products([Item("p1", 30), Item("p2", 10)])) == Some(Available)
    ensures Reply(c, Products([Item("p1", 30), Item("p2", 11)])) == Some(OutOfStock)
    ensures Reply(c, Products([Item("p3", 1)])) == Some(OutOfStock)
    ensures Reply(c, Products([])) == Some(Available)
  {
  }
}
