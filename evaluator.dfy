/** The availability evaluator: each requested item is checked against the
    store, and the per-item results are reduced to one verdict. */
module Evaluator {
  import opened Wrappers
  import opened Store

  /** One element of the request's `products` array. */
  datatype Item = Item(productId: ProductId, quantity: int)

  /** The stored quantity of the item's product covers the requested quantity. */
  predicate InStock(c: Catalog, item: Item)
  {
    item.productId in c.stock && c.stock[item.productId] >= item.quantity
  }

  /** The item's lookup resolves and finds enough stock. */
  predicate Passes(c: Catalog, item: Item)
  {
    item.productId !in c.rejecting && InStock(c, item)
  }

  /** The async callback given to `products.map`: look the product up; a
      missing product is unavailable, a found one is available when its stock
      covers the request; a rejected lookup rejects the callback's promise. */
  function CheckItem(c: Catalog, item: Item): (r: Settled<bool>)
    ensures r.Rejected? <==> item.productId in c.rejecting
    ensures r == Resolved(true) <==> Passes(c, item)
    ensures item.productId !in c.rejecting && item.productId !in c.stock ==> r == Resolved(false)
  {
    match FindById(c, item.productId)
    case Failed => Rejected
    case NotFound => Resolved(false)
    case Found(q) => Resolved(q >= item.quantity)
  }

  /** `Promise.all(products.map(CheckItem))`: rejects as soon as any item's
      promise rejects, otherwise resolves to the item results in input order. */
  function CheckAll(c: Catalog, items: seq<Item>): (r: Settled<seq<bool>>)
    ensures r.Rejected? <==> exists i :: 0 <= i < |items| && items[i].productId in c.rejecting
    ensures r.Resolved? ==> |r.value| == |items|
    ensures r.Resolved? ==> forall i :: 0 <= i < |items| ==> CheckItem(c, items[i]) == Resolved(r.value[i])
    decreases |items|
  {
    if items == [] then Resolved([])
    else
      var head := CheckItem(c, items[0]);
      var tail := CheckAll(c, items[1..]);
      if head.Rejected? || tail.Rejected? then Rejected
      else
        assert forall i :: 1 <= i < |items| ==> items[i] == items[1..][i - 1];
        Resolved([head.value] + tail.value)
  }

  /** `results.every(available => available)`: true exactly when every
      element is true, so true for no elements at all. */
  function Every(results: seq<bool>): (r: bool)
    ensures r <==> forall i :: 0 <= i < |results| ==> results[i]
    decreases |results|
  {
    results == [] || (results[0] && Every(results[1..]))
  }

  /** The verdict for one request: the `every` reduction over the settled
      item checks. It rejects exactly when some item's lookup rejects, and is
      `true` exactly when every item is found with enough stock. */
  function Verdict(c: Catalog, items: seq<Item>): (r: Settled<bool>)
    ensures r.Rejected? <==> exists i :: 0 <= i < |items| && items[i].productId in c.rejecting
    ensures r == Resolved(true) <==> forall i :: 0 <= i < |items| ==> Passes(c, items[i])
  {
    match CheckAll(c, items)
    case Rejected => Rejected
    case Resolved(results) => Resolved(Every(results))
  }

  /** An empty `products` array is available: the `every` is vacuous. */
  lemma EmptyRequestAvailable(c: Catalog)
    ensures Verdict(c, []) == Resolved(true)
  {
  }

  /** Two sequences with the same elements, counted with multiplicity, have
      the same elements. */
  lemma SameMembers(a: seq<Item>, b: seq<Item>, i: int)
    requires multiset(a) == multiset(b)
    requires 0 <= i < |a|
    ensures exists j :: 0 <= j < |b| && b[j] == a[i]
  {
    assert a[i] in multiset(a);
    assert a[i] in b;
  }

  /** The verdict does not depend on the order of the requested items. */
  lemma VerdictIgnoresOrder(c: Catalog, a: seq<Item>, b: seq<Item>)
    requires multiset(a) == multiset(b)
    ensures Verdict(c, a) == Verdict(c, b)
  {
    forall i | 0 <= i < |a| ensures exists j :: 0 <= j < |b| && b[j] == a[i] {
      SameMembers(a, b, i);
    }
    forall j | 0 <= j < |b| ensures exists i :: 0 <= i < |a| && a[i] == b[j] {
      SameMembers(b, a, j);
    }
  }

  /** The verdict of the sequential revision of the handler: the items are
      looked up one after the other, and the first missing or short item ends
      the scan with `false`; a rejected lookup rejects the whole scan. */
  function ShortCircuit(c: Catalog, items: seq<Item>): (r: Settled<bool>)
    ensures r.Rejected? ==> exists j :: 0 <= j < |items| && items[j].productId in c.rejecting
    ensures r == Resolved(true) ==> forall i :: 0 <= i < |items| ==> Passes(c, items[i])
    decreases |items|
  {
    if items == [] then Resolved(true)
    else
      match FindById(c, items[0].productId)
      case Failed => Rejected
      case NotFound => Resolved(false)
      case Found(q) =>
        if q < items[0].quantity then Resolved(false)
        else
          assert forall i :: 1 <= i < |items| ==> items[i] == items[1..][i - 1];
          ShortCircuit(c, items[1..])
  }

  /** What the sequential scan decides: it rejects exactly when some lookup
      rejects before any item fails, and is `true` exactly when every item is
      found with enough stock. */
  lemma {:induction false} ShortCircuitMeaning(c: Catalog, items: seq<Item>)
    ensures ShortCircuit(c, items).Rejected? <==>
      exists j :: 0 <= j < |items| && items[j].productId in c.rejecting &&
        forall k :: 0 <= k < j ==> Passes(c, items[k])
    ensures ShortCircuit(c, items) == Resolved(true) <==>
      forall i :: 0 <= i < |items| ==> Passes(c, items[i])
    decreases |items|
  {
    if items != [] {
      var tail := items[1..];
      ShortCircuitMeaning(c, tail);
      assert forall i :: 1 <= i < |items| ==> items[i] == tail[i - 1];
      if Passes(c, items[0]) {
        assert ShortCircuit(c, items) == ShortCircuit(c, tail);
        if ShortCircuit(c, tail).Rejected? {
          var j :| 0 <= j < |tail| && tail[j].productId in c.rejecting &&
            forall k :: 0 <= k < j ==> Passes(c, tail[k]);
          assert forall k :: 0 <= k < j + 1 ==> Passes(c, items[k]) by {
            forall k | 0 <= k < j + 1 ensures Passes(c, items[k]) {
              if k > 0 { assert items[k] == tail[k - 1]; }
            }
          }
          assert items[j + 1] == tail[j];
        } else {
          forall j | 0 <= j < |items| && items[j].productId in c.rejecting
            ensures exists k :: 0 <= k < j && !Passes(c, items[k])
          {
            assert j > 0;
            assert tail[j - 1] == items[j];
            assert exists k :: 0 <= k < j - 1 && !Passes(c, tail[k]);
            var k :| 0 <= k < j - 1 && !Passes(c, tail[k]);
            assert items[k + 1] == tail[k];
          }
        }
      } else {
        assert !(forall i :: 0 <= i < |items| ==> Passes(c, items[i]));
        if items[0].productId in c.rejecting {
          assert ShortCircuit(c, items).Rejected?;
        } else {
          assert !ShortCircuit(c, items).Rejected?;
          forall j | 0 <= j < |items| && items[j].productId in c.rejecting
            ensures exists k :: 0 <= k < j && !Passes(c, items[k])
          {
            assert j > 0;
          }
        }
      }
    }
  }

  /** Both revisions answer `available` for exactly the same requests. */
  lemma {:induction false} RevisionsAgreeOnAvailable(c: Catalog, items: seq<Item>)
    ensures ShortCircuit(c, items) == Resolved(true) <==> Verdict(c, items) == Resolved(true)
  {
    ShortCircuitMeaning(c, items);
  }

  /** When no lookup rejects, both revisions settle to the same verdict. */
  lemma {:induction false} RevisionsAgreeWithoutRejections(c: Catalog, items: seq<Item>)
    requires forall i :: 0 <= i < |items| ==> items[i].productId !in c.rejecting
    ensures ShortCircuit(c, items) == Verdict(c, items)
  {
    ShortCircuitMeaning(c, items);
    var sequential, live := ShortCircuit(c, items), Verdict(c, items);
    assert sequential.Resolved? && live.Resolved?;
    assert sequential.value <==> live.value;
  }

  /** The revisions differ whenever the first failing item is missing or
      short rather than rejecting, and a rejecting lookup comes after it: the
      sequential scan stops at that item and resolves `false`, while
      `Promise.all` issues every lookup and rejects. */
  lemma {:induction false} RevisionsDiverge(c: Catalog, items: seq<Item>, j: int, k: int)
    requires 0 <= j < k < |items|
    requires forall i :: 0 <= i < j ==> Passes(c, items[i])
    requires items[j].productId !in c.rejecting && !InStock(c, items[j])
    requires items[k].productId in c.rejecting
    ensures ShortCircuit(c, items) == Resolved(false)
    ensures Verdict(c, items) == Rejected
  {
    ShortCircuitMeaning(c, items);
    assert forall m :: 0 <= m <= j ==> items[m].productId !in c.rejecting;
    assert !Passes(c, items[j]);
    var sequential := ShortCircuit(c, items);
    assert sequential.Resolved? && !sequential.value;
  }

  /** The loop of the sequential revision: `allAvailable` starts true, each
      item is awaited in turn, and the first missing or short item sets it to
      false and breaks out. An awaited lookup that rejects throws out of the
      loop. */
  method SequentialCheck(c: Catalog, items: seq<Item>) returns (r: Settled<bool>)
    ensures r == ShortCircuit(c, items)
    ensures (forall i :: 0 <= i < |items| ==> items[i].productId !in c.rejecting) ==> r == Verdict(c, items)
  {
    var allAvailable := true;
    var i := 0;
    while i < |items|
      invariant 0 <= i <= |items|
      invariant allAvailable
      invariant ShortCircuit(c, items[i..]) == ShortCircuit(c, items)
    {
      var found := FindById(c, items[i].productId);
      if found.Failed? {
        r := Rejected;
        return;
      }
      if found.NotFound? || found.quantity < items[i].quantity {
        allAvailable := false;
        break;
      }
      assert items[i..][1..] == items[i + 1..];
      i := i + 1;
    }
    r := Resolved(allAvailable);
    if forall k :: 0 <= k < |items| ==> items[k].productId !in c.rejecting {
      RevisionsAgreeWithoutRejections(c, items);
    }
  }
}
