/** The request consumer: the callback subscribed to `inventory_check`, and
    the channel it publishes on and acknowledges through. */
module Consumer {
  import opened Wrappers
  import opened Store
  import opened Evaluator
  import opened Protocol

  /** What the consumer does on the channel: publish a body to a queue, or
      acknowledge a delivery by its tag. */
  datatype Event = Sent(queue: string, body: string) | Acked(tag: nat)

  /** One message delivered from `RequestQueue`: its delivery tag and its
      parsed body. */
  datatype Delivery = Delivery(tag: nat, request: Request)

  /** The delivery tags acknowledged in `log`, in order. */
  function Acks(log: seq<Event>): seq<nat>
    decreases |log|
  {
    if log == [] then []
    else
      var prefix, last := log[..|log| - 1], log[|log| - 1];
      Acks(prefix) + (if last.Acked? then [last.tag] else [])
  }

  /** The bodies published to the response queue in `log`, in order. */
  function Published(log: seq<Event>): seq<string>
    decreases |log|
  {
    if log == [] then []
    else
      var prefix, last := log[..|log| - 1], log[|log| - 1];
      Published(prefix) + (if last.Sent? && last.queue == ResponseQueue then [last.body] else [])
  }

  /** `Acks` lists exactly the tags acknowledged somewhere in the log. */
  lemma {:induction false} AcksMembers(log: seq<Event>)
    ensures forall t :: t in Acks(log) <==> Acked(t) in log
    decreases |log|
  {
    if log != [] {
      var prefix, last := log[..|log| - 1], log[|log| - 1];
      AcksMembers(prefix);
      assert log == prefix + [last];
    }
  }

  /** `Published` lists exactly the bodies sent to the response queue
      somewhere in the log. */
  lemma {:induction false} PublishedMembers(log: seq<Event>)
    ensures forall b :: b in Published(log) <==> Sent(ResponseQueue, b) in log
    decreases |log|
  {
    if log != [] {
      var prefix, last := log[..|log| - 1], log[|log| - 1];
      PublishedMembers(prefix);
      assert log == prefix + [last];
    }
  }

  /** The acknowledgements of a log are those of its parts, in order. */
  lemma {:induction false} AcksAppend(a: seq<Event>, b: seq<Event>)
    ensures Acks(a + b) == Acks(a) + Acks(b)
    decreases |b|
  {
    if b == [] {
      assert a + b == a;
    } else {
      var front := b[..|b| - 1];
      AcksAppend(a, front);
      assert (a + b)[..|a + b| - 1] == a + front;
      assert (a + b)[|a + b| - 1] == b[|b| - 1];
    }
  }

  /** The responses of a log are those of its parts, in order. */
  lemma {:induction false} PublishedAppend(a: seq<Event>, b: seq<Event>)
    ensures Published(a + b) == Published(a) + Published(b)
    decreases |b|
  {
    if b == [] {
      assert a + b == a;
    } else {
      var front := b[..|b| - 1];
      PublishedAppend(a, front);
      assert (a + b)[..|a + b| - 1] == a + front;
      assert (a + b)[|a + b| - 1] == b[|b| - 1];
    }
  }

  /** The events one delivery adds to the channel: on an open channel the
      response, when there is one, and then the acknowledgement; on a closed
      channel nothing, since publishing and acknowledging both throw there and
      the `catch` block's own `ack` throws out of the callback. */
  function Effect(reply: Option<Status>, tag: nat, closed: bool): seq<Event>
  {
    if closed then []
    else if reply.Some? then [Sent(ResponseQueue, Encode(reply.value)), Acked(tag)]
    else [Acked(tag)]
  }

  /** The acknowledgements recorded by a single event. */
  lemma AcksSingle(e: Event)
    ensures Acks([e]) == if e.Acked? then [e.tag] else []
  {
  }

  /** The responses recorded by a single event. */
  lemma PublishedSingle(e: Event)
    ensures Published([e]) == if e.Sent? && e.queue == ResponseQueue then [e.body] else []
  {
  }

  /** On an open channel, handling one delivery acknowledges it exactly once,
      after anything it publishes, and publishes at most one response: the
      reply, when there is one. On a closed channel it records nothing. */
  lemma EffectExtends(log: seq<Event>, reply: Option<Status>, tag: nat, closed: bool)
    ensures var events := Effect(reply, tag, closed);
      && (!closed ==> |events| > 0 && events[|events| - 1] == Acked(tag))
      && Acks(log + events) == Acks(log) + (if closed then [] else [tag])
      && Published(log + events) == Published(log) +
           (if reply.Some? && !closed then [Encode(reply.value)] else [])
  {
    var events := Effect(reply, tag, closed);
    AcksAppend(log, events);
    PublishedAppend(log, events);
    AcksSingle(Acked(tag));
    PublishedSingle(Acked(tag));
    if closed {
      assert log + events == log;
    } else if reply.Some? {
      var sent := Sent(ResponseQueue, Encode(reply.value));
      assert events == [sent] + [Acked(tag)];
      AcksAppend([sent], [Acked(tag)]);
      PublishedAppend([sent], [Acked(tag)]);
      AcksSingle(sent);
      PublishedSingle(sent);
    }
  }

  /** On an open channel, a delivery whose tag was not acknowledged before is
      acknowledged exactly once by its handling. */
  lemma AckedExactlyOnce(log: seq<Event>, reply: Option<Status>, tag: nat, closed: bool)
    requires !closed
    requires Acked(tag) !in log
    ensures multiset(Acks(log + Effect(reply, tag, closed)))[tag] == 1
  {
    EffectExtends(log, reply, tag, closed);
    AcksMembers(log);
    assert multiset(Acks(log))[tag] == 0;
  }

  /** The transport channel. `log` records what the consumer did on it;
      `closed` is set by the transport once the channel has closed, after
      which publishing and acknowledging both throw. */
  class Channel {
    var log: seq<Event>
    var closed: bool

    constructor ()
      ensures log == [] && !closed
    {
      log := [];
      closed := false;
    }

    /** `channel.sendToQueue(queue, body)`: `sent` is false when the call
        throws because the channel is closed. */
    method SendToQueue(queue: string, body: string) returns (sent: bool)
      modifies this`log
      ensures sent == !closed
      ensures log == if sent then old(log) + [Sent(queue, body)] else old(log)
    {
      sent := !closed;
      if sent {
        log := log + [Sent(queue, body)];
      }
    }

    /** `channel.ack(msg)`: `acked` is false when the call throws because
        the channel is closed. */
    method Ack(tag: nat) returns (acked: bool)
      modifies this`log
      ensures acked == !closed
      ensures log == if acked then old(log) + [Acked(tag)] else old(log)
    {
      acked := !closed;
      if acked {
        log := log + [Acked(tag)];
      }
    }
  }

  /** The live consumer callback. Whatever goes wrong inside the `try` (the
      body is not JSON, `products` has no `map`, a lookup rejects, the
      publish throws) lands in the `catch`, which acknowledges too; so on an
      open channel every delivery is acknowledged exactly once, and a
      response is published only when the request was evaluated. On a closed
      channel the `catch` block's `ack` throws as well and nothing is
      recorded. Nothing but the channel is touched, so one delivery has no
      bearing on the next one's reply. */
  method HandleMessage(ch: Channel, c: Catalog, msg: Delivery)
    modifies ch`log
    ensures ch.log == old(ch.log) + Effect(Reply(c, msg.request), msg.tag, ch.closed)
  {
    var threw := false;
    match msg.request {
      case NotJson =>
        threw := true;
      case NotArray =>
        threw := true;
      case Products(items) =>
        var allAvailable := Verdict(c, items);
        if allAvailable.Rejected? {
          threw := true;
        } else {
          var sent := ch.SendToQueue(ResponseQueue, Encode(StatusFor(allAvailable.value)));
          if sent {
            var acked := ch.Ack(msg.tag);
          } else {
            threw := true;
          }
        }
    }
    if threw {
      // the `catch` block; on a closed channel its `ack` throws out of the callback
      var acked := ch.Ack(msg.tag);
    }
  }

  /** The revision with the `Array.isArray` guard: a `products` that is not
      an array is acknowledged and the callback returns, without going
      through the `catch`. It has the same effect as the live callback. */
  method HandleMessageGuarded(ch: Channel, c: Catalog, msg: Delivery)
    modifies ch`log
    ensures ch.log == old(ch.log) + Effect(Reply(c, msg.request), msg.tag, ch.closed)
  {
    if msg.request.NotArray? {
      // on a closed channel this `ack` throws into the `catch`, whose `ack` throws too
      var acked := ch.Ack(msg.tag);
      return;
    }
    var threw := false;
    match msg.request {
      case NotJson =>
        threw := true;
      case Products(items) =>
        var allAvailable := Verdict(c, items);
        if allAvailable.Rejected? {
          threw := true;
        } else {
          var sent := ch.SendToQueue(ResponseQueue, Encode(StatusFor(allAvailable.value)));
          if sent {
            var acked := ch.Ack(msg.tag);
          } else {
            threw := true;
          }
        }
    }
    if threw {
      // the `catch` block; on a closed channel its `ack` throws out of the callback
      var acked := ch.Ack(msg.tag);
    }
  }

  /** The sequential revision: the `Array.isArray` guard, then the
      short-circuit loop over the items. */
  method HandleMessageSequential(ch: Channel, c: Catalog, msg: Delivery)
    modifies ch`log
    ensures ch.log == old(ch.log) + Effect(ReplySequential(c, msg.request), msg.tag, ch.closed)
  {
    if msg.request.NotArray? {
      // on a closed channel this `ack` throws into the `catch`, whose `ack` throws too
      var acked := ch.Ack(msg.tag);
      return;
    }
    var threw := false;
    match msg.request {
      case NotJson =>
        threw := true;
      case Products(items) =>
        var allAvailable := SequentialCheck(c, items);
        if allAvailable.Rejected? {
          threw := true;
        } else {
          var sent := ch.SendToQueue(ResponseQueue, Encode(StatusFor(allAvailable.value)));
          if sent {
            var acked := ch.Ack(msg.tag);
          } else {
            threw := true;
          }
        }
    }
    if threw {
      // the `catch` block; on a closed channel its `ack` throws out of the callback
      var acked := ch.Ack(msg.tag);
    }
  }

  /** The responses and acknowledgements of the four deliveries of
      `ServeScenario`. */
  lemma EffectsOfScenario()
    ensures var events := Effect(Some(Available), 1, false) + Effect(None, 2, false)
      + Effect(Some(OutOfStock), 3, false) + Effect(Some(OutOfStock), 4, false);
      Published(events) == [Encode(Available), Encode(OutOfStock), Encode(OutOfStock)] &&
      Acks(events) == [1, 2, 3, 4]
  {
    var e1 := Effect(Some(Available), 1, false);
    var e2 := Effect(None, 2, false);
    var e3 := Effect(Some(OutOfStock), 3, false);
    var e4 := Effect(Some(OutOfStock), 4, false);
    EffectExtends([], Some(Available), 1, false);
    assert [] + e1 == e1;
    EffectExtends(e1, None, 2, false);
    EffectExtends(e1 + e2, Some(OutOfStock), 3, false);
    EffectExtends(e1 + e2 + e3, Some(OutOfStock), 4, false);
  }

  /** A run of the live consumer over four deliveries against a catalog
      holding 50 of `p1`, 10 of `p2` and no `p3`: the body that is not JSON
      gets no response and does not disturb the deliveries after it; all four
      are acknowledged in order. */
  method ServeScenario(c: Catalog) returns (published: seq<string>, acked: seq<nat>)
    requires c.rejecting == {} && "p3" !in c.stock
    requires "p1" in c.stock && c.stock["p1"] == 50 && "p2" in c.stock && c.stock["p2"] == 10
    ensures published == [Encode(Available), Encode(OutOfStock), Encode(OutOfStock)]
    ensures acked == [1, 2, 3, 4]
  {
    var enough, short, unknown := [Item("p1", 30), Item("p2", 10)], [Item("p1", 30), Item("p2", 11)], [Item("p3", 1)];
    StockScenario(c);
    ghost var events := Effect(Some(Available), 1, false) + Effect(None, 2, false)
      + Effect(Some(OutOfStock), 3, false) + Effect(Some(OutOfStock), 4, false);
    var ch := new Channel();
    HandleMessage(ch, c, Delivery(1, Products(enough)));
    HandleMessage(ch, c, Delivery(2, NotJson));
    HandleMessage(ch, c, Delivery(3, Products(short)));
    HandleMessage(ch, c, Delivery(4, Products(unknown)));
    assert ch.log == events;
    published, acked := Published(ch.log), Acks(ch.log);
    EffectsOfScenario();
  }
}
