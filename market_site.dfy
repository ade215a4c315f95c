/**
 * The `MarketSite` contract wrapper of js/marketSite.js: the event-handler
 * registry, the dispatch of one incoming ledger event, the cached publication
 * cost and the range check of `publishItem`.
 */
module Market {

  // Event names (js/marketSite.js, `this.Events`).
  const PublishedItem: string := "PublishedItem"
  const ValueChanged: string := "ValueChanged"
  const ItemSold: string := "ItemSold"
  const ItemPaid: string := "ItemPaid"
  const OwnershipTransferred: string := "OwnershipTransferred"
  const PublicationCost: string := "PublicationCost"

  /** A registered callback: an opaque identity and whether calling it throws. */
  datatype Handler = Handler(id: string, throws: bool)

  /** The `returnValues` of an event, restricted to the fields the core reads. */
  datatype Payload = Payload(itemId: int, publicationCost: int)

  /** What the contract's `allEvents` subscription delivers: an error or an event. */
  datatype Delivery = TransportError(err: string) | Event(name: string, returnValues: Payload)

  /**
   * One attempted handler call: the handler, the arguments it received, the
   * cached publication cost at the moment of the call, and whether it threw
   * (and was therefore logged and skipped).
   */
  datatype Invocation = Invocation(handler: Handler, name: string, args: Payload, costSeen: int, threw: bool)

  /** `eventsHandlers`: event name to callbacks in registration order. */
  type Registry = map<string, seq<Handler>>

  /** The list registered for `name`, empty when there is none. */
  function HandlersOf(reg: Registry, name: string): seq<Handler>
  {
    if name in reg then reg[name] else []
  }

  /** The registry after `addEventHandler(name, cb)`. */
  function Added(reg: Registry, name: string, cb: Handler): (r: Registry)
    ensures HandlersOf(r, name) == HandlersOf(reg, name) + [cb]
    ensures forall n :: n != name ==> HandlersOf(r, n) == HandlersOf(reg, n)
    ensures r.Keys == reg.Keys + {name}
  {
    if name in reg then reg[name := reg[name] + [cb]] else reg[name := [cb]]
  }

  /** The registry after `clearEventHandler(name)`. */
  function Cleared(reg: Registry, name: string): (r: Registry)
    ensures HandlersOf(r, name) == []
    ensures forall n :: n != name ==> HandlersOf(r, n) == HandlersOf(reg, n)
    ensures r.Keys == reg.Keys - {name}
  {
    reg - {name}
  }

  /** The call of one handler inside the `try`/`catch` of the dispatch loop. */
  function Invoke(h: Handler, name: string, args: Payload, cost: int): Invocation
  {
    Invocation(h, name, args, cost, h.throws)
  }

  /** The calls made by the dispatch loop over `hs`. */
  function FanOut(hs: seq<Handler>, name: string, args: Payload, cost: int): (r: seq<Invocation>)
    ensures |r| == |hs|
    decreases |hs|
  {
    if hs == [] then []
    else FanOut(hs[..|hs| - 1], name, args, cost) + [Invoke(hs[|hs| - 1], name, args, cost)]
  }

  /** The cached cost after one delivery. */
  function CostAfter(cost: int, d: Delivery): (c: int)
    ensures d.Event? && d.name == PublicationCost ==> c == d.returnValues.publicationCost
    ensures !(d.Event? && d.name == PublicationCost) ==> c == cost
  {
    if d.Event? && d.name == PublicationCost then d.returnValues.publicationCost else cost
  }

  /** The external calls `publishItem` makes, in order. */
  datatype Call =
    | RequestUserAddress
    | AddJSON(objData: string)
    | SendPublishItem(hash: string, initialValue: int, maxValue: int, from: string, value: int)

  /** `publishItem`: rejected locally, or the calls it submits. */
  datatype Publication = Rejected(reason: string) | Submitted(calls: seq<Call>)

  const InvalidRange: string := "The initial value must be less than max value"

  class MarketSite {
    var eventsHandlers: Registry
    var publishCost: int

    constructor (publishCost: int)
      ensures eventsHandlers == map[] && this.publishCost == publishCost
    {
      this.publishCost := publishCost;
      eventsHandlers := map[];
    }

    /** `addEventHandler(eventName, cb)`. */
    method AddEventHandler(eventName: string, cb: Handler)
      modifies this`eventsHandlers
      ensures eventsHandlers == Added(old(eventsHandlers), eventName, cb)
    {
      eventsHandlers := Added(eventsHandlers, eventName, cb);
    }

    /** `clearEventHandler(eventName)`. */
    method ClearEventHandler(eventName: string)
      modifies this`eventsHandlers
      ensures eventsHandlers == Cleared(old(eventsHandlers), eventName)
    {
      eventsHandlers := eventsHandlers - {eventName};
    }

    /** `clearAllEventHandlers()`. */
    method ClearAllEventHandlers()
      modifies this`eventsHandlers
      ensures eventsHandlers == map[]
    {
      eventsHandlers := map[];
    }

    /**
     * The body of the `allEvents` callback for one delivery. A transport error
     * is logged and dropped. Otherwise a `PublicationCost` event refreshes
     * `publishCost` first, then every handler registered for the event's name
     * is called in registration order, each inside its own `try`/`catch`.
     */
    method Dispatch(d: Delivery) returns (trace: seq<Invocation>)
      modifies this`publishCost
      ensures publishCost == CostAfter(old(publishCost), d)
      ensures d.TransportError? ==> trace == []
      ensures d.Event? ==> trace == FanOut(HandlersOf(eventsHandlers, d.name), d.name, d.returnValues, publishCost)
    {
      trace := [];
      match d
      case TransportError(_) =>
      case Event(name, payload) =>
        if name == PublicationCost {
          publishCost := payload.publicationCost;
        }
        var handlers := HandlersOf(eventsHandlers, name);
        for pos := 0 to |handlers|
          invariant trace == FanOut(handlers[..pos], name, payload, publishCost)
        {
          assert handlers[..pos + 1][..pos] == handlers[..pos];
          trace := trace + [Invoke(handlers[pos], name, payload, publishCost)];
        }
        assert handlers[..|handlers|] == handlers;
    }

    /**
     * `publishItem(objData, initialValue, maxValue)`. `address` and `hash`
     * stand for what `getUserAddress()` and `ipfs.addJSON(objData)` resolve to,
     * so the call stands for the moment the send is made: `publishCost` is
     * the cost cached then, which a `PublicationCost` event delivered after
     * the range check may already have changed.
     */
    function PublishItem(objData: string, initialValue: int, maxValue: int, address: string, hash: string): (r: Publication)
      reads this
      ensures r.Rejected? <==> maxValue < initialValue
      ensures r.Rejected? ==> r.reason == InvalidRange
      ensures r.Submitted? ==> |r.calls| == 3 && r.calls[0] == RequestUserAddress && r.calls[1] == AddJSON(objData)
      ensures r.Submitted? ==> r.calls[2] == SendPublishItem(hash, initialValue, maxValue, address, publishCost)
      ensures r.Submitted? ==> r.calls[2].initialValue <= r.calls[2].maxValue
    {
      if maxValue < initialValue then Rejected(InvalidRange)
      else Submitted([RequestUserAddress, AddJSON(objData), SendPublishItem(hash, initialValue, maxValue, address, publishCost)])
    }
  }

  // ---------------------------------------------------------------------------
  // Lemmas
  // ---------------------------------------------------------------------------

  /**
   * Dispatch attempts every handler of the list exactly once, in registration
   * order, whatever the earlier ones did: the i-th call is the i-th handler,
   * with the event's name and payload and the already refreshed cost.
   */
  lemma {:induction false} FanOutCallsEachInOrder(hs: seq<Handler>, name: string, args: Payload, cost: int)
    ensures forall i :: 0 <= i < |hs| ==> FanOut(hs, name, args, cost)[i] == Invocation(hs[i], name, args, cost, hs[i].throws)
    decreases |hs|
  {
    if hs != [] {
      FanOutCallsEachInOrder(hs[..|hs| - 1], name, args, cost);
    }
  }

  /** A throwing handler does not stop the handlers registered after it. */
  lemma ThrowingHandlerIsIsolated(hs: seq<Handler>, name: string, args: Payload, cost: int, i: int, j: int)
    requires 0 <= i < j < |hs| && hs[i].throws
    ensures FanOut(hs, name, args, cost)[i].threw
    ensures FanOut(hs, name, args, cost)[j].handler == hs[j]
  {
    FanOutCallsEachInOrder(hs, name, args, cost);
  }

  /** Handlers registered for other names are not called. */
  lemma OnlyNamedHandlersRun(reg: Registry, name: string, args: Payload, cost: int)
    ensures forall inv :: inv in FanOut(HandlersOf(reg, name), name, args, cost) ==> inv.handler in HandlersOf(reg, name)
  {
    var hs := HandlersOf(reg, name);
    FanOutCallsEachInOrder(hs, name, args, cost);
    forall inv | inv in FanOut(hs, name, args, cost)
      ensures inv.handler in hs
    {
      var k :| 0 <= k < |FanOut(hs, name, args, cost)| && FanOut(hs, name, args, cost)[k] == inv;
    }
  }

  /** After `addEventHandler(n, cb)`, a dispatch of `n` calls `cb` last, after the earlier ones. */
  lemma AddedHandlerRunsLast(reg: Registry, name: string, cb: Handler, args: Payload, cost: int)
    ensures FanOut(HandlersOf(Added(reg, name, cb), name), name, args, cost)
         == FanOut(HandlersOf(reg, name), name, args, cost) + [Invoke(cb, name, args, cost)]
  {
    var hs := HandlersOf(reg, name) + [cb];
    assert hs[..|hs| - 1] == HandlersOf(reg, name);
  }

  /** After `clearEventHandler(n)`, a dispatch of `n` calls nothing. */
  lemma ClearedNameRunsNothing(reg: Registry, name: string, args: Payload, cost: int)
    ensures FanOut(HandlersOf(Cleared(reg, name), name), name, args, cost) == []
  {
  }

  /** `addEventHandler` keeps duplicates: registering `cb` twice calls it twice. */
  lemma DuplicatesAreKept(reg: Registry, name: string, cb: Handler)
    ensures HandlersOf(Added(Added(reg, name, cb), name, cb), name) == HandlersOf(reg, name) + [cb, cb]
  {
  }
}
