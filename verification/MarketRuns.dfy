/** Conservation of stock and money over whole runs of the market. */
module MarketRuns {
  import opened Checkout

  datatype Event =
    | AddOffer(id: nat, generated: nat, offer: Offer)
    | CheckOut(request: seq<Line>, fails: nat -> bool)
    | SetStatus(orderId: nat, status: string)

  ghost function After(s: State, e: Event): State {
    match e
    case AddOffer(id, generated, offer) => Add(s, id, generated, offer)
    case CheckOut(request, fails) => Place(s, request, fails).0
    case SetStatus(orderId, status) => s.(orders := Restatused(s.orders, orderId, status))
  }

  ghost function Run(events: seq<Event>): State {
    if events == [] then State(map[], [], 1, INITIAL_BALANCE) else After(Run(events[..|events| - 1]), events[|events| - 1])
  }

  /** The quantity a product was created with. */
  ghost function Created(events: seq<Event>, product: nat): int {
    if events == [] then 0
    else
      var before, e := events[..|events| - 1], events[|events| - 1];
      if product !in Run(before).offers && product in Run(events).offers && e.AddOffer? then e.offer.quantity
      else Created(before, product)
  }

  /** What an event takes from the balance without recording an order. */
  ghost function LostTo(s: State, e: Event): int {
    if e.CheckOut? then Charged(s, e.request, e.fails) else 0
  }

  ghost function Lost(events: seq<Event>): int {
    if events == [] then 0
    else Lost(events[..|events| - 1]) + LostTo(Run(events[..|events| - 1]), events[|events| - 1])
  }

  function ItemsQuantity(items: seq<OrderItem>, product: nat): int {
    if items == [] then 0
    else
      var last := items[|items| - 1];
      ItemsQuantity(items[..|items| - 1], product) + if last.product == product then last.quantity else 0
  }

  /** The quantity of a product in all orders. */
  function Ordered(orders: seq<Order>, product: nat): int {
    if orders == [] then 0
    else Ordered(orders[..|orders| - 1], product) + ItemsQuantity(orders[|orders| - 1].items, product)
  }

  function Totals(orders: seq<Order>): int {
    if orders == [] then 0 else Totals(orders[..|orders| - 1]) + orders[|orders| - 1].total
  }

  lemma {:induction false} ItemsCarryRequest(offers: map<nat, Offer>, request: seq<Line>, product: nat)
    requires Listed(offers, request)
    ensures ItemsQuantity(Items(offers, request), product) == Requested(request, product)
    ensures product !in offers ==> Requested(request, product) == 0
  {
    if request != [] {
      var n := |request| - 1;
      ItemsCarryRequest(offers, request[..n], product);
      assert Items(offers, request)[..|Items(offers, request)| - 1] == Items(offers, request[..n]);
    }
  }

  lemma {:induction false} StatusOfMatchingOrders(orders: seq<Order>, id: nat, status: string)
    ensures |Restatused(orders, id, status)| == |orders|
    ensures forall i :: 0 <= i < |orders| ==>
                          Restatused(orders, id, status)[i] ==
                          if orders[i].id == id then orders[i].(status := status) else orders[i]
  {
    if orders != [] {
      StatusOfMatchingOrders(orders[..|orders| - 1], id, status);
    }
  }

  lemma {:induction false} StatusChangesNoSums(orders: seq<Order>, id: nat, status: string, product: nat)
    ensures Totals(Restatused(orders, id, status)) == Totals(orders)
    ensures Ordered(Restatused(orders, id, status), product) == Ordered(orders, product)
  {
    if orders != [] {
      var n := |orders| - 1;
      StatusChangesNoSums(orders[..n], id, status, product);
      var before := Restatused(orders[..n], id, status);
      var last := if orders[n].id == id then orders[n].(status := status) else orders[n];
      assert (before + [last])[..|before|] == before;
    }
  }

  /** Order ids are given out once, and every order's total is the sum over its items. */
  ghost predicate SoundOrders(s: State) {
    && (forall i :: 0 <= i < |s.orders| ==> s.orders[i].id < s.nextOrder && s.orders[i].total == ItemsTotal(s.orders[i].items))
    && (forall i, j :: 0 <= i < j < |s.orders| ==> s.orders[i].id != s.orders[j].id)
  }

  /** A checkout records at most one order, under the next id, with a total that adds up. */
  lemma PlaceAppends(s: State, request: seq<Line>, fails: nat -> bool)
    ensures var after := Place(s, request, fails).0;
            && after.nextOrder >= s.nextOrder
            && (after.orders == s.orders
                || exists o: Order :: after.orders == s.orders + [o] && o.id == s.nextOrder < after.nextOrder
                                      && o.total == ItemsTotal(o.items))
  {
    if Place(s, request, fails).1.Placed? {
      AcceptedIsListed(s.offers, request, fails);
      var o := Place(s, request, fails).0.orders[|s.orders|];
      assert Place(s, request, fails).0.orders == s.orders + [o];
    }
  }

  lemma EventKeepsOrdersSound(s: State, e: Event)
    requires SoundOrders(s)
    ensures SoundOrders(After(s, e))
  {
    if e.SetStatus? {
      StatusOfMatchingOrders(s.orders, e.orderId, e.status);
    } else if e.CheckOut? {
      PlaceAppends(s, e.request, e.fails);
      hide Place;
    }
  }

  lemma EventConservesStock(s: State, e: Event, product: nat)
    requires product !in s.offers ==> Ordered(s.orders, product) == 0
    ensures product in s.offers ==>
              product in After(s, e).offers &&
              After(s, e).offers[product].quantity + Ordered(After(s, e).orders, product) ==
              s.offers[product].quantity + Ordered(s.orders, product)
    ensures product !in After(s, e).offers ==> Ordered(After(s, e).orders, product) == 0
    ensures product !in s.offers && product in After(s, e).offers ==>
              e.AddOffer? && After(s, e).offers[product].quantity == e.offer.quantity && Ordered(After(s, e).orders, product) == 0
  {
    if e.SetStatus? {
      StatusChangesNoSums(s.orders, e.orderId, e.status, product);
    } else if e.CheckOut? {
      if Place(s, e.request, e.fails).1.Placed? {
        PlacedTakesRequested(s, e.request, e.fails);
      } else {
        RefusedChangesNothing(s, e.request, e.fails);
      }
      PlacedOrders(s, e.request, e.fails, product);
      hide Place;
    }
  }

  /** The order a successful checkout records asks for what the request asked. */
  lemma PlacedOrders(s: State, request: seq<Line>, fails: nat -> bool, product: nat)
    ensures Place(s, request, fails).1.Placed? ==>
              var after := Place(s, request, fails).0;
              && Ordered(after.orders, product) == Ordered(s.orders, product) + Requested(request, product)
              && Totals(after.orders) == Totals(s.orders) + Place(s, request, fails).1.total
              && (product !in s.offers ==> Requested(request, product) == 0)
  {
    if Place(s, request, fails).1.Placed? {
      AcceptedIsListed(s.offers, request, fails);
      ItemsCarryRequest(s.offers, request, product);
      var after := Place(s, request, fails).0;
      assert after.orders[..|after.orders| - 1] == s.orders;
    }
  }

  /** Money leaves the balance only as an order's total, or with a checkout of which only the commit failed. */
  lemma EventConservesMoney(s: State, e: Event)
    ensures After(s, e).marketBalance + Totals(After(s, e).orders) + LostTo(s, e) == s.marketBalance + Totals(s.orders)
  {
    if e.SetStatus? {
      StatusChangesNoSums(s.orders, e.orderId, e.status, 0);
    } else if e.CheckOut? {
      SucceedsIff(s, e.request, e.fails);
      if Place(s, e.request, e.fails).1.Placed? {
        PlacedTakesRequested(s, e.request, e.fails);
        PlacedOrders(s, e.request, e.fails, 0);
      } else {
        RefusedChangesNothing(s, e.request, e.fails);
      }
      hide Place, Acceptable, Listed;
    }
  }

  ghost predicate CommitsSucceed(events: seq<Event>) {
    forall n :: 0 <= n < |events| && events[n].CheckOut? ==> !events[n].fails(2 + 3 * |events[n].request|)
  }

  lemma {:induction false} NothingLost(events: seq<Event>)
    requires CommitsSucceed(events)
    ensures Lost(events) == 0
  {
    if events != [] {
      var n := |events| - 1;
      assert forall k :: 0 <= k < n ==> events[..n][k] == events[k];
      NothingLost(events[..n]);
    }
  }

  /**
   * Conservation, over every serial run: stock plus ordered quantity is what the product was created with; the
   * balance plus all order totals plus what failed commits took is 5000; orders have distinct ids and totals that
   * add up. When every commit succeeds nothing is taken.
   */
  lemma {:induction false} Conservation(events: seq<Event>, product: nat)
    ensures var s := Run(events);
            && SoundOrders(s)
            && (product in s.offers ==> s.offers[product].quantity + Ordered(s.orders, product) == Created(events, product))
            && (product !in s.offers ==> Ordered(s.orders, product) == 0)
            && s.marketBalance == INITIAL_BALANCE - Totals(s.orders) - Lost(events)
            && (CommitsSucceed(events) ==> s.marketBalance == INITIAL_BALANCE - Totals(s.orders))
  {
    if events != [] {
      var before, e := events[..|events| - 1], events[|events| - 1];
      Conservation(before, product);
      EventKeepsOrdersSound(Run(before), e);
      EventConservesStock(Run(before), e, product);
      EventConservesMoney(Run(before), e);
      hide After, LostTo;
    }
    if CommitsSucceed(events) {
      NothingLost(events);
    }
  }

  // ---- Where the offers come from. ----

  /** The id under which an added offer is stored: its own, or the generated one when it has none. */
  function KeyOf(e: Event): nat
    requires e.AddOffer?
  {
    if e.id == 0 then e.generated else e.id
  }

  /** An event removes no offer and changes no more of one than its quantity; a new one is the event's own. */
  lemma EventKeepsOffers(s: State, e: Event, p: nat)
    ensures p in s.offers ==>
              p in After(s, e).offers && After(s, e).offers[p] == s.offers[p].(quantity := After(s, e).offers[p].quantity)
    ensures p !in s.offers && p in After(s, e).offers ==> e.AddOffer? && KeyOf(e) == p && After(s, e).offers[p] == e.offer
    ensures e.AddOffer? ==> KeyOf(e) in After(s, e).offers
  {
    if e.CheckOut? {
      if Place(s, e.request, e.fails).1.Placed? {
        PlacedTakesRequested(s, e.request, e.fails);
      } else {
        RefusedChangesNothing(s, e.request, e.fails);
      }
      hide Place;
    }
  }

  /** The n-th event is the one that added the product, with the quantity it was created with. */
  ghost predicate AddedBy(events: seq<Event>, product: nat, n: nat)
    requires n < |events|
  {
    && events[n].AddOffer? && KeyOf(events[n]) == product && product !in Run(events[..n]).offers
    && Created(events, product) == events[n].offer.quantity
  }

  /**
   * Over every run each listed offer is the one that some event added under its id, in everything but the quantity,
   * and that event's quantity is what Conservation counts as created.
   */
  lemma {:induction false} OffersComeFromEvents(events: seq<Event>, product: nat) returns (n: nat)
    requires product in Run(events).offers
    ensures n < |events| && AddedBy(events, product, n)
    ensures Run(events).offers[product] == events[n].offer.(quantity := Run(events).offers[product].quantity)
  {
    var last := |events| - 1;
    var before := events[..last];
    EventKeepsOffers(Run(before), events[last], product);
    if product in Run(before).offers {
      n := OffersComeFromEvents(before, product);
      assert before[..n] == events[..n];
    } else {
      n := last;
    }
    hide After;
  }

  /** No offer added is ever missing. */
  lemma {:induction false} AddedOffersStay(events: seq<Event>, n: nat)
    requires n < |events| && events[n].AddOffer?
    ensures KeyOf(events[n]) in Run(events).offers
  {
    var last := |events| - 1;
    EventKeepsOffers(Run(events[..last]), events[last], KeyOf(events[n]));
    if n < last {
      AddedOffersStay(events[..last], n);
    }
  }
}
