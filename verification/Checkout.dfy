/** The market: offers, orders, balance, and the checkout transaction as one step on them. */
module Checkout {
  import opened Options

  datatype Offer = Offer(name: string, quantity: int, price: int, category: string)

  /** One line of a checkout request. */
  datatype Line = Line(product: nat, quantity: int)

  datatype OrderItem = OrderItem(product: nat, quantity: int, price: int)

  datatype Order = Order(id: nat, status: string, total: int, items: seq<OrderItem>)

  /** The database tables, the order sequence, and the balance kept in memory. */
  datatype State = State(offers: map<nat, Offer>, orders: seq<Order>, nextOrder: nat, marketBalance: int)

  datatype Problem = DatabaseError | NotFound(product: nat) | InvalidQuantity(product: nat) | NotEnough(product: nat)

  datatype Result = Placed(id: nat, total: int) | Refused(problem: Problem)

  const INITIAL_BALANCE := 5000

  /** What the validation pass says of one line. */
  function Verdict(offers: map<nat, Offer>, line: Line): Option<Problem> {
    if line.product !in offers then Some(NotFound(line.product))
    else if line.quantity <= 0 then Some(InvalidQuantity(line.product))
    else if line.quantity > offers[line.product].quantity then Some(NotEnough(line.product))
    else None
  }

  /** The validation pass from line i on; statement 1 + i of the transaction looks up the offer of line i. */
  function FirstProblem(offers: map<nat, Offer>, request: seq<Line>, fails: nat -> bool, i: nat): Option<Problem>
    requires i <= |request|
    decreases |request| - i
  {
    if i == |request| then None
    else if fails(1 + i) then Some(DatabaseError)
    else if Verdict(offers, request[i]).Some? then Verdict(offers, request[i])
    else FirstProblem(offers, request, fails, i + 1)
  }

  /** Every line passes validation, each one on its own. */
  ghost predicate Acceptable(offers: map<nat, Offer>, request: seq<Line>) {
    forall i :: 0 <= i < |request| ==> Verdict(offers, request[i]) == None
  }

  ghost predicate Listed(offers: map<nat, Offer>, request: seq<Line>) {
    forall i :: 0 <= i < |request| ==> request[i].product in offers
  }

  /** Recorded items of the first lines. */
  function Items(offers: map<nat, Offer>, request: seq<Line>): seq<OrderItem>
    requires Listed(offers, request)
  {
    if request == [] then []
    else
      var n := |request| - 1;
      Items(offers, request[..n]) + [OrderItem(request[n].product, request[n].quantity, offers[request[n].product].price)]
  }

  function ItemsTotal(items: seq<OrderItem>): int {
    if items == [] then 0
    else ItemsTotal(items[..|items| - 1]) + items[|items| - 1].price * items[|items| - 1].quantity
  }

  /** The decrement pass. */
  function Deducted(offers: map<nat, Offer>, request: seq<Line>): (after: map<nat, Offer>)
    requires Listed(offers, request)
    ensures after.Keys == offers.Keys
  {
    if request == [] then offers
    else
      var before := Deducted(offers, request[..|request| - 1]);
      var line := request[|request| - 1];
      var offer := before[line.product];
      before[line.product := offer.(quantity := offer.quantity - line.quantity)]
  }

  /** Some statement of the decrement pass fails: two for each line, after Begin, the lookups and the insert. */
  ghost predicate DecrementFails(request: seq<Line>, fails: nat -> bool) {
    exists k: nat :: 2 + |request| <= k < 2 + 3 * |request| && fails(k)
  }

  /**
   * The checkout transaction. fails tells which of its database statements fail; they are numbered in the order
   * in which they are executed: Begin, a lookup for each line, the insert, a lookup and a save for each line, Commit.
   */
  ghost function Place(s: State, request: seq<Line>, fails: nat -> bool): (State, Result) {
    if fails(0) then (s, Refused(DatabaseError))
    else if FirstProblem(s.offers, request, fails, 0).Some? then (s, Refused(FirstProblem(s.offers, request, fails, 0).value))
    else
      AcceptedIsListed(s.offers, request, fails);
      var total := ItemsTotal(Items(s.offers, request));
      var numbered := s.(nextOrder := s.nextOrder + 1);
      if fails(1 + |request|) then (s, Refused(DatabaseError))
      else if DecrementFails(request, fails) then (numbered, Refused(DatabaseError))
      else if fails(2 + 3 * |request|) then (numbered.(marketBalance := s.marketBalance - total), Refused(DatabaseError))
      else
        (State(Deducted(s.offers, request),
               s.orders + [Order(s.nextOrder, "pending", total, Items(s.offers, request))],
               s.nextOrder + 1, s.marketBalance - total),
         Placed(s.nextOrder, total))
  }

  /** Line j is looked up and passes. */
  predicate Passes(offers: map<nat, Offer>, request: seq<Line>, fails: nat -> bool, j: nat)
    requires j < |request|
  {
    !fails(1 + j) && Verdict(offers, request[j]) == None
  }

  lemma {:induction false} NoProblem(offers: map<nat, Offer>, request: seq<Line>, fails: nat -> bool, i: nat)
    requires i <= |request|
    ensures FirstProblem(offers, request, fails, i) == None <==>
            forall j :: i <= j < |request| ==> Passes(offers, request, fails, j)
    decreases |request| - i
  {
    if i < |request| {
      NoProblem(offers, request, fails, i + 1);
      if Passes(offers, request, fails, i) {
        assert FirstProblem(offers, request, fails, i) == FirstProblem(offers, request, fails, i + 1);
      } else {
        assert FirstProblem(offers, request, fails, i).Some?;
      }
    }
  }

  lemma AcceptedIsListed(offers: map<nat, Offer>, request: seq<Line>, fails: nat -> bool)
    requires FirstProblem(offers, request, fails, 0) == None
    ensures Acceptable(offers, request) && Listed(offers, request)
  {
    NoProblem(offers, request, fails, 0);
    forall i | 0 <= i < |request|
      ensures Verdict(offers, request[i]) == None
    {
      assert Passes(offers, request, fails, i);
    }
  }

  /** The early returns of the transaction. */
  lemma StopsAtProblem(s: State, request: seq<Line>, fails: nat -> bool)
    ensures fails(0) ==> Place(s, request, fails) == (s, Refused(DatabaseError))
    ensures !fails(0) && FirstProblem(s.offers, request, fails, 0).Some? ==>
              Place(s, request, fails) == (s, Refused(FirstProblem(s.offers, request, fails, 0).value))
  {
  }

  class Market {
    var offers: map<nat, Offer>
    var orders: seq<Order>
    var nextOrder: nat
    var marketBalance: int

    ghost function Snapshot(): State
      reads this
    {
      State(offers, orders, nextOrder, marketBalance)
    }

    constructor ()
      ensures Snapshot() == State(map[], [], 1, INITIAL_BALANCE)
    {
      offers, orders, nextOrder, marketBalance := map[], [], 1, INITIAL_BALANCE;
    }

    method CreateOrder(request: seq<Line>, fails: nat -> bool) returns (result: Result)
      modifies this
      ensures (Snapshot(), result) == Place(old(Snapshot()), request, fails)
    {
      StopsAtProblem(Snapshot(), request, fails);
      hide Place;
      var total := 0;
      var orderItems: seq<OrderItem> := [];
      if fails(0) {
        return Refused(DatabaseError);
      }
      ghost var s := Snapshot();
      for i := 0 to |request|
        invariant Snapshot() == s
        invariant FirstProblem(offers, request, fails, 0) == FirstProblem(offers, request, fails, i)
        invariant Listed(offers, request[..i])
        invariant orderItems == Items(offers, request[..i]) && total == ItemsTotal(orderItems)
      {
        var item := request[i];
        if fails(1 + i) {
          return Refused(DatabaseError);
        }
        if item.product !in offers {
          return Refused(NotFound(item.product));
        }
        var offer := offers[item.product];
        if item.quantity <= 0 {
          return Refused(InvalidQuantity(item.product));
        }
        if item.quantity > offer.quantity {
          return Refused(NotEnough(item.product));
        }
        total := total + offer.price * item.quantity;
        ghost var before := orderItems;
        orderItems := orderItems + [OrderItem(item.product, item.quantity, offer.price)];
        assert orderItems[..|orderItems| - 1] == before;
        assert request[..i + 1][..i] == request[..i];
      }
      assert request[..|request|] == request;
      AcceptedIsListed(offers, request, fails);
      result := Commit(request, fails, total, orderItems);
    }

    /** The transaction after validation. */
    method Commit(request: seq<Line>, fails: nat -> bool, total: int, orderItems: seq<OrderItem>) returns (result: Result)
      requires !fails(0) && FirstProblem(offers, request, fails, 0) == None && Listed(offers, request)
      requires orderItems == Items(offers, request) && total == ItemsTotal(orderItems)
      modifies this
      ensures (Snapshot(), result) == Place(old(Snapshot()), request, fails)
    {
      ghost var s := Snapshot();
      if fails(1 + |request|) {
        return Refused(DatabaseError);
      }
      var order := Order(nextOrder, "pending", total, orderItems);
      nextOrder := nextOrder + 1;
      var saved, tx := DecrementOffers(request, fails);
      if !saved {
        return Refused(DatabaseError);
      }
      UpdateMarketBalance(-total);
      if fails(2 + 3 * |request|) {
        return Refused(DatabaseError);
      }
      offers := tx;
      orders := orders + [order];
      return Placed(order.id, total);
    }

    /** The decrement pass, on the transaction's own view of the offers. */
    method DecrementOffers(request: seq<Line>, fails: nat -> bool) returns (saved: bool, tx: map<nat, Offer>)
      requires Listed(offers, request)
      ensures saved <==> !DecrementFails(request, fails)
      ensures saved ==> tx == Deducted(offers, request)
    {
      tx := offers;
      for i := 0 to |request|
        invariant Listed(offers, request[..i]) && tx == Deducted(offers, request[..i])
        invariant forall k: nat :: 2 + |request| <= k < 2 + |request| + 2 * i ==> !fails(k)
      {
        var item := request[i];
        if fails(2 + |request| + 2 * i) {
          return false, tx;
        }
        var offer := tx[item.product];
        offer := offer.(quantity := offer.quantity - item.quantity);
        if fails(3 + |request| + 2 * i) {
          return false, tx;
        }
        tx := tx[item.product := offer];
        assert request[..i + 1][..i] == request[..i];
      }
      assert request[..|request|] == request;
      saved := true;
    }

    method UpdateMarketBalance(amount: int)
      modifies this`marketBalance
      ensures marketBalance == old(marketBalance) + amount
    {
      marketBalance := marketBalance + amount;
    }

    /** An offer without an id gets the one the database assigns; a duplicate id is refused by the database. */
    method CreateOffer(id: nat, generated: nat, offer: Offer) returns (created: bool)
      modifies this`offers
      ensures Snapshot() == Add(old(Snapshot()), id, generated, offer)
      ensures var key := if id == 0 then generated else id;
              offers == if key in old(offers) then old(offers) else old(offers)[key := offer]
      ensures created <==> (if id == 0 then generated else id) !in old(offers)
    {
      var key := if id == 0 then generated else id;
      if key in offers {
        return false;
      }
      offers := offers[key := offer];
      return true;
    }

    method UpdateOrderStatus(id: nat, status: string)
      modifies this`orders
      ensures Snapshot() == old(Snapshot()).(orders := Restatused(old(orders), id, status))
    {
      var updated: seq<Order> := [];
      for i := 0 to |orders|
        invariant orders == old(orders)
        invariant updated == Restatused(orders[..i], id, status)
      {
        updated := updated + [if orders[i].id == id then orders[i].(status := status) else orders[i]];
        assert orders[..i + 1][..i] == orders[..i];
      }
      assert orders[..|orders|] == orders;
      orders := updated;
    }
  }

  function Add(s: State, id: nat, generated: nat, offer: Offer): State {
    var key := if id == 0 then generated else id;
    if key in s.offers then s else s.(offers := s.offers[key := offer])
  }

  function Restatused(orders: seq<Order>, id: nat, status: string): seq<Order> {
    if orders == [] then []
    else
      var last := orders[|orders| - 1];
      Restatused(orders[..|orders| - 1], id, status) + [if last.id == id then last.(status := status) else last]
  }

  // ---- What the transaction means for stock. ----

  /** The sum of the quantities a request asks of a product, over all its lines. */
  function Requested(request: seq<Line>, product: nat): int {
    if request == [] then 0
    else
      var line := request[|request| - 1];
      Requested(request[..|request| - 1], product) + if line.product == product then line.quantity else 0
  }

  function LinesFor(request: seq<Line>, product: nat): nat {
    if request == [] then 0
    else LinesFor(request[..|request| - 1], product) + if request[|request| - 1].product == product then 1 else 0
  }

  lemma {:induction false} DeductedStock(offers: map<nat, Offer>, request: seq<Line>, product: nat)
    requires Listed(offers, request) && product in offers
    ensures Deducted(offers, request)[product] ==
            offers[product].(quantity := offers[product].quantity - Requested(request, product))
  {
    if request != [] {
      DeductedStock(offers, request[..|request| - 1], product);
    }
  }

  ghost predicate NoFault(request: seq<Line>, fails: nat -> bool) {
    forall k: nat :: k <= 2 + 3 * |request| ==> !fails(k)
  }

  /** The transaction reaches its commit exactly when every line passes on its own and no statement fails before. */
  lemma ReachesCommitIff(s: State, request: seq<Line>, fails: nat -> bool)
    ensures !fails(0) && FirstProblem(s.offers, request, fails, 0) == None && !fails(1 + |request|) &&
            !DecrementFails(request, fails)
            <==> Acceptable(s.offers, request) && forall k: nat :: k <= 1 + 3 * |request| ==> !fails(k)
  {
    NoProblem(s.offers, request, fails, 0);
    if FirstProblem(s.offers, request, fails, 0) == None {
      AcceptedIsListed(s.offers, request, fails);
      forall k: nat | 1 <= k <= |request|
        ensures !fails(k)
      {
        assert Passes(s.offers, request, fails, k - 1);
      }
    } else {
      var j :| 0 <= j < |request| && !Passes(s.offers, request, fails, j);
      assert fails(1 + j) || Verdict(s.offers, request[j]) != None;
    }
  }

  /** A checkout succeeds exactly when every line passes on its own and no statement fails. */
  lemma SucceedsIff(s: State, request: seq<Line>, fails: nat -> bool)
    ensures Place(s, request, fails).1.Placed? <==> Acceptable(s.offers, request) && NoFault(request, fails)
  {
    ReachesCommitIff(s, request, fails);
    assert NoFault(request, fails) <==> (forall k: nat :: k <= 1 + 3 * |request| ==> !fails(k)) && !fails(2 + 3 * |request|);
  }

  // ---- What the two passes compute, line by line. ----

  /** Which requests the validation accepts: every line names an offer and asks for at least one and at most its stock. */
  lemma AcceptableMeans(offers: map<nat, Offer>, request: seq<Line>)
    ensures Acceptable(offers, request) <==>
            forall i :: 0 <= i < |request| ==>
                          request[i].product in offers && 1 <= request[i].quantity <= offers[request[i].product].quantity
  {
    if Acceptable(offers, request) {
      forall i | 0 <= i < |request|
        ensures request[i].product in offers && 1 <= request[i].quantity <= offers[request[i].product].quantity
      {
        assert Verdict(offers, request[i]) == None;
      }
    }
  }

  /** A refusal by the validation names the first line that does not pass, and what is wrong with it. */
  lemma {:induction false} FirstProblemIsFirst(offers: map<nat, Offer>, request: seq<Line>, fails: nat -> bool, i: nat)
    returns (n: nat)
    requires i <= |request| && FirstProblem(offers, request, fails, i).Some?
    ensures i <= n < |request| && forall j :: i <= j < n ==> Passes(offers, request, fails, j)
    ensures var line, problem := request[n], FirstProblem(offers, request, fails, i).value;
            if fails(1 + n) then problem == DatabaseError
            else if line.product !in offers then problem == NotFound(line.product)
            else if line.quantity <= 0 then problem == InvalidQuantity(line.product)
            else line.quantity > offers[line.product].quantity && problem == NotEnough(line.product)
    decreases |request| - i
  {
    if Passes(offers, request, fails, i) {
      n := FirstProblemIsFirst(offers, request, fails, i + 1);
    } else {
      n := i;
    }
  }

  /** The items recorded: one for each line, in order, at the price of the offer. */
  lemma {:induction false} ItemsAreTheLines(offers: map<nat, Offer>, request: seq<Line>)
    requires Listed(offers, request)
    ensures |Items(offers, request)| == |request|
    ensures forall i :: 0 <= i < |request| ==>
                          Items(offers, request)[i] ==
                          OrderItem(request[i].product, request[i].quantity, offers[request[i].product].price)
  {
    if request != [] {
      ItemsAreTheLines(offers, request[..|request| - 1]);
    }
  }

  /** The total over items is that of their parts, and of one item its price times its quantity. */
  lemma {:induction false} ItemsTotalConcat(xs: seq<OrderItem>, ys: seq<OrderItem>)
    ensures ItemsTotal(xs + ys) == ItemsTotal(xs) + ItemsTotal(ys)
  {
    if ys == [] {
      assert xs + ys == xs;
    } else {
      assert (xs + ys)[..|xs + ys| - 1] == xs + ys[..|ys| - 1];
      ItemsTotalConcat(xs, ys[..|ys| - 1]);
    }
  }

  lemma OneItemTotal(item: OrderItem)
    ensures ItemsTotal([item]) == item.price * item.quantity
  {
    assert [item][..0] == [];
  }

  lemma RequestedConcat(xs: seq<Line>, line: Line, product: nat)
    ensures Requested(xs + [line], product) == Requested(xs, product) + if line.product == product then line.quantity else 0
  {
    assert (xs + [line])[..|xs|] == xs;
  }

  lemma NoItems(offers: map<nat, Offer>)
    ensures ItemsTotal(Items(offers, [])) == 0
  {
  }

  /** One more line raises the total by exactly its offer's price times its quantity. */
  lemma OneMoreLine(offers: map<nat, Offer>, request: seq<Line>, line: Line)
    requires Listed(offers, request) && line.product in offers
    ensures Listed(offers, request + [line])
    ensures ItemsTotal(Items(offers, request + [line])) ==
            ItemsTotal(Items(offers, request)) + offers[line.product].price * line.quantity
  {
    var item := OrderItem(line.product, line.quantity, offers[line.product].price);
    assert (request + [line])[..|request|] == request;
    assert Items(offers, request + [line]) == Items(offers, request) + [item];
    ItemsTotalConcat(Items(offers, request), [item]);
    OneItemTotal(item);
  }

  /** What two checkouts that both succeed from the same state cost, when the second has one more line. */
  lemma OneMoreLineCosts(s: State, request: seq<Line>, line: Line, fails: nat -> bool, otherFails: nat -> bool)
    requires Place(s, request, fails).1.Placed? && Place(s, request + [line], otherFails).1.Placed?
    ensures line.product in s.offers
    ensures Place(s, request + [line], otherFails).1.total ==
            Place(s, request, fails).1.total + s.offers[line.product].price * line.quantity
    ensures Place(s, request + [line], otherFails).0.marketBalance ==
            Place(s, request, fails).0.marketBalance - s.offers[line.product].price * line.quantity
  {
    AcceptedIsListed(s.offers, request, fails);
    AcceptedIsListed(s.offers, request + [line], otherFails);
    assert (request + [line])[|request|] == line;
    OneMoreLine(s.offers, request, line);
    hide Items, ItemsTotal, FirstProblem, DecrementFails;
  }

  /** The sum, over some products, of the offer's price times all that a request asks of it. */
  function PricedByProduct(offers: map<nat, Offer>, request: seq<Line>, products: seq<nat>): int
    requires forall i :: 0 <= i < |products| ==> products[i] in offers
  {
    if products == [] then 0
    else offers[products[0]].price * Requested(request, products[0]) + PricedByProduct(offers, request, products[1..])
  }

  lemma {:induction false} PricedByProductGrows(offers: map<nat, Offer>, request: seq<Line>, line: Line, products: seq<nat>)
    requires (forall i :: 0 <= i < |products| ==> products[i] in offers) && Distinct(products) && line.product in offers
    ensures PricedByProduct(offers, request + [line], products) == PricedByProduct(offers, request, products) +
            if line.product in products then offers[line.product].price * line.quantity else 0
  {
    if products != [] {
      var p, rest := products[0], products[1..];
      forall i, j | 0 <= i < j < |rest|
        ensures rest[i] != rest[j]
      {
        assert products[i + 1] != products[j + 1];
      }
      PricedByProductGrows(offers, request, line, rest);
      RequestedConcat(request, line, p);
      assert p !in rest by {
        assert forall i :: 0 <= i < |rest| ==> rest[i] == products[i + 1];
      }
      ProductOfSum(offers[p].price, Requested(request, p), if line.product == p then line.quantity else 0);
    }
  }

  lemma ProductOfSum(price: int, a: int, b: int)
    ensures price * (a + b) == price * a + price * b
  {
  }

  lemma {:induction false} NothingPriced(offers: map<nat, Offer>, products: seq<nat>)
    requires forall i :: 0 <= i < |products| ==> products[i] in offers
    ensures PricedByProduct(offers, [], products) == 0
  {
    if products != [] {
      NothingPriced(offers, products[1..]);
    }
  }

  /** The total, computed line by line, is the sum over the products of price times everything asked of the product. */
  lemma {:induction false} TotalByProduct(offers: map<nat, Offer>, request: seq<Line>, products: seq<nat>)
    requires (forall i :: 0 <= i < |products| ==> products[i] in offers) && Distinct(products) && Listed(offers, request)
    requires forall i :: 0 <= i < |request| ==> request[i].product in products
    ensures ItemsTotal(Items(offers, request)) == PricedByProduct(offers, request, products)
  {
    hide Items, ItemsTotal, Requested, PricedByProduct, Distinct;
    if request == [] {
      NothingPriced(offers, products);
      NoItems(offers);
    } else {
      var before, line := request[..|request| - 1], request[|request| - 1];
      TotalByProduct(offers, before, products);
      OneMoreLine(offers, before, line);
      PricedByProductGrows(offers, before, line, products);
      assert request == before + [line];
    }
  }

  /** So is the total of a successful checkout, for any list of distinct products that covers the request. */
  lemma PlacedTotalByProduct(s: State, request: seq<Line>, fails: nat -> bool, products: seq<nat>)
    requires Place(s, request, fails).1.Placed?
    requires (forall i :: 0 <= i < |products| ==> products[i] in s.offers) && Distinct(products)
    requires forall i :: 0 <= i < |request| ==> request[i].product in products
    ensures Place(s, request, fails).1.total == PricedByProduct(s.offers, request, products)
  {
    AcceptedIsListed(s.offers, request, fails);
    TotalByProduct(s.offers, request, products);
    hide Items, ItemsTotal, FirstProblem, DecrementFails, PricedByProduct, Distinct;
  }

  /** The order a successful checkout records: the next id, pending, one item for each line, all at the offers' prices. */
  lemma PlacedRecords(s: State, request: seq<Line>, fails: nat -> bool)
    requires Place(s, request, fails).1.Placed?
    ensures var (after, result) := Place(s, request, fails);
            && |after.orders| == |s.orders| + 1 && after.orders[..|s.orders|] == s.orders
            && var order := after.orders[|s.orders|];
               && order.id == result.id == s.nextOrder && after.nextOrder == s.nextOrder + 1
               && order.status == "pending" && order.total == result.total && |order.items| == |request|
               && forall i :: 0 <= i < |request| ==>
                                request[i].product in s.offers &&
                                order.items[i] == OrderItem(request[i].product, request[i].quantity,
                                                            s.offers[request[i].product].price)
  {
    AcceptedIsListed(s.offers, request, fails);
    ItemsAreTheLines(s.offers, request);
    hide Items, ItemsTotal, FirstProblem, DecrementFails;
  }

  /**
   * A checkout that succeeds takes from each product's stock the sum of all its lines, and the total from the
   * balance.
   */
  lemma PlacedTakesRequested(s: State, request: seq<Line>, fails: nat -> bool)
    requires Place(s, request, fails).1.Placed?
    ensures Place(s, request, fails).0.offers.Keys == s.offers.Keys
    ensures forall p :: p in s.offers ==>
                          Place(s, request, fails).0.offers[p] ==
                          s.offers[p].(quantity := s.offers[p].quantity - Requested(request, p))
    ensures Place(s, request, fails).0.marketBalance == s.marketBalance - Place(s, request, fails).1.total
  {
    AcceptedIsListed(s.offers, request, fails);
    forall p | p in s.offers
      ensures Deducted(s.offers, request)[p] == s.offers[p].(quantity := s.offers[p].quantity - Requested(request, p))
    {
      DeductedStock(s.offers, request, p);
    }
  }

  /** Every statement succeeds up to the commit, which fails. */
  ghost predicate OnlyCommitFails(request: seq<Line>, fails: nat -> bool) {
    (forall k: nat :: k <= 1 + 3 * |request| ==> !fails(k)) && fails(2 + 3 * |request|)
  }

  /** What a checkout costs although it is refused: the total of an acceptable request whose commit fails. */
  ghost function Charged(s: State, request: seq<Line>, fails: nat -> bool): int {
    if Acceptable(s.offers, request) && Listed(s.offers, request) && OnlyCommitFails(request, fails)
    then ItemsTotal(Items(s.offers, request)) else 0
  }

  /**
   * A checkout that is refused leaves offers and orders as they were, and takes from the balance what Charged says:
   * nothing, unless only the commit failed.
   */
  lemma RefusedChangesNothing(s: State, request: seq<Line>, fails: nat -> bool)
    requires Place(s, request, fails).1.Refused?
    ensures Place(s, request, fails).0.offers == s.offers && Place(s, request, fails).0.orders == s.orders
    ensures Place(s, request, fails).0.marketBalance == s.marketBalance - Charged(s, request, fails)
  {
    ReachesCommitIff(s, request, fails);
    if FirstProblem(s.offers, request, fails, 0) == None {
      AcceptedIsListed(s.offers, request, fails);
    }
  }

  /** A refused checkout changes the balance exactly when only its commit fails and its total is not 0. */
  lemma RefusedChangesBalanceIff(s: State, request: seq<Line>, fails: nat -> bool)
    requires Place(s, request, fails).1.Refused?
    ensures Place(s, request, fails).0.marketBalance != s.marketBalance <==>
            && Acceptable(s.offers, request) && Listed(s.offers, request) && OnlyCommitFails(request, fails)
            && ItemsTotal(Items(s.offers, request)) != 0
  {
    RefusedChangesNothing(s, request, fails);
    hide Place, Items, ItemsTotal, Acceptable, Listed, OnlyCommitFails;
  }

  const ONE_OFFER := map[1 := Offer("meat", 10, 100, "food")]

  lemma OneItem(offers: map<nat, Offer>, line: Line)
    requires line.product in offers
    ensures Listed(offers, [line]) && ItemsTotal(Items(offers, [line])) == offers[line.product].price * line.quantity
  {
    var item := OrderItem(line.product, line.quantity, offers[line.product].price);
    assert [line][..0] == [] && [item][..0] == [];
    assert Items(offers, [line]) == [] + [item] == [item];
    assert ItemsTotal([item]) == ItemsTotal([]) + item.price * item.quantity;
  }

  lemma OneLinePasses(offers: map<nat, Offer>, line: Line, fails: nat -> bool)
    requires !fails(1) && Verdict(offers, line) == None
    ensures FirstProblem(offers, [line], fails, 0) == None
  {
    assert FirstProblem(offers, [line], fails, 1) == None;
  }

  /** Two units at 100 each and a commit, statement 5, that fails: no order is recorded and 200 are gone. */
  lemma MoneyDisappears()
    ensures var s := State(ONE_OFFER, [], 1, INITIAL_BALANCE);
            Place(s, [Line(1, 2)], k => k == 5) == (s.(nextOrder := 2, marketBalance := 4800), Refused(DatabaseError))
  {
    var line, fails := Line(1, 2), (k: nat) => k == 5;
    OneItem(ONE_OFFER, line);
    OneLinePasses(ONE_OFFER, line, fails);
    assert !DecrementFails([line], fails);
    hide FirstProblem, Listed, Items, ItemsTotal, DecrementFails;
  }

  lemma {:induction false} RequestedBound(offers: map<nat, Offer>, request: seq<Line>, product: nat)
    requires Acceptable(offers, request) && product in offers
    ensures Requested(request, product) <= LinesFor(request, product) * offers[product].quantity
    ensures LinesFor(request, product) > 0 ==> offers[product].quantity > 0
  {
    if request != [] {
      var n := |request| - 1;
      assert Acceptable(offers, request[..n]);
      RequestedBound(offers, request[..n], product);
      assert Verdict(offers, request[n]) == None;
      OneMore(LinesFor(request[..n], product), offers[product].quantity);
    }
  }

  lemma OneMore(k: int, q: int)
    ensures (k + 1) * q == k * q + q
  {
  }

  /**
   * Each line is checked against the stock before the request, so k lines for one product can take up to k times
   * its stock: after an accepted checkout the stock is at least -(k - 1) times what it was.
   */
  lemma StockAfterCheckout(offers: map<nat, Offer>, request: seq<Line>, product: nat)
    requires Acceptable(offers, request) && Listed(offers, request) && product in offers
    ensures Deducted(offers, request)[product].quantity >= -((LinesFor(request, product) - 1) * offers[product].quantity)
  {
    DeductedStock(offers, request, product);
    RequestedBound(offers, request, product);
    OneMore(LinesFor(request, product) - 1, offers[product].quantity);
  }

  /** One line alone never takes more than there is. */
  lemma OneLineLeavesStock(offers: map<nat, Offer>, request: seq<Line>, product: nat)
    requires Acceptable(offers, request) && Listed(offers, request) && product in offers
    ensures LinesFor(request, product) == 1 ==> Deducted(offers, request)[product].quantity >= 0
  {
    hide Deducted, LinesFor, Acceptable, Listed;
    StockAfterCheckout(offers, request, product);
  }

  function Products(request: seq<Line>): seq<nat> {
    seq(|request|, i requires 0 <= i < |request| => request[i].product)
  }

  ghost predicate Distinct(products: seq<nat>) {
    forall i, j :: 0 <= i < j < |products| ==> products[i] != products[j]
  }

  ghost predicate NeverOversells(offers: map<nat, Offer>, request: seq<Line>) {
    Acceptable(offers, request) && Listed(offers, request) ==>
      forall i :: 0 <= i < |request| ==> Deducted(offers, request)[request[i].product].quantity >= 0
  }

  lemma {:induction false} DistinctMeansOneLine(request: seq<Line>, product: nat)
    requires Distinct(Products(request))
    ensures LinesFor(request, product) <= 1
    ensures LinesFor(request, product) == 1 <==> exists i :: 0 <= i < |request| && request[i].product == product
  {
    if request != [] {
      var n := |request| - 1;
      assert Distinct(Products(request[..n])) by {
        assert Products(request[..n]) == Products(request)[..n];
      }
      DistinctMeansOneLine(request[..n], product);
      if request[n].product == product {
        forall i | 0 <= i < n
          ensures request[..n][i].product != product
        {
          assert Products(request)[i] != Products(request)[n];
        }
      } else {
        assert forall i :: 0 <= i < n ==> request[..n][i] == request[i];
      }
    }
  }

  lemma {:induction false} LinesForTwo(request: seq<Line>, i: nat, j: nat)
    requires i < j < |request| && request[i].product == request[j].product
    ensures LinesFor(request, request[i].product) >= 2
  {
    var n := |request| - 1;
    if j < n {
      LinesForTwo(request[..n], i, j);
    } else {
      LinesForOne(request[..n], i);
    }
  }

  lemma {:induction false} LinesForOne(request: seq<Line>, i: nat)
    requires i < |request|
    ensures LinesFor(request, request[i].product) >= 1
  {
    var n := |request| - 1;
    if i < n {
      LinesForOne(request[..n], i);
    }
  }

  /** One unit of each product, and a stock of one for each of them. */
  function OneEach(products: seq<nat>): (request: seq<Line>)
    ensures Products(request) == products
  {
    seq(|products|, i requires 0 <= i < |products| => Line(products[i], 1))
  }

  function StockOfOne(products: seq<nat>): map<nat, Offer> {
    map p | p in products :: Offer("", 1, 1, "")
  }

  lemma {:induction false} RequestedOnes(request: seq<Line>, product: nat)
    requires forall i :: 0 <= i < |request| ==> request[i].quantity == 1
    ensures Requested(request, product) == LinesFor(request, product)
  {
    if request != [] {
      RequestedOnes(request[..|request| - 1], product);
    }
  }

  /**
   * Which requests can drive a stock below zero: for a given list of products, no accepted request oversells if and
   * only if the list names no product twice.
   */
  lemma OversellsIffRepeated(products: seq<nat>)
    ensures (forall offers: map<nat, Offer>, request: seq<Line> :: Products(request) == products ==> NeverOversells(offers, request))
            <==> Distinct(products)
  {
    if Distinct(products) {
      forall offers: map<nat, Offer>, request: seq<Line> | Products(request) == products
        ensures NeverOversells(offers, request)
      {
        if Acceptable(offers, request) && Listed(offers, request) {
          forall i | 0 <= i < |request|
            ensures Deducted(offers, request)[request[i].product].quantity >= 0
          {
            DistinctMeansOneLine(request, request[i].product);
            OneLineLeavesStock(offers, request, request[i].product);
          }
        }
      }
    } else {
      var offers, request := StockOfOne(products), OneEach(products);
      var i, j :| 0 <= i < j < |products| && products[i] == products[j];
      LinesForTwo(request, i, j);
      RequestedOnes(request, products[i]);
      DeductedStock(offers, request, request[i].product);
      assert Deducted(offers, request)[request[i].product].quantity < 0;
      assert !NeverOversells(offers, request);
    }
  }
}
