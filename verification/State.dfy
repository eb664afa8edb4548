/** The State type: a map from canonical cloid keys to order objects that are updated in place, every
    committed change being offered to the WebSocket manager's channel. Each method is proved against
    the operation of module Orders it performs. */
module State {
  import opened Prelude
  import opened Orders
  import opened WebSocket

  // What a channel holds after an operation: the written order's snapshot, if there was one and room.
  ghost function Announced(channel: seq<Snapshot>, s: Store, op: Op): seq<Snapshot> {
    if Target(s, op).None? then channel else Offer(channel, Written(s, op))
  }

  // What is announced is the order as it is stored afterwards, unless 100 updates wait already.
  lemma AnnouncesStored(channel: seq<Snapshot>, s: Store, op: Op)
    ensures Target(s, op).None? ==> Announced(channel, s, op) == channel && Apply(s, op) == s
    ensures Target(s, op).Some? ==>
              var k := Target(s, op).value;
              && k in Apply(s, op).orders
              && Announced(channel, s, op) ==
                 if |channel| < 100 then channel + [Apply(s, op).orders[k]] else channel
  {
  }

  class State {
    var orders: map<string, OrderDetail>
    var nextOid: int
    const wsm: WebSocketManager?

    ghost function Objects(): set<OrderDetail>
      reads this
    {
      orders.Values
    }

    ghost function Contents(): Store
      reads this, orders.Values
    {
      Store(map k | k in orders :: orders[k].Copy(), nextOid)
    }

    ghost predicate Valid()
      reads this, orders.Values
    {
      && (forall j, k | j in orders && k in orders && orders[j] == orders[k] :: j == k)
      && Inv(Contents())
    }

    ghost function Watcher(): set<WebSocketManager>
      reads this
    {
      if wsm == null then {} else {wsm}
    }

    constructor (wsm: WebSocketManager?)
      ensures Valid() && Contents() == Empty() && Objects() == {} && this.wsm == wsm
    {
      this.wsm := wsm;
      orders := map[];
      nextOid := FIRST_OID;
    }

    // Writing to one order object, or replacing it, changes the contents under its key only.
    twostate lemma OnlyChangedAt(key: string)
      requires old(Valid()) && key in orders && orders == old(orders)[key := orders[key]]
      requires forall o | o in old(Objects()) && o != orders[key] :: unchanged(o)
      requires forall k | k in old(orders) && k != key :: old(orders)[k] != orders[key]
      ensures Contents() == Store(old(Contents()).orders[key := orders[key].Copy()], nextOid)
    {
      forall k | k in orders && k != key ensures orders[k].Copy() == old(orders[k].Copy()) {
        assert orders[k] == old(orders)[k] && orders[k] in old(Objects());
      }
    }

    method Publish(order: OrderDetail)
      modifies Watcher()`orderUpdatesCh
      ensures wsm != null ==> wsm.orderUpdatesCh == Offer(old(wsm.orderUpdatesCh), order.Copy())
    {
      if wsm != null {
        wsm.BroadcastOrderUpdate(order);
      }
    }

    method CreateOrder(cloid: string, coin: string, side: string, limitPx: Quantity, sz: Quantity, user: string)
      returns (oid: int)
      requires Valid()
      modifies this, Watcher()`orderUpdatesCh
      ensures Valid() && fresh(Objects() - old(Objects()))
      ensures var op := Create(cloid, coin, side, limitPx, sz, user);
              && Contents() == Apply(old(Contents()), op)
              && (wsm != null ==> wsm.orderUpdatesCh == Announced(old(wsm.orderUpdatesCh), old(Contents()), op))
      ensures oid == nextOid == old(nextOid) + 1
    {
      ghost var before := Contents();
      ghost var op := Create(cloid, coin, side, limitPx, sz, user);
      ApplyKeepsInv(before, op);
      nextOid := nextOid + 1;
      oid := nextOid;
      var order := new OrderDetail(OrderInfo(coin, side, limitPx, sz, oid, sz, cloid, user), "open");
      var key := CanonicalKey(cloid);
      orders := orders[key := order];
      OnlyChangedAt(key);
      assert Target(before, op) == Some(key) && Written(before, op) == order.Copy();
      Publish(order);
    }

    // The three ways an order object is changed in place.
    method Reprice(order: OrderDetail, limitPx: Quantity, sz: Quantity)
      modifies order, Watcher()`orderUpdatesCh
      ensures order.Copy() == Repriced(old(order.Copy()), limitPx, sz)
      ensures wsm != null ==> wsm.orderUpdatesCh == Offer(old(wsm.orderUpdatesCh), order.Copy())
    {
      order.order := order.order.(limitPx := limitPx);
      order.order := order.order.(sz := sz);
      Publish(order);
    }

    method MarkCanceled(order: OrderDetail)
      modifies order, Watcher()`orderUpdatesCh
      ensures order.Copy() == Canceled(old(order.Copy()))
      ensures wsm != null ==> wsm.orderUpdatesCh == Offer(old(wsm.orderUpdatesCh), order.Copy())
    {
      order.status := "canceled";
      Publish(order);
    }

    method ModifyOrder(cloid: string, limitPx: Quantity, sz: Quantity) returns (oid: int, ok: bool)
      requires Valid()
      modifies Objects(), Watcher()`orderUpdatesCh
      ensures Valid() && orders == old(orders)
      ensures var op := Modify(cloid, limitPx, sz);
              && Contents() == Apply(old(Contents()), op)
              && (wsm != null ==> wsm.orderUpdatesCh == Announced(old(wsm.orderUpdatesCh), old(Contents()), op))
      ensures ok <==> Present(old(Contents()), cloid).Some?
      ensures ok ==> oid == old(Contents()).orders[CanonicalKey(cloid)].order.oid
    {
      ghost var before := Contents();
      var key := CanonicalKey(cloid);
      if key !in orders {
        return 0, false;
      }
      var order := orders[key];
      Reprice(order, limitPx, sz);
      OnlyChangedAt(key);
      ApplyKeepsInv(before, Modify(cloid, limitPx, sz));
      return order.order.oid, true;
    }

    method CancelOrder(cloid: string) returns (ok: bool)
      requires Valid()
      modifies Objects(), Watcher()`orderUpdatesCh
      ensures Valid() && orders == old(orders)
      ensures Contents() == Apply(old(Contents()), Cancel(cloid))
      ensures wsm != null ==>
                wsm.orderUpdatesCh == Announced(old(wsm.orderUpdatesCh), old(Contents()), Cancel(cloid))
      ensures ok <==> Present(old(Contents()), cloid).Some?
    {
      ghost var before := Contents();
      var key := CanonicalKey(cloid);
      if key !in orders {
        return false;
      }
      MarkCanceled(orders[key]);
      OnlyChangedAt(key);
      ApplyKeepsInv(before, Cancel(cloid));
      return true;
    }

    // The scan of the OID operations: the keys are visited in an arbitrary order until one matches.
    method FindOid(oid: int) returns (key: Option<string>)
      requires Valid()
      ensures key == KeyOfOid(Contents(), oid)
      ensures key.Some? ==> key.value in orders && orders[key.value].order.oid == oid
    {
      var left := orders.Keys;
      while left != {}
        invariant left <= orders.Keys
        invariant forall k | k in orders && k !in left :: orders[k].order.oid != oid
        decreases left
      {
        var k :| k in left;
        left := left - {k};
        if orders[k].order.oid == oid {
          ScanHasOneHit(Contents(), oid, k);
          return Some(k);
        }
      }
      assert forall k :: !Holds(Contents(), oid, k);
      return None;
    }

    method ModifyOrderByOid(oid: int, limitPx: Quantity, sz: Quantity) returns (modified: int, ok: bool)
      requires Valid()
      modifies Objects(), Watcher()`orderUpdatesCh
      ensures Valid() && orders == old(orders)
      ensures var op := ModifyByOid(oid, limitPx, sz);
              && Contents() == Apply(old(Contents()), op)
              && (wsm != null ==> wsm.orderUpdatesCh == Announced(old(wsm.orderUpdatesCh), old(Contents()), op))
      ensures ok <==> KeyOfOid(old(Contents()), oid).Some?
      ensures ok ==> modified == oid
    {
      ghost var before := Contents();
      var key := FindOid(oid);
      if key.None? {
        return 0, false;
      }
      var order := orders[key.value];
      Reprice(order, limitPx, sz);
      OnlyChangedAt(key.value);
      ApplyKeepsInv(before, ModifyByOid(oid, limitPx, sz));
      return order.order.oid, true;
    }

    method CancelOrderByOid(oid: int) returns (ok: bool)
      requires Valid()
      modifies Objects(), Watcher()`orderUpdatesCh
      ensures Valid() && orders == old(orders)
      ensures Contents() == Apply(old(Contents()), CancelByOid(oid))
      ensures wsm != null ==>
                wsm.orderUpdatesCh == Announced(old(wsm.orderUpdatesCh), old(Contents()), CancelByOid(oid))
      ensures ok <==> KeyOfOid(old(Contents()), oid).Some?
    {
      ghost var before := Contents();
      var key := FindOid(oid);
      if key.None? {
        return false;
      }
      MarkCanceled(orders[key.value]);
      OnlyChangedAt(key.value);
      ApplyKeepsInv(before, CancelByOid(oid));
      return true;
    }

    // Queries return a new object holding a copy, never a stored one.
    method GetOrder(cloid: string) returns (copy: OrderDetail?)
      requires Valid()
      ensures copy == null <==> Present(Contents(), cloid).None?
      ensures copy != null <==> exists k :: k in orders && SameCloid(orders[k].order.cloid, cloid)
      ensures copy != null ==> SameCloid(copy.order.cloid, cloid)
      ensures copy != null ==> fresh(copy) && copy.Copy() == Contents().orders[CanonicalKey(cloid)]
    {
      PresentMeans(Contents(), cloid);
      assert forall k | k in orders :: Contents().orders[k].order == orders[k].order;
      var key := CanonicalKey(cloid);
      if key !in orders {
        return null;
      }
      KeysAgree(orders[key].order.cloid, cloid);
      var order := orders[key];
      copy := new OrderDetail(order.order, order.status);
    }

    method GetOrderByOid(oid: int) returns (copy: OrderDetail?)
      requires Valid()
      ensures copy == null <==> KeyOfOid(Contents(), oid).None?
      ensures copy != null ==> fresh(copy) && copy.Copy() == Contents().orders[KeyOfOid(Contents(), oid).value]
    {
      var key := FindOid(oid);
      if key.None? {
        return null;
      }
      var order := orders[key.value];
      copy := new OrderDetail(order.order, order.status);
    }

    // The arithmetic of FillOrder on an order whose size is the number remaining.
    method ExecuteFill(order: OrderDetail, remaining: real, fillPrice: real, fillSize: Option<real>)
      requires order.order.sz == Decimal(remaining)
      modifies order, Watcher()`orderUpdatesCh
      ensures old(order.order.sz).Decimal? && order.Copy() == Filled(old(order.Copy()), fillPrice, fillSize)
      ensures wsm != null ==> wsm.orderUpdatesCh == Offer(old(wsm.orderUpdatesCh), order.Copy())
    {
      var fillAmount := remaining;
      if fillSize.Some? {
        fillAmount := fillSize.value;
      }
      if fillAmount < 0.0 {
        fillAmount := 0.0;
      }
      if fillAmount > remaining {
        fillAmount := remaining;
      }
      var newRemaining := remaining - fillAmount;
      if Abs(newRemaining) < DUST {
        newRemaining := 0.0;
      }
      order.order := order.order.(sz := Decimal(newRemaining));
      order.order := order.order.(limitPx := Decimal(fillPrice));
      if newRemaining == 0.0 {
        order.status := "filled";
      } else {
        order.status := "open";
      }
      Publish(order);
    }

    // Refused when the cloid is unknown or the stored size is not a number.
    method FillOrder(cloid: string, fillPrice: real, fillSize: Option<real>) returns (ok: bool)
      requires Valid()
      modifies Objects(), Watcher()`orderUpdatesCh
      ensures Valid() && orders == old(orders)
      ensures var op := Fill(cloid, fillPrice, fillSize);
              && Contents() == Apply(old(Contents()), op)
              && (wsm != null ==> wsm.orderUpdatesCh == Announced(old(wsm.orderUpdatesCh), old(Contents()), op))
              && (ok <==> Target(old(Contents()), op).Some?)
    {
      ghost var before := Contents();
      var key := CanonicalKey(cloid);
      if key !in orders {
        return false;
      }
      var order := orders[key];
      if !order.order.sz.Decimal? {
        return false;
      }
      ExecuteFill(order, order.order.sz.value, fillPrice, fillSize);
      OnlyChangedAt(key);
      ApplyKeepsInv(before, Fill(cloid, fillPrice, fillSize));
      return true;
    }

    // Performs any operation through its method.
    method Perform(op: Op)
      requires Valid()
      modifies this, Objects(), Watcher()`orderUpdatesCh
      ensures Valid() && fresh(Objects() - old(Objects()))
      ensures Contents() == Apply(old(Contents()), op)
    {
      match op {
        case Create(cloid, coin, side, px, sz, user) => var _ := CreateOrder(cloid, coin, side, px, sz, user);
        case Modify(cloid, px, sz) => var _, _ := ModifyOrder(cloid, px, sz);
        case ModifyByOid(oid, px, sz) => var _, _ := ModifyOrderByOid(oid, px, sz);
        case Cancel(cloid) => var _ := CancelOrder(cloid);
        case CancelByOid(oid) => var _ := CancelOrderByOid(oid);
        case Fill(cloid, price, wanted) => var _ := FillOrder(cloid, price, wanted);
      }
    }

    // A copy outside the store, as every query returns, is unchanged by any sequence of operations.
    method CopiesAreStable(copy: OrderDetail, ops: seq<Op>)
      requires Valid() && copy !in Objects()
      modifies this, Objects(), Watcher()`orderUpdatesCh
      ensures Valid() && Contents() == Run(old(Contents()), ops)
      ensures copy !in Objects() && copy.Copy() == old(copy.Copy())
    {
      var i := 0;
      while i < |ops|
        invariant 0 <= i <= |ops| && Valid() && fresh(Objects() - old(Objects()))
        invariant Contents() == Run(old(Contents()), ops[..i])
        invariant copy !in Objects() && copy.Copy() == old(copy.Copy())
      {
        Perform(ops[i]);
        RunAppend(old(Contents()), ops[..i], ops[i]);
        assert ops[..i + 1] == ops[..i] + [ops[i]];
        i := i + 1;
      }
      assert ops[..i] == ops;
    }
  }
}
