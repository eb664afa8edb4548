/** The WebSocket manager: the bounded channel of order updates, the registered connections, and one
    turn of the broadcaster run without interruption. Interleavings are in module Broadcast. */
module WebSocket {
  import opened Prelude
  import opened Orders
  import opened Subscriptions

  const CHANNEL_CAPACITY := 100

  // A send that never blocks: the update is dropped when the channel is full.
  function Offer(channel: seq<Snapshot>, update: Snapshot): seq<Snapshot> {
    if |channel| < CHANNEL_CAPACITY then channel + [update] else channel
  }

  // A subscriber sees orders without an owner and orders of its own address in any letter case.
  predicate Wants(owner: string, subscriber: string) {
    subscriber != "" && (owner == "" || NormalizeAddress(owner) == subscriber)
  }

  // For a subscriber without capitals, as every normalized address is, that is its own address up to
  // letter case; a subscription as another text reaches only orders without an owner.
  lemma WantsMeans(owner: string, subscriber: string)
    ensures Wants(owner, subscriber) <==>
            subscriber != "" && (owner == "" || (SameUpToCase(owner, subscriber) && NoCapitals(subscriber)))
  {
    NormalFormsAgree(owner, subscriber);
  }

  // So a subscription with some address, in any letter case, reaches exactly the orders without an
  // owner and those of that address.
  lemma SubscriptionMeans(owner: string, address: string)
    ensures Wants(owner, NormalizeAddress(address)) <==>
            address != "" && (owner == "" || SameUpToCase(owner, address))
  {
    NormalFormsAgree(owner, address);
  }

  type ConnId = nat

  // What one update does to the log of a connection subscribed as this user.
  function Pushed(log: seq<Snapshot>, user: string, update: Snapshot): seq<Snapshot> {
    if Wants(update.order.user, user) then log + [update] else log
  }

  // The log gains exactly this update if there is a subscription and the order has no owner or that
  // subscriber as its owner, up to letter case, and nothing otherwise.
  lemma PushedMeans(log: seq<Snapshot>, user: string, update: Snapshot)
    requires NoCapitals(user)
    ensures var owner := update.order.user;
            Pushed(log, user, update) ==
            if user != "" && (owner == "" || SameUpToCase(owner, user)) then log + [update] else log
  {
    WantsMeans(update.order.user, user);
  }

  // At most 100 updates wait; the next one is dropped.
  lemma OfferMeans(channel: seq<Snapshot>, update: Snapshot)
    ensures |channel| < 100 ==> Offer(channel, update) == channel + [update]
    ensures |channel| >= 100 ==> Offer(channel, update) == channel
  {
  }

  class WebSocketManager {
    var connections: map<ConnId, ConnectionState>
    var orderUpdatesCh: seq<Snapshot>

    ghost predicate Valid()
      reads this
    {
      && |orderUpdatesCh| <= CHANNEL_CAPACITY
      && forall a, b | a in connections && b in connections && connections[a] == connections[b] :: a == b
    }

    constructor ()
      ensures Valid() && connections == map[] && orderUpdatesCh == []
    {
      connections, orderUpdatesCh := map[], [];
    }

    method BroadcastOrderUpdate(order: OrderDetail)
      modifies this`orderUpdatesCh
      ensures orderUpdatesCh == Offer(old(orderUpdatesCh), order.Copy())
    {
      var update := Snapshot(order.order, order.status);
      if |orderUpdatesCh| < CHANNEL_CAPACITY {
        orderUpdatesCh := orderUpdatesCh + [update];
      }
    }

    method Connect(id: ConnId)
      requires Valid() && id !in connections
      modifies this`connections
      ensures Valid() && connections.Keys == old(connections.Keys) + {id}
      ensures fresh(connections[id]) && connections[id].Subscribed() == NO_FEEDS
      ensures forall c | c in old(connections) :: connections[c] == old(connections[c])
    {
      var state := new ConnectionState();
      connections := connections[id := state];
    }

    method Disconnect(id: ConnId)
      requires Valid()
      modifies this`connections
      ensures Valid() && connections == old(connections) - {id}
    {
      connections := connections - {id};
    }

    // One turn of broadcastOrderUpdates: the oldest update goes once to every connection that wants
    // it and to no other, in whatever order the connections are visited.
    method BroadcastNext()
      requires Valid() && orderUpdatesCh != []
      modifies this`orderUpdatesCh, connections.Values`updates
      ensures Valid() && orderUpdatesCh == old(orderUpdatesCh)[1..] && connections == old(connections)
      ensures forall c | c in connections ::
                connections[c].updates ==
                Pushed(old(connections[c].updates), connections[c].orderUpdatesUser, old(orderUpdatesCh)[0])
      ensures var update := old(orderUpdatesCh)[0];
              forall c | c in connections && connections[c].orderUpdatesUser != "" && update.order.user == "" ::
                connections[c].updates == old(connections[c].updates) + [update]
    {
      var update := orderUpdatesCh[0];
      orderUpdatesCh := orderUpdatesCh[1..];
      var left := connections.Keys;
      while left != {}
        invariant orderUpdatesCh == old(orderUpdatesCh)[1..] && left <= connections.Keys
        invariant forall c | c in left :: connections[c].updates == old(connections[c].updates)
        invariant forall c | c in connections && c !in left ::
                    connections[c].updates ==
                    Pushed(old(connections[c].updates), connections[c].orderUpdatesUser, update)
        decreases left
      {
        var c :| c in left;
        left := left - {c};
        var state := connections[c];
        var subscribedUser := state.orderUpdatesUser;
        if subscribedUser == "" {
          continue;
        }
        var orderUser := update.order.user;
        if orderUser == "" || NormalizeAddress(orderUser) == subscribedUser {
          state.SendUpdate(update);
        }
      }
    }
  }
}
