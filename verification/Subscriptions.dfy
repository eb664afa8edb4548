/** Subscription messages of one WebSocket connection: how each changes what the connection is
    subscribed to, and what the subscriptions are after any sequence of messages. */
module Subscriptions {
  import opened Prelude
  import opened Orders

  function NormalizeAddress(address: string): string {
    ToLower(address)
  }

  // Addresses are compared up to letter case: the normal form has no capitals, and two addresses have
  // one normal form exactly when they differ in case only.
  lemma NormalFormsAgree(a: string, b: string)
    ensures NormalizeAddress(a) == NormalizeAddress(b) <==> SameUpToCase(a, b)
    ensures SameUpToCase(a, NormalizeAddress(a)) && NoCapitals(NormalizeAddress(a))
    ensures NormalizeAddress(a) == b <==> SameUpToCase(a, b) && NoCapitals(b)
  {
    LowerCasesAgree(a, b);
    ToLowerMeans(a, b);
    ToLowerMeans(a, ToLower(a));
  }

  // The fields of a subscription that are read, when they are present and are text.
  datatype Subscription = Subscription(kind: Option<string>, user: Option<string>, coin: Option<string>)

  datatype Message =
    | Malformed
    | Subscribe(sub: Subscription)
    | Unsubscribe(sub: Subscription)
    | OtherMethod(name: string)

  datatype Feeds = Feeds(user: string, l2Book: set<string>, bbo: set<string>)

  const NO_FEEDS := Feeds("", {}, {})

  function Handle(f: Feeds, m: Message): Feeds {
    match m
    case Malformed => f
    case OtherMethod(_) => f
    case Subscribe(Subscription(kind, user, coin)) =>
      if kind == Some("orderUpdates") && user.Some? then f.(user := NormalizeAddress(user.value))
      else if kind == Some("l2Book") && coin.Some? then f.(l2Book := f.l2Book + {coin.value})
      else if kind == Some("bbo") && coin.Some? then f.(bbo := f.bbo + {coin.value})
      else f
    case Unsubscribe(Subscription(kind, _, coin)) =>
      if kind == Some("orderUpdates") then f.(user := "")
      else if kind in {Some("l2Book"), Some("bbo")} && coin.Some? then
        f.(l2Book := f.l2Book - {coin.value}, bbo := f.bbo - {coin.value})
      else f
  }

  function HandleAll(messages: seq<Message>): Feeds {
    if messages == [] then NO_FEEDS
    else Handle(HandleAll(messages[..|messages| - 1]), messages[|messages| - 1])
  }

  // What is sent back: acknowledgements, errors, and the snapshot a new book subscription gets.
  datatype Frame =
    | Acknowledged(sub: Subscription)
    | Failed(reason: string)
    | InitialL2Book(coin: string)
    | InitialBbo(coin: string)

  function Reply(m: Message): seq<Frame> {
    match m
    case Malformed => [Failed("Invalid subscription message")]
    case OtherMethod(name) => [Failed("Unknown method: " + name)]
    case Unsubscribe(_) => []
    case Subscribe(sub) =>
      if sub.kind.None? then [Failed("Missing subscription type")]
      else match sub.kind.value
        case "orderUpdates" =>
          if sub.user.None? then [Failed("Missing user address for orderUpdates")] else [Acknowledged(sub)]
        case "l2Book" =>
          if sub.coin.None? then [Failed("Missing coin for l2Book")]
          else [Acknowledged(sub), InitialL2Book(sub.coin.value)]
        case "bbo" =>
          if sub.coin.None? then [Failed("Missing coin for bbo")]
          else [Acknowledged(sub), InitialBbo(sub.coin.value)]
        case other => [Failed("Unsupported subscription type: " + other)]
  }

  class ConnectionState {
    var orderUpdatesUser: string
    var l2BookCoins: set<string>
    var bboCoins: set<string>
    var sent: seq<Frame>
    var updates: seq<Snapshot>  // order updates written to the connection

    ghost function Subscribed(): Feeds
      reads this
    {
      Feeds(orderUpdatesUser, l2BookCoins, bboCoins)
    }

    constructor ()
      ensures Subscribed() == NO_FEEDS && sent == [] && updates == []
    {
      orderUpdatesUser, l2BookCoins, bboCoins, sent, updates := "", {}, {}, [], [];
    }

    method SendFrame(frame: Frame)
      modifies this`sent
      ensures sent == old(sent) + [frame]
    {
      sent := sent + [frame];
    }

    method SendUpdate(update: Snapshot)
      modifies this`updates
      ensures updates == old(updates) + [update]
    {
      updates := updates + [update];
    }

    method HandleMessage(m: Message)
      modifies this
      ensures Subscribed() == Handle(old(Subscribed()), m)
      ensures sent == old(sent) + Reply(m) && updates == old(updates)
    {
      match m {
        case Malformed => SendFrame(Failed("Invalid subscription message"));
        case Subscribe(sub) => HandleSubscribe(sub);
        case Unsubscribe(sub) => HandleUnsubscribe(sub);
        case OtherMethod(name) => SendFrame(Failed("Unknown method: " + name));
      }
    }

    method HandleSubscribe(sub: Subscription)
      modifies this
      ensures Subscribed() == Handle(old(Subscribed()), Subscribe(sub))
      ensures sent == old(sent) + Reply(Subscribe(sub)) && updates == old(updates)
    {
      if sub.kind.None? {
        SendFrame(Failed("Missing subscription type"));
        return;
      }
      match sub.kind.value {
        case "orderUpdates" =>
          if sub.user.None? {
            SendFrame(Failed("Missing user address for orderUpdates"));
            return;
          }
          orderUpdatesUser := NormalizeAddress(sub.user.value);
          SendFrame(Acknowledged(sub));
        case "l2Book" =>
          if sub.coin.None? {
            SendFrame(Failed("Missing coin for l2Book"));
            return;
          }
          l2BookCoins := l2BookCoins + {sub.coin.value};
          SendFrame(Acknowledged(sub));
          SendFrame(InitialL2Book(sub.coin.value));
        case "bbo" =>
          if sub.coin.None? {
            SendFrame(Failed("Missing coin for bbo"));
            return;
          }
          bboCoins := bboCoins + {sub.coin.value};
          SendFrame(Acknowledged(sub));
          SendFrame(InitialBbo(sub.coin.value));
        case other =>
          SendFrame(Failed("Unsupported subscription type: " + other));
      }
    }

    method HandleUnsubscribe(sub: Subscription)
      modifies this
      ensures Subscribed() == Handle(old(Subscribed()), Unsubscribe(sub))
      ensures sent == old(sent) && updates == old(updates)
    {
      if sub.kind.None? {
        return;
      }
      match sub.kind.value {
        case "orderUpdates" =>
          orderUpdatesUser := "";
        case "l2Book" =>
          DropCoin(sub);
        case "bbo" =>
          DropCoin(sub);
        case _ =>
      }
    }

    method DropCoin(sub: Subscription)
      modifies this`l2BookCoins, this`bboCoins
      ensures sub.coin.None? ==> Subscribed() == old(Subscribed())
      ensures sub.coin.Some? ==>
                && l2BookCoins == old(l2BookCoins) - {sub.coin.value}
                && bboCoins == old(bboCoins) - {sub.coin.value}
    {
      if sub.coin.None? {
        return;
      }
      l2BookCoins := l2BookCoins - {sub.coin.value};
      bboCoins := bboCoins - {sub.coin.value};
    }
  }

  // ---------- the subscriptions after any messages ----------

  predicate AsksForCoin(m: Message, kind: string, coin: string) {
    m.Subscribe? && m.sub.kind == Some(kind) && m.sub.coin == Some(coin)
  }

  predicate DropsCoin(m: Message, coin: string) {
    m.Unsubscribe? && m.sub.kind in {Some("l2Book"), Some("bbo")} && m.sub.coin == Some(coin)
  }

  predicate AsksForUser(m: Message) {
    m.Subscribe? && m.sub.kind == Some("orderUpdates") && m.sub.user.Some?
  }

  predicate DropsUser(m: Message) {
    m.Unsubscribe? && m.sub.kind == Some("orderUpdates")
  }

  // Some matching subscribe comes after every unsubscribe of the coin, under either type.
  ghost predicate AskedSinceDropped(messages: seq<Message>, kind: string, coin: string) {
    exists i | 0 <= i < |messages| && AsksForCoin(messages[i], kind, coin) ::
      forall j | i < j < |messages| :: !DropsCoin(messages[j], coin)
  }

  lemma AskedLast(messages: seq<Message>, m: Message, kind: string, coin: string)
    ensures AskedSinceDropped(messages + [m], kind, coin) <==>
            AsksForCoin(m, kind, coin) || (AskedSinceDropped(messages, kind, coin) && !DropsCoin(m, coin))
  {
    var all, n := messages + [m], |messages|;
    if AskedSinceDropped(all, kind, coin) {
      var i :| 0 <= i < |all| && AsksForCoin(all[i], kind, coin) &&
               forall j | i < j < |all| :: !DropsCoin(all[j], coin);
      if i < n {
        assert all[n] == m && AsksForCoin(messages[i], kind, coin);
        assert forall j | i < j < n :: messages[j] == all[j];
      }
    }
    if AsksForCoin(m, kind, coin) {
      assert AsksForCoin(all[n], kind, coin);
    } else if AskedSinceDropped(messages, kind, coin) && !DropsCoin(m, coin) {
      var i :| 0 <= i < n && AsksForCoin(messages[i], kind, coin) &&
               forall j | i < j < n :: !DropsCoin(messages[j], coin);
      assert AsksForCoin(all[i], kind, coin) && forall j | i < j < |all| :: !DropsCoin(all[j], coin);
    }
  }

  // A coin is subscribed exactly when it was asked for after it was last dropped, in either form.
  lemma {:induction false} CoinsFollowMessages(messages: seq<Message>, coin: string)
    ensures coin in HandleAll(messages).l2Book <==> AskedSinceDropped(messages, "l2Book", coin)
    ensures coin in HandleAll(messages).bbo <==> AskedSinceDropped(messages, "bbo", coin)
  {
    if messages != [] {
      var earlier, m := messages[..|messages| - 1], messages[|messages| - 1];
      CoinsFollowMessages(earlier, coin);
      assert messages == earlier + [m];
      AskedLast(earlier, m, "l2Book", coin);
      AskedLast(earlier, m, "bbo", coin);
    }
  }

  // The subscribed user is that of the last well-formed subscribe, unless an unsubscribe follows it.
  lemma {:induction false} UserFollowsMessages(messages: seq<Message>, i: nat)
    requires i < |messages| && AsksForUser(messages[i])
    requires forall j | i < j < |messages| :: !AsksForUser(messages[j]) && !DropsUser(messages[j])
    ensures HandleAll(messages).user == NormalizeAddress(messages[i].sub.user.value)
  {
    if i < |messages| - 1 {
      UserFollowsMessages(messages[..|messages| - 1], i);
    }
  }

  lemma {:induction false} NoUserAfterDrop(messages: seq<Message>)
    requires forall i | 0 <= i < |messages| && AsksForUser(messages[i]) ::
               exists j :: i < j < |messages| && DropsUser(messages[j])
    ensures HandleAll(messages).user == ""
  {
    if messages != [] {
      var n := |messages| - 1;
      assert messages[n] == messages[|messages| - 1];
      if !DropsUser(messages[n]) {
        forall i | 0 <= i < n && AsksForUser(messages[..n][i])
          ensures exists j :: i < j < n && DropsUser(messages[..n][j])
        {
          assert AsksForUser(messages[i]);
          var j :| i < j < |messages| && DropsUser(messages[j]);
          assert DropsUser(messages[..n][j]);
        }
        NoUserAfterDrop(messages[..n]);
      }
    }
  }

  // ---------- what a client is told ----------

  // The message takes effect: it asks for the updates of a user or for a feed of a coin.
  predicate Asks(m: Message) {
    AsksForUser(m) ||
    (m.Subscribe? && m.sub.coin.Some? &&
     (AsksForCoin(m, "l2Book", m.sub.coin.value) || AsksForCoin(m, "bbo", m.sub.coin.value)))
  }

  // A subscribe that takes effect is acknowledged first, and a feed of a coin then starts with a
  // snapshot of that coin. An unsubscribe is not answered. Everything else is answered with exactly
  // one error and changes nothing.
  lemma RepliesTell(f: Feeds, m: Message)
    ensures Asks(m) ==> Reply(m) != [] && Reply(m)[0] == Acknowledged(m.sub)
    ensures AsksForUser(m) ==> |Reply(m)| == 1
    ensures forall coin :: AsksForCoin(m, "l2Book", coin) ==> Reply(m)[1..] == [InitialL2Book(coin)]
    ensures forall coin :: AsksForCoin(m, "bbo", coin) ==> Reply(m)[1..] == [InitialBbo(coin)]
    ensures m.Unsubscribe? ==> Reply(m) == []
    ensures !Asks(m) && !m.Unsubscribe? ==> |Reply(m)| == 1 && Reply(m)[0].Failed? && Handle(f, m) == f
  {
  }

  // The error tells what is missing or not supported.
  lemma ErrorsTell(m: Message)
    requires !Asks(m) && !m.Unsubscribe?
    ensures var reason := Reply(m)[0].reason;
            match m
            case Malformed => reason == "Invalid subscription message"
            case OtherMethod(name) => reason == "Unknown method: " + name
            case Subscribe(Subscription(None, _, _)) => reason == "Missing subscription type"
            case Subscribe(Subscription(Some(kind), _, _)) =>
              reason == if kind == "orderUpdates" then "Missing user address for orderUpdates"
                        else if kind == "l2Book" || kind == "bbo" then "Missing coin for " + kind
                        else "Unsupported subscription type: " + kind
            case Unsubscribe(_) => true
  {
    RepliesTell(NO_FEEDS, m);
  }
}
