/** A run of the broadcast protocol after which a subscriber's last update is not the stored order: the
    channel fills up with updates of one order, and the next change of that order is dropped. */
module StaleReplay {
  import opened Prelude
  import opened Orders
  import opened WebSocket
  import Subscriptions
  import opened Broadcast

  // ---------- putting runs together ----------

  // A step of the store or of the broadcaster, which leaves the connections as they are.
  predicate Internal(step: Step) {
    step.Commit? || step.Take? || step.Lock? || step.Check? || step.Write? || step.Unlock?
  }

  lemma {:induction false} VisitsAreInternal(owner: string, users: map<ConnId, string>, order: seq<ConnId>)
    ensures forall x | x in Visits(owner, users, order) :: Internal(x)
    decreases |order|
  {
    if order != [] {
      VisitsAreInternal(owner, users, order[1..]);
    }
  }

  ghost predicate Enumerates(order: seq<ConnId>, s: Sys) {
    (forall i, j | 0 <= i < j < |order| :: order[i] != order[j]) && (set c | c in order) == s.connections.Keys
  }

  lemma TurnKeepsKnown(s: Sys)
    requires Known(s) && s.phase.Waiting? && s.channel != []
    ensures Known(AfterTurn(s))
  {
  }

  // The broadcaster can empty the channel, turn by turn.
  lemma {:induction false} Drain(s: Sys, order: seq<ConnId>) returns (steps: seq<Step>)
    requires Known(s) && s.phase.Waiting? && Enumerates(order, s)
    ensures Legal(s, steps) && forall x | x in steps :: Internal(x)
    ensures var t := After(s, steps);
            Drained(t) && t.store == s.store && t.commits == s.commits && t.dropped == s.dropped
    decreases |s.channel|
  {
    if s.channel == [] {
      steps := [];
    } else {
      var visits := Visits(s.channel[0].snapshot.order.user, s.connections, order);
      TurnInAnyOrder(s, order);
      TurnKeepsKnown(s);
      VisitsAreInternal(s.channel[0].snapshot.order.user, s.connections, order);
      var more := Drain(AfterTurn(s), order);
      AfterAppend(s, [Take, Lock] + visits, more);
      steps := [Take, Lock] + visits + more;
    }
  }

  // ---------- the run ----------

  const ASKED := Decimal(1.0)
  const LATER := Decimal(2.0)
  const SIZE := Decimal(1.0)

  const PLACE := Create("c", "BTC", "B", ASKED, SIZE, "a")
  const KEEP_PRICE := Modify("c", ASKED, SIZE)
  const RAISE_PRICE := Modify("c", LATER, SIZE)

  predicate IsUpdate(e: Entry, px: Quantity) {
    e.key == "c" && e.snapshot.order.user == "a" && e.snapshot.order.limitPx == px
  }

  // Connection 0 is subscribed as "a", and n updates of order "c" wait in the channel.
  ghost predicate Flooded(s: Sys, n: nat) {
    && s.phase.Waiting? && s.connections == map[0 := "a"] && s.logs == map[0 := []]
    && |s.channel| == n && s.commits == s.channel && s.dropped == []
    && (forall e | e in s.commits :: IsUpdate(e, ASKED))
    && (n > 0 ==> "c" in s.store.orders && s.store.orders["c"].order.user == "a")
  }

  lemma PlaceFloods(s: Sys)
    requires Flooded(s, 0)
    ensures Enabled(s, Commit(PLACE)) && Flooded(Next(s, Commit(PLACE)), 1)
  {
    assert CanonicalKey("c") == "c";
  }

  lemma KeepPriceFloods(s: Sys, n: nat)
    requires Flooded(s, n) && 0 < n < CHANNEL_CAPACITY
    ensures Enabled(s, Commit(KEEP_PRICE)) && Flooded(Next(s, Commit(KEEP_PRICE)), n + 1)
  {
    assert CanonicalKey("c") == "c";
  }

  lemma {:induction false} FloodTo(s: Sys, n: nat) returns (steps: seq<Step>)
    requires Flooded(s, n) && 0 < n <= CHANNEL_CAPACITY
    ensures Legal(s, steps) && (forall x | x in steps :: Internal(x))
    ensures Flooded(After(s, steps), CHANNEL_CAPACITY)
    decreases CHANNEL_CAPACITY - n
  {
    if n == CHANNEL_CAPACITY {
      steps := [];
    } else {
      KeepPriceFloods(s, n);
      var step := Commit(KEEP_PRICE);
      var more := FloodTo(Next(s, step), n + 1);
      steps := [step] + more;
      assert steps[1..] == more;
    }
  }

  // One more update finds the channel full.
  ghost predicate Overrun(s: Sys) {
    && s.phase.Waiting? && s.connections == map[0 := "a"] && s.logs == map[0 := []]
    && |s.commits| == CHANNEL_CAPACITY + 1 && s.dropped == [s.commits[CHANNEL_CAPACITY]]
    && s.commits[CHANNEL_CAPACITY - 1] !in s.dropped
    && IsUpdate(s.commits[CHANNEL_CAPACITY - 1], ASKED) && IsUpdate(s.commits[CHANNEL_CAPACITY], LATER)
    && "c" in s.store.orders && s.store.orders["c"].order.user == "a"
    && s.store.orders["c"].order.limitPx == LATER
  }

  lemma RaisePriceOverruns(s: Sys)
    requires Flooded(s, CHANNEL_CAPACITY)
    ensures Enabled(s, Commit(RAISE_PRICE)) && Overrun(Next(s, Commit(RAISE_PRICE)))
  {
    assert CanonicalKey("c") == "c";
    var t := Next(s, Commit(RAISE_PRICE));
    var last := s.commits[CHANNEL_CAPACITY - 1];
    assert last in s.commits && t.commits[CHANNEL_CAPACITY - 1] == last;
  }

  lemma Overruns(s: Sys) returns (steps: seq<Step>)
    requires Flooded(s, 0)
    ensures Legal(s, steps) && (forall x | x in steps :: Internal(x)) && Overrun(After(s, steps))
  {
    PlaceFloods(s);
    var more := FloodTo(Next(s, Commit(PLACE)), 1);
    steps := [Commit(PLACE)] + more;
    assert steps[1..] == more;
    var u := After(s, steps);
    RaisePriceOverruns(u);
    AfterOne(u, Commit(RAISE_PRICE));
    AfterAppend(s, steps, [Commit(RAISE_PRICE)]);
    steps := steps + [Commit(RAISE_PRICE)];
  }

  lemma Subscribes() returns (steps: seq<Step>)
    ensures Legal(Start(Empty()), steps) && Flooded(After(Start(Empty()), steps), 0)
  {
    var s := Start(Empty());
    steps := [Connect(0), SubscribeTo(0, "a")];
    AfterOne(Next(s, Connect(0)), SubscribeTo(0, "a"));
    assert steps[1..] == [SubscribeTo(0, "a")];
    assert Subscriptions.NormalizeAddress("a") == "a";
  }

  // There is a run that leaves a subscriber, never disturbed and with nothing on its way to it, with
  // the old price of its own order, while the store has the new one.
  lemma ReplayCanBeStale() returns (before: seq<Step>, after: seq<Step>)
    ensures Legal(Start(Empty()), before) && Legal(After(Start(Empty()), before), after)
    ensures var s := After(Start(Empty()), before);
            var t := After(s, after);
            && Stays(s, after, 0, "a") && Drained(t) && s.commits == [] && "c" in t.store.orders
            && Wants(t.store.orders["c"].order.user, "a")
            && t.store.orders["c"].order.limitPx == Decimal(2.0)
            && (exists x :: LastReceived(t, 0, "c", x) && x.order.limitPx == Decimal(1.0))
            && !LastReceived(t, 0, "c", t.store.orders["c"])
  {
    before := Subscribes();
    var s := After(Start(Empty()), before);
    var flood := Overruns(s);
    var u := After(s, flood);
    var drain := Drain(u, [0]);
    AfterAppend(s, flood, drain);
    after := flood + drain;
    assert forall x | x in after :: Internal(x) && !Touches(x, 0);
    UntouchedStays(s, after, 0);
    ReplayIsExact(Empty(), before, after, 0, "a", CHANNEL_CAPACITY - 1);
  }
}
