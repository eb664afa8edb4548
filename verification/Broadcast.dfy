/** The broadcast protocol as a state machine. A store operation commits and offers a snapshot to a
    bounded channel in one step; the broadcaster takes a snapshot, then the connection lock, then
    visits the registered connections in any order, reading each subscription in one step and
    writing in another; connections come, go and change their subscription in between. */
module Broadcast {
  import opened Prelude
  import opened Orders
  import opened Subscriptions
  import opened WebSocket
  import State

  // The snapshot of commit number `at`, with the key it was written under.
  datatype Entry = Entry(at: nat, key: string, snapshot: Snapshot)

  // An update written to a connection, and the subscription that was read for it.
  datatype Delivery = Delivery(entry: Entry, subscriber: string)

  datatype Phase =
    | Waiting
    | Holding(entry: Entry)                                    // taken from the channel
    | Visiting(entry: Entry, left: set<ConnId>)                // connection lock held
    | Writing(entry: Entry, left: set<ConnId>, to: ConnId, subscriber: string)

  datatype Sys = Sys(
    store: Store,
    commits: seq<Entry>,                  // every committed operation, in order
    channel: seq<Entry>,
    dropped: seq<Entry>,
    taken: seq<Entry>,                    // what the broadcaster has received
    phase: Phase,
    connections: map<ConnId, string>,     // registered connections and their orderUpdates user
    logs: map<ConnId, seq<Delivery>>)     // what was ever written to each connection

  datatype Step =
    | Commit(op: Op)
    | Take
    | Lock
    | Check(c: ConnId)
    | Write
    | Unlock
    | Connect(c: ConnId)
    | Disconnect(c: ConnId)
    | SubscribeTo(c: ConnId, user: string)
    | UnsubscribeFrom(c: ConnId)

  function Start(store: Store): Sys {
    Sys(store, [], [], [], [], Waiting, map[], map[])
  }

  predicate Locked(s: Sys) {
    s.phase.Visiting? || s.phase.Writing?
  }

  // An operation that finds no order commits nothing. Registration needs the connection lock for
  // writing, which the broadcaster holds for reading through a whole fan-out.
  ghost predicate Enabled(s: Sys, step: Step) {
    match step
    case Commit(op) => Target(s.store, op).Some?
    case Take => s.phase.Waiting? && s.channel != []
    case Lock => s.phase.Holding?
    case Check(c) => s.phase.Visiting? && c in s.phase.left
    case Write => s.phase.Writing?
    case Unlock => s.phase.Visiting? && s.phase.left == {}
    case Connect(c) => c !in s.logs && !Locked(s)
    case Disconnect(c) => c in s.connections && !Locked(s)
    case SubscribeTo(c, _) => c in s.connections
    case UnsubscribeFrom(c) => c in s.connections
  }

  function UserOf(s: Sys, c: ConnId): string {
    if c in s.connections then s.connections[c] else ""
  }

  function LogOf(s: Sys, c: ConnId): seq<Delivery> {
    if c in s.logs then s.logs[c] else []
  }

  ghost function Next(s: Sys, step: Step): Sys
    requires Enabled(s, step)
  {
    match step
    case Commit(op) =>
      var e := Entry(|s.commits|, Target(s.store, op).value, Written(s.store, op));
      var t := s.(store := Apply(s.store, op), commits := s.commits + [e]);
      if |s.channel| < CHANNEL_CAPACITY then t.(channel := s.channel + [e])
      else t.(dropped := s.dropped + [e])
    case Take =>
      s.(phase := Holding(s.channel[0]), channel := s.channel[1..], taken := s.taken + [s.channel[0]])
    case Lock =>
      s.(phase := Visiting(s.phase.entry, s.connections.Keys))
    case Check(c) =>
      var left := s.phase.left - {c};
      if Wants(s.phase.entry.snapshot.order.user, UserOf(s, c))
      then s.(phase := Writing(s.phase.entry, left, c, UserOf(s, c)))
      else s.(phase := Visiting(s.phase.entry, left))
    case Write =>
      var t := s.(phase := Visiting(s.phase.entry, s.phase.left));
      if s.phase.to !in s.connections then t
      else t.(logs := s.logs[s.phase.to := LogOf(s, s.phase.to) + [Delivery(s.phase.entry, s.phase.subscriber)]])
    case Unlock =>
      s.(phase := Waiting)
    case Connect(c) =>
      s.(connections := s.connections[c := ""], logs := s.logs[c := []])
    case Disconnect(c) =>
      s.(connections := s.connections - {c})
    case SubscribeTo(c, user) =>
      s.(connections := s.connections[c := NormalizeAddress(user)])
    case UnsubscribeFrom(c) =>
      s.(connections := s.connections[c := ""])
  }

  // ---------- runs ----------

  ghost predicate Legal(s: Sys, steps: seq<Step>)
    decreases steps
  {
    steps != [] ==> Enabled(s, steps[0]) && Legal(Next(s, steps[0]), steps[1..])
  }

  ghost function After(s: Sys, steps: seq<Step>): Sys
    requires Legal(s, steps)
    decreases steps
  {
    if steps == [] then s else After(Next(s, steps[0]), steps[1..])
  }

  lemma {:induction false} AfterAppend(s: Sys, a: seq<Step>, b: seq<Step>)
    requires Legal(s, a) && Legal(After(s, a), b)
    ensures Legal(s, a + b) && After(s, a + b) == After(After(s, a), b)
    decreases |a|
  {
    if a == [] {
      assert a + b == b;
    } else {
      assert (a + b)[0] == a[0] && (a + b)[1..] == a[1..] + b;
      AfterAppend(Next(s, a[0]), a[1..], b);
    }
  }

  lemma AfterOne(s: Sys, step: Step)
    requires Enabled(s, step)
    ensures Legal(s, [step]) && After(s, [step]) == Next(s, step)
  {
    assert [step][1..] == [];
  }

  // The step registers, removes or resubscribes connection c.
  predicate Touches(step: Step, c: ConnId) {
    step == Connect(c) || step == Disconnect(c) || step == UnsubscribeFrom(c) || (step.SubscribeTo? && step.c == c)
  }

  // ---------- invariants ----------

  // Registered connections have logs, and only registered connections are visited.
  ghost predicate Known(s: Sys) {
    && s.connections.Keys <= s.logs.Keys
    && (Locked(s) ==> s.phase.left <= s.connections.Keys)
    && (s.phase.Writing? ==> s.phase.to in s.connections && s.phase.to !in s.phase.left)
  }

  ghost predicate Ascending(es: seq<Entry>) {
    forall i, j | 0 <= i < j < |es| :: es[i].at < es[j].at
  }

  // Every commit is numbered by its place, and is in exactly one of: dropped, waiting, taken.
  ghost predicate Accounted(s: Sys) {
    && (forall i | 0 <= i < |s.commits| :: s.commits[i].at == i)
    && multiset(s.commits) == multiset(s.dropped) + multiset(s.channel) + multiset(s.taken)
    && |s.channel| <= CHANNEL_CAPACITY
    && Ascending(s.taken + s.channel)
  }

  // A connection that is still to get the current update has seen only earlier ones.
  ghost predicate Awaits(s: Sys, c: ConnId) {
    s.phase.Holding? || (Locked(s) && c in s.phase.left) || (s.phase.Writing? && s.phase.to == c)
  }

  ghost predicate LogInOrder(s: Sys, c: ConnId)
    requires c in s.logs
  {
    var log := s.logs[c];
    && (forall i | 0 <= i < |log| :: log[i].entry in s.taken)
    && (forall i, j | 0 <= i < j < |log| :: log[i].entry.at < log[j].entry.at)
    && (!s.phase.Waiting? && Awaits(s, c) ==> forall i | 0 <= i < |log| :: log[i].entry.at < s.phase.entry.at)
  }

  ghost predicate LogsInOrder(s: Sys) {
    && (!s.phase.Waiting? ==> s.taken != [] && s.phase.entry == s.taken[|s.taken| - 1])
    && (forall c | c in s.logs :: LogInOrder(s, c))
  }

  // No commit after number i is under the same key.
  ghost predicate IsLatest(commits: seq<Entry>, i: int) {
    0 <= i < |commits| && forall j | i < j < |commits| :: commits[j].key != commits[i].key
  }

  // The store shows, under each key, the snapshot of the latest commit under that key.
  ghost predicate LastCommitWins(s: Sys) {
    forall i | IsLatest(s.commits, i) ::
      s.commits[i].key in s.store.orders && s.store.orders[s.commits[i].key] == s.commits[i].snapshot
  }

  // Where a client that indexes updates by cloid files this one.
  function ReplayKey(e: Entry): string {
    CanonicalKey(e.snapshot.order.cloid)
  }

  ghost predicate KeysMatch(s: Sys) {
    Orders.Inv(s.store) && forall i | 0 <= i < |s.commits| :: s.commits[i].key == ReplayKey(s.commits[i])
  }

  ghost predicate Inv(s: Sys) {
    Known(s) && Accounted(s) && LogsInOrder(s) && LastCommitWins(s) && KeysMatch(s)
  }

  lemma NextKnown(s: Sys, step: Step)
    requires Known(s) && Enabled(s, step)
    ensures Known(Next(s, step))
  {
  }

  lemma MembersAreCommits(s: Sys, e: Entry)
    requires Accounted(s) && (e in s.dropped || e in s.channel || e in s.taken)
    ensures e.at < |s.commits| && s.commits[e.at] == e
  {
    assert e in multiset(s.commits);
    assert e in s.commits;
  }

  lemma CommitAccounted(s: Sys, op: Op)
    requires Accounted(s) && Enabled(s, Commit(op))
    ensures Accounted(Next(s, Commit(op)))
  {
    var t := Next(s, Commit(op));
    var e := t.commits[|s.commits|];
    var es := s.taken + s.channel;
    forall i | 0 <= i < |es| ensures es[i].at < e.at {
      MembersAreCommits(s, es[i]);
    }
    if |s.channel| < CHANNEL_CAPACITY {
      assert t.taken + t.channel == es + [e];
    }
  }

  lemma TakeAccounted(s: Sys)
    requires Accounted(s) && Enabled(s, Take)
    ensures Accounted(Next(s, Take))
  {
    var t := Next(s, Take);
    assert s.channel == [s.channel[0]] + s.channel[1..];
    assert t.taken + t.channel == s.taken + s.channel;
  }

  lemma NextAccounted(s: Sys, step: Step)
    requires Accounted(s) && Enabled(s, step)
    ensures Accounted(Next(s, step))
  {
    match step
    case Commit(op) => CommitAccounted(s, op);
    case Take => TakeAccounted(s);
    case _ =>
  }

  lemma TakeLogsInOrder(s: Sys)
    requires Known(s) && Accounted(s) && LogsInOrder(s) && Enabled(s, Take)
    ensures LogsInOrder(Next(s, Take))
  {
    var t := Next(s, Take);
    forall c | c in t.logs ensures LogInOrder(t, c) {
      assert LogInOrder(s, c);
      TakenBeforeNext(s, c);
    }
  }

  lemma WriteLogsInOrder(s: Sys)
    requires Known(s) && LogsInOrder(s) && Enabled(s, Write)
    ensures LogsInOrder(Next(s, Write))
  {
    var t := Next(s, Write);
    forall c | c in t.logs ensures LogInOrder(t, c) {
      assert LogInOrder(s, c);
    }
  }

  lemma OtherLogInOrder(s: Sys, step: Step, c: ConnId)
    requires Known(s) && LogsInOrder(s) && Enabled(s, step) && !step.Take? && !step.Write?
    requires c in Next(s, step).logs
    ensures LogInOrder(Next(s, step), c)
  {
    if c in s.logs {
      assert LogInOrder(s, c);
    }
  }

  lemma NextLogsInOrder(s: Sys, step: Step)
    requires Known(s) && Accounted(s) && LogsInOrder(s) && Enabled(s, step)
    ensures LogsInOrder(Next(s, step))
  {
    if step.Take? {
      TakeLogsInOrder(s);
    } else if step.Write? {
      WriteLogsInOrder(s);
    } else {
      forall c | c in Next(s, step).logs ensures LogInOrder(Next(s, step), c) {
        OtherLogInOrder(s, step, c);
      }
    }
  }

  lemma TakenBeforeNext(s: Sys, c: ConnId)
    requires Accounted(s) && s.channel != [] && c in s.logs && LogInOrder(s, c)
    ensures forall i | 0 <= i < |s.logs[c]| :: s.logs[c][i].entry.at < s.channel[0].at
  {
    forall i | 0 <= i < |s.logs[c]| ensures s.logs[c][i].entry.at < s.channel[0].at {
      var e := s.logs[c][i].entry;
      assert e in s.taken;
      var j :| 0 <= j < |s.taken| && s.taken[j] == e;
      assert (s.taken + s.channel)[j] == e && (s.taken + s.channel)[|s.taken|] == s.channel[0];
    }
  }

  lemma LatestBefore(commits: seq<Entry>, e: Entry, i: int)
    requires IsLatest(commits + [e], i) && i < |commits|
    ensures IsLatest(commits, i) && commits[i].key != e.key
  {
    var all := commits + [e];
    assert all[|commits|] == e && all[i] == commits[i];
    assert forall j | i < j < |commits| :: all[j] == commits[j];
  }

  lemma NextLastCommitWins(s: Sys, step: Step)
    requires LastCommitWins(s) && Enabled(s, step)
    ensures LastCommitWins(Next(s, step))
  {
    if step.Commit? {
      var t := Next(s, step);
      var e := t.commits[|s.commits|];
      forall i | IsLatest(t.commits, i)
        ensures t.commits[i].key in t.store.orders && t.store.orders[t.commits[i].key] == t.commits[i].snapshot
      {
        if i < |s.commits| {
          LatestBefore(s.commits, e, i);
        }
      }
    }
  }

  lemma NextKeysMatch(s: Sys, step: Step)
    requires KeysMatch(s) && Enabled(s, step)
    ensures KeysMatch(Next(s, step))
  {
    if step.Commit? {
      ApplyKeepsInv(s.store, step.op);
      WrittenUnderItsKey(s.store, step.op);
    }
  }

  lemma NextInv(s: Sys, step: Step)
    requires Inv(s) && Enabled(s, step)
    ensures Inv(Next(s, step))
  {
    NextKnown(s, step);
    NextAccounted(s, step);
    NextLogsInOrder(s, step);
    NextLastCommitWins(s, step);
    NextKeysMatch(s, step);
  }

  lemma {:induction false} AfterInv(s: Sys, steps: seq<Step>)
    requires Inv(s) && Legal(s, steps)
    ensures Inv(After(s, steps))
    decreases steps
  {
    if steps != [] {
      NextInv(s, steps[0]);
      AfterInv(Next(s, steps[0]), steps[1..]);
    }
  }

  lemma StartInv(store: Store)
    requires Orders.Inv(store)
    ensures Inv(Start(store))
  {
  }

  // ---------- order and accounting ----------

  // In every run each connection has received a subsequence of the commits, in commit order, and
  // every commit was dropped, is waiting, or was taken by the broadcaster.
  lemma OrderedAndAccounted(store: Store, steps: seq<Step>)
    requires Orders.Inv(store) && Legal(Start(store), steps)
    ensures var s := After(Start(store), steps);
            && |s.commits| == |s.dropped| + |s.channel| + |s.taken|
            && |s.channel| <= 100
            && (forall c, i | c in s.logs && 0 <= i < |s.logs[c]| ::
                  var e := s.logs[c][i].entry;
                  e.at < |s.commits| && s.commits[e.at] == e)
            && (forall c, i, j | c in s.logs && 0 <= i < j < |s.logs[c]| ::
                  s.logs[c][i].entry.at < s.logs[c][j].entry.at)
  {
    var s := After(Start(store), steps);
    StartInv(store);
    AfterInv(Start(store), steps);
    assert |multiset(s.commits)| == |multiset(s.dropped)| + |multiset(s.channel)| + |multiset(s.taken)|;
    forall c | c in s.logs ensures LogInOrder(s, c) {
    }
    forall c, i | c in s.logs && 0 <= i < |s.logs[c]|
      ensures s.logs[c][i].entry.at < |s.commits| && s.commits[s.logs[c][i].entry.at] == s.logs[c][i].entry
    {
      assert LogInOrder(s, c);
      MembersAreCommits(s, s.logs[c][i].entry);
    }
    forall c, i, j | c in s.logs && 0 <= i < j < |s.logs[c]|
      ensures s.logs[c][i].entry.at < s.logs[c][j].entry.at
    {
      assert LogInOrder(s, c);
    }
  }

  lemma {:induction false} AfterSplits(s: Sys, steps: seq<Step>, n: nat)
    requires Legal(s, steps) && n <= |steps|
    ensures Legal(s, steps[..n]) && Legal(After(s, steps[..n]), steps[n..])
    ensures After(s, steps) == After(After(s, steps[..n]), steps[n..])
    decreases steps
  {
    if n == 0 {
      assert steps[..0] == [] && steps[0..] == steps;
    } else {
      AfterSplits(Next(s, steps[0]), steps[1..], n - 1);
      assert steps[..n][1..] == steps[1..][..n - 1] && steps[n..] == steps[1..][n - 1..];
    }
  }

  // What is committed stays committed, what is dropped stays dropped, and what has entered the
  // channel stays there until it is taken.
  ghost predicate Grows(s: Sys, t: Sys) {
    && s.commits <= t.commits && s.dropped <= t.dropped
    && forall e | e in s.channel || e in s.taken :: e in t.channel || e in t.taken
  }

  lemma NextGrows(s: Sys, step: Step)
    requires Enabled(s, step)
    ensures Grows(s, Next(s, step))
  {
    if step.Take? {
      assert s.channel == [s.channel[0]] + s.channel[1..];
    }
  }

  lemma {:induction false} AfterGrows(s: Sys, steps: seq<Step>)
    requires Legal(s, steps)
    ensures Grows(s, After(s, steps))
    decreases steps
  {
    if steps != [] {
      NextGrows(s, steps[0]);
      AfterGrows(Next(s, steps[0]), steps[1..]);
    }
  }

  // No commit is both sent and dropped.
  lemma SentIsNotDropped(s: Sys, e: Entry)
    requires Accounted(s) && (e in s.channel || e in s.taken)
    ensures e !in s.dropped
  {
    MembersAreCommits(s, e);
    var earlier, later := s.commits[..e.at], s.commits[e.at + 1..];
    assert s.commits == earlier + [e] + later;
    assert e !in earlier && e !in later;
    assert multiset(s.commits)[e] == 1;
  }

  // Step n of the run, an operation that writes, is recorded as the next commit; and that commit is
  // dropped, then or ever, exactly when the channel was full at that step.
  lemma DroppedIffFull(store: Store, steps: seq<Step>, n: nat)
    requires Orders.Inv(store) && Legal(Start(store), steps) && n < |steps| && steps[n].Commit?
    ensures Legal(Start(store), steps[..n])
    ensures var s, t, op := After(Start(store), steps[..n]), After(Start(store), steps), steps[n].op;
            var at := |s.commits|;
            && Target(s.store, op).Some? && at < |t.commits|
            && t.commits[at] == Entry(at, Target(s.store, op).value, Written(s.store, op))
            && (t.commits[at] in t.dropped <==> |s.channel| == 100)
  {
    AfterSplits(Start(store), steps, n);
    var s := After(Start(store), steps[..n]);
    var u := Next(s, steps[n]);
    var e := u.commits[|s.commits|];
    StartInv(store);
    AfterInv(Start(store), steps[..n]);
    NextInv(s, steps[n]);
    AfterGrows(u, steps[n..][1..]);
    AfterInv(u, steps[n..][1..]);
    if |s.channel| == CHANNEL_CAPACITY {
      assert u.dropped[|s.dropped|] == e;
    } else {
      assert u.channel[|s.channel|] == e;
      SentIsNotDropped(After(Start(store), steps), e);
    }
  }

  // ---------- isolation ----------

  // Step n of the run checks connection c for the delivered update, reads the subscription recorded
  // with the delivery, and the update is visible to it.
  ghost predicate CheckedAt(s: Sys, steps: seq<Step>, n: nat, c: ConnId, d: Delivery) {
    && n < |steps| && steps[n] == Check(c) && Legal(s, steps[..n])
    && var t := After(s, steps[..n]);
       && t.phase.Visiting? && t.phase.entry == d.entry
       && UserOf(t, c) == d.subscriber && Wants(d.entry.snapshot.order.user, d.subscriber)
  }

  lemma {:induction false} DeliveriesWereChecked(s: Sys, steps: seq<Step>, c: ConnId, d: Delivery)
    requires Legal(s, steps) && d in LogOf(After(s, steps), c)
    ensures || d in LogOf(s, c)
            || (s.phase.Writing? && s.phase.to == c && d == Delivery(s.phase.entry, s.phase.subscriber))
            || exists n: nat :: CheckedAt(s, steps, n, c, d)
    decreases steps
  {
    if steps != [] {
      var t := Next(s, steps[0]);
      DeliveriesWereChecked(t, steps[1..], c, d);
      if d in LogOf(t, c) {
      } else if t.phase.Writing? && t.phase.to == c && d == Delivery(t.phase.entry, t.phase.subscriber) {
        if steps[0].Check? {
          assert steps[..0] == [];
          assert CheckedAt(s, steps, 0, c, d);
        }
      } else {
        var n: nat :| CheckedAt(t, steps[1..], n, c, d);
        assert steps[..n + 1][1..] == steps[1..][..n];
        assert CheckedAt(s, steps, n + 1, c, d);
      }
    }
  }

  // Every order update ever delivered has no owner or an owner that, normalized, is what the
  // connection was subscribed to when it was checked for that update.
  lemma Isolation(store: Store, steps: seq<Step>, c: ConnId, d: Delivery)
    requires Legal(Start(store), steps) && d in LogOf(After(Start(store), steps), c)
    ensures exists n: nat :: CheckedAt(Start(store), steps, n, c, d)
    ensures var owner := d.entry.snapshot.order.user;
            d.subscriber != "" && (owner == "" || SameUpToCase(owner, d.subscriber))
  {
    DeliveriesWereChecked(Start(store), steps, c, d);
    WantsMeans(d.entry.snapshot.order.user, d.subscriber);
  }

  ghost predicate Visible(e: Entry, user: string) {
    Wants(e.snapshot.order.user, user)
  }

  // Connection c is subscribed as user in every state of the run; "" when it is not subscribed.
  ghost predicate Stays(s: Sys, steps: seq<Step>, c: ConnId, user: string)
    requires Legal(s, steps)
    decreases steps
  {
    UserOf(s, c) == user && (steps != [] ==> Stays(Next(s, steps[0]), steps[1..], c, user))
  }

  lemma {:induction false} UntouchedStays(s: Sys, steps: seq<Step>, c: ConnId)
    requires Legal(s, steps) && forall x | x in steps :: !Touches(x, c)
    ensures Stays(s, steps, c, UserOf(s, c))
    decreases |steps|
  {
    if steps != [] {
      assert !Touches(steps[0], c);
      UntouchedStays(Next(s, steps[0]), steps[1..], c);
    }
  }

  // The update that has been checked for connection c but not yet written to it.
  ghost predicate InFlight(s: Sys, c: ConnId, d: Delivery) {
    s.phase.Writing? && s.phase.to == c && d == Delivery(s.phase.entry, s.phase.subscriber)
  }

  // While a connection stays subscribed as one user, or as none, it receives only updates that are
  // visible to that user, except possibly first the one already checked for it.
  lemma {:induction false} OnlyOwnUpdates(s: Sys, steps: seq<Step>, c: ConnId, user: string)
    requires Legal(s, steps) && Stays(s, steps, c, user)
    ensures var was, now := LogOf(s, c), LogOf(After(s, steps), c);
            && was <= now
            && forall i | |was| <= i < |now| ::
                 || (now[i].subscriber == user && Visible(now[i].entry, user))
                 || (i == |was| && InFlight(s, c, now[i]))
    decreases steps
  {
    if steps != [] {
      OnlyOwnUpdates(Next(s, steps[0]), steps[1..], c, user);
    }
  }

  // While a connection is not subscribed it receives nothing, except for the one update that had
  // already been checked for it when the subscription ended.
  lemma SilentWhileUnsubscribed(s: Sys, steps: seq<Step>, c: ConnId)
    requires Legal(s, steps) && Stays(s, steps, c, "")
    ensures || LogOf(After(s, steps), c) == LogOf(s, c)
            || (s.phase.Writing? && s.phase.to == c &&
                LogOf(After(s, steps), c) == LogOf(s, c) + [Delivery(s.phase.entry, s.phase.subscriber)])
  {
    OnlyOwnUpdates(s, steps, c, "");
    var was, now := LogOf(s, c), LogOf(After(s, steps), c);
    if |now| > |was| {
      assert InFlight(s, c, now[|was|]);
      assert |now| > |was| + 1 ==> Visible(now[|was| + 1].entry, "");
      assert now == was + [now[|was|]];
    }
  }

  // ---------- which steps are possible ----------

  // The broadcaster is never stuck: as long as an update waits or is on its way it has a next step.
  lemma BroadcasterCanStep(s: Sys)
    requires !Drained(s)
    ensures || Enabled(s, Take) || Enabled(s, Lock) || Enabled(s, Write) || Enabled(s, Unlock)
            || exists c :: Enabled(s, Check(c))
  {
    if s.phase.Visiting? && s.phase.left != {} {
      var c :| c in s.phase.left;
      assert Enabled(s, Check(c));
    }
  }

  // It holds up nobody but those who come and go: in every phase orders are created, an order that an
  // operation names is written, and a registered connection changes its subscription.
  lemma OthersCanStep(s: Sys, op: Op, c: ConnId, address: string)
    requires Orders.Inv(s.store)
    ensures op.Create? ==> Enabled(s, Commit(op))
    ensures forall k | k in s.store.orders && s.store.orders[k].order.sz.Decimal? && Addresses(s.store, op, k) ::
              Enabled(s, Commit(op))
    ensures c in s.connections ==> Enabled(s, SubscribeTo(c, address)) && Enabled(s, UnsubscribeFrom(c))
    ensures s.phase.Waiting? || s.phase.Holding? ==>
              && (c in s.connections ==> Enabled(s, Disconnect(c)))
              && (c !in s.logs ==> Enabled(s, Connect(c)))
  {
    if !op.Create? {
      forall k | k in s.store.orders && s.store.orders[k].order.sz.Decimal? && Addresses(s.store, op, k)
        ensures Target(s.store, op) == Some(k)
      {
        AddressedTarget(s.store, op, k);
      }
    }
  }

  // ---------- coming and going ----------

  // A new connection receives nothing until its first subscribe.
  lemma SilentBeforeSubscribe(s: Sys, c: ConnId, steps: seq<Step>)
    requires Known(s) && Enabled(s, Connect(c)) && Legal(Next(s, Connect(c)), steps)
    requires forall x | x in steps :: !Touches(x, c)
    ensures var t := After(Next(s, Connect(c)), steps);
            c in t.connections && t.connections[c] == "" && c in t.logs && t.logs[c] == []
  {
    var u := Next(s, Connect(c));
    UntouchedStays(u, steps, c);
    SilentWhileUnsubscribed(u, steps, c);
    StaysConnected(u, steps, c);
  }

  lemma {:induction false} StaysConnected(s: Sys, steps: seq<Step>, c: ConnId)
    requires Legal(s, steps) && c in s.connections && c in s.logs && forall x | x in steps :: !Touches(x, c)
    ensures var t := After(s, steps);
            c in t.connections && t.connections[c] == s.connections[c] && c in t.logs
    decreases |steps|
  {
    if steps != [] {
      assert !Touches(steps[0], c);
      StaysConnected(Next(s, steps[0]), steps[1..], c);
    }
  }

  // A connection that is closed receives nothing any more, whatever happens, and is gone for good.
  lemma SilentAfterDisconnect(s: Sys, c: ConnId, steps: seq<Step>)
    requires Known(s) && Enabled(s, Disconnect(c)) && Legal(Next(s, Disconnect(c)), steps)
    ensures var t := After(Next(s, Disconnect(c)), steps);
            c !in t.connections && c in t.logs && t.logs[c] == s.logs[c]
  {
    NextKnown(s, Disconnect(c));
    StaysGone(Next(s, Disconnect(c)), steps, c);
  }

  lemma {:induction false} StaysGone(s: Sys, steps: seq<Step>, c: ConnId)
    requires Known(s) && Legal(s, steps) && c !in s.connections && c in s.logs
    ensures var t := After(s, steps);
            c !in t.connections && c in t.logs && t.logs[c] == s.logs[c]
    decreases |steps|
  {
    if steps != [] {
      NextKnown(s, steps[0]);
      StaysGone(Next(s, steps[0]), steps[1..], c);
    }
  }

  // ---------- agreement of a replay with the store ----------

  ghost predicate Received(s: Sys, c: ConnId, e: Entry) {
    exists i :: 0 <= i < |LogOf(s, c)| && LogOf(s, c)[i].entry == e
  }

  // The update has reached connection c or is still on its way to it.
  ghost predicate Arriving(s: Sys, c: ConnId, e: Entry) {
    || e in s.channel
    || (!s.phase.Waiting? && s.phase.entry == e && Awaits(s, c))
    || Received(s, c, e)
  }

  // Every commit from number n on that c may see was dropped, has arrived or is arriving.
  ghost predicate Covered(s: Sys, c: ConnId, user: string, n: nat) {
    forall i | n <= i < |s.commits| && s.commits[i] !in s.dropped && Visible(s.commits[i], user) ::
      Arriving(s, c, s.commits[i])
  }

  lemma NextArriving(s: Sys, step: Step, c: ConnId, e: Entry)
    requires Known(s) && Enabled(s, step) && Arriving(s, c, e)
    requires UserOf(s, c) == UserOf(Next(s, step), c) && Visible(e, UserOf(s, c))
    ensures Arriving(Next(s, step), c, e)
  {
    var t := Next(s, step);
    if Received(s, c, e) {
      var i :| 0 <= i < |LogOf(s, c)| && LogOf(s, c)[i].entry == e;
      assert c in s.logs;
      assert LogOf(t, c)[i].entry == e;
    } else if step.Write? && s.phase.to == c && s.phase.entry == e {
      assert LogOf(t, c)[|LogOf(s, c)|].entry == e;
    }
  }

  lemma NextCovered(s: Sys, step: Step, c: ConnId, user: string, n: nat)
    requires Known(s) && Enabled(s, step) && Covered(s, c, user, n)
    requires UserOf(s, c) == UserOf(Next(s, step), c) == user
    ensures Covered(Next(s, step), c, user, n)
  {
    var t := Next(s, step);
    if step.Commit? {
      var last := t.commits[|s.commits|];
      assert if |s.channel| < CHANNEL_CAPACITY then t.channel[|s.channel|] == last else t.dropped[|s.dropped|] == last;
    }
    forall i | n <= i < |t.commits| && t.commits[i] !in t.dropped && Visible(t.commits[i], user)
      ensures Arriving(t, c, t.commits[i])
    {
      if i < |s.commits| {
        assert t.commits[i] == s.commits[i] && s.commits[i] !in s.dropped;
        NextArriving(s, step, c, s.commits[i]);
      }
    }
  }

  lemma {:induction false} AfterCovered(s: Sys, steps: seq<Step>, c: ConnId, user: string, n: nat)
    requires Inv(s) && Legal(s, steps) && Covered(s, c, user, n) && Stays(s, steps, c, user)
    ensures Covered(After(s, steps), c, user, n)
    decreases steps
  {
    if steps != [] {
      NextInv(s, steps[0]);
      NextCovered(s, steps[0], c, user, n);
      AfterCovered(Next(s, steps[0]), steps[1..], c, user, n);
    }
  }

  // Nothing is on its way to any connection.
  ghost predicate Drained(s: Sys) {
    s.channel == [] && s.phase.Waiting?
  }

  // The last update connection c received for canonical cloid k is this one.
  ghost predicate LastReceived(s: Sys, c: ConnId, k: string, snapshot: Snapshot) {
    exists i :: 0 <= i < |LogOf(s, c)| && ReplayKey(LogOf(s, c)[i].entry) == k &&
                LogOf(s, c)[i].entry.snapshot == snapshot &&
                forall j | i < j < |LogOf(s, c)| :: ReplayKey(LogOf(s, c)[j].entry) != k
  }

  lemma LastCommitOf(s: Sys, i: nat) returns (l: nat)
    requires i < |s.commits|
    ensures i <= l && IsLatest(s.commits, l) && s.commits[l].key == s.commits[i].key
  {
    l := i;
    var m := i + 1;
    while m < |s.commits|
      invariant i <= l < m <= |s.commits| && s.commits[l].key == s.commits[i].key
      invariant forall j | l < j < m :: s.commits[j].key != s.commits[i].key
    {
      if s.commits[m].key == s.commits[i].key {
        l := m;
      }
      m := m + 1;
    }
  }

  // A connection that stays subscribed through the second part of a run has only received commits
  // of that part that were not dropped and are visible to it.
  lemma ReceivedOnlyVisible(s: Sys, steps: seq<Step>, c: ConnId, user: string, i: nat)
    requires Inv(s) && Legal(s, steps) && Stays(s, steps, c, user)
    requires |s.commits| <= i < |After(s, steps).commits|
    requires Received(After(s, steps), c, After(s, steps).commits[i])
    ensures After(s, steps).commits[i] !in After(s, steps).dropped && Visible(After(s, steps).commits[i], user)
  {
    var t := After(s, steps);
    AfterInv(s, steps);
    OnlyOwnUpdates(s, steps, c, user);
    var e := t.commits[i];
    var p :| 0 <= p < |LogOf(t, c)| && LogOf(t, c)[p].entry == e;
    assert LogInOrder(t, c);
    SentIsNotDropped(t, e);
    if p < |LogOf(s, c)| {
      assert LogOf(s, c)[p].entry == e && LogInOrder(s, c);
      MembersAreCommits(s, e);
    } else if InFlight(s, c, LogOf(t, c)[p]) {
      MembersAreCommits(s, e);
    }
  }

  // A connection that stays subscribed through the second part of a run that is left drained has
  // received exactly the commits of that part that were not dropped and are visible to it.
  lemma DeliveryIsExact(store: Store, before: seq<Step>, after: seq<Step>, c: ConnId, user: string, i: nat)
    requires Orders.Inv(store) && Legal(Start(store), before) && Legal(After(Start(store), before), after)
    requires var s := After(Start(store), before);
             var t := After(s, after);
             Stays(s, after, c, user) && Drained(t) && |s.commits| <= i < |t.commits|
    ensures var t := After(After(Start(store), before), after);
            Received(t, c, t.commits[i]) <==> t.commits[i] !in t.dropped && Visible(t.commits[i], user)
  {
    var s := After(Start(store), before);
    var t := After(s, after);
    StartInv(store);
    AfterInv(Start(store), before);
    AfterCovered(s, after, c, user, |s.commits|);
    if Received(t, c, t.commits[i]) {
      ReceivedOnlyVisible(s, after, c, user, i);
    }
  }

  // Commit l, with number n or later, is the last one under its key that was sent and can be seen.
  ghost predicate LastReaching(s: Sys, user: string, n: nat, l: int) {
    && n <= l < |s.commits| && s.commits[l] !in s.dropped && Visible(s.commits[l], user)
    && forall j | l < j < |s.commits| && s.commits[j].key == s.commits[l].key ::
         s.commits[j] in s.dropped || !Visible(s.commits[j], user)
  }

  lemma LastInLog(t: Sys, c: ConnId, l: nat, p: nat)
    requires Inv(t) && l < |t.commits| && p < |LogOf(t, c)| && LogOf(t, c)[p].entry == t.commits[l]
    requires forall j | l < j < |t.commits| && t.commits[j].key == t.commits[l].key :: !Received(t, c, t.commits[j])
    ensures ReplayKey(LogOf(t, c)[p].entry) == t.commits[l].key
    ensures forall q | p < q < |LogOf(t, c)| :: ReplayKey(LogOf(t, c)[q].entry) != t.commits[l].key
  {
    forall q | p < q < |LogOf(t, c)| ensures ReplayKey(LogOf(t, c)[q].entry) != t.commits[l].key {
      var e := LogOf(t, c)[q].entry;
      assert LogInOrder(t, c);
      MembersAreCommits(t, e);
      assert Received(t, c, e);
    }
  }

  // The commit of highest number that reached a connection under a cloid is the last in its log.
  lemma LastReceivedIs(t: Sys, c: ConnId, l: nat)
    requires Inv(t) && l < |t.commits| && Received(t, c, t.commits[l])
    requires forall j | l < j < |t.commits| && t.commits[j].key == t.commits[l].key :: !Received(t, c, t.commits[j])
    ensures forall x :: LastReceived(t, c, t.commits[l].key, x) <==> x == t.commits[l].snapshot
  {
    var log, k := LogOf(t, c), t.commits[l].key;
    var p :| 0 <= p < |log| && log[p].entry == t.commits[l];
    LastInLog(t, c, l, p);
    forall x | LastReceived(t, c, k, x) ensures x == t.commits[l].snapshot {
      var i :| 0 <= i < |log| && ReplayKey(log[i].entry) == k && log[i].entry.snapshot == x &&
               forall j | i < j < |log| :: ReplayKey(log[j].entry) != k;
      assert i == p;
    }
  }

  // Main result. On a connection that stays subscribed as `user` through the second part of a run
  // that is left drained, the last update for a canonical cloid is the one that was last committed in
  // that part, sent, and visible to the user. So it is the stored order exactly when these are equal.
  lemma ReplayIsExact(store: Store, before: seq<Step>, after: seq<Step>, c: ConnId, user: string, l: nat)
    requires Orders.Inv(store) && Legal(Start(store), before) && Legal(After(Start(store), before), after)
    requires var s := After(Start(store), before);
             var t := After(s, after);
             Stays(s, after, c, user) && Drained(t) && LastReaching(t, user, |s.commits|, l)
    ensures var t := After(After(Start(store), before), after);
            var k := t.commits[l].key;
            && (forall x :: LastReceived(t, c, k, x) <==> x == t.commits[l].snapshot)
            && k in t.store.orders
            && (LastReceived(t, c, k, t.store.orders[k]) <==> t.store.orders[k] == t.commits[l].snapshot)
  {
    var s := After(Start(store), before);
    var t := After(s, after);
    StartInv(store);
    AfterInv(Start(store), before);
    AfterInv(s, after);
    DeliveryIsExact(store, before, after, c, user, l);
    forall j | l < j < |t.commits| && t.commits[j].key == t.commits[l].key
      ensures !Received(t, c, t.commits[j])
    {
      DeliveryIsExact(store, before, after, c, user, j);
    }
    LastReceivedIs(t, c, l);
    var latest := LastCommitOf(t, l);
  }

  // The latest commit under key k was not dropped.
  ghost predicate LatestSent(s: Sys, k: string) {
    forall l | IsLatest(s.commits, l) && s.commits[l].key == k :: s.commits[l] !in s.dropped
  }

  // In particular the replay agrees with the store for any canonical cloid written in that part, if
  // the stored order is visible to the user and the latest update for the cloid was not dropped.
  lemma ReplayAgreement(store: Store, before: seq<Step>, after: seq<Step>, c: ConnId, user: string, i: nat)
    requires Orders.Inv(store) && Legal(Start(store), before) && Legal(After(Start(store), before), after)
    requires var s := After(Start(store), before);
             var t := After(s, after);
             && Stays(s, after, c, user) && Drained(t)
             && |s.commits| <= i < |t.commits| && LatestSent(t, t.commits[i].key)
    ensures var t := After(After(Start(store), before), after);
            var k := t.commits[i].key;
            && k in t.store.orders
            && (Wants(t.store.orders[k].order.user, user) ==> LastReceived(t, c, k, t.store.orders[k]))
  {
    var s := After(Start(store), before);
    var t := After(s, after);
    StartInv(store);
    AfterInv(Start(store), before);
    AfterInv(s, after);
    var l := LastCommitOf(t, i);
    assert t.store.orders[t.commits[l].key] == t.commits[l].snapshot;
    if Visible(t.commits[l], user) {
      ReplayIsExact(store, before, after, c, user, l);
    }
  }

  // An order without an owner, or one whose owner is this address up to letter case, shows on a
  // subscription to the address; no order shows on a subscription to the empty address.
  predicate ShowsTo(owner: string, address: string) {
    address != "" && (owner == "" || SameUpToCase(owner, address))
  }

  lemma SubscribedRun(store: Store, before: seq<Step>, c: ConnId, address: string, after: seq<Step>)
    requires Legal(Start(store), before) && Enabled(After(Start(store), before), SubscribeTo(c, address))
    requires var s := Next(After(Start(store), before), SubscribeTo(c, address));
             Legal(s, after) && forall x | x in after :: !Touches(x, c)
    ensures var s := Next(After(Start(store), before), SubscribeTo(c, address));
            && Legal(Start(store), before + [SubscribeTo(c, address)])
            && After(Start(store), before + [SubscribeTo(c, address)]) == s
            && Stays(s, after, c, NormalizeAddress(address))
  {
    var r := After(Start(store), before);
    AfterOne(r, SubscribeTo(c, address));
    AfterAppend(Start(store), before, [SubscribeTo(c, address)]);
    UntouchedStays(Next(r, SubscribeTo(c, address)), after, c);
  }

  // The same in terms of the messages and orders alone: a connection that subscribed to an address and
  // then left its subscription as it is has, once all is quiet, received exactly those later commits
  // that were not dropped and whose order has no owner or that address as owner.
  lemma SubscriberReceives(store: Store, before: seq<Step>, c: ConnId, address: string, after: seq<Step>, i: nat)
    requires Orders.Inv(store)
    requires Legal(Start(store), before) && Enabled(After(Start(store), before), SubscribeTo(c, address))
    requires var s := Next(After(Start(store), before), SubscribeTo(c, address));
             && Legal(s, after) && (forall x | x in after :: !Touches(x, c))
             && Drained(After(s, after)) && |s.commits| <= i < |After(s, after).commits|
    ensures var t := After(Next(After(Start(store), before), SubscribeTo(c, address)), after);
            Received(t, c, t.commits[i]) <==>
            t.commits[i] !in t.dropped && ShowsTo(t.commits[i].snapshot.order.user, address)
  {
    SubscribedRun(store, before, c, address, after);
    DeliveryIsExact(store, before + [SubscribeTo(c, address)], after, c, NormalizeAddress(address), i);
    var t := After(Next(After(Start(store), before), SubscribeTo(c, address)), after);
    SubscriptionMeans(t.commits[i].snapshot.order.user, address);
  }

  // And for a cloid whose latest update was not dropped, the last it received is the stored order, if
  // that order has no owner or that address as owner.
  lemma SubscriberAgrees(store: Store, before: seq<Step>, c: ConnId, address: string, after: seq<Step>, i: nat)
    requires Orders.Inv(store)
    requires Legal(Start(store), before) && Enabled(After(Start(store), before), SubscribeTo(c, address))
    requires var s := Next(After(Start(store), before), SubscribeTo(c, address));
             && Legal(s, after) && (forall x | x in after :: !Touches(x, c))
             && var t := After(s, after);
                Drained(t) && |s.commits| <= i < |t.commits| && LatestSent(t, t.commits[i].key)
    ensures var t := After(Next(After(Start(store), before), SubscribeTo(c, address)), after);
            var k := t.commits[i].key;
            && k in t.store.orders
            && (ShowsTo(t.store.orders[k].order.user, address) ==> LastReceived(t, c, k, t.store.orders[k]))
  {
    SubscribedRun(store, before, c, address, after);
    ReplayAgreement(store, before + [SubscribeTo(c, address)], after, c, NormalizeAddress(address), i);
    var t := After(Next(After(Start(store), before), SubscribeTo(c, address)), after);
    SubscriptionMeans(t.store.orders[t.commits[i].key].order.user, address);
  }

  // ---------- how the classes relate to the machine ----------

  function Snapshots(es: seq<Entry>): seq<Snapshot> {
    seq(|es|, i requires 0 <= i < |es| => es[i].snapshot)
  }

  // A message about order updates does to a connection what the subscription steps do.
  lemma MessagesMatchSteps(s: Sys, c: ConnId, f: Feeds, m: Message)
    requires c in s.connections && f.user == s.connections[c]
    ensures AsksForUser(m) ==>
              Handle(f, m).user == Next(s, SubscribeTo(c, m.sub.user.value)).connections[c]
    ensures DropsUser(m) ==> Handle(f, m).user == Next(s, UnsubscribeFrom(c)).connections[c]
    ensures !AsksForUser(m) && !DropsUser(m) ==> Handle(f, m).user == s.connections[c]
  {
  }

  // A commit does to the channel what every State method does to the manager's channel.
  lemma CommitMatchesState(s: Sys, op: Op)
    requires Enabled(s, Commit(op)) && |s.channel| <= CHANNEL_CAPACITY
    ensures var t := Next(s, Commit(op));
            t.store == Apply(s.store, op) &&
            Snapshots(t.channel) == State.Announced(Snapshots(s.channel), s.store, op)
  {
  }

  // The steps of one fan-out that visits the given connections in the given order.
  function Visits(owner: string, users: map<ConnId, string>, order: seq<ConnId>): seq<Step> {
    if order == [] then [Unlock]
    else
      var user := if order[0] in users then users[order[0]] else "";
      (if Wants(owner, user) then [Check(order[0]), Write] else [Check(order[0])]) + Visits(owner, users, order[1..])
  }

  function Delivered(s: Sys, served: set<ConnId>, e: Entry): map<ConnId, seq<Delivery>> {
    map c | c in s.logs ::
      if c in served && Wants(e.snapshot.order.user, UserOf(s, c)) then s.logs[c] + [Delivery(e, UserOf(s, c))]
      else s.logs[c]
  }

  function Visited(s: Sys, c: ConnId): Sys
    requires s.phase.Visiting?
  {
    s.(phase := Visiting(s.phase.entry, s.phase.left - {c}), logs := Delivered(s, {c}, s.phase.entry))
  }

  lemma VisitOne(s: Sys, c: ConnId, rest: seq<Step>)
    requires Known(s) && s.phase.Visiting? && c in s.phase.left
    ensures var wants := Wants(s.phase.entry.snapshot.order.user, UserOf(s, c));
            var steps := if wants then [Check(c), Write] else [Check(c)];
            var t := Visited(s, c);
            Known(t) && (Legal(t, rest) ==> Legal(s, steps + rest) && After(s, steps + rest) == After(t, rest))
  {
    var t := Visited(s, c);
    var s1 := Next(s, Check(c));
    if Wants(s.phase.entry.snapshot.order.user, UserOf(s, c)) {
      assert Next(s1, Write) == t;
      assert ([Check(c), Write] + rest)[1..] == [Write] + rest && ([Write] + rest)[1..] == rest;
    } else {
      assert s1.logs == t.logs;
      assert ([Check(c)] + rest)[1..] == rest;
    }
  }

  lemma DeliveredInTwo(s: Sys, c: ConnId)
    requires s.phase.Visiting? && c in s.phase.left
    ensures Delivered(Visited(s, c), s.phase.left - {c}, s.phase.entry) == Delivered(s, s.phase.left, s.phase.entry)
  {
  }

  // Whatever the order of the visits, an uninterrupted fan-out writes its update once to every
  // connection that wants it and to no other.
  lemma {:induction false} FanOutInAnyOrder(s: Sys, order: seq<ConnId>)
    requires Known(s) && s.phase.Visiting?
    requires (forall i, j | 0 <= i < j < |order| :: order[i] != order[j]) && (set c | c in order) == s.phase.left
    ensures var steps := Visits(s.phase.entry.snapshot.order.user, s.connections, order);
            Legal(s, steps) &&
            After(s, steps) == s.(phase := Waiting, logs := Delivered(s, s.phase.left, s.phase.entry))
    decreases order
  {
    var e := s.phase.entry;
    if order == [] {
      assert s.logs == Delivered(s, {}, e);
      assert s.phase.left == {};
      assert [Unlock][1..] == [];
    } else {
      var c, others := order[0], order[1..];
      assert c in order;
      var rest := Visits(e.snapshot.order.user, s.connections, others);
      var t := Visited(s, c);
      VisitOne(s, c, rest);
      assert (set x | x in others) == t.phase.left by {
        assert forall x :: x in order <==> x == c || x in others;
      }
      FanOutInAnyOrder(t, others);
      DeliveredInTwo(s, c);
    }
  }

  function Updates(log: seq<Delivery>): seq<Snapshot> {
    seq(|log|, i requires 0 <= i < |log| => log[i].entry.snapshot)
  }

  function AfterTurn(s: Sys): Sys
    requires s.channel != []
  {
    s.(channel := s.channel[1..], taken := s.taken + [s.channel[0]],
       logs := Delivered(s, s.connections.Keys, s.channel[0]))
  }

  // A turn of the broadcaster that nothing interrupts: take, lock, visit every connection in any
  // order, unlock.
  lemma TurnInAnyOrder(s: Sys, order: seq<ConnId>)
    requires Known(s) && s.phase.Waiting? && s.channel != []
    requires (forall i, j | 0 <= i < j < |order| :: order[i] != order[j]) && (set c | c in order) == s.connections.Keys
    ensures var steps := [Take, Lock] + Visits(s.channel[0].snapshot.order.user, s.connections, order);
            Legal(s, steps) && After(s, steps) == AfterTurn(s)
  {
    var u := Next(Next(s, Take), Lock);
    FanOutInAnyOrder(u, order);
    TakeAndLock(s, Visits(s.channel[0].snapshot.order.user, s.connections, order));
    assert Delivered(u, u.phase.left, u.phase.entry) == Delivered(s, s.connections.Keys, s.channel[0]);
  }

  lemma TakeAndLock(s: Sys, rest: seq<Step>)
    requires Enabled(s, Take) && Legal(Next(Next(s, Take), Lock), rest)
    ensures Legal(s, [Take, Lock] + rest)
    ensures After(s, [Take, Lock] + rest) == After(Next(Next(s, Take), Lock), rest)
  {
    var steps := [Take, Lock] + rest;
    assert steps[1..][0] == Lock && steps[1..][1..] == rest;
  }

  // It does to the channel and to the log of every registered connection what
  // WebSocketManager.BroadcastNext does.
  lemma TurnMatchesManager(s: Sys)
    requires Known(s) && s.channel != []
    ensures var t, update := AfterTurn(s), s.channel[0].snapshot;
            && t.connections == s.connections
            && Snapshots(t.channel) == Snapshots(s.channel)[1..]
            && forall c | c in s.connections ::
                 Updates(t.logs[c]) == Pushed(Updates(s.logs[c]), s.connections[c], update)
  {
  }

  // After a turn, a connection with a normalized subscription has one more update, the oldest that was
  // waiting, if that order shows to it, and a connection that it does not show to has none.
  lemma TurnReaches(s: Sys, c: ConnId)
    requires Known(s) && s.channel != [] && c in s.connections && NoCapitals(s.connections[c])
    ensures var t, e := AfterTurn(s), s.channel[0];
            t.logs[c] ==
            if ShowsTo(e.snapshot.order.user, s.connections[c])
            then s.logs[c] + [Delivery(e, s.connections[c])] else s.logs[c]
  {
    WantsMeans(s.channel[0].snapshot.order.user, s.connections[c]);
  }
}
