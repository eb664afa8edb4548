/** A batch of order entries with cloids and no OIDs, described as one upsert: what each key, each
    status and the OID counter are afterwards, in terms of the batch as a whole. */
module BatchOrders {
  import opened Prelude
  import opened Orders
  import opened Handlers

  predicate Plain(e: Entry) {
    e.cloid != "" && EntryOid(e).None?
  }

  // What a batch depends on in an entry: the key it addresses, whether it would be rejected as a new
  // order, and the order it would create, OID aside.
  datatype Item = Item(key: string, rejected: bool, info: OrderInfo)

  function ItemOf(e: Entry, wallet: string): Item {
    Item(CanonicalKey(e.cloid), Rejected(e), OrderInfo(e.coin, SideOf(e), e.px, e.sz, 0, e.sz, e.cloid, wallet))
  }

  function Items(es: seq<Entry>, wallet: string): (items: seq<Item>)
    ensures |items| == |es|
  {
    seq(|es|, i requires 0 <= i < |es| => ItemOf(es[i], wallet))
  }

  // The last item addressed to a key.
  function LastFor(items: seq<Item>, k: string): (r: Option<nat>)
    ensures r.Some? ==> r.value < |items|
  {
    if items == [] then None
    else
      var n := |items| - 1;
      if items[n].key == k then Some(n) else LastFor(items[..n], k)
  }

  // The first item addressed to a key that would not be rejected.
  function FirstAdmissible(items: seq<Item>, k: string): (r: Option<nat>)
    ensures r.Some? ==> r.value < |items|
  {
    if items == [] then None
    else
      var n := |items| - 1;
      var earlier := FirstAdmissible(items[..n], k);
      if earlier.Some? then earlier
      else if items[n].key == k && !items[n].rejected then Some(n) else None
  }

  lemma {:induction false} LastForMeans(items: seq<Item>, k: string)
    ensures LastFor(items, k).None? <==> forall i | 0 <= i < |items| :: items[i].key != k
    ensures LastFor(items, k).Some? ==>
              var i := LastFor(items, k).value;
              items[i].key == k && forall j | i < j < |items| :: items[j].key != k
  {
    if items != [] {
      LastForMeans(items[..|items| - 1], k);
    }
  }

  lemma {:induction false} FirstAdmissibleMeans(items: seq<Item>, k: string)
    ensures FirstAdmissible(items, k).None? <==>
            forall i | 0 <= i < |items| && items[i].key == k :: items[i].rejected
    ensures FirstAdmissible(items, k).Some? ==>
              var i := FirstAdmissible(items, k).value;
              && items[i].key == k && !items[i].rejected
              && forall j | 0 <= j < i && items[j].key == k :: items[j].rejected
  {
    if items != [] {
      FirstAdmissibleMeans(items[..|items| - 1], k);
    }
  }

  // Item i creates an order: its key is new, and it is the first admissible item for it.
  predicate Admits(s: Store, items: seq<Item>, i: nat)
    requires i < |items|
  {
    items[i].key !in s.orders && FirstAdmissible(items, items[i].key) == Some(i)
  }

  // How many of the first n items create orders.
  function Admissions(s: Store, items: seq<Item>, n: nat): nat
    requires n <= |items|
  {
    if n == 0 then 0 else Admissions(s, items, n - 1) + if Admits(s, items, n - 1) then 1 else 0
  }

  function Born(item: Item, oid: int): Snapshot {
    Snapshot(item.info.(oid := oid), "open")
  }

  // The OID of the order that admissible item i creates.
  function BornOid(s: Store, items: seq<Item>, i: nat): int
    requires i <= |items|
  {
    s.nextOid + 1 + Admissions(s, items, i)
  }

  // The order a batch leaves under a key. A known key keeps everything but price and size; a new one
  // takes its identity from its first admissible item; price and size are the last item's.
  function Expected(s: Store, items: seq<Item>, k: string): Option<Snapshot> {
    Priced(Base(s, items, k), items, LastFor(items, k))
  }

  function Base(s: Store, items: seq<Item>, k: string): Option<Snapshot> {
    if k in s.orders then Some(s.orders[k]) else Admitted(s, items, FirstAdmissible(items, k))
  }

  function Admitted(s: Store, items: seq<Item>, first: Option<nat>): Option<Snapshot>
    requires first.Some? ==> first.value < |items|
  {
    if first.None? then None else Some(Born(items[first.value], BornOid(s, items, first.value)))
  }

  function Priced(base: Option<Snapshot>, items: seq<Item>, last: Option<nat>): Option<Snapshot>
    requires last.Some? ==> last.value < |items|
  {
    if base.Some? && last.Some?
    then Some(Repriced(base.value, items[last.value].info.limitPx, items[last.value].info.sz))
    else base
  }

  // The status of item i: resting under the key's OID if the key was known or admitted by then.
  function ExpectedStatus(s: Store, items: seq<Item>, i: nat): Status
    requires i < |items|
  {
    var k := items[i].key;
    if k in s.orders then Resting(s.orders[k].order.oid, items[i].info.cloid)
    else
      match FirstAdmissible(items, k)
      case None => IocRejected
      case Some(j) =>
        if j <= i then Resting(BornOid(s, items, j), items[i].info.cloid) else IocRejected
  }

  function Lookup(s: Store, k: string): Option<Snapshot> {
    if k in s.orders then Some(s.orders[k]) else None
  }

  // ---------- adding one item ----------

  lemma FirstIsStable(items: seq<Item>, e: Item, k: string)
    ensures FirstAdmissible(items + [e], k) ==
            if FirstAdmissible(items, k).Some? then FirstAdmissible(items, k)
            else if e.key == k && !e.rejected then Some(|items|) else None
  {
    assert (items + [e])[..|items|] == items;
  }

  lemma LastIsLatest(items: seq<Item>, e: Item, k: string)
    ensures LastFor(items + [e], k) == if e.key == k then Some(|items|) else LastFor(items, k)
  {
    assert (items + [e])[..|items|] == items;
  }

  lemma {:induction false} AdmissionsAreStable(s: Store, items: seq<Item>, e: Item, n: nat)
    requires n <= |items|
    ensures Admissions(s, items + [e], n) == Admissions(s, items, n)
  {
    if n > 0 {
      AdmissionsAreStable(s, items, e, n - 1);
      FirstIsStable(items, e, items[n - 1].key);
      assert (items + [e])[n - 1] == items[n - 1];
    }
  }

  lemma AdmittedIsStable(s: Store, items: seq<Item>, e: Item, first: Option<nat>)
    requires first.Some? ==> first.value < |items|
    ensures Admitted(s, items + [e], first) == Admitted(s, items, first)
  {
    if first.Some? {
      AdmissionsAreStable(s, items, e, first.value);
      assert (items + [e])[first.value] == items[first.value];
    }
  }

  // What one more item makes of the order under its key, if the next free OID is `oid`.
  function AfterItem(before: Option<Snapshot>, e: Item, oid: int): Option<Snapshot> {
    if before.Some? then Some(Repriced(before.value, e.info.limitPx, e.info.sz))
    else if e.rejected then None
    else Some(Born(e, oid))
  }

  function StatusAfter(before: Option<Snapshot>, e: Item, oid: int): Status {
    if before.Some? then Resting(before.value.order.oid, e.info.cloid)
    else if e.rejected then IocRejected
    else Resting(oid, e.info.cloid)
  }

  function CountAfter(before: Option<Snapshot>, e: Item): nat {
    if before.None? && !e.rejected then 1 else 0
  }

  lemma BaseStep(s: Store, items: seq<Item>, e: Item, k: string)
    ensures Base(s, items + [e], k) ==
            if Base(s, items, k).Some? || e.key != k || e.rejected then Base(s, items, k)
            else Some(Born(e, BornOid(s, items, |items|)))
  {
    FirstIsStable(items, e, k);
    AdmittedIsStable(s, items, e, FirstAdmissible(items, k));
    AdmissionsAreStable(s, items, e, |items|);
  }

  lemma PricedStep(base: Option<Snapshot>, items: seq<Item>, e: Item, k: string)
    ensures Priced(base, items + [e], LastFor(items + [e], k)) ==
            if e.key != k then Priced(base, items, LastFor(items, k))
            else if base.Some? then Some(Repriced(base.value, e.info.limitPx, e.info.sz)) else None
  {
    LastIsLatest(items, e, k);
    if LastFor(items, k).Some? {
      assert (items + [e])[LastFor(items, k).value] == items[LastFor(items, k).value];
    }
  }

  lemma ExpectedStep(s: Store, items: seq<Item>, e: Item, k: string)
    ensures Expected(s, items + [e], k) ==
            if e.key != k then Expected(s, items, k)
            else AfterItem(Expected(s, items, k), e, BornOid(s, items, |items|))
  {
    BaseStep(s, items, e, k);
    PricedStep(Base(s, items + [e], k), items, e, k);
  }

  lemma StatusStep(s: Store, items: seq<Item>, e: Item, i: nat)
    requires i < |items|
    ensures ExpectedStatus(s, items + [e], i) == ExpectedStatus(s, items, i)
  {
    assert (items + [e])[i] == items[i];
    FirstIsStable(items, e, items[i].key);
    var first := FirstAdmissible(items, items[i].key);
    if first.Some? {
      AdmissionsAreStable(s, items, e, first.value);
    }
  }

  lemma LastStatus(s: Store, items: seq<Item>, e: Item)
    ensures ExpectedStatus(s, items + [e], |items|) ==
            StatusAfter(Expected(s, items, e.key), e, BornOid(s, items, |items|))
  {
    FirstIsStable(items, e, e.key);
    AdmissionsAreStable(s, items, e, |items|);
    if FirstAdmissible(items, e.key).Some? {
      AdmissionsAreStable(s, items, e, FirstAdmissible(items, e.key).value);
    }
  }

  lemma CountStep(s: Store, items: seq<Item>, e: Item)
    ensures Admissions(s, items + [e], |items| + 1) ==
            Admissions(s, items, |items|) + CountAfter(Expected(s, items, e.key), e)
  {
    FirstIsStable(items, e, e.key);
    AdmissionsAreStable(s, items, e, |items|);
  }

  // ---------- main result ----------

  // What running a batch must have produced.
  ghost predicate IsUpsert(s: Store, items: seq<Item>, t: Store, statuses: seq<Status>) {
    && t.nextOid == s.nextOid + Admissions(s, items, |items|)
    && (forall k :: Lookup(t, k) == Expected(s, items, k))
    && |statuses| == |items|
    && (forall i | 0 <= i < |items| :: statuses[i] == ExpectedStatus(s, items, i))
  }

  // What processOrder makes of an entry with a cloid and no OID, by what its key holds.
  lemma PlainEntry(t: Store, e: Entry, wallet: string, mock: string)
    requires Plain(e)
    ensures var (t', status) := Process(t, e, wallet, mock);
            var item := ItemOf(e, wallet);
            var before := Lookup(t, item.key);
            && t'.nextOid == t.nextOid + CountAfter(before, item)
            && Lookup(t', item.key) == AfterItem(before, item, t.nextOid + 1)
            && (forall k | k != item.key :: Lookup(t', k) == Lookup(t, k))
            && status == StatusAfter(before, item, t.nextOid + 1)
  {
  }

  lemma UpsertStep(s: Store, items: seq<Item>, item: Item, t: Store, statuses: seq<Status>, t': Store, status: Status)
    requires IsUpsert(s, items, t, statuses)
    requires var before := Lookup(t, item.key);
             && t'.nextOid == t.nextOid + CountAfter(before, item)
             && Lookup(t', item.key) == AfterItem(before, item, t.nextOid + 1)
             && (forall k | k != item.key :: Lookup(t', k) == Lookup(t, k))
             && status == StatusAfter(before, item, t.nextOid + 1)
    ensures IsUpsert(s, items + [item], t', statuses + [status])
  {
    CountStep(s, items, item);
    LastStatus(s, items, item);
    forall k ensures Lookup(t', k) == Expected(s, items + [item], k) {
      ExpectedStep(s, items, item, k);
    }
    forall i | 0 <= i < |items| + 1 ensures (statuses + [status])[i] == ExpectedStatus(s, items + [item], i) {
      if i < |items| {
        StatusStep(s, items, item, i);
      }
    }
  }

  // Processing a batch entry by entry equals the upsert the batch describes.
  lemma {:induction false} BatchIsUpsert(s: Store, es: seq<Entry>, wallet: string, mock: nat -> string)
    requires forall i | 0 <= i < |es| :: Plain(es[i])
    ensures var (t, statuses) := ProcessAll(s, es, wallet, mock);
            IsUpsert(s, Items(es, wallet), t, statuses)
  {
    if es != [] {
      var n := |es| - 1;
      var (t, statuses) := ProcessAll(s, es[..n], wallet, mock);
      BatchIsUpsert(s, es[..n], wallet, mock);
      PlainEntry(t, es[n], wallet, mock(n));
      var (t', status) := Process(t, es[n], wallet, mock(n));
      UpsertStep(s, Items(es[..n], wallet), ItemOf(es[n], wallet), t, statuses, t', status);
      ItemsLast(es, wallet);
    }
  }

  lemma ItemsLast(es: seq<Entry>, wallet: string)
    requires es != []
    ensures var n := |es| - 1;
            Items(es, wallet) == Items(es[..n], wallet) + [ItemOf(es[n], wallet)]
  {
  }

  // New OIDs are consecutive in the order of admission: each admission takes the next one.
  lemma {:induction false} OidsAreConsecutive(s: Store, items: seq<Item>, i: nat, j: nat)
    requires i < j < |items| && Admits(s, items, i) && Admits(s, items, j)
    requires forall m | i < m < j :: !Admits(s, items, m)
    ensures BornOid(s, items, j) == BornOid(s, items, i) + 1
  {
    NoAdmissionsBetween(s, items, i + 1, j);
  }

  lemma {:induction false} NoAdmissionsBetween(s: Store, items: seq<Item>, i: nat, j: nat)
    requires i <= j <= |items| && forall m | i <= m < j :: !Admits(s, items, m)
    ensures Admissions(s, items, j) == Admissions(s, items, i)
  {
    if i < j {
      NoAdmissionsBetween(s, items, i, j - 1);
    }
  }
}
