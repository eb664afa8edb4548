/** The order store as a value: what each State method and FillOrder do to it, the invariant they
    keep, and what follows over whole runs. */
module Orders {
  import opened Prelude

  // A price or size field: the decimal text of a number, or text that is not one.
  datatype Quantity = Decimal(value: real) | NotANumber(text: string)

  datatype OrderInfo = OrderInfo(
    coin: string, side: string, limitPx: Quantity, sz: Quantity,
    oid: int, origSz: Quantity, cloid: string, user: string)

  // A by-value copy of an order with its status, as queries return it and broadcasts carry it.
  datatype Snapshot = Snapshot(order: OrderInfo, status: string)

  // An order as the store keeps it: one object, updated in place.
  class OrderDetail {
    var order: OrderInfo
    var status: string

    constructor (order: OrderInfo, status: string)
      ensures this.order == order && this.status == status
    {
      this.order, this.status := order, status;
    }

    function Copy(): Snapshot
      reads this
    {
      Snapshot(order, status)
    }
  }

  datatype Store = Store(orders: map<string, Snapshot>, nextOid: int)

  const FIRST_OID := 1_000_000

  function Empty(): Store {
    Store(map[], FIRST_OID)
  }

  function CanonicalKey(cloid: string): string {
    if |cloid| >= 2 && (cloid[..2] == "0x" || cloid[..2] == "0X") then ToLower(cloid[2..]) else cloid
  }

  // ---------- spellings of a cloid ----------

  predicate HasHexPrefix(cloid: string) {
    |cloid| >= 2 && cloid[0] == '0' && (cloid[1] == 'x' || cloid[1] == 'X')
  }

  // The two texts spell one cloid: letter case and the case of the prefix do not matter behind a hex
  // prefix, and a text without one is spelled one way, which is also that of its lower-case digits
  // behind a prefix.
  predicate SameCloid(a: string, b: string) {
    if HasHexPrefix(a) && HasHexPrefix(b) then SameUpToCase(a[2..], b[2..])
    else if HasHexPrefix(a) then SameUpToCase(a[2..], b) && NoCapitals(b)
    else if HasHexPrefix(b) then SameUpToCase(b[2..], a) && NoCapitals(a)
    else a == b
  }

  lemma KeyOfCloid(cloid: string)
    ensures CanonicalKey(cloid) == if HasHexPrefix(cloid) then ToLower(cloid[2..]) else cloid
  {
    if |cloid| >= 2 {
      assert cloid[..2] == [cloid[0], cloid[1]];
    }
  }

  // Two texts have one key exactly when they spell one cloid; text without a prefix is its own key.
  lemma KeysAgree(a: string, b: string)
    ensures CanonicalKey(a) == CanonicalKey(b) <==> SameCloid(a, b)
    ensures !HasHexPrefix(a) ==> CanonicalKey(a) == a
  {
    KeyOfCloid(a);
    KeyOfCloid(b);
    if HasHexPrefix(a) && HasHexPrefix(b) {
      LowerCasesAgree(a[2..], b[2..]);
    } else if HasHexPrefix(a) {
      ToLowerMeans(a[2..], b);
    } else if HasHexPrefix(b) {
      ToLowerMeans(b[2..], a);
    }
  }

  // ---------- fills ----------

  const DUST := 0.000000000001

  function Clamp(wanted: real, remaining: real): real {
    var atLeastZero := if wanted < 0.0 then 0.0 else wanted;
    if atLeastZero > remaining then remaining else atLeastZero
  }

  function FillAmount(remaining: real, wanted: Option<real>): real {
    Clamp(if wanted.Some? then wanted.value else remaining, remaining)
  }

  function Abs(x: real): real {
    if x < 0.0 then -x else x
  }

  function AfterFill(remaining: real, wanted: Option<real>): real {
    var left := remaining - FillAmount(remaining, wanted);
    if Abs(left) < DUST then 0.0 else left
  }

  // ---------- operations ----------

  datatype Op =
    | Create(cloid: string, coin: string, side: string, px: Quantity, sz: Quantity, user: string)
    | Modify(cloid: string, px: Quantity, sz: Quantity)
    | ModifyByOid(oid: int, px: Quantity, sz: Quantity)
    | Cancel(cloid: string)
    | CancelByOid(oid: int)
    | Fill(cloid: string, price: real, wanted: Option<real>)

  // Some order has this OID, and it is stored under this key.
  predicate Holds(s: Store, oid: int, k: string) {
    k in s.orders && s.orders[k].order.oid == oid
  }

  ghost function KeyOfOid(s: Store, oid: int): (r: Option<string>)
    ensures r.Some? ==> Holds(s, oid, r.value)
    ensures r.None? ==> forall k :: !Holds(s, oid, k)
  {
    if exists k :: Holds(s, oid, k) then
      var k :| Holds(s, oid, k);
      Some(k)
    else None
  }

  function Present(s: Store, cloid: string): Option<string> {
    if CanonicalKey(cloid) in s.orders then Some(CanonicalKey(cloid)) else None
  }

  // The key an operation writes, if it writes at all.
  ghost function Target(s: Store, op: Op): Option<string> {
    match op
    case Create(cloid, _, _, _, _, _) => Some(CanonicalKey(cloid))
    case Modify(cloid, _, _) => Present(s, cloid)
    case ModifyByOid(oid, _, _) => KeyOfOid(s, oid)
    case Cancel(cloid) => Present(s, cloid)
    case CancelByOid(oid) => KeyOfOid(s, oid)
    case Fill(cloid, _, _) =>
      var k := Present(s, cloid);
      if k.Some? && s.orders[k.value].order.sz.Decimal? then k else None
  }

  function Repriced(o: Snapshot, px: Quantity, sz: Quantity): Snapshot {
    o.(order := o.order.(limitPx := px, sz := sz))
  }

  function Canceled(o: Snapshot): Snapshot {
    o.(status := "canceled")
  }

  function Filled(o: Snapshot, price: real, wanted: Option<real>): Snapshot
    requires o.order.sz.Decimal?
  {
    var left := AfterFill(o.order.sz.value, wanted);
    Repriced(o, Decimal(price), Decimal(left)).(status := if left == 0.0 then "filled" else "open")
  }

  function NewOrder(op: Op, oid: int): Snapshot
    requires op.Create?
  {
    Snapshot(OrderInfo(op.coin, op.side, op.px, op.sz, oid, op.sz, op.cloid, op.user), "open")
  }

  // The order an operation leaves under the key it writes.
  ghost function Written(s: Store, op: Op): Snapshot
    requires Target(s, op).Some?
  {
    var k := Target(s, op).value;
    match op
    case Create(_, _, _, _, _, _) => NewOrder(op, s.nextOid + 1)
    case Modify(_, px, sz) => Repriced(s.orders[k], px, sz)
    case ModifyByOid(_, px, sz) => Repriced(s.orders[k], px, sz)
    case Cancel(_) => Canceled(s.orders[k])
    case CancelByOid(_) => Canceled(s.orders[k])
    case Fill(_, price, wanted) => Filled(s.orders[k], price, wanted)
  }

  ghost function Apply(s: Store, op: Op): Store {
    var k := Target(s, op);
    if k.None? then s
    else Store(s.orders[k.value := Written(s, op)], if op.Create? then s.nextOid + 1 else s.nextOid)
  }

  ghost function Run(s: Store, ops: seq<Op>): Store
    decreases ops
  {
    if ops == [] then s else Run(Apply(s, ops[0]), ops[1..])
  }

  // ---------- the invariant, and what it gives ----------

  ghost predicate Inv(s: Store) {
    && FIRST_OID <= s.nextOid
    && (forall k | k in s.orders ::
          CanonicalKey(s.orders[k].order.cloid) == k && FIRST_OID < s.orders[k].order.oid <= s.nextOid)
    && (forall j, k | j in s.orders && k in s.orders && s.orders[j].order.oid == s.orders[k].order.oid :: j == k)
  }

  predicate SameIdentity(a: OrderInfo, b: OrderInfo) {
    a.coin == b.coin && a.side == b.side && a.oid == b.oid && a.origSz == b.origSz &&
    a.cloid == b.cloid && a.user == b.user
  }

  lemma ApplyKeepsInv(s: Store, op: Op)
    requires Inv(s)
    ensures Inv(Apply(s, op))
  {
  }

  // What an operation writes belongs under the key it writes to, and has the cloid or OID that the
  // operation names.
  lemma WrittenUnderItsKey(s: Store, op: Op)
    requires Inv(s) && Target(s, op).Some?
    ensures CanonicalKey(Written(s, op).order.cloid) == Target(s, op).value
    ensures op.ModifyByOid? || op.CancelByOid? ==> Written(s, op).order.oid == op.oid
    ensures !op.ModifyByOid? && !op.CancelByOid? ==> SameCloid(Written(s, op).order.cloid, op.cloid)
  {
    if !op.ModifyByOid? && !op.CancelByOid? {
      KeysAgree(Written(s, op).order.cloid, op.cloid);
    }
  }

  // A cloid, in any spelling, belongs to at most one order.
  lemma PresentMeans(s: Store, cloid: string)
    requires Inv(s)
    ensures Present(s, cloid).Some? <==> exists k :: k in s.orders && SameCloid(s.orders[k].order.cloid, cloid)
    ensures forall k | k in s.orders && SameCloid(s.orders[k].order.cloid, cloid) :: Present(s, cloid) == Some(k)
  {
    forall k | k in s.orders
      ensures SameCloid(s.orders[k].order.cloid, cloid) <==> k == CanonicalKey(cloid)
    {
      KeysAgree(s.orders[k].order.cloid, cloid);
    }
  }

  // ---------- what each operation does, field by field ----------

  // The operation names the order under key k, by its OID or by its cloid in any spelling.
  predicate Addresses(s: Store, op: Op, k: string)
    requires k in s.orders
  {
    var o := s.orders[k].order;
    match op
    case Create(_, _, _, _, _, _) => false
    case Modify(cloid, _, _) => SameCloid(cloid, o.cloid)
    case Cancel(cloid) => SameCloid(cloid, o.cloid)
    case Fill(cloid, _, _) => SameCloid(cloid, o.cloid)
    case ModifyByOid(oid, _, _) => oid == o.oid
    case CancelByOid(oid) => oid == o.oid
  }

  lemma AddressedTarget(s: Store, op: Op, k: string)
    requires Inv(s) && k in s.orders && !op.Create?
    ensures Target(s, op) == Some(k) <==> Addresses(s, op, k) && (op.Fill? ==> s.orders[k].order.sz.Decimal?)
  {
    if op.ModifyByOid? || op.CancelByOid? {
      if Addresses(s, op, k) {
        ScanHasOneHit(s, op.oid, k);
      }
    } else {
      KeysAgree(op.cloid, s.orders[k].order.cloid);
    }
  }

  // Creating stores one open order with the next OID, of which everything is still to be filled.
  lemma CreateSets(s: Store, op: Op)
    requires op.Create?
    ensures var t, k := Apply(s, op), CanonicalKey(op.cloid);
            && t.nextOid == s.nextOid + 1
            && t.orders.Keys == s.orders.Keys + {k}
            && (forall j | j in s.orders && j != k :: t.orders[j] == s.orders[j])
            && var now := t.orders[k];
               && now.status == "open"
               && now.order.oid == s.nextOid + 1
               && now.order.coin == op.coin && now.order.side == op.side && now.order.user == op.user
               && now.order.cloid == op.cloid && now.order.limitPx == op.px
               && now.order.sz == op.sz && now.order.origSz == op.sz
  {
  }

  // Any other operation changes only an order that it names, keeps its identity, and sets price, size
  // and status as it says. A fill of a size that is not a number changes nothing.
  lemma OperationSets(s: Store, op: Op, k: string)
    requires Inv(s) && k in s.orders && !op.Create?
    ensures var t := Apply(s, op);
            && t.nextOid == s.nextOid && t.orders.Keys == s.orders.Keys
            && var was, now := s.orders[k], t.orders[k];
               && SameIdentity(was.order, now.order)
               && (!Addresses(s, op, k) ==> now == was)
               && (Addresses(s, op, k) ==>
                     match op
                     case Modify(_, px, sz) =>
                       now.order.limitPx == px && now.order.sz == sz && now.status == was.status
                     case ModifyByOid(_, px, sz) =>
                       now.order.limitPx == px && now.order.sz == sz && now.status == was.status
                     case Cancel(_) => now.order == was.order && now.status == "canceled"
                     case CancelByOid(_) => now.order == was.order && now.status == "canceled"
                     case Fill(_, price, wanted) =>
                       (match was.order.sz
                        case NotANumber(_) => now == was
                        case Decimal(size) =>
                          && now.order.limitPx == Decimal(price)
                          && now.order.sz == Decimal(AfterFill(size, wanted))
                          && now.status == if AfterFill(size, wanted) == 0.0 then "filled" else "open"))
  {
    AddressedTarget(s, op, k);
  }

  // An order created under one spelling of a cloid is found, repriced, canceled and filled under
  // every other.
  lemma SpellingsReach(s: Store, created: Op, cloid: string, px: Quantity, sz: Quantity, price: real,
                       wanted: Option<real>)
    requires Inv(s) && created.Create? && SameCloid(created.cloid, cloid)
    ensures var t := Apply(s, created);
            && Present(t, cloid).Some?
            && var k := Present(t, cloid).value;
               && t.orders[k].order.oid == s.nextOid + 1
               && Apply(t, Modify(cloid, px, sz)).orders[k] == Repriced(t.orders[k], px, sz)
               && Apply(t, Cancel(cloid)).orders[k].status == "canceled"
               && (created.sz.Decimal? ==>
                     Apply(t, Fill(cloid, price, wanted)).orders[k].order.limitPx == Decimal(price))
  {
    ApplyKeepsInv(s, created);
    KeysAgree(created.cloid, cloid);
  }

  // In every store reachable from the empty one, OIDs are distinct and in range, and every order
  // sits under the canonical form of its cloid.
  lemma {:induction false} RunKeepsInv(s: Store, ops: seq<Op>)
    requires Inv(s)
    ensures Inv(Run(s, ops)) && s.nextOid <= Run(s, ops).nextOid
    ensures s.orders.Keys <= Run(s, ops).orders.Keys
    decreases ops
  {
    if ops != [] {
      ApplyKeepsInv(s, ops[0]);
      RunKeepsInv(Apply(s, ops[0]), ops[1..]);
    }
  }

  function Creations(ops: seq<Op>): nat {
    if ops == [] then 0 else (if ops[0].Create? then 1 else 0) + Creations(ops[1..])
  }

  lemma {:induction false} RunCounts(s: Store, ops: seq<Op>)
    ensures Run(s, ops).nextOid == s.nextOid + Creations(ops)
    decreases ops
  {
    if ops != [] {
      RunCounts(Apply(s, ops[0]), ops[1..]);
    }
  }

  // The OIDs of a new server lie above 1000000, and at most as far above it as orders were created.
  // No two orders have one OID or one cloid in two spellings.
  lemma OidsFromTheStart(ops: seq<Op>, j: string, k: string)
    requires var s := Run(Empty(), ops); j in s.orders && k in s.orders
    ensures var s := Run(Empty(), ops);
            && 1_000_000 < s.orders[k].order.oid <= 1_000_000 + Creations(ops)
            && (j != k ==> s.orders[j].order.oid != s.orders[k].order.oid &&
                           !SameCloid(s.orders[j].order.cloid, s.orders[k].order.cloid))
  {
    var s := Run(Empty(), ops);
    RunKeepsInv(Empty(), ops);
    RunCounts(Empty(), ops);
    KeysAgree(s.orders[j].order.cloid, s.orders[k].order.cloid);
  }

  // An OID in range keeps naming one order: whatever happens in between, the order that has it
  // later sits under the same key and has the same coin, side, original size, cloid and owner.
  lemma {:induction false} OidNamesOneOrder(s: Store, ops: seq<Op>, oid: int, j: string, k: string)
    requires Inv(s) && Holds(s, oid, j) && Holds(Run(s, ops), oid, k)
    ensures j == k && SameIdentity(s.orders[j].order, Run(s, ops).orders[k].order)
    decreases ops
  {
    if ops != [] {
      var t := Apply(s, ops[0]);
      ApplyKeepsInv(s, ops[0]);
      if Holds(t, oid, j) {
        OidNamesOneOrder(t, ops[1..], oid, j, k);
      } else {
        OidIsNotReused(t, ops[1..], oid);
      }
    }
  }

  lemma {:induction false} OidIsNotReused(s: Store, ops: seq<Op>, oid: int)
    requires Inv(s) && oid <= s.nextOid && forall k :: !Holds(s, oid, k)
    ensures forall k :: !Holds(Run(s, ops), oid, k)
    decreases ops
  {
    if ops != [] {
      var t := Apply(s, ops[0]);
      ApplyKeepsInv(s, ops[0]);
      forall k ensures !Holds(t, oid, k) {
        assert !Holds(s, oid, k);
      }
      OidIsNotReused(t, ops[1..], oid);
    }
  }

  // ---------- scanning by OID ----------

  // At most one key can end a scan, whatever order the scan takes.
  lemma ScanHasOneHit(s: Store, oid: int, k: string)
    requires Inv(s) && Holds(s, oid, k)
    ensures KeyOfOid(s, oid) == Some(k)
  {
  }

  // Operating by OID is operating by the cloid of the order that has the OID.
  lemma ScanRefinesIndex(s: Store, k: string, px: Quantity, sz: Quantity)
    requires Inv(s) && k in s.orders
    ensures var o := s.orders[k].order;
            && Apply(s, ModifyByOid(o.oid, px, sz)) == Apply(s, Modify(o.cloid, px, sz))
            && Apply(s, CancelByOid(o.oid)) == Apply(s, Cancel(o.cloid))
            && KeyOfOid(s, o.oid) == Present(s, o.cloid) == Some(k)
  {
    ScanHasOneHit(s, s.orders[k].order.oid, k);
  }

  // ---------- conservation of size under fills ----------

  ghost function Remaining(initial: real, fills: seq<Option<real>>): real {
    if fills == [] then initial
    else AfterFill(Remaining(initial, fills[..|fills| - 1]), fills[|fills| - 1])
  }

  ghost function TotalFilled(initial: real, fills: seq<Option<real>>): real {
    if fills == [] then 0.0
    else
      var earlier := fills[..|fills| - 1];
      TotalFilled(initial, earlier) + FillAmount(Remaining(initial, earlier), fills[|fills| - 1])
  }

  // The amount filled is the point of [0, remaining] nearest to what was wanted, and everything when
  // no amount was named.
  lemma FillAmountIsNearest(remaining: real, wanted: Option<real>, other: real)
    requires remaining >= 0.0 && 0.0 <= other <= remaining
    ensures 0.0 <= FillAmount(remaining, wanted) <= remaining
    ensures wanted.None? ==> FillAmount(remaining, wanted) == remaining && AfterFill(remaining, wanted) == 0.0
    ensures wanted.Some? ==>
              Abs(FillAmount(remaining, wanted) - wanted.value) <= Abs(other - wanted.value)
  {
  }

  // What remains after a fill is the exact difference, except that a remainder within 10^-12 of zero
  // is taken for zero.
  lemma RemainderIsRounded(remaining: real, wanted: Option<real>)
    ensures var left := remaining - FillAmount(remaining, wanted);
            AfterFill(remaining, wanted) == if -0.000000000001 < left < 0.000000000001 then 0.0 else left
  {
  }

  // A single fill never increases the remaining size exactly when that size is not negative.
  lemma FillShrinksIff(remaining: real, wanted: Option<real>)
    ensures remaining >= 0.0 <==> 0.0 <= AfterFill(remaining, wanted) <= remaining
    ensures remaining < 0.0 ==> AfterFill(remaining, wanted) == 0.0
  {
  }

  // Over any sequence of fills the remaining size only falls, never below zero, and what has left
  // the order is what was filled, up to one rounding of a remainder below 10^-12.
  lemma {:induction false} FillsConserve(initial: real, fills: seq<Option<real>>)
    requires initial >= 0.0
    ensures 0.0 <= Remaining(initial, fills) <= initial
    ensures fills != [] ==> Remaining(initial, fills) <= Remaining(initial, fills[..|fills| - 1])
    ensures 0.0 <= initial - Remaining(initial, fills) - TotalFilled(initial, fills) < 0.000000000001
    ensures Remaining(initial, fills) > 0.0 ==> initial - Remaining(initial, fills) == TotalFilled(initial, fills)
  {
    if fills != [] {
      FillsConserve(initial, fills[..|fills| - 1]);
    }
  }

  // The fills among ops that are addressed to one key.
  ghost function FillsOf(ops: seq<Op>, k: string): seq<Option<real>> {
    if ops == [] then []
    else
      var earlier, op := ops[..|ops| - 1], ops[|ops| - 1];
      if IsFillOf(op, k) then FillsOf(earlier, k) + [op.wanted] else FillsOf(earlier, k)
  }

  predicate IsFillOf(op: Op, k: string) {
    op.Fill? && CanonicalKey(op.cloid) == k
  }

  ghost predicate IsCancelOf(s: Store, op: Op, k: string) {
    (op.Cancel? || op.CancelByOid?) && Target(s, op) == Some(k)
  }

  // An operation that writes key k fills or cancels the order there.
  ghost predicate FillsOrCancels(s: Store, op: Op, k: string) {
    Target(s, op) == Some(k) ==> IsFillOf(op, k) || IsCancelOf(s, op, k)
  }

  // The order under key k was canceled and has not been filled since.
  ghost predicate CanceledLast(s: Store, ops: seq<Op>, k: string) {
    ops != [] &&
      var earlier, op := ops[..|ops| - 1], ops[|ops| - 1];
      !IsFillOf(op, k) && (IsCancelOf(Run(s, earlier), op, k) || CanceledLast(s, earlier, k))
  }

  lemma {:induction false} RunAppend(s: Store, ops: seq<Op>, op: Op)
    ensures Run(s, ops + [op]) == Apply(Run(s, ops), op)
    decreases ops
  {
    if ops == [] {
      assert ([op] + [])[1..] == [];
    } else {
      RunAppend(Apply(s, ops[0]), ops[1..], op);
      assert (ops + [op])[1..] == ops[1..] + [op];
    }
  }

  // What one more operation does to the size that the fills of key k leave.
  lemma RemainingNext(initial: real, ops: seq<Op>, k: string)
    requires ops != []
    ensures var earlier, op := ops[..|ops| - 1], ops[|ops| - 1];
            if IsFillOf(op, k) then
              && FillsOf(ops, k) != []
              && Remaining(initial, FillsOf(ops, k)) == AfterFill(Remaining(initial, FillsOf(earlier, k)), op.wanted)
            else FillsOf(ops, k) == FillsOf(earlier, k)
  {
    var fills := FillsOf(ops[..|ops| - 1], k);
    if IsFillOf(ops[|ops| - 1], k) {
      assert (fills + [ops[|ops| - 1].wanted])[..|fills|] == fills;
    }
  }

  lemma StepKeepsSize(t: Store, op: Op, k: string, size: real)
    requires k in t.orders && t.orders[k].order.sz == Decimal(size) && FillsOrCancels(t, op, k)
    ensures k in Apply(t, op).orders
    ensures var was, now := t.orders[k], Apply(t, op).orders[k];
            var left := AfterFill(size, (if op.Fill? then op.wanted else None));
            if IsFillOf(op, k) then
              now.order.sz == Decimal(left) && now.status == if left == 0.0 then "filled" else "open"
            else now == if IsCancelOf(t, op, k) then Canceled(was) else was
  {
  }

  lemma FillsOrCancelsEarlier(s: Store, ops: seq<Op>, k: string)
    requires ops != [] && forall i | 0 <= i < |ops| :: FillsOrCancels(Run(s, ops[..i]), ops[i], k)
    ensures var earlier := ops[..|ops| - 1];
            && (forall i | 0 <= i < |earlier| :: FillsOrCancels(Run(s, earlier[..i]), earlier[i], k))
            && Run(s, ops) == Apply(Run(s, earlier), ops[|ops| - 1])
  {
    var earlier, op := ops[..|ops| - 1], ops[|ops| - 1];
    forall i | 0 <= i < |earlier| ensures FillsOrCancels(Run(s, earlier[..i]), earlier[i], k) {
      assert earlier[..i] == ops[..i];
    }
    assert ops == earlier + [op];
    RunAppend(s, earlier, op);
  }

  // An order that is only filled and canceled, among any operations on other orders, has exactly the
  // size the fills leave. Its status tells what happened last: it is "canceled", or after a fill
  // "filled" exactly when nothing remains.
  lemma {:induction false} StoredSizeFollowsFills(s: Store, ops: seq<Op>, k: string, initial: real)
    requires k in s.orders && s.orders[k].order.sz == Decimal(initial)
    requires forall i | 0 <= i < |ops| :: FillsOrCancels(Run(s, ops[..i]), ops[i], k)
    ensures k in Run(s, ops).orders
    ensures var left := Remaining(initial, FillsOf(ops, k));
            var now := Run(s, ops).orders[k];
            && now.order.sz == Decimal(left)
            && (CanceledLast(s, ops, k) ==> now.status == "canceled")
            && (!CanceledLast(s, ops, k) && FillsOf(ops, k) != [] ==>
                  now.status == if left == 0.0 then "filled" else "open")
  {
    if ops != [] {
      var earlier, op := ops[..|ops| - 1], ops[|ops| - 1];
      FillsOrCancelsEarlier(s, ops, k);
      StoredSizeFollowsFills(s, earlier, k, initial);
      StepKeepsSize(Run(s, earlier), op, k, Remaining(initial, FillsOf(earlier, k)));
      RemainingNext(initial, ops, k);
    }
  }

  // The last fill of key k among ops, if there is one.
  ghost predicate IsLastFill(ops: seq<Op>, k: string, last: Option<nat>) {
    && (last.Some? ==> last.value < |ops| && IsFillOf(ops[last.value], k))
    && forall j | (if last.Some? then last.value + 1 else 0) <= j < |ops| :: !IsFillOf(ops[j], k)
  }

  lemma StepKeepsPrice(t: Store, op: Op, k: string)
    requires k in t.orders && t.orders[k].order.sz.Decimal? && FillsOrCancels(t, op, k)
    ensures k in Apply(t, op).orders
    ensures var was, now := t.orders[k].order, Apply(t, op).orders[k].order;
            && SameIdentity(was, now)
            && now.limitPx == if IsFillOf(op, k) then Decimal(op.price) else was.limitPx
  {
  }

  // The price of such an order is that of its last fill, and its first one when it was not filled;
  // coin, side, OID, original size, cloid and owner stay.
  lemma {:induction false} StoredPriceFollowsFills(s: Store, ops: seq<Op>, k: string, initial: real, last: Option<nat>)
    requires k in s.orders && s.orders[k].order.sz == Decimal(initial) && IsLastFill(ops, k, last)
    requires forall i | 0 <= i < |ops| :: FillsOrCancels(Run(s, ops[..i]), ops[i], k)
    ensures k in Run(s, ops).orders && SameIdentity(s.orders[k].order, Run(s, ops).orders[k].order)
    ensures Run(s, ops).orders[k].order.limitPx ==
            if last.Some? then Decimal(ops[last.value].price) else s.orders[k].order.limitPx
  {
    if ops != [] {
      var earlier, op := ops[..|ops| - 1], ops[|ops| - 1];
      FillsOrCancelsEarlier(s, ops, k);
      StoredSizeFollowsFills(s, earlier, k, initial);
      StepKeepsPrice(Run(s, earlier), op, k);
      var before := LastFillBefore(ops, k, last);
      StoredPriceFollowsFills(s, earlier, k, initial, before);
    }
  }

  lemma LastFillBefore(ops: seq<Op>, k: string, last: Option<nat>) returns (before: Option<nat>)
    requires ops != [] && IsLastFill(ops, k, last)
    ensures IsLastFill(ops[..|ops| - 1], k, before)
    ensures if IsFillOf(ops[|ops| - 1], k) then last == Some(|ops| - 1) else before == last
  {
    if IsFillOf(ops[|ops| - 1], k) {
      before := LastFill(ops[..|ops| - 1], k);
    } else {
      before := last;
    }
  }

  lemma {:induction false} LastFill(ops: seq<Op>, k: string) returns (last: Option<nat>)
    ensures IsLastFill(ops, k, last)
  {
    if ops == [] {
      last := None;
    } else if IsFillOf(ops[|ops| - 1], k) {
      last := Some(|ops| - 1);
    } else {
      last := LastFill(ops[..|ops| - 1], k);
    }
  }
}
