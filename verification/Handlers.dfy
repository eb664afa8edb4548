/** The /exchange and /info handlers over the order store. Requests are taken after JSON decoding:
    prices and sizes come with their formatted text, coins are already looked up. */
module Handlers {
  import opened Prelude
  import opened Orders
  import FlexibleOid
  import Hex
  import Subscriptions
  import State

  // The "o" field of an abbreviated entry: absent or unusable, a number, or text.
  datatype OidField = NoOid | OidNumber(x: real) | OidText(s: string)

  // One entry of an order request. An entry with an "a" field is abbreviated and takes its OID from
  // "o"; any other uses full names and takes it from "oid".
  datatype Entry = Entry(
    abbreviated: bool, coin: string, isBuy: bool, limitPx: real, px: Quantity, sz: Quantity,
    cloid: string, o: OidField, oid: Option<real>, tif: string)

  datatype Status =
    | Resting(oid: int, cloid: string)
    | OrderNotFound(oid: int)
    | IocRejected
    | MissingOid
    | MissingOrder

  // int64(x) for a number in range.
  function Truncate(x: real): int {
    if x >= 0.0 then x.Floor else -((-x).Floor)
  }

  function EntryOid(e: Entry): Option<int> {
    if !e.abbreviated then
      if e.oid.Some? then Some(Truncate(e.oid.value)) else None
    else match e.o
      case NoOid => None
      case OidNumber(x) => Some(Truncate(x))
      case OidText(s) => FlexibleOid.ParseHex(if |s| > 2 && s[..2] == "0x" then s[2..] else s)
  }

  function SideOf(e: Entry): string {
    if e.isBuy then "B" else "A"
  }

  // An immediate-or-cancel BTC order at or below the reference price finds no counterparty.
  predicate Rejected(e: Entry) {
    ToLower(e.tif) == "ioc" && ToLower(e.coin) == "btc" && e.limitPx <= 87000.0
  }

  function CreateFor(e: Entry, cloid: string, wallet: string): Op {
    Create(cloid, e.coin, SideOf(e), e.px, e.sz, wallet)
  }

  // What processOrder does to the store and answers; `mock` is the cloid it would generate.
  ghost function Process(s: Store, e: Entry, wallet: string, mock: string): (Store, Status) {
    var oid := EntryOid(e);
    if oid.Some? then
      var k := KeyOfOid(s, oid.value);
      if k.None? then (s, OrderNotFound(oid.value))
      else (Apply(s, ModifyByOid(oid.value, e.px, e.sz)), Resting(oid.value, s.orders[k.value].order.cloid))
    else if e.cloid != "" && Present(s, e.cloid).Some? then
      (Apply(s, Modify(e.cloid, e.px, e.sz)), Resting(s.orders[CanonicalKey(e.cloid)].order.oid, e.cloid))
    else if Rejected(e) then (s, IocRejected)
    else
      var cloid := if e.cloid == "" then mock else e.cloid;
      (Apply(s, CreateFor(e, cloid, wallet)), Resting(s.nextOid + 1, cloid))
  }

  // ---------- what an entry does, on its fields ----------

  // The conversion cuts off the fraction, towards zero.
  lemma TruncateMeans(x: real, n: nat)
    ensures Truncate(x) == n <==> (if n == 0 then -1.0 < x < 1.0 else n as real <= x < n as real + 1.0)
    ensures Truncate(-x) == -Truncate(x)
  {
  }

  // Text of hexadecimal digits, with or without "0x", that denotes the number n.
  predicate HexTextOf(text: string, n: int) {
    || (FlexibleOid.IsHex(text) && Hex.Value(text) == n)
    || (|text| > 2 && text[0] == '0' && text[1] == 'x' && Hex.AllDigits(text[2..]) && Hex.Value(text[2..]) == n)
  }

  // The entry carries this OID in the field that its format has for it.
  predicate GivesOid(e: Entry, oid: int64) {
    if e.abbreviated then
      match e.o
      case NoOid => false
      case OidNumber(x) => x == oid as real
      case OidText(text) => HexTextOf(text, oid)
    else e.oid == Some(oid as real)
  }

  // The entry carries none: the field is absent, or it holds text that cannot be hexadecimal.
  predicate GivesNoOid(e: Entry) {
    if e.abbreviated then
      match e.o
      case NoOid => true
      case OidNumber(_) => false
      case OidText(text) => text == "" || exists i | 3 <= i < |text| :: !Hex.IsDigit(text[i])
    else e.oid.None?
  }

  lemma HexTextReads(text: string, n: int64)
    requires HexTextOf(text, n)
    ensures FlexibleOid.ParseHex(if |text| > 2 && text[..2] == "0x" then text[2..] else text) == Some(n)
  {
    if |text| > 2 && text[0] == '0' && text[1] == 'x' {
      assert text[..2] == "0x" && text[1] in text;
      FlexibleOid.DigitsRead(text[2..]);
    } else {
      assert |text| > 2 ==> text[..2][0] == text[0] && text[..2][1] == text[1];
      FlexibleOid.DigitsRead(text);
    }
  }

  lemma OidOf(e: Entry, oid: int64)
    ensures GivesOid(e, oid) ==> EntryOid(e) == Some(oid)
    ensures GivesNoOid(e) ==> EntryOid(e).None?
  {
    if e.abbreviated && e.o.OidText? {
      var text := e.o.s;
      if GivesOid(e, oid) {
        HexTextReads(text, oid);
      } else if GivesNoOid(e) && text != "" {
        var i :| 3 <= i < |text| && !Hex.IsDigit(text[i]);
        FlexibleOid.OtherTextDoesNotRead(text, i);
        FlexibleOid.OtherTextDoesNotRead(text[2..], i - 2);
      }
    }
  }

  // An order is immediate-or-cancel and for BTC, in any letter case, and priced at 87000 or less.
  predicate FindsNoTaker(e: Entry) {
    SameUpToCase(e.tif, "ioc") && SameUpToCase(e.coin, "btc") && e.limitPx <= 87000.0
  }

  lemma RejectedMeans(e: Entry)
    ensures Rejected(e) <==> FindsNoTaker(e)
  {
    ToLowerMeans(e.tif, "ioc");
    ToLowerMeans(e.coin, "btc");
  }

  // The order under key k and nothing else has new price and size.
  predicate OnlyRepriced(s: Store, t: Store, k: string, e: Entry)
    requires k in s.orders
  {
    && t.nextOid == s.nextOid && t.orders.Keys == s.orders.Keys
    && (forall j | j in s.orders && j != k :: t.orders[j] == s.orders[j])
    && SameIdentity(s.orders[k].order, t.orders[k].order) && t.orders[k].status == s.orders[k].status
    && t.orders[k].order.limitPx == e.px && t.orders[k].order.sz == e.sz
  }

  // An entry with the OID of an order, in either format and any spelling, reprices that order.
  lemma OidReprices(s: Store, e: Entry, oid: int64, k: string, wallet: string, mock: string)
    requires Inv(s) && Holds(s, oid, k) && GivesOid(e, oid)
    ensures var (t, status) := Process(s, e, wallet, mock);
            OnlyRepriced(s, t, k, e) && status == Resting(oid, s.orders[k].order.cloid)
  {
    OidOf(e, oid);
    ScanHasOneHit(s, oid, k);
  }

  // An OID that no order has is an error, whatever cloid comes with it.
  lemma UnknownOid(s: Store, e: Entry, oid: int64, wallet: string, mock: string)
    requires GivesOid(e, oid) && forall k | k in s.orders :: s.orders[k].order.oid != oid
    ensures Process(s, e, wallet, mock) == (s, OrderNotFound(oid))
  {
    OidOf(e, oid);
  }

  // Without an OID the cloid, in any spelling, names the order to reprice.
  lemma CloidReprices(s: Store, e: Entry, k: string, wallet: string, mock: string)
    requires Inv(s) && GivesNoOid(e)
    requires k in s.orders && e.cloid != "" && SameCloid(s.orders[k].order.cloid, e.cloid)
    ensures var (t, status) := Process(s, e, wallet, mock);
            OnlyRepriced(s, t, k, e) && status == Resting(s.orders[k].order.oid, e.cloid)
  {
    OidOf(e, 0);
    PresentMeans(s, e.cloid);
  }

  // Without an OID or a known cloid the entry is rejected or creates an order, which rests open under
  // the next OID on the side, with price, size and owner asked for.
  lemma OtherwiseCreates(s: Store, e: Entry, wallet: string, mock: string)
    requires Inv(s) && GivesNoOid(e)
    requires e.cloid == "" || forall k | k in s.orders :: !SameCloid(s.orders[k].order.cloid, e.cloid)
    ensures FindsNoTaker(e) ==> Process(s, e, wallet, mock) == (s, IocRejected)
    ensures !FindsNoTaker(e) ==>
              var cloid := if e.cloid == "" then mock else e.cloid;
              var (t, status) := Process(s, e, wallet, mock);
              && status == Resting(s.nextOid + 1, cloid)
              && t.nextOid == s.nextOid + 1
              && t.orders == s.orders[CanonicalKey(cloid) := t.orders[CanonicalKey(cloid)]]
              && t.orders[CanonicalKey(cloid)] ==
                 Snapshot(OrderInfo(e.coin, if e.isBuy then "B" else "A", e.px, e.sz, s.nextOid + 1, e.sz,
                                    cloid, wallet), "open")
  {
    OidOf(e, 0);
    RejectedMeans(e);
    PresentMeans(s, e.cloid);
  }

  // A batch, one entry after another; mock(i) is the cloid generated for entry i.
  ghost function ProcessAll(s: Store, es: seq<Entry>, wallet: string, mock: nat -> string): (r: (Store, seq<Status>))
    ensures |r.1| == |es|
  {
    if es == [] then (s, [])
    else
      var n := |es| - 1;
      var earlier := ProcessAll(s, es[..n], wallet, mock);
      var last := Process(earlier.0, es[n], wallet, mock(n));
      (last.0, earlier.1 + [last.1])
  }

  // ---------- float64 conversion of OIDs ----------

  const TWO_53: int := 0x20_0000_0000_0000

  // The spacing of doubles around n.
  function Ulp(n: nat): (u: nat)
    ensures u > 0
  {
    if n < TWO_53 then 1 else 2 * Ulp(n / 2)
  }

  // q * u + r rounded to a multiple of u, ties to the even one.
  function Nearest(q: nat, r: nat, u: nat): int {
    if 2 * r < u || (2 * r == u && q % 2 == 0) then q * u else (q + 1) * u
  }

  function RoundHalfEven(n: nat): int {
    Nearest(n / Ulp(n), n % Ulp(n), Ulp(n))
  }

  // The integer value of float64(n).
  function ToFloat64(n: int): int {
    if n >= 0 then RoundHalfEven(n) else -RoundHalfEven(-n)
  }

  lemma SmallUlp(n: nat)
    requires n <= TWO_53
    ensures n % Ulp(n) == 0
  {
    if n == TWO_53 {
      assert Ulp(n / 2) == 1;
    }
  }

  lemma RoundsToItself(q: nat, r: nat, u: nat)
    requires r < u
    ensures Nearest(q, r, u) == q * u + r <==> r == 0
  {
    assert (q + 1) * u == q * u + u;
  }

  lemma NearestIsIdentity(n: nat, u: nat)
    requires u > 0
    ensures Nearest(n / u, n % u, u) == n <==> n % u == 0
  {
    var q, r := n / u, n % u;
    assert n == q * u + r;
    RoundsToItself(q, r, u);
  }

  // The spacing is a power of two, and the one that leaves the number 53 binary digits.
  lemma {:induction false} UlpMeans(n: nat)
    ensures exists k: nat :: Ulp(n) == Pow(2, k)
    ensures n < 0x20_0000_0000_0000 * Ulp(n)
    ensures n >= 0x20_0000_0000_0000 ==> 0x10_0000_0000_0000 * Ulp(n) <= n
  {
    if n < TWO_53 {
      assert Pow(2, 0) == 1;
    } else {
      UlpMeans(n / 2);
      var k: nat :| Ulp(n / 2) == Pow(2, k);
      assert Ulp(n) == Pow(2, k + 1);
    }
  }

  // The conversion gives the nearest multiple of the spacing, and the even one of two nearest.
  lemma ConversionIsNearest(n: nat, m: int) returns (q: int)
    ensures ToFloat64(n) == q * Ulp(n)
    ensures AbsInt(ToFloat64(n) - n) <= AbsInt(m * Ulp(n) - n)
    ensures AbsInt(ToFloat64(n) - n) == AbsInt(m * Ulp(n) - n) && m != q ==> q % 2 == 0
  {
    q := NearestMultiple(n / Ulp(n), n % Ulp(n), Ulp(n), m, n);
  }

  function AbsInt(x: int): nat {
    if x < 0 then -x else x
  }

  lemma NearestMultiple(p: nat, r: nat, u: nat, m: int, n: nat) returns (q: int)
    requires r < u && n == p * u + r
    ensures Nearest(p, r, u) == q * u
    ensures AbsInt(Nearest(p, r, u) - n) <= AbsInt(m * u - n)
    ensures AbsInt(Nearest(p, r, u) - n) == AbsInt(m * u - n) && m != q ==> q % 2 == 0
  {
    q := if 2 * r < u || (2 * r == u && p % 2 == 0) then p else p + 1;
    assert (p + 1) * u == p * u + u;
    if m < p {
      MultiplesGrow(m, p - 1, u);
      assert (p - 1) * u == p * u - u;
    } else if m > p + 1 {
      MultiplesGrow(p + 2, m, u);
      assert (p + 2) * u == p * u + 2 * u;
    }
  }

  lemma MultiplesGrow(a: int, b: int, u: nat)
    requires a <= b
    ensures a * u <= b * u
  {
  }

  // An integer survives the conversion exactly when it is a multiple of the spacing around it; in
  // particular when its magnitude is at most 2^53.
  lemma FloatSurvival(n: nat)
    ensures ToFloat64(n) == n <==> n % Ulp(n) == 0
    ensures n <= TWO_53 ==> ToFloat64(n) == n
  {
    NearestIsIdentity(n, Ulp(n));
    if n <= TWO_53 {
      SmallUlp(n);
    }
  }

  lemma FloatLosesNext()
    ensures ToFloat64(TWO_53 + 1) == TWO_53 && (TWO_53 + 1) % Ulp(TWO_53 + 1) != 0
  {
    assert Ulp(TWO_53 + 1) == 2;
  }

  // ---------- modify ----------

  datatype ModifyOid = ByNumber(x: real) | ByText(s: string) | Neither

  // The OID a modify request names: a number, "0x" text that fits int64 in base 16, or "0x" text
  // that does not and is then looked up as a cloid.
  function NamedOid(s: Store, named: ModifyOid): Option<int> {
    match named
    case ByNumber(x) => Some(Truncate(x))
    case Neither => None
    case ByText(text) =>
      if |text| > 2 && text[..2] == "0x" then
        var parsed := FlexibleOid.ParseHex(text[2..]);
        if parsed.Some? then Some(parsed.value)
        else if Present(s, text).Some? then Some(s.orders[CanonicalKey(text)].order.oid)
        else None
      else None
  }

  function WithOid(e: Entry, oid: int): Entry {
    e.(o := OidNumber(ToFloat64(oid) as real))
  }

  ghost function ProcessModify(s: Store, named: ModifyOid, e: Option<Entry>, wallet: string, mock: string):
    (Store, Status)
  {
    var oid := NamedOid(s, named);
    if oid.None? then (s, MissingOid)
    else if e.None? then (s, MissingOrder)
    else Process(s, WithOid(e.value, oid.value), wallet, mock)
  }

  // The request names the order under key k: by its OID as a number or as "0x" text, or by a "0x"
  // cloid too large for int64.
  ghost predicate Names(s: Store, named: ModifyOid, k: string)
    requires k in s.orders
  {
    match named
    case ByNumber(x) => Truncate(x) == s.orders[k].order.oid
    case ByText(text) =>
      && |text| > 2 && text[..2] == "0x"
      && var parsed := FlexibleOid.ParseHex(text[2..]);
         if parsed.Some? then parsed.value == s.orders[k].order.oid else CanonicalKey(text) == k
    case Neither => false
  }

  lemma NamesMeans(s: Store, named: ModifyOid, k: string)
    requires Inv(s) && k in s.orders
    ensures Names(s, named, k) <==> NamedOid(s, named) == Some(s.orders[k].order.oid)
  {
  }

  // The field names no order: it is absent, or text that is not "0x" text, or "0x" text that is neither
  // a hexadecimal number nor the cloid of an order.
  predicate NamesNothing(s: Store, named: ModifyOid) {
    match named
    case ByNumber(_) => false
    case Neither => true
    case ByText(text) =>
      || |text| <= 2 || text[0] != '0' || text[1] != 'x'
      || ((exists i | 3 <= i < |text| :: !Hex.IsDigit(text[i])) &&
          forall k | k in s.orders :: !SameCloid(s.orders[k].order.cloid, text))
  }

  // A modify that names nothing is an error even when the order is missing as well; a modify that names
  // an order and brings none is another. Neither changes anything.
  lemma ModifyErrors(s: Store, named: ModifyOid, e: Option<Entry>, wallet: string, mock: string)
    requires Inv(s)
    ensures NamesNothing(s, named) ==> ProcessModify(s, named, e, wallet, mock) == (s, MissingOid)
    ensures (exists k :: k in s.orders && Names(s, named, k)) && e.None? ==>
              ProcessModify(s, named, e, wallet, mock) == (s, MissingOrder)
  {
    if NamesNothing(s, named) && named.ByText? {
      var text := named.s;
      if |text| > 2 && text[..2] == "0x" {
        assert text[0] == text[..2][0] && text[1] == text[..2][1];
        var i :| 3 <= i < |text| && !Hex.IsDigit(text[i]);
        FlexibleOid.OtherTextDoesNotRead(text[2..], i - 2);
        PresentMeans(s, text);
      }
    }
    if k :| k in s.orders && Names(s, named, k) {
      NamesMeans(s, named, k);
    }
  }

  // The entry has the OID of the order under key k, or no OID and its cloid.
  ghost predicate Addresses(s: Store, e: Entry, k: string)
    requires k in s.orders
  {
    EntryOid(e) == Some(s.orders[k].order.oid) ||
    (EntryOid(e).None? && e.cloid != "" && CanonicalKey(e.cloid) == k)
  }

  // The entry of a modify leads processOrder to the order under key k. An abbreviated entry carries
  // the named OID, which is converted to float64; any other goes by its own OID or cloid.
  ghost predicate Reaches(s: Store, e: Entry, k: string)
    requires Inv(s) && k in s.orders
  {
    var oid := s.orders[k].order.oid;
    if e.abbreviated then oid % Ulp(oid) == 0
    else Addresses(s, e, k)
  }

  // Processing an entry that addresses the order under k reprices that order alone; any other entry
  // is not answered with the OID of that order and, given a new cloid, leaves it as it is.
  lemma ProcessReaches(s: Store, e: Entry, k: string, wallet: string, mock: string)
    requires Inv(s) && k in s.orders
    ensures var oid := s.orders[k].order.oid;
            var (t, status) := Process(s, e, wallet, mock);
            if Addresses(s, e, k) then
              && t == Store(s.orders[k := Repriced(s.orders[k], e.px, e.sz)], s.nextOid)
              && status.Resting? && status.oid == oid
            else
              && !(status.Resting? && status.oid == oid)
              && (CanonicalKey(mock) != k ==> k in t.orders && t.orders[k] == s.orders[k])
  {
    var oid := s.orders[k].order.oid;
    ScanHasOneHit(s, oid, k);
  }

  // Main result: a modify that names an order reprices that order, changes no other and creates
  // none, exactly when its entry leads there; otherwise it leaves the order as it is, provided that
  // the cloid generated for an entry without one is new.
  lemma ModifyReachesIff(s: Store, named: ModifyOid, e: Entry, k: string, wallet: string, mock: string)
    requires Inv(s) && k in s.orders && Names(s, named, k)
    ensures var oid := s.orders[k].order.oid;
            var (t, status) := ProcessModify(s, named, Some(e), wallet, mock);
            && (Reaches(s, e, k) <==> status.Resting? && status.oid == oid)
            && (Reaches(s, e, k) ==> t == Store(s.orders[k := Repriced(s.orders[k], e.px, e.sz)], s.nextOid))
            && (!Reaches(s, e, k) && CanonicalKey(mock) != k ==> k in t.orders && t.orders[k] == s.orders[k])
  {
    var oid := s.orders[k].order.oid;
    NamesMeans(s, named, k);
    FloatSurvival(oid);
    var carried := WithOid(e, oid);
    assert EntryOid(carried) == if e.abbreviated then Some(ToFloat64(oid)) else EntryOid(e);
    ProcessReaches(s, carried, k, wallet, mock);
  }

  // While at most 2^53 - 1000000 orders were ever created, an abbreviated modify that names an order
  // reprices that order, changes no other and creates none, and is answered with its cloid.
  lemma ModifyHitsTarget(s: Store, named: ModifyOid, e: Entry, k: string, wallet: string, mock: string)
    requires Inv(s) && s.nextOid <= TWO_53 && k in s.orders && Names(s, named, k) && e.abbreviated
    ensures ProcessModify(s, named, Some(e), wallet, mock) ==
            (Store(s.orders[k := Repriced(s.orders[k], e.px, e.sz)], s.nextOid),
             Resting(s.orders[k].order.oid, s.orders[k].order.cloid))
  {
    var oid := s.orders[k].order.oid;
    NamesMeans(s, named, k);
    FloatSurvival(oid);
    assert EntryOid(WithOid(e, oid)) == Some(oid);
    ScanHasOneHit(s, oid, k);
  }

  // An abbreviated modify acts on whichever order has the converted OID.
  lemma AbbreviatedModify(s: Store, named: ModifyOid, e: Entry, k: string, wallet: string, mock: string)
    requires Inv(s) && k in s.orders && Names(s, named, k) && e.abbreviated
    ensures var oid := ToFloat64(s.orders[k].order.oid);
            ProcessModify(s, named, Some(e), wallet, mock) ==
            match KeyOfOid(s, oid)
            case None => (s, OrderNotFound(oid))
            case Some(j) => (Store(s.orders[j := Repriced(s.orders[j], e.px, e.sz)], s.nextOid),
                             Resting(oid, s.orders[j].order.cloid))
  {
    NamesMeans(s, named, k);
    assert EntryOid(WithOid(e, s.orders[k].order.oid)) == Some(ToFloat64(s.orders[k].order.oid));
  }

  // So it can reprice an order that it does not name: here "0x" text of OID 2^53 + 1
  // reaches the order of OID 2^53.
  lemma ModifyCanHitAnother(s: Store, e: Entry, j: string, k: string, wallet: string, mock: string)
    requires Inv(s) && Holds(s, TWO_53, j) && Holds(s, TWO_53 + 1, k) && e.abbreviated
    ensures var named := ByText("0x" + Hex.Print(TWO_53 + 1));
            && Names(s, named, k) && j != k
            && ProcessModify(s, named, Some(e), wallet, mock) ==
               (Store(s.orders[j := Repriced(s.orders[j], e.px, e.sz)], s.nextOid),
                Resting(TWO_53, s.orders[j].order.cloid))
  {
    var named := ByText("0x" + Hex.Print(TWO_53 + 1));
    assert named.s[2..] == Hex.Print(TWO_53 + 1) && named.s[..2] == "0x";
    FlexibleOid.PrintedHexReads(TWO_53 + 1);
    FloatLosesNext();
    AbbreviatedModify(s, named, e, k, wallet, mock);
    ScanHasOneHit(s, TWO_53, j);
  }

  // A modify with full field names that names order "c" by its OID and gives no OID or cloid of its
  // own leaves that order alone and creates a second one.
  lemma FullNamesCanMiss(e: Entry, placed: Op, mock: string)
    requires !e.abbreviated && e.oid.None? && e.cloid == "" && !Rejected(e)
    requires placed.Create? && placed.cloid == "c" && CanonicalKey(mock) != "c"
    ensures var s := Apply(Empty(), placed);
            var named := ByNumber((FIRST_OID + 1) as real);
            var (t, status) := ProcessModify(s, named, Some(e), "", mock);
            && Inv(s) && s.orders.Keys == {"c"} && Names(s, named, "c")
            && t.orders.Keys == {"c", CanonicalKey(mock)} && t.orders["c"] == s.orders["c"]
            && status == Resting(FIRST_OID + 2, mock)
  {
    ApplyKeepsInv(Empty(), placed);
    assert CanonicalKey("c") == "c";
    assert Apply(Empty(), placed).orders.Keys == {"c"};
  }

  // ---------- order status ----------

  // Numbers are looked up as OIDs, text always as a cloid, whether or not it reads as a number.
  ghost function LookedUp(s: Store, oid: Option<FlexibleOid.Reading>): Option<string> {
    if oid.None? then None
    else if oid.value.raw != "" then Present(s, oid.value.raw)
    else if oid.value.valid then KeyOfOid(s, oid.value.value)
    else None
  }

  // The identifier of a status request is that of the order under key k: a number that is its OID, or
  // text that spells its cloid.
  predicate AsksFor(s: Store, oid: Option<FlexibleOid.Reading>, k: string)
    requires k in s.orders
  {
    && oid.Some?
    && if oid.value.raw == "" then oid.value.valid && oid.value.value == s.orders[k].order.oid
       else SameCloid(s.orders[k].order.cloid, oid.value.raw)
  }

  lemma LookedUpMeans(s: Store, oid: Option<FlexibleOid.Reading>)
    requires Inv(s)
    ensures forall k | k in s.orders :: LookedUp(s, oid) == Some(k) <==> AsksFor(s, oid, k)
    ensures LookedUp(s, oid).Some? ==> LookedUp(s, oid).value in s.orders
  {
    if oid.Some? && oid.value.raw == "" {
      forall k | k in s.orders && s.orders[k].order.oid == oid.value.value
        ensures KeyOfOid(s, oid.value.value) == Some(k)
      {
        ScanHasOneHit(s, oid.value.value, k);
      }
    } else if oid.Some? && oid.value.raw != "" {
      PresentMeans(s, oid.value.raw);
      forall k | k in s.orders ensures LookedUp(s, oid) == Some(k) <==> AsksFor(s, oid, k) {
        KeysAgree(s.orders[k].order.cloid, oid.value.raw);
      }
    }
  }

  predicate SameAddress(a: string, b: string) {
    Subscriptions.NormalizeAddress(a) == Subscriptions.NormalizeAddress(b)
  }

  // ---------- the handlers ----------

  lemma RepricedOidStays(s: Store, oid: int, px: Quantity, sz: Quantity)
    requires Inv(s) && KeyOfOid(s, oid).Some?
    ensures var t := Apply(s, ModifyByOid(oid, px, sz));
            var k := KeyOfOid(s, oid).value;
            KeyOfOid(t, oid) == Some(k) && t.orders[k].order.cloid == s.orders[k].order.cloid
  {
    var t := Apply(s, ModifyByOid(oid, px, sz));
    ApplyKeepsInv(s, ModifyByOid(oid, px, sz));
    ScanHasOneHit(t, oid, KeyOfOid(s, oid).value);
  }

  class Handler {
    const state: State.State

    constructor (state: State.State)
      ensures this.state == state
    {
      this.state := state;
    }

    // The branch of processOrder for entries with an OID.
    method ModifyNamed(oid: int, e: Entry) returns (status: Status)
      requires state.Valid()
      modifies state.Objects(), state.Watcher()`orderUpdatesCh
      ensures state.Valid() && state.Objects() == old(state.Objects())
      ensures var s := old(state.Contents());
              var k := KeyOfOid(s, oid);
              && state.Contents() == Apply(s, ModifyByOid(oid, e.px, e.sz))
              && status == if k.None? then OrderNotFound(oid) else Resting(oid, s.orders[k.value].order.cloid)
    {
      ghost var s := state.Contents();
      var modified, ok := state.ModifyOrderByOid(oid, e.px, e.sz);
      if !ok {
        return OrderNotFound(oid);
      }
      RepricedOidStays(s, oid, e.px, e.sz);
      var order := state.GetOrderByOid(modified);
      return Resting(modified, order.order.cloid);
    }

    method ProcessOrder(e: Entry, wallet: string, mock: string) returns (status: Status)
      requires state.Valid()
      modifies state, state.Objects(), state.Watcher()`orderUpdatesCh
      ensures state.Valid() && fresh(state.Objects() - old(state.Objects()))
      ensures (state.Contents(), status) == Process(old(state.Contents()), e, wallet, mock)
    {
      var oid := EntryOid(e);
      if oid.Some? {
        status := ModifyNamed(oid.value, e);
        return;
      }
      if e.cloid != "" {
        var modified, ok := state.ModifyOrder(e.cloid, e.px, e.sz);
        if ok {
          return Resting(modified, e.cloid);
        }
      }
      if Rejected(e) {
        return IocRejected;
      }
      var cloid := e.cloid;
      if cloid == "" {
        cloid := mock;
      }
      var newOid := state.CreateOrder(cloid, e.coin, SideOf(e), e.px, e.sz, wallet);
      return Resting(newOid, cloid);
    }

    method HandleOrder(entries: seq<Entry>, wallet: string, mock: nat -> string) returns (statuses: seq<Status>)
      requires state.Valid()
      modifies state, state.Objects(), state.Watcher()`orderUpdatesCh
      ensures state.Valid() && fresh(state.Objects() - old(state.Objects()))
      ensures (state.Contents(), statuses) == ProcessAll(old(state.Contents()), entries, wallet, mock)
    {
      statuses := [];
      var i := 0;
      while i < |entries|
        invariant 0 <= i <= |entries| && state.Valid() && fresh(state.Objects() - old(state.Objects()))
        invariant (state.Contents(), statuses) == ProcessAll(old(state.Contents()), entries[..i], wallet, mock)
      {
        var status := ProcessOrder(entries[i], wallet, mock(i));
        statuses := statuses + [status];
        assert entries[..i + 1][..i] == entries[..i];
        i := i + 1;
      }
      assert entries[..i] == entries;
    }

    method HandleModify(named: ModifyOid, e: Option<Entry>, wallet: string, mock: string) returns (status: Status)
      requires state.Valid()
      modifies state, state.Objects(), state.Watcher()`orderUpdatesCh
      ensures state.Valid() && fresh(state.Objects() - old(state.Objects()))
      ensures (state.Contents(), status) == ProcessModify(old(state.Contents()), named, e, wallet, mock)
    {
      var oid, hasOid := 0, false;
      match named {
        case ByNumber(x) =>
          oid, hasOid := Truncate(x), true;
        case ByText(text) =>
          if |text| > 2 && text[..2] == "0x" {
            var parsed := FlexibleOid.ParseHex(text[2..]);
            if parsed.Some? {
              oid, hasOid := parsed.value, true;
            } else {
              var order := state.GetOrder(text);
              if order != null {
                oid, hasOid := order.order.oid, true;
              }
            }
          }
        case Neither =>
      }
      if !hasOid {
        return MissingOid;
      }
      if e.None? {
        return MissingOrder;
      }
      status := ProcessOrder(WithOid(e.value, oid), wallet, mock);
    }

    // An order is shown exactly when the identifier finds it and the user is its owner in any letter
    // case; the answer is a copy.
    method HandleOrderStatus(user: string, oid: Option<FlexibleOid.Reading>) returns (found: Option<Snapshot>)
      requires state.Valid()
      ensures var s := state.Contents();
              var k := LookedUp(s, oid);
              found == if k.Some? && SameAddress(s.orders[k.value].order.user, user)
                       then Some(s.orders[k.value]) else None
      ensures var s := state.Contents();
              && (found.None? <==> forall k | k in s.orders && AsksFor(s, oid, k) ::
                                     !SameUpToCase(s.orders[k].order.user, user))
              && (forall k | k in s.orders && AsksFor(s, oid, k) && found.Some? :: found.value == s.orders[k])
    {
      LookedUpMeans(state.Contents(), oid);
      if LookedUp(state.Contents(), oid).Some? {
        Subscriptions.NormalFormsAgree(state.Contents().orders[LookedUp(state.Contents(), oid).value].order.user, user);
      }
      if oid.None? {
        return None;
      }
      var order: OrderDetail? := null;
      if oid.value.raw == "" && oid.value.valid {
        order := state.GetOrderByOid(oid.value.value);
      } else if oid.value.raw != "" {
        order := state.GetOrder(oid.value.raw);
      }
      if order == null {
        return None;
      }
      if Subscriptions.NormalizeAddress(order.order.user) != Subscriptions.NormalizeAddress(user) {
        return None;
      }
      return Some(order.Copy());
    }
  }
}
