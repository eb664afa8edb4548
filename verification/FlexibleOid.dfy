/** Order identifiers in /info requests: a JSON number, or text read in base 16 and, failing that,
    in base 10. */
module FlexibleOid {
  import opened Prelude
  import Hex

  // A JSON value as far as the decoder distinguishes it.
  datatype Json = JsonNull | JsonInteger(n: int) | JsonText(s: string) | JsonOther

  predicate DecimalDigits(s: string) {
    forall i | 0 <= i < |s| :: '0' <= s[i] <= '9'
  }

  predicate IsDecimal(s: string) {
    s != "" && DecimalDigits(s)
  }

  predicate IsHex(s: string) {
    s != "" && Hex.AllDigits(s)
  }

  function DecimalValue(s: string): nat
    requires DecimalDigits(s)
  {
    if s == "" then 0 else 10 * DecimalValue(s[..|s| - 1]) + (s[|s| - 1] - '0') as int
  }

  function InRange(n: int): Option<int64> {
    if INT64_MIN <= n <= INT64_MAX then Some(n) else None
  }

  function Magnitude(s: string): string {
    if s != "" && (s[0] == '+' || s[0] == '-') then s[1..] else s
  }

  function Sign(s: string): int {
    if s != "" && s[0] == '-' then -1 else 1
  }

  // strconv.ParseInt(s, 16, 64) and strconv.ParseInt(s, 10, 64): an optional sign, at least one
  // digit, and a value that fits.
  function ParseHex(s: string): Option<int64> {
    if IsHex(Magnitude(s)) then InRange(Sign(s) * Hex.Value(Magnitude(s))) else None
  }

  function ParseDecimal(s: string): Option<int64> {
    if IsDecimal(Magnitude(s)) then InRange(Sign(s) * DecimalValue(Magnitude(s))) else None
  }

  // Hexadecimal digits read as their number if it fits, with a sign or without.
  lemma DigitsRead(s: string)
    requires IsHex(s)
    ensures ParseHex(s) == ParseHex("+" + s) ==
            if Hex.Value(s) <= 9_223_372_036_854_775_807 then Some(Hex.Value(s)) else None
    ensures var n: int := Hex.Value(s);
            ParseHex("-" + s) == if n <= 9_223_372_036_854_775_808 then Some(-n) else None
  {
    assert s[0] in s && Hex.IsDigit(s[0]);
    assert ("+" + s)[1..] == s && ("-" + s)[1..] == s;
  }

  // Text with another character behind the place of a sign reads in neither base.
  lemma OtherTextDoesNotRead(s: string, i: nat)
    requires 1 <= i < |s| && !Hex.IsDigit(s[i])
    ensures ParseHex(s).None? && ParseDecimal(s).None?
  {
    var m := Magnitude(s);
    assert m[i - (|s| - |m|)] == s[i] && s[i] in m;
  }

  // Such text, behind a prefix or not, is kept as it is and is not an OID.
  lemma OtherTextIsKept(s: string, i: nat)
    requires 3 <= i < |s| && !Hex.IsDigit(s[i])
    ensures ReadText(s) == Reading(0, false, s)
  {
    OtherTextDoesNotRead(s, i);
    OtherTextDoesNotRead(s[2..], i - 2);
  }

  // A positive number printed in base 16 reads back.
  lemma PrintedHexReads(n: nat)
    requires 0 < n <= INT64_MAX
    ensures ParseHex(Hex.Print(n)) == Some(n)
  {
    var s := Hex.Print(n);
    assert s != "";
    assert s[0] in s && Hex.IsDigit(s[0]);
  }

  function Unprefixed(s: string): string {
    if |s| > 2 && (s[..2] == "0x" || s[..2] == "0X") then s[2..] else s
  }

  datatype Reading = Reading(value: int64, valid: bool, raw: string)

  function ReadText(s: string): Reading {
    var digits := Unprefixed(s);
    match ParseHex(digits)
    case Some(n) => Reading(n, true, s)
    case None =>
      match ParseDecimal(digits)
      case Some(n) => Reading(n, true, s)
      case None => Reading(0, false, s)
  }

  class FlexibleOid {
    var value: int64
    var valid: bool
    var raw: string

    ghost function Contents(): Reading
      reads this
    {
      Reading(value, valid, raw)
    }

    constructor ()
      ensures Contents() == Reading(0, false, "")
    {
      value, valid, raw := 0, false, "";
    }

    // Numbers, including null, are read as they are; text as ReadText says; anything else is an
    // error and leaves the receiver alone.
    method UnmarshalJson(data: Json) returns (ok: bool)
      modifies this
      ensures data.JsonNull? ==> ok && Contents() == Reading(0, true, "")
      ensures data.JsonInteger? && InRange(data.n).Some? ==> ok && Contents() == Reading(data.n, true, "")
      ensures data.JsonText? ==> ok && Contents() == ReadText(data.s)
      ensures data.JsonOther? || (data.JsonInteger? && InRange(data.n).None?) ==>
                !ok && Contents() == old(Contents())
    {
      if data.JsonNull? || (data.JsonInteger? && InRange(data.n).Some?) {
        value := if data.JsonNull? then 0 else data.n;
        valid := true;
        raw := "";
        return true;
      }
      if !data.JsonText? {
        return false;
      }
      var s := data.s;
      raw := s;
      var normalized := s;
      if |normalized| > 2 && (normalized[..2] == "0x" || normalized[..2] == "0X") {
        normalized := normalized[2..];
      }
      var parsed := ParseHex(normalized);
      if parsed.Some? {
        value, valid, raw := parsed.value, true, s;
        return true;
      }
      parsed := ParseDecimal(normalized);
      if parsed.Some? {
        value, valid, raw := parsed.value, true, s;
        return true;
      }
      value, valid := 0, false;
      return true;
    }
  }

  // The number that the decimal digits of n denote when they are read in base 16.
  function Reread(n: nat): nat {
    if n < 10 then n else 16 * Reread(n / 10) + n % 10
  }

  lemma {:induction false} RereadMonotone(m: nat, n: nat)
    ensures m < n <==> Reread(m) < Reread(n)
  {
    RereadGrows(m, n);
    RereadGrows(n, m);
  }

  lemma {:induction false} RereadGrows(m: nat, n: nat)
    ensures m < n ==> Reread(m) < Reread(n)
  {
    if m < n && n >= 10 && m / 10 < n / 10 {
      RereadGrows(m / 10, n / 10);
    }
  }

  lemma RereadDigit(m: nat, d: nat)
    requires d < 10
    ensures Reread(10 * m + d) == 16 * Reread(m) + d
  {
    assert (10 * m + d) / 10 == m && (10 * m + d) % 10 == d;
  }

  lemma {:induction false} HexOfDecimalDigits(s: string)
    requires DecimalDigits(s)
    ensures Hex.AllDigits(s) && Hex.Value(s) == Reread(DecimalValue(s))
  {
    if s != "" {
      var front, last := s[..|s| - 1], s[|s| - 1];
      HexOfDecimalDigits(front);
      RereadDigit(DecimalValue(front), (last - '0') as int);
      assert forall i | 0 <= i < |s| :: Hex.IsDigit(s[i]);
    }
  }

  // Reading decimal digit strings in base 16 keeps their order, leading zeros and lengths aside.
  lemma BasesAgreeOnOrder(s: string, t: string)
    requires IsDecimal(s) && IsDecimal(t)
    ensures Hex.AllDigits(s) && Hex.AllDigits(t)
    ensures DecimalValue(s) < DecimalValue(t) <==> Hex.Value(s) < Hex.Value(t)
  {
    HexOfDecimalDigits(s);
    HexOfDecimalDigits(t);
    RereadMonotone(DecimalValue(s), DecimalValue(t));
  }

  lemma {:induction false} RereadPower(k: nat)
    ensures Reread(8 * Pow(10, k)) == 8 * Pow(16, k)
  {
    if k > 0 {
      RereadPower(k - 1);
      RereadDigit(8 * Pow(10, k - 1), 0);
    }
  }

  lemma EightQuadrillion()
    ensures Reread(8_000_000_000_000_000) == INT64_MAX + 1
  {
    RereadPower(15);
    assert Pow(10, 5) == 100_000 && Pow(16, 5) == 0x10_0000;
    assert Pow(10, 10) == 10_000_000_000 && Pow(16, 10) == 0x100_0000_0000;
    assert Pow(10, 15) == 1_000_000_000_000_000 && Pow(16, 15) == 0x1000_0000_0000_0000;
  }

  lemma DigitsArePlain(s: string, prefix: string)
    requires IsDecimal(s) && prefix in {"", "0x", "0X"}
    ensures Unprefixed(prefix + s) == s && Magnitude(s) == s && Sign(s) == 1
  {
    if prefix == "" {
      assert prefix + s == s;
      assert |s| > 2 ==> s[..2][1] == s[1];
    } else {
      assert (prefix + s)[..2] == prefix && (prefix + s)[2..] == s;
    }
  }

  lemma DigitsInBothBases(s: string, prefix: string)
    requires IsDecimal(s) && prefix in {"", "0x", "0X"} && Hex.AllDigits(s)
    ensures ReadText(prefix + s) ==
            if Hex.Value(s) <= INT64_MAX then Reading(Hex.Value(s), true, prefix + s)
            else if DecimalValue(s) <= INT64_MAX then Reading(DecimalValue(s), true, prefix + s)
            else Reading(0, false, prefix + s)
  {
    DigitsArePlain(s, prefix);
  }

  // Exactly the digit strings whose decimal value reaches 8 * 10^15 overflow in base 16. Those are
  // read in base 10, and are valid exactly when that fits; all smaller ones are read in base 16.
  lemma DigitStringReading(s: string, prefix: string)
    requires IsDecimal(s) && prefix in {"", "0x", "0X"}
    ensures Hex.AllDigits(s) && (DecimalValue(s) < 8_000_000_000_000_000 <==> Hex.Value(s) <= INT64_MAX)
    ensures var n := DecimalValue(s);
            ReadText(prefix + s) ==
            if Hex.Value(s) <= INT64_MAX then Reading(Hex.Value(s), true, prefix + s)
            else if n <= INT64_MAX then Reading(n, true, prefix + s)
            else Reading(0, false, prefix + s)
  {
    HexOfDecimalDigits(s);
    RereadMonotone(DecimalValue(s), 8_000_000_000_000_000);
    EightQuadrillion();
    DigitsInBothBases(s, prefix);
  }
}
