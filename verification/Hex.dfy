/** Hexadecimal text: what hex.DecodeString accepts, the "0x" prefixes the server strips before it,
    and the number a digit string denotes. */
module Hex {
  import opened Prelude
  import opened Bytes

  predicate IsDigit(c: char) {
    '0' <= c <= '9' || 'a' <= c <= 'f' || 'A' <= c <= 'F'
  }

  function Digit(c: char): (d: nat)
    requires IsDigit(c)
    ensures d < 16
  {
    if c <= '9' then (c - '0') as int
    else if c <= 'F' then (c - 'A') as int + 10
    else (c - 'a') as int + 10
  }

  // The sixteen digits count from 0 to 15, with letters in either case, and there are no others.
  lemma DigitsCount(c: char, d: nat)
    requires d < 16
    ensures IsDigit(c) && Digit(c) == d <==> c == "0123456789abcdef"[d] || c == "0123456789ABCDEF"[d]
  {
  }

  predicate AllDigits(s: string) {
    forall c | c in s :: IsDigit(c)
  }

  // The number a string of hexadecimal digits denotes.
  function Value(s: string): nat
    requires AllDigits(s)
  {
    if s == [] then 0 else 16 * Value(s[..|s| - 1]) + Digit(s[|s| - 1])
  }

  function TrimPrefix(s: string, prefix: string): string {
    if prefix <= s then s[|prefix|..] else s
  }

  // Both prefixes in this order, so "0x0X12" loses both and "0X0x12" only the first.
  function StripPrefixes(s: string): string {
    TrimPrefix(TrimPrefix(s, "0x"), "0X")
  }

  // Before digits, "0x" and then "0X" are taken away, each at most once and in this order only.
  lemma PrefixesStripped(digits: string)
    requires AllDigits(digits)
    ensures StripPrefixes(digits) == StripPrefixes("0x" + digits) == StripPrefixes("0X" + digits) == digits
    ensures StripPrefixes("0x" + ("0X" + digits)) == digits
    ensures StripPrefixes("0X" + ("0x" + digits)) == "0x" + digits
    ensures StripPrefixes("0x" + ("0x" + digits)) == "0x" + digits
  {
    NoPrefix(digits);
    PrefixGone("0x", digits);
    PrefixGone("0X", digits);
    PrefixGone("0x", "0X" + digits);
    PrefixGone("0X", "0x" + digits);
    PrefixGone("0x", "0x" + digits);
    assert ("0X" + digits)[1] == 'X' && ("0x" + digits)[1] == 'x';
    assert ("0X" + ("0x" + digits))[1] == 'X';
  }

  lemma NoPrefix(digits: string)
    requires AllDigits(digits)
    ensures !("0x" <= digits) && !("0X" <= digits)
  {
    if |digits| > 1 {
      assert digits[1] in digits;
    }
  }

  lemma PrefixGone(prefix: string, s: string)
    ensures TrimPrefix(prefix + s, prefix) == s
  {
    assert (prefix + s)[..|prefix|] == prefix && (prefix + s)[|prefix|..] == s;
  }

  function PadEven(s: string): (r: string)
    ensures |r| % 2 == 0 && |r| == |s| + |s| % 2
  {
    if |s| % 2 == 1 then "0" + s else s
  }

  // hex.DecodeString on text of even length.
  function DecodeHex(s: string): (r: Option<seq<byte>>)
    requires |s| % 2 == 0
    ensures r.Some? ==> |r.value| == |s| / 2
  {
    if s == [] then Some([])
    else
      var n := |s|;
      if IsDigit(s[n - 2]) && IsDigit(s[n - 1]) then
        match DecodeHex(s[..n - 2])
        case None => None
        case Some(bs) => Some(bs + [16 * Digit(s[n - 2]) + Digit(s[n - 1])])
      else None
  }

  // Decoding succeeds exactly on digit strings, and the bytes read big-endian are the number.
  lemma {:induction false} DecodeHexReads(s: string)
    requires |s| % 2 == 0
    ensures DecodeHex(s).Some? <==> AllDigits(s)
    ensures AllDigits(s) ==> FromBigEndian(DecodeHex(s).value) == Value(s)
  {
    if s == [] {
    } else {
      var n := |s|;
      var front := s[..n - 2];
      DecodeHexReads(front);
      assert s == front + [s[n - 2]] + [s[n - 1]];
      if AllDigits(s) {
        assert s[n - 2] in s && s[n - 1] in s;
        assert s[..n - 1][..n - 2] == front;
        var bs := DecodeHex(s).value;
        assert bs[..|bs| - 1] == DecodeHex(front).value;
      }
    }
  }

  lemma {:induction false} LeadingZeroDigit(s: string)
    ensures AllDigits("0" + s) <==> AllDigits(s)
    ensures AllDigits(s) ==> Value("0" + s) == Value(s)
  {
    assert forall c | c in s :: c in "0" + s;
    if s == [] {
      assert "0" + s == "0" && "0"[..0] == [];
    } else if AllDigits(s) {
      LeadingZeroDigit(s[..|s| - 1]);
      assert ("0" + s)[..|s|] == "0" + s[..|s| - 1];
    }
  }

  lemma PadEvenKeepsValue(s: string)
    ensures AllDigits(PadEven(s)) <==> AllDigits(s)
    ensures AllDigits(s) ==> Value(PadEven(s)) == Value(s)
  {
    LeadingZeroDigit(s);
  }

  function DigitChar(d: nat): (c: char)
    requires d < 16
    ensures IsDigit(c) && Digit(c) == d
  {
    "0123456789abcdef"[d]
  }

  // The usual print of a number: no leading zeros, lower case, nothing for zero.
  function Print(n: nat): (s: string)
    ensures AllDigits(s) && Value(s) == n
  {
    if n == 0 then "" else
      var front := Print(n / 16);
      var s := front + [DigitChar(n % 16)];
      assert s[..|s| - 1] == front;
      s
  }

  lemma {:induction false} PrintLength(n: nat, width: nat)
    requires n < Pow(16, width)
    ensures |Print(n)| <= width
  {
    if n > 0 && width > 0 {
      PrintLength(n / 16, width - 1);
    }
  }
}
