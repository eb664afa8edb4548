/** Turning the hexadecimal r and s of a request signature into the 65 bytes that public-key
    recovery takes: 32 bytes of r, 32 bytes of s and the recovery bit. */
module Signature {
  import opened Prelude
  import opened Bytes
  import Hex

  datatype SignatureError = EmptyComponent | NotHex | TooLarge | BadRecoveryId

  function DecodeComponent(value: string): (r: Result<seq<byte>, SignatureError>)
    ensures r.Ok? ==> |r.value| <= 32
  {
    if value == "" then Err(EmptyComponent)
    else match Hex.DecodeHex(Hex.PadEven(Hex.StripPrefixes(value)))
      case None => Err(NotHex)
      case Some(bs) => if |bs| > 32 then Err(TooLarge) else Ok(bs)
  }

  // The text denotes a number of at most 64 digits, once its prefixes are stripped.
  predicate Readable(value: string) {
    value != "" && Hex.AllDigits(Hex.StripPrefixes(value)) && |Hex.StripPrefixes(value)| <= 64
  }

  function NumberOf(value: string): nat
    requires Readable(value)
  {
    Hex.Value(Hex.StripPrefixes(value))
  }

  function WhyUnreadable(value: string): SignatureError {
    if value == "" then EmptyComponent
    else if !Hex.AllDigits(Hex.StripPrefixes(value)) then NotHex
    else TooLarge
  }

  lemma ComponentReads(value: string)
    ensures DecodeComponent(value).Ok? <==> Readable(value)
    ensures !Readable(value) ==> DecodeComponent(value) == Err(WhyUnreadable(value))
    ensures DecodeComponent(value) == Err(EmptyComponent) <==> value == ""
    ensures DecodeComponent(value) == Err(TooLarge) <==>
              Hex.AllDigits(Hex.StripPrefixes(value)) && |Hex.StripPrefixes(value)| > 64
    ensures Readable(value) ==> FromBigEndian(DecodeComponent(value).value) == NumberOf(value)
  {
    var digits := Hex.StripPrefixes(value);
    Hex.PadEvenKeepsValue(digits);
    Hex.DecodeHexReads(Hex.PadEven(digits));
  }

  // copy(dst[at..], src)
  method CopyInto(dst: array<byte>, at: nat, src: seq<byte>)
    requires at + |src| <= dst.Length
    modifies dst
    ensures dst[..] == Overwrite(old(dst[..]), at, src)
  {
    var i := 0;
    while i < |src|
      invariant 0 <= i <= |src|
      invariant dst[..] == old(dst[..])[..at] + src[..i] + old(dst[..])[at + i..]
    {
      dst[at + i] := src[i];
      i := i + 1;
    }
  }

  // dst[at] = b
  method Store(dst: array<byte>, at: nat, b: byte)
    requires at < dst.Length
    modifies dst
    ensures dst[..] == old(dst[..])[at := b]
  {
    dst[at] := b;
  }

  function Padded(bs: seq<byte>): (r: seq<byte>)
    requires |bs| <= 32
    ensures |r| == 32
  {
    Zeros(32 - |bs|) + bs
  }

  // The two copies land at the ends of the two halves.
  lemma CopiesPad(rBytes: seq<byte>, sBytes: seq<byte>)
    requires |rBytes| <= 32 && |sBytes| <= 32
    ensures Zeros(65)[..32 - |rBytes|] + rBytes + Zeros(65)[32..] == Padded(rBytes) + Zeros(33)
    ensures var half := Padded(rBytes) + Zeros(33);
            half[..64 - |sBytes|] + sBytes + half[64..] == Padded(rBytes) + Padded(sBytes) + [0]
  {
    assert Zeros(65)[..32 - |rBytes|] == Zeros(32 - |rBytes|) && Zeros(65)[32..] == Zeros(33);
    var half := Padded(rBytes) + Zeros(33);
    assert half[..64 - |sBytes|] == Padded(rBytes) + Zeros(32 - |sBytes|) && half[64..] == [0];
  }

  lemma PaddedIsBigEndian(bs: seq<byte>)
    requires |bs| <= 32
    ensures Padded(bs) == BigEndian(FromBigEndian(bs), 32)
  {
    BigEndianWrites(Padded(bs));
    LeadingZeros(32 - |bs|, bs);
  }

  function Overwrite(dst: seq<byte>, at: nat, src: seq<byte>): seq<byte>
    requires at + |src| <= |dst|
  {
    dst[..at] + src + dst[at + |src|..]
  }

  // The three writes into a zeroed buffer give the two numbers and the bit.
  lemma WritesGiveSignature(rBytes: seq<byte>, sBytes: seq<byte>, bit: byte)
    requires |rBytes| <= 32 && |sBytes| <= 32
    ensures var withR := Overwrite(Zeros(65), 32 - |rBytes|, rBytes);
            var withS := Overwrite(withR, 64 - |sBytes|, sBytes);
            withS[64 := bit] ==
            BigEndian(FromBigEndian(rBytes), 32) + BigEndian(FromBigEndian(sBytes), 32) + [bit]
  {
    CopiesPad(rBytes, sBytes);
    PaddedIsBigEndian(rBytes);
    PaddedIsBigEndian(sBytes);
  }

  // The second half of decodeExchangeSignature: copy the components and the bit into place.
  method Assemble(rBytes: seq<byte>, sBytes: seq<byte>, v: int)
    returns (result: Result<seq<byte>, SignatureError>)
    requires |rBytes| <= 32 && |sBytes| <= 32
    ensures v !in {0, 1, 27, 28} ==> result == Err(BadRecoveryId)
    ensures v in {0, 1, 27, 28} ==>
              && result.Ok?
              && result.value == BigEndian(FromBigEndian(rBytes), 32) + BigEndian(FromBigEndian(sBytes), 32) +
                                 [if v >= 27 then v - 27 else v]
  {
    var signature := new byte[65](_ => 0);
    assert signature[..] == Zeros(65);
    CopyInto(signature, 32 - |rBytes|, rBytes);
    CopyInto(signature, 64 - |sBytes|, sBytes);
    if v == 27 || v == 28 {
      Store(signature, 64, v - 27);
    } else if v == 0 || v == 1 {
      Store(signature, 64, v);
    } else {
      return Err(BadRecoveryId);
    }
    WritesGiveSignature(rBytes, sBytes, if v >= 27 then v - 27 else v);
    return Ok(signature[..]);
  }

  // Decoding succeeds exactly on two readable numbers and a known recovery id, and gives the two
  // numbers in 32 big-endian bytes each and the recovery bit.
  method DecodeExchangeSignature(rHex: string, sHex: string, v: int)
    returns (result: Result<seq<byte>, SignatureError>)
    ensures result.Ok? <==> Readable(rHex) && Readable(sHex) && v in {0, 1, 27, 28}
    ensures result.Ok? ==>
              result.value == BigEndian(NumberOf(rHex), 32) + BigEndian(NumberOf(sHex), 32) +
                              [if v >= 27 then v - 27 else v]
    ensures result.Err? ==>
              result.error == if !Readable(rHex) then WhyUnreadable(rHex)
                              else if !Readable(sHex) then WhyUnreadable(sHex)
                              else BadRecoveryId
  {
    ComponentReads(rHex);
    ComponentReads(sHex);
    var r := DecodeComponent(rHex);
    if r.Err? {
      return Err(r.error);
    }
    var s := DecodeComponent(sHex);
    if s.Err? {
      return Err(s.error);
    }
    result := Assemble(r.value, s.value, v);
  }

  // The halves of a signature read back as its two numbers, so no two triples share a signature.
  lemma SignatureReads(r: nat, s: nat, bit: byte)
    requires r < Pow(256, 32) && s < Pow(256, 32)
    ensures var signature := BigEndian(r, 32) + BigEndian(s, 32) + [bit];
            && FromBigEndian(signature[..32]) == r
            && FromBigEndian(signature[32..64]) == s
            && signature[64] == bit
  {
    var signature := BigEndian(r, 32) + BigEndian(s, 32) + [bit];
    assert signature[..32] == BigEndian(r, 32) && signature[32..64] == BigEndian(s, 32);
    BigEndianReads(r, 32);
    BigEndianReads(s, 32);
  }

  // A readable number always fits its half.
  lemma ReadableFits(value: string)
    requires Readable(value)
    ensures NumberOf(value) < Pow(256, 32)
  {
    ComponentReads(value);
    var bs := DecodeComponent(value).value;
    LeadingZeros(32 - |bs|, bs);
    BigEndianWrites(Zeros(32 - |bs|) + bs);
  }

  lemma {:induction false} PowersAgree(n: nat)
    ensures Pow(16, 2 * n) == Pow(256, n)
  {
    if n > 0 {
      PowersAgree(n - 1);
      assert Pow(16, 2 * n) == 16 * (16 * Pow(16, 2 * n - 2));
    }
  }

  // Every number below 2^256 can be printed in at most 64 digits, with or without either prefix
  // and up to 64 leading zeros, and the print is readable as that number.
  lemma EveryNumberIsReadable(n: nat, prefix: string, zeros: string)
    requires n < Pow(256, 32) && prefix in {"", "0x", "0X"}
    requires forall c | c in zeros :: c == '0'
    requires |zeros| + |Hex.Print(n)| <= 64 && prefix + zeros + Hex.Print(n) != ""
    ensures |Hex.Print(n)| <= 64
    ensures Readable(prefix + zeros + Hex.Print(n)) && NumberOf(prefix + zeros + Hex.Print(n)) == n
  {
    PrintFits(n);
    var digits := zeros + Hex.Print(n);
    ZerosKeepValue(zeros, Hex.Print(n));
    Regrouped(prefix, zeros, Hex.Print(n));
    StripsToDigits(prefix, digits);
  }

  lemma Regrouped(a: string, b: string, c: string)
    ensures a + b + c == a + (b + c)
  {
  }

  lemma PrintFits(n: nat)
    requires n < Pow(256, 32)
    ensures |Hex.Print(n)| <= 64
  {
    PowersAgree(32);
    Hex.PrintLength(n, 64);
  }

  lemma StripsToDigits(prefix: string, digits: string)
    requires prefix in {"", "0x", "0X"} && Hex.AllDigits(digits)
    ensures Hex.StripPrefixes(prefix + digits) == digits
  {
    assert forall i | 0 <= i < |digits| :: digits[i] in digits;
    var s := prefix + digits;
    assert (prefix + digits)[|prefix|..] == digits;
    assert !("0x" <= digits) && !("0X" <= digits) by {
      assert |digits| > 1 ==> Hex.IsDigit(digits[1]);
    }
    if prefix == "0x" {
      assert "0x" <= s;
    } else if prefix == "0X" {
      assert s[1] == 'X' && "0X" <= s;
    } else {
      assert s == digits;
    }
  }

  lemma {:induction false} ZerosKeepValue(zeros: string, digits: string)
    requires (forall c | c in zeros :: c == '0') && Hex.AllDigits(digits)
    ensures Hex.AllDigits(zeros + digits) && Hex.Value(zeros + digits) == Hex.Value(digits)
  {
    if zeros == "" {
      assert zeros + digits == digits;
    } else {
      assert forall c | c in zeros[1..] :: c in zeros;
      ZerosKeepValue(zeros[1..], digits);
      Hex.LeadingZeroDigit(zeros[1..] + digits);
      assert zeros[0] in zeros;
      assert zeros + digits == "0" + (zeros[1..] + digits);
    }
  }
}
