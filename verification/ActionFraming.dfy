/** The bytes an exchange request signs: its rewritten action followed by nonce, vault and expiry.
    Hashing starts where this module stops. */
module ActionFraming {
  import opened Prelude
  import opened Bytes
  import opened MessagePack
  import Hex
  import Rewrite
  import RewriteMeaning

  datatype FramingError = NegativeNonce | BadVaultAddress | NegativeExpiry

  function AddressToBytes(address: string): (r: Option<seq<byte>>)
    ensures r.Some? ==> |r.value| == 20
  {
    match Hex.DecodeHex(Hex.PadEven(Hex.StripPrefixes(address)))
    case None => None
    case Some(bs) => if |bs| == 20 then Some(bs) else None
  }

  // Accepted are exactly 39 or 40 hexadecimal digits after the prefixes, and they give their number.
  lemma AddressReads(address: string)
    ensures var digits := Hex.StripPrefixes(address);
            && (AddressToBytes(address).Some? <==> Hex.AllDigits(digits) && |digits| in {39, 40})
            && (AddressToBytes(address).Some? ==>
                  FromBigEndian(AddressToBytes(address).value) == Hex.Value(digits))
  {
    var digits := Hex.StripPrefixes(address);
    Hex.PadEvenKeepsValue(digits);
    Hex.DecodeHexReads(Hex.PadEven(digits));
  }

  // A missing vault and an empty one are the same request.
  function VaultText(vault: Option<string>): string {
    if vault.Some? then vault.value else ""
  }

  function VaultBytes(vault: Option<string>): Option<seq<byte>> {
    if VaultText(vault) == "" then None else AddressToBytes(VaultText(vault))
  }

  function Suffix(nonce: nat, vault: Option<seq<byte>>, expiry: Option<nat>): seq<byte> {
    BigEndian(nonce, 8) + VaultPart(vault) + ExpiryPart(expiry)
  }

  function VaultPart(vault: Option<seq<byte>>): seq<byte> {
    if vault.None? then [0] else [1] + vault.value
  }

  function ExpiryPart(expiry: Option<nat>): seq<byte> {
    if expiry.None? then [] else [0] + BigEndian(expiry.value, 8)
  }

  predicate Negative(n: Option<int64>) {
    n.Some? && n.value < 0
  }

  lemma Regroup(a: seq<byte>, b: seq<byte>, c: seq<byte>, d: seq<byte>)
    ensures a + b + c + d == a + (b + (c + d))
    ensures a + b + c == a + (b + c)
  {
  }

  // The layout of the signed bytes, byte by byte. After the action come the nonce in 8 bytes, a byte
  // that tells whether a vault follows, the 20 bytes of its address if so, and, only if there is an
  // expiry, a zero byte and the expiry in 8 bytes.
  ghost predicate HasLayout(data: seq<byte>, n: nat, nonce: nat, vault: string, expiry: Option<int64>) {
    var end := if vault == "" then n + 9 else n + 29;
    && |data| >= end
    && FromBigEndian(data[n..n + 8]) == nonce
    && ReadsAsVault(data[n + 8..end], vault)
    && ReadsAsExpiry(data[end..], expiry)
  }

  ghost predicate ReadsAsVault(bs: seq<byte>, vault: string) {
    if vault == "" then bs == [0]
    else
      && |bs| == 21 && bs[0] == 1
      && Hex.AllDigits(Hex.StripPrefixes(vault))
      && FromBigEndian(bs[1..]) == Hex.Value(Hex.StripPrefixes(vault))
  }

  ghost predicate ReadsAsExpiry(bs: seq<byte>, expiry: Option<int64>) {
    if expiry.None? then bs == []
    else |bs| == 9 && bs[0] == 0 && FromBigEndian(bs[1..]) == expiry.value
  }

  lemma EightByteNumber(n: nat)
    requires n <= INT64_MAX
    ensures FromBigEndian(BigEndian(n, 8)) == n
  {
    assert Pow(256, 4) == 0x1_0000_0000;
    assert Pow(256, 8) == 0x1_0000_0000_0000_0000;
    BigEndianReads(n, 8);
  }

  lemma Parts(a: seq<byte>, b: seq<byte>, c: seq<byte>, d: seq<byte>)
    ensures var data := a + (b + c + d);
            && |data| == |a| + |b| + |c| + |d|
            && data[|a|..|a| + |b|] == b
            && data[|a| + |b|..|a| + |b| + |c|] == c
            && data[|a| + |b| + |c|..] == d
  {
  }

  lemma VaultPartReads(vault: Option<string>)
    requires VaultText(vault) == "" || VaultBytes(vault).Some?
    ensures ReadsAsVault(VaultPart(VaultBytes(vault)), VaultText(vault))
  {
    AddressReads(VaultText(vault));
    if VaultText(vault) != "" {
      assert VaultPart(VaultBytes(vault))[1..] == VaultBytes(vault).value;
    }
  }

  lemma ExpiryPartReads(expiry: Option<int64>)
    requires !Negative(expiry)
    ensures ReadsAsExpiry(ExpiryPart(expiry), expiry)
  {
    if expiry.Some? {
      EightByteNumber(expiry.value);
      assert ExpiryPart(expiry)[1..] == BigEndian(expiry.value, 8);
    }
  }

  lemma SuffixHasLayout(body: seq<byte>, nonce: int64, vault: Option<string>, expiry: Option<int64>)
    requires nonce >= 0 && !Negative(expiry)
    requires VaultText(vault) == "" || VaultBytes(vault).Some?
    ensures HasLayout(body + Suffix(nonce, VaultBytes(vault), expiry), |body|, nonce, VaultText(vault), expiry)
  {
    EightByteNumber(nonce);
    Parts(body, BigEndian(nonce, 8), VaultPart(VaultBytes(vault)), ExpiryPart(expiry));
    VaultPartReads(vault);
    ExpiryPartReads(expiry);
  }

  // The nonce is checked first, then the vault, then the expiry.
  method EncodeActionPreimage(action: Value, nonce: int64, vaultAddress: Option<string>,
                              expiresAfter: Option<int64>)
    returns (result: Result<seq<byte>, FramingError>)
    requires WellFormed(action)
    ensures nonce < 0 ==> result == Err(NegativeNonce)
    ensures nonce >= 0 && VaultText(vaultAddress) != "" && VaultBytes(vaultAddress).None? ==>
              result == Err(BadVaultAddress)
    ensures nonce >= 0 && (VaultText(vaultAddress) == "" || VaultBytes(vaultAddress).Some?) ==>
              result == if Negative(expiresAfter) then Err(NegativeExpiry)
                        else Ok(Rewrite.Convert(Encode(action)) +
                                Suffix(nonce, VaultBytes(vaultAddress), expiresAfter))
    ensures result.Ok? ==>
              var body := Rewrite.Convert(Encode(action));
              body <= result.value && HasLayout(result.value, |body|, nonce, VaultText(vaultAddress), expiresAfter)
  {
    var data := Rewrite.ConvertStr16ToStr8(Encode(action));
    ghost var body := data;
    if nonce < 0 {
      return Err(NegativeNonce);
    }
    data := data + BigEndian(nonce, 8);
    var vault := VaultText(vaultAddress);
    if vault == "" {
      data := data + [0];
    } else {
      var address := AddressToBytes(vault);
      if address.None? {
        return Err(BadVaultAddress);
      }
      data := data + [1];
      data := data + address.value;
    }
    ghost var vaultPart := VaultPart(VaultBytes(vaultAddress));
    Regroup(body, BigEndian(nonce, 8), vaultPart[..1], vaultPart[1..]);
    assert vaultPart == vaultPart[..1] + vaultPart[1..];
    assert data == body + (BigEndian(nonce, 8) + vaultPart);
    ghost var framed := BigEndian(nonce, 8) + vaultPart;
    if expiresAfter.Some? {
      if expiresAfter.value < 0 {
        return Err(NegativeExpiry);
      }
      data := data + [0];
      data := data + BigEndian(expiresAfter.value, 8);
      Regroup(body, framed, [0], BigEndian(expiresAfter.value, 8));
    }
    assert data == body + Suffix(nonce, VaultBytes(vaultAddress), expiresAfter);
    SuffixHasLayout(body, nonce, vaultAddress, expiresAfter);
    return Ok(data);
  }

  // What a request can be framed with: 64-bit unsigned numbers and a 20-byte vault, if any.
  ghost predicate Framable(nonce: nat, vault: Option<seq<byte>>, expiry: Option<nat>) {
    && nonce < 0x1_0000_0000_0000_0000
    && (vault.Some? ==> |vault.value| == 20)
    && (expiry.Some? ==> expiry.value < 0x1_0000_0000_0000_0000)
  }

  // The four shapes of a suffix have different lengths, so its length tells its shape.
  lemma SuffixLength(nonce: nat, vault: Option<seq<byte>>, expiry: Option<nat>)
    requires Framable(nonce, vault, expiry)
    ensures |Suffix(nonce, vault, expiry)| ==
            9 + (if vault.Some? then 20 else 0) + (if expiry.Some? then 9 else 0)
  {
  }

  lemma SuffixDetermines(n1: nat, v1: Option<seq<byte>>, e1: Option<nat>,
                         n2: nat, v2: Option<seq<byte>>, e2: Option<nat>)
    requires Framable(n1, v1, e1) && Framable(n2, v2, e2)
    requires Suffix(n1, v1, e1) == Suffix(n2, v2, e2)
    ensures n1 == n2 && v1 == v2 && e1 == e2
  {
    SuffixLength(n1, v1, e1);
    SuffixLength(n2, v2, e2);
    assert v1.Some? == v2.Some? && e1.Some? == e2.Some?;
    SuffixParts(n1, v1, e1);
    SuffixParts(n2, v2, e2);
    assert Pow(256, 8) == 0x1_0000_0000_0000_0000;
    BigEndianReads(n1, 8);
    BigEndianReads(n2, 8);
    if e1.Some? {
      BigEndianReads(e1.value, 8);
      BigEndianReads(e2.value, 8);
    }
  }

  lemma SuffixParts(nonce: nat, vault: Option<seq<byte>>, expiry: Option<nat>)
    requires Framable(nonce, vault, expiry)
    ensures var s := Suffix(nonce, vault, expiry);
            && |s| >= 9 && s[..8] == BigEndian(nonce, 8)
            && (vault.Some? ==> |s| >= 29 && s[9..29] == vault.value)
            && (expiry.Some? ==> s[|s| - 8..] == BigEndian(expiry.value, 8))
  {
    var s := Suffix(nonce, vault, expiry);
    Slices(BigEndian(nonce, 8), VaultPart(vault), ExpiryPart(expiry));
    if vault.Some? {
      assert s[9..29] == s[8..29][1..] == VaultPart(vault)[1..] == vault.value;
    }
    if expiry.Some? {
      assert s[|s| - 8..] == s[|s| - 9..][1..] == ExpiryPart(expiry)[1..] == BigEndian(expiry.value, 8);
    }
  }

  lemma Slices(a: seq<byte>, b: seq<byte>, c: seq<byte>)
    ensures var s := a + b + c;
            s[..|a|] == a && s[|a|..|a| + |b|] == b && s[|s| - |c|..] == c
  {
  }

  datatype Framed = Framed(action: Value, nonce: nat, vault: Option<seq<byte>>, expiry: Option<nat>)

  ghost predicate Signs(r: Framed, preimage: seq<byte>) {
    && WellFormed(r.action) && Framable(r.nonce, r.vault, r.expiry)
    && preimage == Rewrite.Convert(Encode(r.action)) + Suffix(r.nonce, r.vault, r.expiry)
  }

  // The rewrite keeps what the action says.
  ghost predicate Kept(action: Value)
    requires WellFormed(action)
  {
    Rewrite.Quiet(Rewrite.Pieces(action), [])
  }

  // Main result: among the requests that sign the same bytes as one whose action is kept, exactly
  // those whose action is kept too have an action that says the same; and these agree on nonce,
  // vault, expiry and, up to the string format the rewrite chooses, on the action itself.
  lemma PreimageUnique(x: Framed, y: Framed, preimage: seq<byte>)
    requires Signs(x, preimage) && Signs(y, preimage) && Kept(x.action)
    ensures MeaningOf(x.action) == MeaningOf(y.action) <==> Kept(y.action)
    ensures Kept(y.action) ==>
              && Rewrite.Retag(x.action) == Rewrite.Retag(y.action)
              && x.nonce == y.nonce && x.vault == y.vault && x.expiry == y.expiry
  {
    var xSuffix, ySuffix := Suffix(x.nonce, x.vault, x.expiry), Suffix(y.nonce, y.vault, y.expiry);
    RewriteMeaning.MeaningKeptBefore(x.action, xSuffix);
    RewriteMeaning.MeaningKeptBefore(y.action, ySuffix);
    if Kept(y.action) {
      SuffixDetermines(x.nonce, x.vault, x.expiry, y.nonce, y.vault, y.expiry);
    }
  }
}
