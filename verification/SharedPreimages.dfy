/** Different requests that sign the same bytes: what the uniqueness of preimages does not promise once
    the action of one of the requests is not kept by the rewrite. */
module SharedPreimages {
  import opened Prelude
  import opened Bytes
  import opened MessagePack
  import opened Rewrite
  import opened RewriteMeaning
  import opened ActionFraming

  // The loop copies a front without 0xda and then does what it does with the rest alone.
  lemma ConvertBehind(front: seq<byte>, s: seq<byte>)
    requires 0xda !in front
    ensures Convert(front + s) == front + Convert(s)
  {
    LitsQuiet(front, s);
    LitsAreBytes(front);
    ConvertFollowsPieces(Lits(front), s);
  }

  lemma ConvertClean(s: seq<byte>)
    requires 0xda !in s
    ensures Convert(s) == s
  {
    ConvertBehind(s, []);
    assert s + [] == s && s + Convert([]) == s;
  }

  // ---------- two cancels by cloid ----------

  // Cancels the order with this cloid, of asset 0.
  function CancelOf(cloid: Value): Value {
    Map([Name("asset"), Scalar(0, []), Name("cloid"), cloid])
  }

  function CancelByCloid(cloid: Value): Value {
    Map([Name("type"), Name("cancelByCloid"), Name("cancels"), Arr([CancelOf(cloid)])])
  }

  lemma {:induction false} EncodeAllLast(vs: seq<Value>, w: Value)
    requires WellFormed(w) && forall x | x in vs :: WellFormed(x)
    ensures EncodeAll(vs + [w]) == EncodeAll(vs) + Encode(w)
    decreases |vs|
  {
    if vs == [] {
      assert EncodeAll([w]) == Encode(w) + EncodeAll([]);
    } else {
      assert (vs + [w])[0] == vs[0] && (vs + [w])[1..] == vs[1..] + [w];
      EncodeAllLast(vs[1..], w);
      Associative(Encode(vs[0]), EncodeAll(vs[1..]), Encode(w));
    }
  }

  // A value that can stand before the last item of a map and encodes without 0xda.
  ghost predicate Plain(v: Value) {
    WellFormed(v) && Retag(v) == v && 0xda !in Encode(v)
  }

  lemma {:induction false} PlainItems(vs: seq<Value>)
    requires forall x | x in vs :: Plain(x)
    ensures (forall x | x in vs :: WellFormed(x)) && 0xda !in EncodeAll(vs)
    decreases |vs|
  {
    if vs != [] {
      PlainItems(vs[1..]);
      assert Plain(vs[0]);
    }
  }

  lemma PlainName(s: string)
    requires |s| < 32 && forall i | 0 <= i < |s| :: s[i] as int < 0x80
    ensures Plain(Name(s))
  {
  }

  // A map of two entries, the first three of whose items are plain.
  lemma MapEnds(a: Value, b: Value, c: Value, w: Value) returns (front: seq<byte>)
    requires Plain(a) && Plain(b) && Plain(c) && WellFormed(w)
    ensures WellFormed(Map([a, b, c, w])) && 0xda !in front
    ensures front == MapHeader(2) + EncodeAll([a, b, c]) && Encode(Map([a, b, c, w])) == front + Encode(w)
    ensures Retag(w) == w ==> Retag(Map([a, b, c, w])) == Map([a, b, c, w])
  {
    var items := [a, b, c, w];
    assert items == [a, b, c] + [w];
    EncodeAllLast([a, b, c], w);
    PlainItems([a, b, c]);
    front := MapHeader(2) + EncodeAll([a, b, c]);
    Associative(MapHeader(2), EncodeAll([a, b, c]), Encode(w));
    if Retag(w) == w {
      assert Retag(Map(items)).items == items;
    }
  }

  lemma SingletonEnds(w: Value)
    requires WellFormed(w)
    ensures WellFormed(Arr([w])) && Encode(Arr([w])) == [0x91] + Encode(w)
    ensures Retag(w) == w ==> Retag(Arr([w])) == Arr([w])
  {
    EncodeAllLast([], w);
    assert [] + [w] == [w];
    if Retag(w) == w {
      assert Retag(Arr([w])).items == [w];
    }
  }

  ghost function CancelFront(): seq<byte> {
    var outer := MapHeader(2) + EncodeAll([Name("type"), Name("cancelByCloid"), Name("cancels")]);
    outer + ([0x91] + (MapHeader(2) + EncodeAll([Name("asset"), Scalar(0, []), Name("cloid")])))
  }

  lemma CancelEnds(cloid: Value)
    requires WellFormed(cloid) && Retag(cloid) == cloid
    ensures WellFormed(CancelByCloid(cloid)) && Retag(CancelByCloid(cloid)) == CancelByCloid(cloid)
    ensures 0xda !in CancelFront() && Encode(CancelByCloid(cloid)) == CancelFront() + Encode(cloid)
  {
    PlainName("asset");
    PlainName("cloid");
    var inner := MapEnds(Name("asset"), Scalar(0, []), Name("cloid"), cloid);
    SingletonEnds(CancelOf(cloid));
    PlainName("type");
    PlainName("cancelByCloid");
    PlainName("cancels");
    var outer := MapEnds(Name("type"), Name("cancelByCloid"), Name("cancels"), Arr([CancelOf(cloid)]));
    Associative([0x91], inner, Encode(cloid));
    Associative(outer, [0x91] + inner, Encode(cloid));
  }

  lemma HeaderMoves(k: byte, p: seq<byte>)
    requires k <= |p| && 0xda !in p
    ensures Convert([0xda, 0, k] + p) == [0xd9, k] + p
  {
    var moved, rest := p[..k], p[k..];
    assert p == moved + rest;
    ConvertHead(Short(moved), rest);
    ConvertClean(rest);
    Associative([0xda, 0, k], moved, rest);
    Associative([0xd9, k], moved, rest);
  }

  lemma CloidBytes(k: byte, p: seq<byte>)
    requires |p| == 216
    ensures Encode(Raw(Str8, [0, k] + p)) == [0xd9] + ([0xda, 0, k] + p)
    ensures Encode(Raw(Str8, [k] + p)) == [0xd9] + ([0xd9, k] + p)
  {
    assert BigEndian(218, 1) == [218] && BigEndian(217, 1) == [217];
  }

  // A string of 218 bytes has 0xda as its length byte. When a NUL and an ASCII character follow, the
  // loop takes them for a str 16 header, and its output is the string without the NUL.
  lemma NulIsLost(k: byte, p: seq<byte>)
    requires k < 0x80 && |p| == 216 && 0xda !in p
    ensures Convert(Encode(Raw(Str8, [0, k] + p))) == Encode(Raw(Str8, [k] + p))
    ensures 0xda !in Encode(Raw(Str8, [k] + p))
  {
    CloidBytes(k, p);
    ConvertBehind([0xd9], [0xda, 0, k] + p);
    HeaderMoves(k, p);
  }

  // Main result: a cancel of a cloid of 217 bytes and a cancel of the same cloid behind a NUL sign the
  // same bytes, whatever nonce, vault and expiry they share. Only the first is kept by the rewrite.
  lemma PreimageCanBeShared(k: byte, p: seq<byte>, nonce: nat, vault: Option<seq<byte>>, expiry: Option<nat>)
    requires k < 0x80 && |p| == 216 && 0xda !in p && Framable(nonce, vault, expiry)
    ensures var x := Framed(CancelByCloid(Raw(Str8, [k] + p)), nonce, vault, expiry);
            var y := Framed(CancelByCloid(Raw(Str8, [0, k] + p)), nonce, vault, expiry);
            && (exists preimage :: Signs(x, preimage) && Signs(y, preimage))
            && Kept(x.action) && MeaningOf(x.action) != MeaningOf(y.action)
  {
    var a, b := Raw(Str8, [k] + p), Raw(Str8, [0, k] + p);
    CancelEnds(a);
    CancelEnds(b);
    NulIsLost(k, p);
    ConvertBehind(CancelFront(), Encode(a));
    ConvertBehind(CancelFront(), Encode(b));
    ConvertClean(Encode(a));
    RewriteExact(CancelByCloid(a));
    RewriteExact(CancelByCloid(b));
    var x := Framed(CancelByCloid(a), nonce, vault, expiry);
    var y := Framed(CancelByCloid(b), nonce, vault, expiry);
    var preimage := Encode(x.action) + Suffix(nonce, vault, expiry);
    assert Signs(x, preimage) && Signs(y, preimage);
    assert |Encode(a)| < |Encode(b)|;
    PreimageUnique(x, y, preimage);
  }

  // ---------- two nonces ----------

  lemma {:induction false} BigEndianWiden(n: nat, width: nat)
    requires n < Pow(256, width)
    ensures BigEndian(n, width + 1) == [0] + BigEndian(n, width)
    decreases width
  {
    if width > 0 {
      BigEndianWiden(n / 256, width - 1);
    }
  }

  lemma BigEndianTimes(n: nat, width: nat)
    ensures BigEndian(256 * n, width + 1) == BigEndian(n, width) + [0]
  {
    assert 256 * n / 256 == n && 256 * n % 256 == 0;
  }

  lemma Pow256Eight()
    ensures Pow(256, 8) == 0x1_0000_0000_0000_0000
  {
    assert Pow(256, 4) == 0x1_0000_0000;
  }

  // Shifting a number by one byte, seen from both sides.
  lemma BigEndianShift(m: nat)
    requires m < 0x80_0000_0000_0000
    ensures BigEndian(m, 8) + [0] == [0] + BigEndian(256 * m, 8)
  {
    Pow256Eight();
    BigEndianWiden(256 * m, 8);
    BigEndianTimes(m, 8);
  }

  lemma EncodePair(a: Value, b: Value)
    requires WellFormed(a) && WellFormed(b)
    ensures WellFormed(Arr([a, b])) && Encode(Arr([a, b])) == [0x92] + (Encode(a) + Encode(b))
  {
    SingletonEnds(a);
    EncodeAllLast([a], b);
    assert [a] + [b] == [a, b];
    assert EncodeAll([a]) == Encode(a) + EncodeAll([]);
  }

  const STRING_AND_NUMBER := Arr([Raw(FixStr, [0xd9, 0, 0xaa]), Scalar(0x62, [])])

  function TwoStrings(nonce: nat): Value {
    Arr([Raw(FixStr, [0xda, 0, 0]), Raw(FixStr, [0x62] + BigEndian(nonce, 8) + [0])])
  }

  lemma StringAndNumberBytes()
    ensures WellFormed(STRING_AND_NUMBER) && Retag(STRING_AND_NUMBER) == STRING_AND_NUMBER
    ensures Encode(STRING_AND_NUMBER) == [0x92, 0xa3] + ([0xd9, 0] + [0xaa, 0x62])
  {
    EncodePair(Raw(FixStr, [0xd9, 0, 0xaa]), Scalar(0x62, []));
    assert Retag(STRING_AND_NUMBER).items == STRING_AND_NUMBER.items;
  }

  lemma StringAndNumberKept()
    ensures WellFormed(STRING_AND_NUMBER) && Kept(STRING_AND_NUMBER)
    ensures Convert(Encode(STRING_AND_NUMBER)) == Encode(STRING_AND_NUMBER)
  {
    StringAndNumberBytes();
    ConvertClean(Encode(STRING_AND_NUMBER));
    RewriteExact(STRING_AND_NUMBER);
  }

  lemma TwoStringsBytes(nonce: nat)
    ensures WellFormed(TwoStrings(nonce))
    ensures Encode(TwoStrings(nonce)) ==
            [0x92, 0xa3] + ([0xda, 0, 0] + ([0xaa, 0x62] + (BigEndian(nonce, 8) + [0])))
  {
    EncodePair(Raw(FixStr, [0xda, 0, 0]), Raw(FixStr, [0x62] + BigEndian(nonce, 8) + [0]));
  }

  lemma EmptyStringMoves(front: seq<byte>, more: seq<byte>, end: seq<byte>)
    requires 0xda !in front && 0xda !in more && 0xda !in end
    ensures Convert(front + ([0xda, 0, 0] + (more + end))) == front + ([0xd9, 0] + more) + end
  {
    ConvertBehind(front, [0xda, 0, 0] + (more + end));
    HeaderMoves(0, more + end);
    Associative([0xd9, 0], more, end);
    Associative(front, [0xd9, 0] + more, end);
  }

  // The rewritten strings are the string and the number, and the end of the second string.
  lemma TwoStringsConvert(nonce: nat)
    requires 0xda !in BigEndian(nonce, 8)
    ensures WellFormed(TwoStrings(nonce)) && WellFormed(STRING_AND_NUMBER)
    ensures Convert(Encode(TwoStrings(nonce))) == Encode(STRING_AND_NUMBER) + (BigEndian(nonce, 8) + [0])
  {
    TwoStringsBytes(nonce);
    StringAndNumberBytes();
    EmptyStringMoves([0x92, 0xa3], [0xaa, 0x62], BigEndian(nonce, 8) + [0]);
  }

  lemma SuffixShifts(n: nat, m: nat)
    requires m < 0x80_0000_0000_0000
    ensures BigEndian(n, 8) + [0] + Suffix(m, None, None) == Suffix(n, None, Some(256 * m))
  {
    BigEndianShift(m);
    var expiry := BigEndian(256 * m, 8);
    assert Suffix(m, None, None) == BigEndian(m, 8) + [0] == [0] + expiry;
    assert Suffix(n, None, Some(256 * m)) == BigEndian(n, 8) + [0] + ([0] + expiry);
  }

  lemma StringsSign(n: nat, m: nat)
    requires m < 0x80_0000_0000_0000 && 0xda !in BigEndian(n, 8)
    ensures WellFormed(STRING_AND_NUMBER)
    ensures Signs(Framed(TwoStrings(n), m, None, None), Encode(STRING_AND_NUMBER) + Suffix(n, None, Some(256 * m)))
  {
    TwoStringsConvert(n);
    SuffixShifts(n, m);
    Associative(Encode(STRING_AND_NUMBER), BigEndian(n, 8) + [0], Suffix(m, None, None));
  }

  // Beyond typed actions even the nonce is not determined: the end of a string in the one action can
  // be read as the nonce of the other request, and its nonce as the other's expiry.
  lemma NonceCanDiffer(n: nat, m: nat)
    requires n < 0x1_0000_0000_0000_0000 && m < 0x80_0000_0000_0000 && 0xda !in BigEndian(n, 8)
    ensures var x := Framed(STRING_AND_NUMBER, n, None, Some(256 * m));
            var y := Framed(TwoStrings(n), m, None, None);
            WellFormed(x.action) && Kept(x.action) && exists preimage :: Signs(x, preimage) && Signs(y, preimage)
  {
    var x := Framed(STRING_AND_NUMBER, n, None, Some(256 * m));
    var y := Framed(TwoStrings(n), m, None, None);
    var preimage := Encode(x.action) + Suffix(n, None, Some(256 * m));
    StringAndNumberKept();
    assert Signs(x, preimage);
    StringsSign(n, m);
    assert Signs(y, preimage);
  }
}
