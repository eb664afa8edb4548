/** MessagePack values, their encoding and a decoder for it. Strings and byte arrays carry the
    format they are written in ("str format family" and "bin format family" of the MessagePack
    specification), because the signing code rewrites one string format into another. Arrays and
    maps always take the shortest header, as the encoder of the signing code does; the items of a
    map are its keys and values in turn. */
module MessagePack {
  import opened Prelude
  import opened Bytes

  datatype Format = FixStr | Str8 | Str16 | Str32 | Bin8 | Bin16 | Bin32

  datatype Value =
    | Scalar(head: byte, body: seq<byte>)
    | Raw(format: Format, payload: seq<byte>)
    | Arr(items: seq<Value>)
    | Map(items: seq<Value>)

  // What the first byte of a value announces. A length either sits inside the first byte
  // (lenBytes == 0) or follows it in lenBytes big-endian bytes.
  datatype Head =
    | ScalarHead(width: nat)
    | RawHead(format: Format, lenBytes: nat, inline: nat)
    | ArrHead(lenBytes: nat, inline: nat)
    | MapHead(lenBytes: nat, inline: nat)
    | NeverUsed

  function Classify(h: byte): Head {
    if h < 0x80 || 0xe0 <= h then ScalarHead(0)
    else if h < 0x90 then MapHead(0, h - 0x80)
    else if h < 0xa0 then ArrHead(0, h - 0x90)
    else if h < 0xc0 then RawHead(FixStr, 0, h - 0xa0)
    else match h
      case 0xc0 => ScalarHead(0)
      case 0xc2 => ScalarHead(0)
      case 0xc3 => ScalarHead(0)
      case 0xc4 => RawHead(Bin8, 1, 0)
      case 0xc5 => RawHead(Bin16, 2, 0)
      case 0xc6 => RawHead(Bin32, 4, 0)
      case 0xca => ScalarHead(4)
      case 0xcb => ScalarHead(8)
      case 0xcc => ScalarHead(1)
      case 0xcd => ScalarHead(2)
      case 0xce => ScalarHead(4)
      case 0xcf => ScalarHead(8)
      case 0xd0 => ScalarHead(1)
      case 0xd1 => ScalarHead(2)
      case 0xd2 => ScalarHead(4)
      case 0xd3 => ScalarHead(8)
      case 0xd9 => RawHead(Str8, 1, 0)
      case 0xda => RawHead(Str16, 2, 0)
      case 0xdb => RawHead(Str32, 4, 0)
      case 0xdc => ArrHead(2, 0)
      case 0xdd => ArrHead(4, 0)
      case 0xde => MapHead(2, 0)
      case 0xdf => MapHead(4, 0)
      case _ => NeverUsed
  }

  function Limit(format: Format): nat {
    match format
    case FixStr => 32
    case Str8 => 0x100
    case Bin8 => 0x100
    case Str16 => 0x1_0000
    case Bin16 => 0x1_0000
    case Str32 => 0x1_0000_0000
    case Bin32 => 0x1_0000_0000
  }

  predicate WellFormed(v: Value) {
    match v
    case Scalar(head, body) => Classify(head) == ScalarHead(|body|)
    case Raw(format, payload) => |payload| < Limit(format)
    case Arr(items) => |items| < 0x1_0000_0000 && forall x | x in items :: WellFormed(x)
    case Map(items) =>
      |items| % 2 == 0 && |items| / 2 < 0x1_0000_0000 && forall x | x in items :: WellFormed(x)
  }

  function RawHeader(format: Format, n: nat): seq<byte>
    requires n < Limit(format)
  {
    match format
    case FixStr => [0xa0 + n]
    case Str8 => [0xd9] + BigEndian(n, 1)
    case Str16 => [0xda] + BigEndian(n, 2)
    case Str32 => [0xdb] + BigEndian(n, 4)
    case Bin8 => [0xc4] + BigEndian(n, 1)
    case Bin16 => [0xc5] + BigEndian(n, 2)
    case Bin32 => [0xc6] + BigEndian(n, 4)
  }

  function ArrHeader(n: nat): seq<byte> {
    if n < 16 then [0x90 + n]
    else if n < 0x1_0000 then [0xdc] + BigEndian(n, 2)
    else [0xdd] + BigEndian(n, 4)
  }

  function MapHeader(n: nat): seq<byte> {
    if n < 16 then [0x80 + n]
    else if n < 0x1_0000 then [0xde] + BigEndian(n, 2)
    else [0xdf] + BigEndian(n, 4)
  }

  function Encode(v: Value): seq<byte>
    requires WellFormed(v)
    decreases v, 1
  {
    match v
    case Scalar(head, body) => [head] + body
    case Raw(format, payload) => RawHeader(format, |payload|) + payload
    case Arr(items) => ArrHeader(|items|) + EncodeAll(items)
    case Map(items) => MapHeader(|items| / 2) + EncodeAll(items)
  }

  function EncodeAll(vs: seq<Value>): seq<byte>
    requires forall x | x in vs :: WellFormed(x)
    decreases vs, 0
  {
    if vs == [] then [] else Encode(vs[0]) + EncodeAll(vs[1..])
  }

  // The formats of the specification, by how many bytes follow the first: nil, false, true and the
  // small integers have none, then come the 8, 16, 32 and 64 bit integers and the two floats.
  lemma ScalarFormats(head: byte, body: seq<byte>)
    ensures WellFormed(Scalar(head, body)) <==>
            || (|body| == 0 && (head <= 0x7f || 0xe0 <= head || head in {0xc0, 0xc2, 0xc3}))
            || (|body| == 1 && head in {0xcc, 0xd0})
            || (|body| == 2 && head in {0xcd, 0xd1})
            || (|body| == 4 && head in {0xca, 0xce, 0xd2})
            || (|body| == 8 && head in {0xcb, 0xcf, 0xd3})
  {
  }

  // The first byte of a string, byte array, list or map tells its format, and with short ones its length.
  lemma FirstByte(v: Value)
    requires WellFormed(v)
    ensures var first := Encode(v)[0] as int;
            match v
            case Scalar(head, _) => first == head
            case Raw(FixStr, payload) => |payload| <= 31 && first == 0xa0 + |payload|
            case Raw(Str8, payload) => |payload| <= 0xff && first == 0xd9
            case Raw(Str16, payload) => |payload| <= 0xffff && first == 0xda
            case Raw(Str32, payload) => |payload| <= 0xffff_ffff && first == 0xdb
            case Raw(Bin8, payload) => |payload| <= 0xff && first == 0xc4
            case Raw(Bin16, payload) => |payload| <= 0xffff && first == 0xc5
            case Raw(Bin32, payload) => |payload| <= 0xffff_ffff && first == 0xc6
            case Arr(items) =>
              first == if |items| <= 15 then 0x90 + |items| else if |items| <= 0xffff then 0xdc else 0xdd
            case Map(items) =>
              first == if |items| <= 31 then 0x80 + |items| / 2 else if |items| / 2 <= 0xffff then 0xde else 0xdf
  {
  }

  datatype Parsed<+T> = Malformed | Got(value: T, rest: seq<byte>)

  function ParseLength(s: seq<byte>, lenBytes: nat, inline: nat): (r: Parsed<nat>)
    ensures r.Got? ==> |r.rest| <= |s|
  {
    if lenBytes == 0 then Got(inline, s)
    else if |s| < lenBytes then Malformed
    else Got(FromBigEndian(s[..lenBytes]), s[lenBytes..])
  }

  function Decode(s: seq<byte>): (r: Parsed<Value>)
    ensures r.Got? ==> |r.rest| < |s|
    decreases |s|, 0
  {
    if s == [] then Malformed
    else match Classify(s[0])
      case ScalarHead(width) =>
        if |s| < 1 + width then Malformed else Got(Scalar(s[0], s[1..1 + width]), s[1 + width..])
      case RawHead(format, lenBytes, inline) =>
        (match ParseLength(s[1..], lenBytes, inline)
         case Malformed => Malformed
         case Got(n, t) => if |t| < n then Malformed else Got(Raw(format, t[..n]), t[n..]))
      case ArrHead(lenBytes, inline) =>
        (match ParseLength(s[1..], lenBytes, inline)
         case Malformed => Malformed
         case Got(n, t) =>
           match DecodeAll(n, t)
           case Malformed => Malformed
           case Got(items, rest) => Got(Arr(items), rest))
      case MapHead(lenBytes, inline) =>
        (match ParseLength(s[1..], lenBytes, inline)
         case Malformed => Malformed
         case Got(n, t) =>
           match DecodeAll(2 * n, t)
           case Malformed => Malformed
           case Got(items, rest) => Got(Map(items), rest))
      case NeverUsed => Malformed
  }

  function DecodeAll(n: nat, s: seq<byte>): (r: Parsed<seq<Value>>)
    ensures r.Got? ==> |r.rest| <= |s|
    decreases |s|, 1
  {
    if n == 0 then Got([], s)
    else match Decode(s)
      case Malformed => Malformed
      case Got(v, t) =>
        match DecodeAll(n - 1, t)
        case Malformed => Malformed
        case Got(vs, rest) => Got([v] + vs, rest)
  }

  lemma LengthReads(n: nat, width: nat, inline: nat, rest: seq<byte>)
    requires width in {1, 2, 4} && n < Pow(256, width)
    ensures ParseLength(BigEndian(n, width) + rest, width, inline) == Got(n, rest)
  {
    BigEndianReads(n, width);
    var s := BigEndian(n, width) + rest;
    assert s[..width] == BigEndian(n, width) && s[width..] == rest;
  }

  lemma Widths()
    ensures Pow(256, 1) == 0x100 && Pow(256, 2) == 0x1_0000 && Pow(256, 4) == 0x1_0000_0000
  {
    assert Pow(256, 3) == 0x100_0000;
  }

  // A header announces its own kind and length, whatever follows it.
  lemma RawHeaderReads(format: Format, n: nat, rest: seq<byte>)
    requires n < Limit(format)
    ensures var s := RawHeader(format, n) + rest;
            Classify(s[0]).RawHead? && Classify(s[0]).format == format &&
            ParseLength(s[1..], Classify(s[0]).lenBytes, Classify(s[0]).inline) == Got(n, rest)
  {
    Widths();
    var h := RawHeader(format, n);
    assert (h + rest)[1..] == h[1..] + rest;
    if format.FixStr? {
      assert h[1..] + rest == rest;
    } else {
      assert h[1..] == BigEndian(n, |h| - 1);
      LengthReads(n, |h| - 1, 0, rest);
    }
  }

  lemma ArrHeaderReads(n: nat, rest: seq<byte>)
    requires n < 0x1_0000_0000
    ensures var s := ArrHeader(n) + rest;
            Classify(s[0]).ArrHead? &&
            ParseLength(s[1..], Classify(s[0]).lenBytes, Classify(s[0]).inline) == Got(n, rest)
  {
    Widths();
    var h := ArrHeader(n);
    assert (h + rest)[1..] == h[1..] + rest;
    if n < 16 {
      assert h[1..] + rest == rest;
    } else {
      assert h[1..] == BigEndian(n, |h| - 1);
      LengthReads(n, |h| - 1, 0, rest);
    }
  }

  lemma MapHeaderReads(n: nat, rest: seq<byte>)
    requires n < 0x1_0000_0000
    ensures var s := MapHeader(n) + rest;
            Classify(s[0]).MapHead? &&
            ParseLength(s[1..], Classify(s[0]).lenBytes, Classify(s[0]).inline) == Got(n, rest)
  {
    Widths();
    var h := MapHeader(n);
    assert (h + rest)[1..] == h[1..] + rest;
    if n < 16 {
      assert h[1..] + rest == rest;
    } else {
      assert h[1..] == BigEndian(n, |h| - 1);
      LengthReads(n, |h| - 1, 0, rest);
    }
  }

  lemma ScalarReads(head: byte, body: seq<byte>, rest: seq<byte>)
    requires Classify(head) == ScalarHead(|body|)
    ensures Decode([head] + body + rest) == Got(Scalar(head, body), rest)
  {
    var s := [head] + body + rest;
    assert s[1..1 + |body|] == body && s[1 + |body|..] == rest;
  }

  lemma PayloadReads(s: seq<byte>, payload: seq<byte>, rest: seq<byte>)
    requires s != [] && Classify(s[0]).RawHead?
    requires ParseLength(s[1..], Classify(s[0]).lenBytes, Classify(s[0]).inline) == Got(|payload|, payload + rest)
    ensures Decode(s) == Got(Raw(Classify(s[0]).format, payload), rest)
  {
    var t := payload + rest;
    assert t[..|payload|] == payload && t[|payload|..] == rest;
  }

  lemma RawReads(format: Format, payload: seq<byte>, rest: seq<byte>)
    requires |payload| < Limit(format)
    ensures Decode(RawHeader(format, |payload|) + payload + rest) == Got(Raw(format, payload), rest)
  {
    var header, t := RawHeader(format, |payload|), payload + rest;
    RawHeaderReads(format, |payload|, t);
    assert header + payload + rest == header + t;
    PayloadReads(header + t, payload, rest);
  }

  lemma ArrReads(items: seq<Value>, t: seq<byte>, rest: seq<byte>)
    requires |items| < 0x1_0000_0000 && DecodeAll(|items|, t) == Got(items, rest)
    ensures Decode(ArrHeader(|items|) + t) == Got(Arr(items), rest)
  {
    ArrHeaderReads(|items|, t);
  }

  lemma MapReads(items: seq<Value>, t: seq<byte>, rest: seq<byte>)
    requires |items| % 2 == 0 && |items| / 2 < 0x1_0000_0000 && DecodeAll(|items|, t) == Got(items, rest)
    ensures Decode(MapHeader(|items| / 2) + t) == Got(Map(items), rest)
  {
    MapHeaderReads(|items| / 2, t);
  }

  // The decoder reads back every value from the front of its encoding and leaves the rest alone.
  lemma {:induction false} DecodeEncode(v: Value, rest: seq<byte>)
    requires WellFormed(v)
    ensures Decode(Encode(v) + rest) == Got(v, rest)
    decreases v, 1
  {
    match v
    case Scalar(head, body) => ScalarReads(head, body, rest);
    case Raw(format, payload) => RawReads(format, payload, rest);
    case Arr(items) => DecodeEncodeArr(items, rest);
    case Map(items) => DecodeEncodeMap(items, rest);
  }

  lemma {:induction false} DecodeEncodeArr(items: seq<Value>, rest: seq<byte>)
    requires WellFormed(Arr(items))
    ensures Decode(Encode(Arr(items)) + rest) == Got(Arr(items), rest)
    decreases items, 1
  {
    DecodeEncodeAll(items, rest);
    ArrReads(items, EncodeAll(items) + rest, rest);
    EncodeSplits(Arr(items), ArrHeader(|items|), items, rest);
  }

  lemma {:induction false} DecodeEncodeMap(items: seq<Value>, rest: seq<byte>)
    requires WellFormed(Map(items))
    ensures Decode(Encode(Map(items)) + rest) == Got(Map(items), rest)
    decreases items, 1
  {
    DecodeEncodeAll(items, rest);
    MapReads(items, EncodeAll(items) + rest, rest);
    EncodeSplits(Map(items), MapHeader(|items| / 2), items, rest);
  }

  lemma EncodeSplits(v: Value, header: seq<byte>, items: seq<Value>, rest: seq<byte>)
    requires WellFormed(v)
    requires v == Arr(items) ==> header == ArrHeader(|items|)
    requires v == Map(items) ==> header == MapHeader(|items| / 2)
    requires v in {Arr(items), Map(items)}
    ensures Encode(v) + rest == header + (EncodeAll(items) + rest)
  {
  }

  lemma {:induction false} DecodeEncodeAll(vs: seq<Value>, rest: seq<byte>)
    requires forall x | x in vs :: WellFormed(x)
    ensures DecodeAll(|vs|, EncodeAll(vs) + rest) == Got(vs, rest)
    decreases vs, 0
  {
    if vs == [] {
      assert EncodeAll(vs) + rest == rest;
    } else {
      assert EncodeAll(vs) + rest == Encode(vs[0]) + (EncodeAll(vs[1..]) + rest);
      DecodeEncode(vs[0], EncodeAll(vs[1..]) + rest);
      DecodeEncodeAll(vs[1..], rest);
      assert vs == [vs[0]] + vs[1..];
    }
  }

  // No encoding is a proper prefix of another: what follows a value never changes how it reads.
  lemma PrefixFree(a: Value, b: Value, x: seq<byte>, y: seq<byte>)
    requires WellFormed(a) && WellFormed(b)
    requires Encode(a) + x == Encode(b) + y
    ensures a == b && x == y
  {
    DecodeEncode(a, x);
    DecodeEncode(b, y);
  }

  // What a value says, once the choice of string or binary format is forgotten.
  datatype Meaning =
    | Atom(head: byte, body: seq<byte>)
    | Text(chars: seq<byte>)
    | Blob(octets: seq<byte>)
    | List(elements: seq<Meaning>)
    | Dict(alternating: seq<Meaning>)

  function MeaningOf(v: Value): Meaning {
    match v
    case Scalar(head, body) => Atom(head, body)
    case Raw(format, payload) =>
      if format in {Bin8, Bin16, Bin32} then Blob(payload) else Text(payload)
    case Arr(items) => List(seq(|items|, i requires 0 <= i < |items| => MeaningOf(items[i])))
    case Map(items) => Dict(seq(|items|, i requires 0 <= i < |items| => MeaningOf(items[i])))
  }
}
