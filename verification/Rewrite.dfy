/** The rewriting of str 16 headers into str 8 headers that precedes signature recovery: the loop
    itself, how much it shortens its input, when it can be repeated without effect, and exactly when
    it maps the encoding of a MessagePack value to the encoding of the same value retagged. */
module Rewrite {
  import opened Prelude
  import opened Bytes
  import opened MessagePack

  // ---------- the loop and its specification ----------

  function Length16(hi: byte, lo: byte): nat {
    256 * (hi as int) + lo
  }

  // The guard of the loop, at the front of what is left of the buffer.
  predicate Fires(s: seq<byte>) {
    |s| > 2 && s[0] == 0xda && Length16(s[1], s[2]) < 256 && 3 + Length16(s[1], s[2]) <= |s|
  }

  function Convert(s: seq<byte>): seq<byte> {
    if s == [] then []
    else if Fires(s) then [0xd9, s[2]] + s[3..3 + s[2]] + Convert(s[3 + s[2]..])
    else [s[0]] + Convert(s[1..])
  }

  function Conversions(s: seq<byte>): nat {
    if s == [] then 0
    else if Fires(s) then 1 + Conversions(s[3 + s[2]..])
    else Conversions(s[1..])
  }

  lemma ConvertStep(s: seq<byte>)
    requires s != []
    ensures Fires(s) ==> Convert(s) == [0xd9, s[2]] + (s[3..3 + s[2]] + Convert(s[3 + s[2]..]))
    ensures !Fires(s) ==> Convert(s) == [s[0]] + Convert(s[1..])
  {
  }

  // What has been produced is right for what has been read.
  ghost predicate Progress(data: seq<byte>, i: nat, result: seq<byte>) {
    i <= |data| && result + Convert(data[i..]) == Convert(data)
  }

  lemma CopyStep(data: seq<byte>, i: nat, result: seq<byte>)
    requires Progress(data, i, result) && i < |data| && !Fires(data[i..])
    ensures Progress(data, i + 1, result + [data[i]])
  {
    ConvertStep(data[i..]);
    assert data[i..][1..] == data[i + 1..];
    Associative(result, [data[i]], Convert(data[i + 1..]));
  }

  lemma MoveStep(data: seq<byte>, i: nat, length: byte, result: seq<byte>)
    requires Progress(data, i, result) && i < |data| && Fires(data[i..]) && length == data[i + 2]
    ensures i + 3 + length <= |data|
    ensures Progress(data, i + 3 + length, result + [0xd9, length] + data[i + 3..i + 3 + length])
  {
    var left := data[i..];
    ConvertStep(left);
    assert left[3..3 + length] == data[i + 3..i + 3 + length] && left[3 + length..] == data[i + 3 + length..];
    Associative(result, [0xd9, length], data[i + 3..i + 3 + length] + Convert(data[i + 3 + length..]));
    Associative(result + [0xd9, length], data[i + 3..i + 3 + length], Convert(data[i + 3 + length..]));
  }

  lemma ProgressStarts(data: seq<byte>)
    ensures Progress(data, 0, [])
  {
    assert data[0..] == data;
  }

  lemma ProgressEnds(data: seq<byte>, result: seq<byte>)
    requires Progress(data, |data|, result)
    ensures result == Convert(data)
  {
  }

  lemma GuardAt(data: seq<byte>, i: nat)
    requires i < |data|
    ensures Fires(data[i..]) <==>
            data[i] == 0xda && i + 2 < |data| && Length16(data[i + 1], data[i + 2]) < 256 &&
            i + 3 + Length16(data[i + 1], data[i + 2]) <= |data|
  {
  }

  method ConvertStr16ToStr8(data: seq<byte>) returns (result: seq<byte>)
    ensures result == Convert(data)
  {
    result := [];
    var i := 0;
    ProgressStarts(data);
    while i < |data|
      invariant Progress(data, i, result)
    {
      var b := data[i];
      GuardAt(data, i);
      if b == 0xda && i + 2 < |data| {
        var length := Length16(data[i + 1], data[i + 2]);
        if length < 256 && i + 3 + length <= |data| {
          MoveStep(data, i, length, result);
          result := result + [0xd9, length];
          i := i + 3;
          result := result + data[i..i + length];
          i := i + length;
          continue;
        }
      }
      CopyStep(data, i, result);
      result := result + [b];
      i := i + 1;
    }
    ProgressEnds(data, result);
  }

  lemma Associative(a: seq<byte>, b: seq<byte>, c: seq<byte>)
    ensures a + b + c == a + (b + c)
  {
  }

  // ---------- length, and repeating the rewrite ----------

  lemma {:induction false} ConversionsShorten(s: seq<byte>)
    ensures |Convert(s)| + Conversions(s) == |s|
  {
    if s == [] {
    } else if Fires(s) {
      ConversionsShorten(s[3 + s[2]..]);
    } else {
      ConversionsShorten(s[1..]);
    }
  }

  // The rewrite leaves a buffer alone exactly when its guard holds nowhere in it.
  lemma {:induction false} UnchangedIffQuiet(s: seq<byte>)
    ensures Convert(s) == s <==> (forall i | 0 <= i < |s| :: !Fires(s[i..]))
  {
    ConversionsShorten(s);
    if s == [] {
    } else if Fires(s) {
      assert s[0..] == s;
    } else {
      UnchangedIffQuiet(s[1..]);
      assert s == [s[0]] + s[1..];
      forall i | 0 < i < |s| ensures s[1..][i - 1..] == s[i..] {
      }
      if Convert(s) == s {
        assert Convert(s)[1..] == Convert(s[1..]);
        forall i | 0 <= i < |s| ensures !Fires(s[i..]) {
          if i == 0 {
            assert s[0..] == s;
          } else {
            assert s[i..] == s[1..][i - 1..];
          }
        }
      } else {
        assert Convert(s[1..]) != s[1..];
        var j :| 0 <= j < |s[1..]| && Fires(s[1..][j..]);
        assert s[j + 1..] == s[1..][j..];
      }
    }
  }

  // A buffer cut into bytes copied one by one and str 16 strings of fewer than 256 bytes moved whole.
  type ShortString = bs: seq<byte> | |bs| < 256

  datatype Piece = Lit(b: byte) | Short(payload: ShortString)

  function Before(p: Piece): seq<byte> {
    if p.Lit? then [p.b] else [0xda, 0, |p.payload|] + p.payload
  }

  function After(p: Piece): seq<byte> {
    if p.Lit? then [p.b] else [0xd9, |p.payload|] + p.payload
  }

  ghost function Flat(parts: seq<seq<byte>>): seq<byte> {
    if parts == [] then [] else parts[0] + Flat(parts[1..])
  }

  ghost function Befores(ps: seq<Piece>): seq<seq<byte>> {
    seq(|ps|, i requires 0 <= i < |ps| => Before(ps[i]))
  }

  ghost function Afters(ps: seq<Piece>): seq<seq<byte>> {
    seq(|ps|, i requires 0 <= i < |ps| => After(ps[i]))
  }

  ghost function Source(ps: seq<Piece>): seq<byte> {
    Flat(Befores(ps))
  }

  ghost function Target(ps: seq<Piece>): seq<byte> {
    Flat(Afters(ps))
  }

  lemma Unfold(ps: seq<Piece>)
    requires ps != []
    ensures Source(ps) == Before(ps[0]) + Source(ps[1..]) && Target(ps) == After(ps[0]) + Target(ps[1..])
  {
    assert Befores(ps)[1..] == Befores(ps[1..]) && Afters(ps)[1..] == Afters(ps[1..]);
  }

  // The cut the loop itself makes.
  ghost function Cut(s: seq<byte>): seq<Piece> {
    if s == [] then []
    else if Fires(s) then [Short(s[3..3 + s[2]])] + Cut(s[3 + s[2]..])
    else [Lit(s[0])] + Cut(s[1..])
  }

  lemma {:induction false} CutIsFaithful(s: seq<byte>)
    ensures Source(Cut(s)) == s && Target(Cut(s)) == Convert(s)
  {
    if s != [] {
      var p, rest := CutStep(s);
      CutIsFaithful(rest);
      Unfold(Cut(s));
    }
  }

  lemma CutStep(s: seq<byte>) returns (p: Piece, rest: seq<byte>)
    requires s != []
    ensures |rest| < |s| && s == Before(p) + rest && Convert(s) == After(p) + Convert(rest)
    ensures Cut(s) == [p] + Cut(rest) && Cut(s)[0] == p && Cut(s)[1..] == Cut(rest)
  {
    ConvertStep(s);
    if Fires(s) {
      p, rest := Short(s[3..3 + s[2]]), s[3 + s[2]..];
      assert Before(p) == s[..3 + s[2]];
      Associative([0xd9, s[2]], p.payload, Convert(rest));
    } else {
      p, rest := Lit(s[0]), s[1..];
    }
  }

  // A byte the loop copied does not start a short string in the output either: its apparent length
  // stays at least 256, or shrinks by no more than what follows it shrinks.
  lemma CopiedByteStaysQuiet(s: seq<byte>)
    requires s != [] && !Fires(s)
    ensures !Fires(Convert(s))
  {
    ConversionsShorten(s);
    if |s| > 2 && s[0] == 0xda && s[1] == 0 {
      var t := s[1..];
      var u := t[1..];
      assert !Fires(t) && Convert(s) == [0xda] + ([0] + Convert(u));
      ConversionsShorten(u);
      if Fires(u) {
        assert Convert(u)[0] == 0xd9 && Conversions(u) > 0;
      } else {
        assert Convert(u)[0] == u[0] == s[2];
      }
    }
  }

  // The first byte the loop writes for s.
  function FirstWritten(s: seq<byte>): byte
    requires s != []
  {
    if Fires(s) then 0xd9 else s[0]
  }

  // The end of a converted string will look like the start of a short str 16 string, once the loop
  // has written what it writes for the input behind it.
  predicate LooksShort(moved: seq<byte>, behind: seq<byte>)
    requires moved != []
  {
    var written := |moved| + |behind| - Conversions(behind);
    && moved[0] == 0xda
    && if |moved| >= 3 then moved[1] == 0 && 3 + moved[2] <= written
       else if |moved| == 2 then moved[1] == 0 && behind != [] && 3 + FirstWritten(behind) <= written
       else |behind| > 1 && behind[0] == 0 && 3 + FirstWritten(behind[1..]) <= written
  }

  lemma LooksShortMeans(moved: seq<byte>, behind: seq<byte>)
    requires moved != []
    ensures LooksShort(moved, behind) <==> Fires(moved + Convert(behind))
  {
    ConversionsShorten(behind);
    if behind != [] {
      ConvertStep(behind);
      assert Convert(behind)[0] == FirstWritten(behind);
      if |behind| > 1 {
        ConvertStep(behind[1..]);
        assert Convert(behind[1..])[0] == FirstWritten(behind[1..]);
      }
    }
  }

  // No end of a converted string, from its length byte on, will look like a short string.
  ghost predicate Settled(ps: seq<Piece>) {
    ps != [] ==>
      && (ps[0].Short? ==>
            forall j | 2 <= j < |Before(ps[0])| :: !LooksShort(Before(ps[0])[j..], Source(ps[1..])))
      && Settled(ps[1..])
  }

  lemma SettledPiece(p: Piece, behind: seq<byte>)
    requires p.Short?
    ensures (forall j | 1 <= j < |After(p)| :: !Fires((After(p) + Convert(behind))[j..])) <==>
            (forall j | 2 <= j < |Before(p)| :: !LooksShort(Before(p)[j..], behind))
  {
    forall j | 1 <= j < |After(p)|
      ensures Fires((After(p) + Convert(behind))[j..]) <==> LooksShort(Before(p)[j + 1..], behind)
    {
      assert After(p)[j..] == Before(p)[j + 1..];
      assert (After(p) + Convert(behind))[j..] == After(p)[j..] + Convert(behind);
      LooksShortMeans(Before(p)[j + 1..], behind);
    }
    forall j | 2 <= j < |Before(p)|
      ensures LooksShort(Before(p)[j..], behind) <==> Fires((After(p) + Convert(behind))[j - 1..])
    {
      assert After(p)[j - 1..] == Before(p)[j..];
      assert (After(p) + Convert(behind))[j - 1..] == After(p)[j - 1..] + Convert(behind);
      LooksShortMeans(Before(p)[j..], behind);
    }
  }

  lemma {:induction false} OutputQuietIffSettled(s: seq<byte>)
    ensures (forall i | 0 <= i < |Convert(s)| :: !Fires(Convert(s)[i..])) <==> Settled(Cut(s))
  {
    if s != [] {
      var p, rest := CutStep(s);
      CutIsFaithful(rest);
      OutputQuietIffSettled(rest);
      if p.Lit? {
        CopiedByteStaysQuiet(s);
      } else {
        SettledPiece(p, rest);
      }
      QuietSplit(After(p), Convert(rest));
    }
  }

  lemma QuietSplit(head: seq<byte>, tail: seq<byte>)
    requires head != []
    ensures (forall i | 0 <= i < |head + tail| :: !Fires((head + tail)[i..])) <==>
            && !Fires(head + tail)
            && (forall j | 1 <= j < |head| :: !Fires((head + tail)[j..]))
            && (forall i | 0 <= i < |tail| :: !Fires(tail[i..]))
  {
    var all := head + tail;
    assert all[0..] == all;
    forall i | |head| <= i < |all| ensures all[i..] == tail[i - |head|..] {
    }
    forall i | 0 <= i < |tail| ensures tail[i..] == all[i + |head|..] {
    }
  }

  // Rewriting twice is rewriting once exactly when no converted string hides a short string header.
  lemma RewriteTwice(s: seq<byte>)
    ensures Convert(Convert(s)) == Convert(s) <==> Settled(Cut(s))
  {
    UnchangedIffQuiet(Convert(s));
    OutputQuietIffSettled(s);
  }

  ghost predicate Printable(bs: seq<byte>) {
    forall b | b in bs :: 0x20 <= b <= 0x7e
  }

  lemma {:induction false} PrintableIsSettled(ps: seq<Piece>)
    requires forall p | p in ps && p.Short? :: Printable(p.payload)
    ensures Settled(ps)
  {
    if ps != [] {
      PrintableIsSettled(ps[1..]);
      if ps[0].Short? {
        var payload := ps[0].payload;
        forall j | 2 <= j < |Before(ps[0])| ensures !LooksShort(Before(ps[0])[j..], Source(ps[1..])) {
          assert forall m | 0 <= m < |payload| :: Before(ps[0])[3 + m] == payload[m] && payload[m] in payload;
        }
      }
    }
  }

  // In particular when every converted string is printable ASCII, as wallet actions' strings are.
  lemma PrintableRewriteTwice(s: seq<byte>)
    requires forall p | p in Cut(s) && p.Short? :: Printable(p.payload)
    ensures Convert(Convert(s)) == Convert(s)
  {
    PrintableIsSettled(Cut(s));
    RewriteTwice(s);
  }

  // Without such a condition a second pass can act: here it finds an empty string in the payload.
  lemma RewriteTwiceCanDiffer()
    ensures Convert([0xda, 0, 3, 0xda, 0, 0]) == [0xd9, 3, 0xda, 0, 0]
    ensures Convert([0xd9, 3, 0xda, 0, 0]) != [0xd9, 3, 0xda, 0, 0]
  {
    var s: seq<byte> := [0xda, 0, 3, 0xda, 0, 0];
    ConvertStep(s);
    assert s[3..6] == [0xda, 0, 0] && s[6..] == [];
    var t: seq<byte> := [0xd9, 3, 0xda, 0, 0];
    assert Fires(t[2..]);
    UnchangedIffQuiet(t);
  }

  // ---------- what the rewrite does to an encoded value ----------

  function Retag(v: Value): (r: Value) {
    match v
    case Scalar(_, _) => v
    case Raw(format, payload) => if format == Str16 && |payload| < 256 then Raw(Str8, payload) else v
    case Arr(items) => Arr(seq(|items|, i requires 0 <= i < |items| => Retag(items[i])))
    case Map(items) => Map(seq(|items|, i requires 0 <= i < |items| => Retag(items[i])))
  }

  lemma {:induction false} RetagMeaning(v: Value)
    requires WellFormed(v)
    ensures WellFormed(Retag(v)) && MeaningOf(Retag(v)) == MeaningOf(v)
  {
    if v.Arr? || v.Map? {
      var items := v.items;
      forall i | 0 <= i < |items|
        ensures WellFormed(Retag(items[i])) && MeaningOf(Retag(items[i])) == MeaningOf(items[i])
      {
        RetagMeaning(items[i]);
      }
      assert forall x | x in Retag(v).items :: exists i | 0 <= i < |items| :: x == Retag(items[i]);
    }
  }

  function Lits(bs: seq<byte>): seq<Piece> {
    seq(|bs|, i requires 0 <= i < |bs| => Lit(bs[i]))
  }

  // The encoding of a value with its short str 16 strings marked.
  function Pieces(v: Value): seq<Piece>
    requires WellFormed(v)
    decreases v, 1
  {
    match v
    case Scalar(head, body) => Lits([head] + body)
    case Raw(format, payload) =>
      if format == Str16 && |payload| < 256 then [Short(payload)]
      else Lits(RawHeader(format, |payload|) + payload)
    case Arr(items) => Lits(ArrHeader(|items|)) + PiecesAll(items)
    case Map(items) => Lits(MapHeader(|items| / 2)) + PiecesAll(items)
  }

  function PiecesAll(vs: seq<Value>): seq<Piece>
    requires forall x | x in vs :: WellFormed(x)
    decreases vs, 0
  {
    if vs == [] then [] else Pieces(vs[0]) + PiecesAll(vs[1..])
  }

  lemma {:induction false} FlatConcatenation(a: seq<seq<byte>>, b: seq<seq<byte>>)
    ensures Flat(a + b) == Flat(a) + Flat(b)
  {
    if a == [] {
      assert a + b == b;
    } else {
      FlatConcatenation(a[1..], b);
      assert (a + b)[0] == a[0] && (a + b)[1..] == a[1..] + b;
      Associative(a[0], Flat(a[1..]), Flat(b));
    }
  }

  lemma Concatenation(a: seq<Piece>, b: seq<Piece>)
    ensures Source(a + b) == Source(a) + Source(b) && Target(a + b) == Target(a) + Target(b)
  {
    assert Befores(a + b) == Befores(a) + Befores(b) && Afters(a + b) == Afters(a) + Afters(b);
    FlatConcatenation(Befores(a), Befores(b));
    FlatConcatenation(Afters(a), Afters(b));
  }

  lemma {:induction false} LitsAreBytes(bs: seq<byte>)
    ensures Source(Lits(bs)) == bs && Target(Lits(bs)) == bs
  {
    if bs != [] {
      LitsAreBytes(bs[1..]);
      Unfold(Lits(bs));
      assert Lits(bs)[1..] == Lits(bs[1..]);
      assert bs == [bs[0]] + bs[1..];
    }
  }

  lemma ShortPiece(payload: ShortString)
    ensures Source([Short(payload)]) == Encode(Raw(Str16, payload))
    ensures Target([Short(payload)]) == Encode(Raw(Str8, payload))
  {
    BigEndianPair(|payload|);
    assert BigEndian(|payload|, 1) == [|payload|];
    Unfold([Short(payload)]);
  }

  lemma {:induction false} PiecesAreEncodings(v: Value)
    requires WellFormed(v)
    ensures WellFormed(Retag(v))
    ensures Source(Pieces(v)) == Encode(v) && Target(Pieces(v)) == Encode(Retag(v))
    decreases v, 1
  {
    RetagMeaning(v);
    match v
    case Scalar(head, body) =>
      LitsAreBytes([head] + body);
    case Raw(format, payload) =>
      LitsAreBytes(RawHeader(format, |payload|) + payload);
      if format == Str16 && |payload| < 256 {
        ShortPiece(payload);
      }
    case Arr(items) =>
      LitsAreBytes(ArrHeader(|items|));
      Concatenation(Lits(ArrHeader(|items|)), PiecesAll(items));
      PiecesAllAreEncodings(items, Retag(v).items);
    case Map(items) =>
      LitsAreBytes(MapHeader(|items| / 2));
      Concatenation(Lits(MapHeader(|items| / 2)), PiecesAll(items));
      PiecesAllAreEncodings(items, Retag(v).items);
  }

  lemma {:induction false} PiecesAllAreEncodings(vs: seq<Value>, ws: seq<Value>)
    requires forall x | x in vs :: WellFormed(x)
    requires |ws| == |vs| && forall i | 0 <= i < |vs| :: ws[i] == Retag(vs[i])
    ensures forall x | x in ws :: WellFormed(x)
    ensures Source(PiecesAll(vs)) == EncodeAll(vs) && Target(PiecesAll(vs)) == EncodeAll(ws)
    decreases vs, 0
  {
    if vs != [] {
      PiecesAreEncodings(vs[0]);
      PiecesAllAreEncodings(vs[1..], ws[1..]);
      Concatenation(Pieces(vs[0]), PiecesAll(vs[1..]));
      assert ws == [ws[0]] + ws[1..];
    }
  }

  // No byte outside the marked strings of ps is mistaken for the start of a short string, when ps
  // is followed by tail.
  ghost predicate Quiet(ps: seq<Piece>, tail: seq<byte>) {
    ps != [] ==> (ps[0].Lit? ==> !Fires(Source(ps) + tail)) && Quiet(ps[1..], tail)
  }

  // On any cut of a buffer the loop performs exactly the marked conversions if and only if its
  // guard never holds at a byte outside the marked strings.
  lemma {:induction false} ConvertFollowsPieces(ps: seq<Piece>, tail: seq<byte>)
    ensures Convert(Source(ps) + tail) == Target(ps) + Convert(tail) <==> Quiet(ps, tail)
  {
    if ps == [] {
      assert Source(ps) + tail == tail;
    } else {
      ConvertFollowsPieces(ps[1..], tail);
      Unfold(ps);
      var rest := Source(ps[1..]) + tail;
      Associative(Before(ps[0]), Source(ps[1..]), tail);
      Associative(After(ps[0]), Target(ps[1..]), Convert(tail));
      ConvertHead(ps[0], rest);
      if ps[0].Short? || !Fires(Before(ps[0]) + rest) {
        SameTails(After(ps[0]), Convert(rest), Target(ps[1..]) + Convert(tail));
      }
    }
  }

  lemma ConvertHead(p: Piece, rest: seq<byte>)
    ensures p.Short? || !Fires(Before(p) + rest) ==> Convert(Before(p) + rest) == After(p) + Convert(rest)
    ensures p.Lit? && Fires(Before(p) + rest) ==> Convert(Before(p) + rest)[0] != After(p)[0]
  {
    var s := Before(p) + rest;
    if p.Short? {
      var n := |p.payload|;
      assert Fires(s) && s[3..3 + n] == p.payload && s[3 + n..] == rest;
    } else {
      assert s[1..] == rest;
    }
  }

  lemma SameTails(a: seq<byte>, x: seq<byte>, y: seq<byte>)
    ensures a + x == a + y <==> x == y
  {
    if a + x == a + y {
      assert x == (a + x)[|a|..] == (a + y)[|a|..] == y;
    }
  }

  // Main result: the loop turns the encoding of a value into the encoding of the retagged value
  // exactly when its guard holds at no byte outside the short str 16 strings.
  lemma RewriteExact(v: Value)
    requires WellFormed(v)
    ensures WellFormed(Retag(v))
    ensures Convert(Encode(v)) == Encode(Retag(v)) <==> Quiet(Pieces(v), [])
  {
    PiecesAreEncodings(v);
    ConvertFollowsPieces(Pieces(v), []);
    assert Encode(v) + [] == Encode(v) && Encode(Retag(v)) + Convert([]) == Encode(Retag(v));
  }

  // The bytes of an encoding other than str 16 format bytes and short str 16 strings.
  function Exposed(v: Value): seq<byte>
    requires WellFormed(v)
    decreases v, 1
  {
    match v
    case Scalar(head, body) => [head] + body
    case Raw(format, payload) =>
      if format != Str16 then RawHeader(format, |payload|) + payload
      else if |payload| < 256 then []
      else BigEndian(|payload|, 2) + payload
    case Arr(items) => ArrHeader(|items|) + ExposedAll(items)
    case Map(items) => MapHeader(|items| / 2) + ExposedAll(items)
  }

  function ExposedAll(vs: seq<Value>): seq<byte>
    requires forall x | x in vs :: WellFormed(x)
    decreases vs, 0
  {
    if vs == [] then [] else Exposed(vs[0]) + ExposedAll(vs[1..])
  }

  lemma {:induction false} QuietJoin(a: seq<Piece>, b: seq<Piece>, tail: seq<byte>)
    requires Quiet(a, Source(b) + tail) && Quiet(b, tail)
    ensures Quiet(a + b, tail)
  {
    if a == [] {
      assert a + b == b;
    } else {
      QuietJoin(a[1..], b, tail);
      Concatenation(a, b);
      Associative(Source(a), Source(b), tail);
      assert (a + b)[0] == a[0] && (a + b)[1..] == a[1..] + b;
    }
  }

  lemma {:induction false} LitsQuiet(bs: seq<byte>, tail: seq<byte>)
    requires 0xda !in bs
    ensures Quiet(Lits(bs), tail)
  {
    if bs != [] {
      LitsQuiet(bs[1..], tail);
      LitsAreBytes(bs);
      assert Lits(bs)[1..] == Lits(bs[1..]);
      assert bs[0] in bs;
    }
  }

  lemma {:induction false} CleanIsQuiet(v: Value, tail: seq<byte>)
    requires WellFormed(v) && 0xda !in Exposed(v)
    ensures Quiet(Pieces(v), tail)
    decreases v, 1
  {
    match v
    case Scalar(head, body) =>
      LitsQuiet([head] + body, tail);
    case Raw(format, payload) =>
      if format == Str16 && |payload| >= 256 {
        LongStringQuiet(payload, tail);
      } else if format != Str16 {
        LitsQuiet(RawHeader(format, |payload|) + payload, tail);
      }
    case Arr(items) =>
      LitsQuiet(ArrHeader(|items|), Source(PiecesAll(items)) + tail);
      CleanAllIsQuiet(items, tail);
      QuietJoin(Lits(ArrHeader(|items|)), PiecesAll(items), tail);
    case Map(items) =>
      LitsQuiet(MapHeader(|items| / 2), Source(PiecesAll(items)) + tail);
      CleanAllIsQuiet(items, tail);
      QuietJoin(Lits(MapHeader(|items| / 2)), PiecesAll(items), tail);
  }

  lemma LongStringQuiet(payload: seq<byte>, tail: seq<byte>)
    requires 256 <= |payload| < Limit(Str16) && 0xda !in BigEndian(|payload|, 2) + payload
    ensures Quiet(Lits(RawHeader(Str16, |payload|) + payload), tail)
  {
    var body := BigEndian(|payload|, 2) + payload;
    var all := [0xda] + body;
    assert RawHeader(Str16, |payload|) + payload == all;
    LitsQuiet(body, tail);
    LitsAreBytes(all);
    assert Lits(all)[1..] == Lits(body);
    BigEndianPair(|payload|);
    assert body[0] == |payload| / 256 && body[1] == |payload| % 256;
    assert Length16(body[0], body[1]) == |payload|;
  }

  lemma {:induction false} CleanAllIsQuiet(vs: seq<Value>, tail: seq<byte>)
    requires (forall x | x in vs :: WellFormed(x)) && 0xda !in ExposedAll(vs)
    ensures Quiet(PiecesAll(vs), tail)
    decreases vs, 0
  {
    if vs != [] {
      CleanIsQuiet(vs[0], Source(PiecesAll(vs[1..])) + tail);
      CleanAllIsQuiet(vs[1..], tail);
      QuietJoin(Pieces(vs[0]), PiecesAll(vs[1..]), tail);
    }
  }
}
