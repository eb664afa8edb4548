/** When the rewrite keeps what an action says: exactly when its guard holds at no byte outside the
    short str 16 strings. Elsewhere the first byte the loop changes by mistake already changes, or
    ends, the decoding. */
module RewriteMeaning {
  import opened Prelude
  import opened Bytes
  import opened MessagePack
  import opened Rewrite

  // The two byte strings agree up to position i, where a 0xda of the first is 0xd9 in the second.
  ghost predicate Diverge(s: seq<byte>, o: seq<byte>, i: nat) {
    i < |s| && i < |o| && (forall j | 0 <= j < i :: s[j] == o[j]) && s[i] == 0xda && o[i] == 0xd9
  }

  lemma DivergeLater(u: seq<byte>, o: seq<byte>, i: nat, a: seq<byte>, s: seq<byte>)
    requires u == a + s && |a| <= i && Diverge(u, o, i)
    ensures o == a + o[|a|..] && Diverge(s, o[|a|..], i - |a|)
  {
    forall j | 0 <= j < i - |a| ensures s[j] == o[|a|..][j] {
      assert u[|a| + j] == s[j];
    }
  }

  lemma DivergeHere(ps: seq<Piece>, tail: seq<byte>)
    requires ps != [] && ps[0].Lit? && Fires(Source(ps) + tail)
    ensures Diverge(Target(ps), Convert(Source(ps) + tail), 0)
  {
    Unfold(ps);
    ConvertStep(Source(ps) + tail);
  }

  lemma DivergeEarlier(s: seq<byte>, o: seq<byte>, i: nat, a: seq<byte>, u: seq<byte>, p: seq<byte>)
    requires Diverge(s, o, i) && u == a + s && p == a + o
    ensures Diverge(u, p, |a| + i)
  {
  }

  // The loop treats the first piece as marked, unless it converts from a byte to be copied.
  lemma ConvertPiece(ps: seq<Piece>, tail: seq<byte>)
    requires ps != [] && !(ps[0].Lit? && Fires(Source(ps) + tail))
    ensures Convert(Source(ps) + tail) == After(ps[0]) + Convert(Source(ps[1..]) + tail)
  {
    Unfold(ps);
    Associative(Before(ps[0]), Source(ps[1..]), tail);
    ConvertHead(ps[0], Source(ps[1..]) + tail);
  }

  // Where the loop does more than the marked conversions, it first differs from them by writing a
  // str 8 format byte over a byte that should have been copied.
  lemma {:induction false} FirstDifference(ps: seq<Piece>, tail: seq<byte>) returns (i: nat)
    requires !Quiet(ps, tail)
    ensures Diverge(Target(ps), Convert(Source(ps) + tail), i)
    decreases |ps|
  {
    if ps[0].Lit? && Fires(Source(ps) + tail) {
      i := 0;
      DivergeHere(ps, tail);
    } else {
      var j := FirstDifference(ps[1..], tail);
      i := |After(ps[0])| + j;
      Unfold(ps);
      ConvertPiece(ps, tail);
      DivergeEarlier(Target(ps[1..]), Convert(Source(ps[1..]) + tail), j,
                     After(ps[0]), Target(ps), Convert(Source(ps) + tail));
    }
  }

  // A header read from bytes that diverge after its first byte has another length, or the same one
  // and the bytes diverge after it.
  lemma HeaderDiverges(header: seq<byte>, n: nat, lenBytes: nat, inline: nat, body: seq<byte>,
                       o: seq<byte>, i: nat)
    requires |header| == 1 + lenBytes && 1 <= i && Diverge(header + body, o, i)
    requires ParseLength((header + body)[1..], lenBytes, inline) == Got(n, body)
    ensures ParseLength(o[1..], lenBytes, inline).Got? ==>
              var r := ParseLength(o[1..], lenBytes, inline);
              && (i < |header| ==> r.value != n)
              && (|header| <= i ==> r.value == n && o == header + r.rest && Diverge(body, r.rest, i - |header|))
  {
    var s := header + body;
    if |header| <= i {
      DivergeLater(s, o, i, header, body);
      assert s[1..][..lenBytes] == header[1..] == o[1..][..lenBytes];
      assert o[1..][lenBytes..] == o[|header|..];
    } else if lenBytes < |o| {
      var a, b := s[1..][..lenBytes], o[1..][..lenBytes];
      assert a[i - 1] == 0xda && b[i - 1] == 0xd9;
      BigEndianWrites(a);
      BigEndianWrites(b);
    }
  }

  lemma HeaderLengths(n: nat)
    ensures forall format | n < Limit(format) ::
              |RawHeader(format, n)| == 1 + Classify(RawHeader(format, n)[0]).lenBytes
    ensures |ArrHeader(n)| == 1 + Classify(ArrHeader(n)[0]).lenBytes && ArrHeader(n)[0] != 0xda
    ensures |MapHeader(n)| == 1 + Classify(MapHeader(n)[0]).lenBytes && MapHeader(n)[0] != 0xda
  {
  }

  lemma ScalarShows(head: byte, body: seq<byte>, o: seq<byte>, i: nat)
    requires Classify(head) == ScalarHead(|body|) && Diverge([head] + body, o, i)
    ensures Decode(o).Got? ==> MeaningOf(Decode(o).value) != Atom(head, body)
  {
    assert i > 0;
    assert o[0] == ([head] + body)[0] == head;
    if |body| < |o| {
      assert o[1..1 + |body|][i - 1] == 0xd9 && body[i - 1] == 0xda;
    }
  }

  lemma Str8Shows(payload: seq<byte>, o: seq<byte>)
    requires |payload| >= 256 && o != [] && o[0] == 0xd9
    ensures Decode(o).Got? ==> MeaningOf(Decode(o).value) != Text(payload)
  {
    if |o| > 1 {
      BigEndianWrites(o[1..][..1]);
      Widths();
    }
  }

  // Decoding a raw value of known head reads its length and then that many bytes.
  lemma RawDecodes(format: Format, header: seq<byte>, o: seq<byte>)
    requires o != [] && header != [] && o[0] == header[0]
    requires Classify(header[0]).RawHead? && Classify(header[0]).format == format
    ensures var r := ParseLength(o[1..], Classify(header[0]).lenBytes, Classify(header[0]).inline);
            Decode(o).Got? ==> r.Got? && |r.rest| >= r.value && Decode(o).value == Raw(format, r.rest[..r.value])
  {
  }

  lemma RawBodyShows(format: Format, payload: seq<byte>, o: seq<byte>, i: nat)
    requires |payload| < Limit(format) && 1 <= i && Diverge(RawHeader(format, |payload|) + payload, o, i)
    ensures Decode(o).Got? ==> Decode(o).value.Raw? && Decode(o).value.format == format
    ensures Decode(o).Got? ==> Decode(o).value.payload != payload
  {
    var n, header := |payload|, RawHeader(format, |payload|);
    var s := header + payload;
    assert o[0] == s[0] == header[0];
    RawHeaderReads(format, n, payload);
    HeaderLengths(n);
    var lenBytes, inline := Classify(header[0]).lenBytes, Classify(header[0]).inline;
    HeaderDiverges(header, n, lenBytes, inline, payload, o, i);
    RawDecodes(format, header, o);
    if Decode(o).Got? && |header| <= i {
      var t := ParseLength(o[1..], lenBytes, inline).rest;
      assert t[..n][i - |header|] == 0xd9 && payload[i - |header|] == 0xda;
    }
  }

  lemma RawShows(format: Format, payload: seq<byte>, o: seq<byte>, i: nat)
    requires |payload| < Limit(format) && (format == Str16 ==> |payload| >= 256)
    requires Diverge(RawHeader(format, |payload|) + payload, o, i)
    ensures Decode(o).Got? ==> MeaningOf(Decode(o).value) != MeaningOf(Raw(format, payload))
  {
    if i == 0 {
      assert RawHeader(format, |payload|)[0] == 0xda;
      Str8Shows(payload, o);
    } else {
      RawBodyShows(format, payload, o, i);
    }
  }

  function Meanings(vs: seq<Value>): seq<Meaning> {
    MeaningOf(Arr(vs)).elements
  }

  lemma MapMeanings(vs: seq<Value>)
    ensures MeaningOf(Map(vs)).alternating == Meanings(vs) && |Meanings(vs)| == |vs|
  {
  }

  lemma MeaningsCons(v: Value, vs: seq<Value>)
    ensures Meanings([v] + vs) == [MeaningOf(v)] + Meanings(vs)
  {
    var all := [v] + vs;
    forall k | 0 < k < |all| ensures Meanings(all)[k] == Meanings(vs)[k - 1] {
      assert all[k] == vs[k - 1];
    }
  }

  // Bytes that diverge from the encoding of a value without short str 16 strings do not decode to
  // the meaning of that value, whatever follows the point of divergence.
  lemma {:induction false} DivergenceShows(w: Value, o: seq<byte>, i: nat)
    requires WellFormed(w) && Retag(w) == w && Diverge(Encode(w), o, i)
    ensures Decode(o).Got? ==> MeaningOf(Decode(o).value) != MeaningOf(w)
    decreases w, 1
  {
    match w
    case Scalar(head, body) => ScalarShows(head, body, o, i);
    case Raw(format, payload) => RawShows(format, payload, o, i);
    case Arr(items) => ListShows(w, items, ArrHeader(|items|), |items|, o, i);
    case Map(items) => ListShows(w, items, MapHeader(|items| / 2), |items| / 2, o, i);
  }

  // Decoding a list or map of known head reads its length and then its items.
  lemma ListDecodes(header: seq<byte>, o: seq<byte>)
    requires o != [] && header != [] && o[0] == header[0]
    requires Classify(header[0]).ArrHead? || Classify(header[0]).MapHead?
    ensures var head := Classify(header[0]);
            var r := ParseLength(o[1..], head.lenBytes, head.inline);
            Decode(o).Got? ==>
              && r.Got?
              && var all := DecodeAll(if head.ArrHead? then r.value else 2 * r.value, r.rest);
                 all.Got? && Decode(o).value == if head.ArrHead? then Arr(all.value) else Map(all.value)
  {
  }

  ghost predicate IsListHeader(w: Value, items: seq<Value>, header: seq<byte>, n: nat) {
    || (w == Arr(items) && n == |items| && header == ArrHeader(n))
    || (w == Map(items) && 2 * n == |items| && header == MapHeader(n))
  }

  lemma ListHeaderReads(w: Value, items: seq<Value>, header: seq<byte>, n: nat)
    requires WellFormed(w) && IsListHeader(w, items, header, n)
    ensures Encode(w) == header + EncodeAll(items) && header[0] != 0xda
    ensures var head := Classify(header[0]);
            && (if w.Arr? then head.ArrHead? else head.MapHead?)
            && |header| == 1 + head.lenBytes
            && ParseLength(Encode(w)[1..], head.lenBytes, head.inline) == Got(n, EncodeAll(items))
  {
    HeaderLengths(n);
    if w.Arr? {
      ArrHeaderReads(n, EncodeAll(items));
    } else {
      MapHeaderReads(n, EncodeAll(items));
    }
  }

  // Bytes that diverge from the encoding of a list decode to a list of another length, or diverge
  // after the header; t is what the header leaves of them.
  lemma ListHeaderShows(w: Value, items: seq<Value>, header: seq<byte>, n: nat, o: seq<byte>, i: nat)
    returns (t: seq<byte>)
    requires WellFormed(w) && Diverge(Encode(w), o, i) && IsListHeader(w, items, header, n) && Decode(o).Got?
    ensures (w.Arr? && Decode(o).value.Arr?) || (w.Map? && Decode(o).value.Map?)
    ensures var vs := Decode(o).value.items;
            || |vs| != |items|
            || (&& |header| <= i && Diverge(EncodeAll(items), t, i - |header|)
                && DecodeAll(|items|, t).Got? && DecodeAll(|items|, t).value == vs)
  {
    ListHeaderReads(w, items, header, n);
    assert i > 0 && o[0] == Encode(w)[0] == header[0];
    var lenBytes, inline := Classify(header[0]).lenBytes, Classify(header[0]).inline;
    HeaderDiverges(header, n, lenBytes, inline, EncodeAll(items), o, i);
    ListDecodes(header, o);
    var r := ParseLength(o[1..], lenBytes, inline);
    t := r.rest;
    DecodeAllLength(if w.Arr? then r.value else 2 * r.value, t);
  }

  lemma {:induction false} ListShows(w: Value, items: seq<Value>, header: seq<byte>, n: nat, o: seq<byte>, i: nat)
    requires WellFormed(w) && Retag(w) == w && Diverge(Encode(w), o, i) && IsListHeader(w, items, header, n)
    ensures Decode(o).Got? ==> MeaningOf(Decode(o).value) != MeaningOf(w)
    decreases items, 1
  {
    if Decode(o).Got? {
      var t := ListHeaderShows(w, items, header, n, o, i);
      var vs := Decode(o).value.items;
      if |vs| == |items| {
        AllRetagged(w);
        DivergenceShowsAll(items, t, i - |header|);
      }
      MapMeanings(vs);
      MapMeanings(items);
    }
  }

  lemma AllRetagged(w: Value)
    requires (w.Arr? || w.Map?) && Retag(w) == w
    ensures forall x | x in w.items :: Retag(x) == x
  {
    forall x | x in w.items ensures Retag(x) == x {
      var k :| 0 <= k < |w.items| && w.items[k] == x;
      assert Retag(w).items[k] == Retag(x);
    }
  }

  // The bytes do not decode to as many values as these, meaning the same.
  ghost predicate NotSaid(ws: seq<Value>, o: seq<byte>) {
    DecodeAll(|ws|, o).Got? ==> Meanings(DecodeAll(|ws|, o).value) != Meanings(ws)
  }

  lemma FirstNotSaid(ws: seq<Value>, o: seq<byte>)
    requires ws != [] && (Decode(o).Got? ==> MeaningOf(Decode(o).value) != MeaningOf(ws[0]))
    ensures NotSaid(ws, o)
  {
    if DecodeAll(|ws|, o).Got? {
      var v, vs := Decode(o).value, DecodeAll(|ws| - 1, Decode(o).rest).value;
      MeaningsCons(v, vs);
      assert Meanings([v] + vs)[0] == MeaningOf(v) && Meanings(ws)[0] == MeaningOf(ws[0]);
    }
  }

  lemma LaterNotSaid(ws: seq<Value>, o: seq<byte>, rest: seq<byte>)
    requires ws != [] && Decode(o).Got? && Decode(o).rest == rest && NotSaid(ws[1..], rest)
    ensures NotSaid(ws, o)
  {
    if DecodeAll(|ws|, o).Got? {
      var v, vs := Decode(o).value, DecodeAll(|ws[1..]|, rest).value;
      MeaningsCons(v, vs);
      MeaningsCons(ws[0], ws[1..]);
      assert ws == [ws[0]] + ws[1..];
      assert Meanings([v] + vs)[1..] == Meanings(vs) && Meanings(ws)[1..] == Meanings(ws[1..]);
    }
  }

  lemma DivergeInOne(ws: seq<Value>, o: seq<byte>, i: nat)
    requires ws != [] && (forall x | x in ws :: WellFormed(x)) && Diverge(EncodeAll(ws), o, i)
    ensures var n := |Encode(ws[0])|;
            if i < n then Diverge(Encode(ws[0]), o, i)
            else n <= |o| && Decode(o) == Got(ws[0], o[n..]) && Diverge(EncodeAll(ws[1..]), o[n..], i - n)
  {
    var first, later := Encode(ws[0]), EncodeAll(ws[1..]);
    if i < |first| {
      assert forall j | 0 <= j <= i :: first[j] == EncodeAll(ws)[j];
    } else {
      DivergeLater(EncodeAll(ws), o, i, first, later);
      DecodeEncode(ws[0], o[|first|..]);
    }
  }

  lemma {:induction false} DivergenceShowsAll(ws: seq<Value>, o: seq<byte>, i: nat)
    requires (forall x | x in ws :: WellFormed(x) && Retag(x) == x) && Diverge(EncodeAll(ws), o, i)
    ensures NotSaid(ws, o)
    decreases ws, 0
  {
    var n := |Encode(ws[0])|;
    DivergeInOne(ws, o, i);
    if i < n {
      DivergenceShows(ws[0], o, i);
      FirstNotSaid(ws, o);
    } else {
      DivergenceShowsAll(ws[1..], o[n..], i - n);
      LaterNotSaid(ws, o, o[n..]);
    }
  }

  lemma {:induction false} DecodeAllLength(n: nat, s: seq<byte>)
    ensures DecodeAll(n, s).Got? ==> |DecodeAll(n, s).value| == n
    decreases n
  {
    if n > 0 && Decode(s).Got? {
      DecodeAllLength(n - 1, Decode(s).rest);
    }
  }

  lemma {:induction false} RetagTwice(v: Value)
    ensures Retag(Retag(v)) == Retag(v)
  {
    if v.Arr? || v.Map? {
      forall k | 0 <= k < |v.items| ensures Retag(Retag(v.items[k])) == Retag(v.items[k]) {
        RetagTwice(v.items[k]);
      }
      assert Retag(Retag(v)).items == Retag(v).items;
    }
  }

  // What bytes say: the meaning of the value at their front.
  ghost predicate Says(s: seq<byte>, m: Meaning) {
    Decode(s).Got? && MeaningOf(Decode(s).value) == m
  }

  // Main result, for rewritten bytes followed by anything: they say what the action says exactly
  // when the guard of the loop holds at no byte outside the short str 16 strings of the action.
  lemma MeaningKeptBefore(v: Value, rest: seq<byte>)
    requires WellFormed(v)
    ensures Says(Convert(Encode(v)) + rest, MeaningOf(v)) <==> Quiet(Pieces(v), [])
    ensures Quiet(Pieces(v), []) ==> Decode(Convert(Encode(v)) + rest) == Got(Retag(v), rest)
  {
    PiecesAreEncodings(v);
    RewriteExact(v);
    RetagMeaning(v);
    if Quiet(Pieces(v), []) {
      DecodeEncode(Retag(v), rest);
    } else {
      var i := FirstDifference(Pieces(v), []);
      assert Encode(v) + [] == Encode(v);
      var o := Convert(Encode(v));
      RetagTwice(v);
      DivergenceShows(Retag(v), o + rest, i);
    }
  }

  // In particular with nothing behind them; and a value with no stray 0xda byte is always kept.
  lemma RewriteKeepsMeaning(v: Value)
    requires WellFormed(v)
    ensures Says(Convert(Encode(v)), MeaningOf(v)) <==> Quiet(Pieces(v), [])
    ensures Quiet(Pieces(v), []) ==> Decode(Convert(Encode(v))) == Got(Retag(v), [])
    ensures 0xda !in Exposed(v) ==> Says(Convert(Encode(v)), MeaningOf(v))
  {
    MeaningKeptBefore(v, []);
    assert Convert(Encode(v)) + [] == Convert(Encode(v));
    if 0xda !in Exposed(v) {
      CleanIsQuiet(v, []);
    }
  }

  // ---------- an action whose meaning is lost ----------

  function Name(s: string): Value
    requires |s| < 32
  {
    Raw(FixStr, seq(|s|, i requires 0 <= i < |s| => s[i] as int % 256))
  }

  function Number(n: nat): Value {
    Scalar(0xce, BigEndian(n, 4))
  }

  function Cancel(oid: nat): Value {
    Map([Name("a"), Scalar(0, []), Name("o"), Number(oid)])
  }

  // Cancels the order with this OID, written as a uint 32, of asset 0.
  function CancelAction(oid: nat): Value {
    Map([Name("type"), Name("cancel"), Name("cancels"), Arr([Cancel(oid)])])
  }

  lemma {:induction false} EncodeAllEnds(vs: seq<Value>) returns (front: seq<byte>)
    requires vs != [] && forall x | x in vs :: WellFormed(x)
    ensures EncodeAll(vs) == front + Encode(vs[|vs| - 1])
    decreases |vs|
  {
    if |vs| == 1 {
      assert EncodeAll(vs[1..]) == [];
      front := [];
    } else {
      var later := EncodeAllEnds(vs[1..]);
      front := Encode(vs[0]) + later;
      Associative(Encode(vs[0]), later, Encode(vs[|vs| - 1]));
    }
  }

  // The encoding of a list or map ends with that of its last item.
  lemma EncodeEnds(v: Value) returns (front: seq<byte>)
    requires WellFormed(v) && (v.Arr? || v.Map?) && v.items != []
    ensures Encode(v) == front + Encode(v.items[|v.items| - 1])
  {
    front := EncodeAllEnds(v.items);
    front := (if v.Arr? then ArrHeader(|v.items|) else MapHeader(|v.items| / 2)) + front;
  }

  ghost predicate EndsIn(v: Value, w: Value) {
    WellFormed(v) && (v.Arr? || v.Map?) && v.items != [] && v.items[|v.items| - 1] == w
  }

  // The guard of the loop holds somewhere in the bytes.
  ghost predicate Loud(s: seq<byte>) {
    exists i :: 0 <= i < |s| && Fires(s[i..])
  }

  lemma LoudBehind(front: seq<byte>, s: seq<byte>)
    requires Loud(s)
    ensures Loud(front + s)
  {
    var i :| 0 <= i < |s| && Fires(s[i..]);
    assert (front + s)[|front| + i..] == s[i..];
  }

  lemma LoudInLast(v: Value, w: Value)
    requires EndsIn(v, w) && Loud(Encode(w))
    ensures Loud(Encode(v))
  {
    var front := EncodeEnds(v);
    LoudBehind(front, Encode(w));
  }

  lemma LoudNumber()
    ensures Loud(Encode(Number(14286848)))
  {
    BigEndianPair(55808);
    BigEndianPair(218);
    assert BigEndian(14286848, 4) == BigEndian(55808, 3) + [0] == BigEndian(218, 2) + [0] + [0];
    var s := Encode(Number(14286848));
    assert s == [0xce, 0, 0xda, 0, 0];
    assert Fires(s[2..]);
  }

  lemma LoudIsLost(v: Value)
    requires WellFormed(v) && Retag(v) == v && Loud(Encode(v))
    ensures !Says(Convert(Encode(v)), MeaningOf(v))
  {
    UnchangedIffQuiet(Encode(v));
    RewriteExact(v);
    RewriteKeepsMeaning(v);
  }

  lemma CancelShape(oid: nat)
    ensures WellFormed(Cancel(oid)) && Retag(Cancel(oid)) == Cancel(oid) && EndsIn(Cancel(oid), Number(oid))
  {
    var items := Cancel(oid).items;
    assert forall k | 0 <= k < |items| :: WellFormed(items[k]) && Retag(items[k]) == items[k];
    assert Retag(Cancel(oid)).items == items;
  }

  lemma CancelActionShape(oid: nat)
    ensures var v, cancels := CancelAction(oid), Arr([Cancel(oid)]);
            WellFormed(v) && Retag(v) == v && EndsIn(v, cancels) && EndsIn(cancels, Cancel(oid))
  {
    CancelShape(oid);
    var cancels := Arr([Cancel(oid)]);
    assert Retag(cancels).items == cancels.items;
    var items := CancelAction(oid).items;
    assert forall k | 0 <= k < |items| :: WellFormed(items[k]) && Retag(items[k]) == items[k];
    assert Retag(CancelAction(oid)).items == items;
  }

  lemma LoudCancel(oid: nat)
    requires Loud(Encode(Number(oid)))
    ensures WellFormed(CancelAction(oid)) && Loud(Encode(CancelAction(oid)))
  {
    CancelShape(oid);
    CancelActionShape(oid);
    LoudInLast(Cancel(oid), Number(oid));
    LoudInLast(Arr([Cancel(oid)]), Cancel(oid));
    LoudInLast(CancelAction(oid), Arr([Cancel(oid)]));
  }

  // A cancel of order 14286848, that is 0xda0000, has no str 16 string, and no longer says what it
  // said once it is rewritten.
  lemma RewriteCanLoseCancel()
    ensures var v := CancelAction(14286848);
            && WellFormed(v) && Retag(v) == v
            && !Says(Convert(Encode(v)), MeaningOf(v))
  {
    LoudNumber();
    LoudCancel(14286848);
    CancelActionShape(14286848);
    LoudIsLost(CancelAction(14286848));
  }
}
