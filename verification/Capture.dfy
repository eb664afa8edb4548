/** RequestCapture: the log of requests the test server saw, with the metadata requests that clients
    send on start-up left out after a Clear. Requests are handled one at a time. */
module Capture {
  import opened Prelude

  // A request, with the "type" field of its body when the body is JSON.
  datatype Request = Request(verb: string, path: string, upgrade: bool, body: string, kind: Option<string>)

  datatype Captured = Captured(verb: string, path: string, body: string)

  function Record(r: Request): Captured {
    Captured(r.verb, r.path, r.body)
  }

  predicate InfoPost(r: Request) {
    !r.upgrade && r.verb == "POST" && r.path == "/info"
  }

  predicate Metadata(r: Request) {
    r.kind == Some("meta") || r.kind == Some("spotMeta")
  }

  // What the capture knows: its log, whether it is skipping, and how many it may still skip.
  datatype Contents = Contents(log: seq<Captured>, skipMeta: bool, metaLeft: int)

  const NOTHING_YET := Contents([], false, 0)

  function Serve(c: Contents, r: Request): Contents {
    if r.upgrade then c
    else if c.skipMeta && InfoPost(r) then
      if Metadata(r) then Contents(c.log, c.metaLeft - 1 > 0, c.metaLeft - 1)
      else Contents(c.log + [Record(r)], false, c.metaLeft)
    else c.(log := c.log + [Record(r)])
  }

  function Clear(c: Contents): Contents {
    Contents([], true, 2)
  }

  function ServeAll(c: Contents, rs: seq<Request>): Contents
    decreases rs
  {
    if rs == [] then c else ServeAll(Serve(c, rs[0]), rs[1..])
  }

  // The length of the leading run of metadata requests among the /info POSTs.
  function LeadingMetadata(rs: seq<Request>): nat {
    if rs == [] then 0
    else if !InfoPost(rs[0]) then LeadingMetadata(rs[1..])
    else if Metadata(rs[0]) then 1 + LeadingMetadata(rs[1..])
    else 0
  }

  // All requests that are not upgrades, in order, without the first m /info POSTs.
  function WithoutFirstInfo(rs: seq<Request>, m: nat): seq<Captured> {
    if rs == [] then []
    else if rs[0].upgrade then WithoutFirstInfo(rs[1..], m)
    else if InfoPost(rs[0]) && m > 0 then WithoutFirstInfo(rs[1..], m - 1)
    else [Record(rs[0])] + WithoutFirstInfo(rs[1..], m)
  }

  lemma {:induction false} LogWhileSkipping(c: Contents, rs: seq<Request>)
    requires c.skipMeta ==> c.metaLeft > 0
    ensures var skipped := if c.skipMeta then Min(c.metaLeft, LeadingMetadata(rs)) else 0;
            ServeAll(c, rs).log == c.log + WithoutFirstInfo(rs, skipped)
    decreases rs
  {
    if rs == [] {
    } else {
      LogWhileSkipping(Serve(c, rs[0]), rs[1..]);
    }
  }

  // After a Clear the log is every later request but upgrades, in order, without exactly the first
  // min(2, k) /info POSTs, where k is how many metadata requests lead the /info POSTs.
  lemma LogAfterClear(c: Contents, rs: seq<Request>)
    ensures ServeAll(Clear(c), rs).log == WithoutFirstInfo(rs, Min(2, LeadingMetadata(rs)))
  {
    LogWhileSkipping(Clear(c), rs);
  }

  // Before any Clear nothing is left out.
  lemma LogBeforeClear(rs: seq<Request>)
    ensures ServeAll(NOTHING_YET, rs).log == WithoutFirstInfo(rs, 0)
  {
    LogWhileSkipping(NOTHING_YET, rs);
  }

  // With nothing left out, the log has verb, path and body of every request but upgrades, in order.
  lemma {:induction false} LoggedAsSent(rs: seq<Request>)
    requires forall i | 0 <= i < |rs| :: !rs[i].upgrade
    ensures var log := WithoutFirstInfo(rs, 0);
            |log| == |rs| && forall i | 0 <= i < |rs| :: log[i] == Captured(rs[i].verb, rs[i].path, rs[i].body)
  {
    if rs != [] {
      LoggedAsSent(rs[1..]);
    }
  }

  lemma {:induction false} UpgradesUnlogged(earlier: seq<Request>, r: Request, later: seq<Request>, m: nat)
    requires r.upgrade
    ensures WithoutFirstInfo(earlier + [r] + later, m) == WithoutFirstInfo(earlier + later, m)
  {
    var all := earlier + [r] + later;
    if earlier == [] {
      assert all[0] == r && all[1..] == later == earlier + later;
    } else {
      assert all[0] == earlier[0] && all[1..] == earlier[1..] + [r] + later;
      assert (earlier + later)[0] == earlier[0] && (earlier + later)[1..] == earlier[1..] + later;
      UpgradesUnlogged(earlier[1..], r, later, if InfoPost(earlier[0]) && m > 0 then m - 1 else m);
    }
  }

  // A POST to /info that asks for "meta" or "spotMeta", as clients send them on start-up.
  function StartUp(kind: string, body: string): Request {
    Request("POST", "/info", false, body, Some(kind))
  }

  // The first two of these after a Clear are hidden, in either order, and a third is not.
  lemma StartUpIsHidden(c: Contents, a: string, b: string, rs: seq<Request>, x: string, y: string)
    requires a in {"meta", "spotMeta"} && b in {"meta", "spotMeta"}
    ensures ServeAll(Clear(c), [StartUp(a, x), StartUp(b, y)] + rs).log == WithoutFirstInfo(rs, 0)
  {
    var first, second := StartUp(a, x), StartUp(b, y);
    var all := [first, second] + rs;
    assert all[1..] == [second] + rs && ([second] + rs)[1..] == rs;
    LogWhileSkipping(Serve(Serve(Clear(c), first), second), rs);
  }

  // Any other request ends the hiding if it is a POST to /info, and is logged in any case.
  lemma OthersAreLogged(c: Contents, r: Request, rs: seq<Request>)
    requires !r.upgrade && !(r.verb == "POST" && r.path == "/info" && r.kind in {Some("meta"), Some("spotMeta")})
    ensures var log := ServeAll(Clear(c), [r] + rs).log;
            log != [] && log[0] == Captured(r.verb, r.path, r.body)
    ensures r.verb == "POST" && r.path == "/info" ==>
              ServeAll(Clear(c), [r] + rs).log == [Captured(r.verb, r.path, r.body)] + WithoutFirstInfo(rs, 0)
  {
    assert ([r] + rs)[1..] == rs;
    LogWhileSkipping(Serve(Clear(c), r), rs);
  }

  datatype Event = Served(r: Request) | Cleared

  class RequestCapture {
    var requests: array<Captured>  // the backing array; its first `count` elements are the log
    var count: nat
    var skipMeta: bool
    var metaLeft: int

    ghost predicate Valid()
      reads this
    {
      count <= requests.Length
    }

    ghost function Log(): Contents
      requires Valid()
      reads this, requests
    {
      Contents(requests[..count], skipMeta, metaLeft)
    }

    constructor ()
      ensures Valid() && fresh(requests) && Log() == NOTHING_YET
    {
      requests := new Captured[0];
      count, skipMeta, metaLeft := 0, false, 0;
    }

    // append: in place while there is room, into a larger array otherwise.
    method Append(x: Captured)
      requires Valid()
      modifies this`requests, this`count, requests
      ensures Valid() && (requests == old(requests) || fresh(requests))
      ensures requests[..count] == old(requests[..count]) + [x]
    {
      if count == requests.Length {
        var larger := new Captured[2 * count + 1](_ => x);
        var i := 0;
        while i < count
          invariant 0 <= i <= count && count == old(count) && requests == old(requests)
          invariant requests[..] == old(requests[..]) && larger[..i] == requests[..i]
        {
          larger[i] := requests[i];
          i := i + 1;
        }
        requests := larger;
      }
      requests[count] := x;
      count := count + 1;
    }

    // The part of Wrap that runs before the wrapped handler.
    method Handle(r: Request)
      requires Valid()
      modifies this, requests
      ensures Valid() && (requests == old(requests) || fresh(requests))
      ensures Log() == Serve(old(Log()), r)
    {
      if r.upgrade {
        return;
      }
      var shouldCapture := true;
      if skipMeta && r.verb == "POST" && r.path == "/info" {
        if r.kind.Some? {
          if r.kind.value == "meta" || r.kind.value == "spotMeta" {
            shouldCapture := false;
            metaLeft := metaLeft - 1;
            if metaLeft <= 0 {
              skipMeta := false;
            }
          } else {
            skipMeta := false;
          }
        } else {
          skipMeta := false;
        }
      }
      if shouldCapture {
        Append(Record(r));
      }
    }

    method GetRequests() returns (result: array<Captured>)
      requires Valid()
      ensures fresh(result) && result[..] == Log().log
    {
      if count == 0 {
        return new Captured[0];
      }
      var first := requests[0];
      result := new Captured[count](_ => first);
      var i := 0;
      while i < count
        invariant 0 <= i <= count && result.Length == count
        invariant result[..i] == requests[..i]
      {
        result[i] := requests[i];
        i := i + 1;
      }
    }

    // The backing array is kept and will be overwritten.
    method ClearLog()
      requires Valid()
      modifies this
      ensures Valid() && requests == old(requests)
      ensures Log() == Clear(old(Log()))
    {
      count := 0;
      skipMeta := true;
      metaLeft := 2;
    }

    // The slice GetRequests returned is unchanged by every later sequence of requests and clears.
    method SlicesAreStable(events: seq<Event>) returns (slice: array<Captured>)
      requires Valid()
      modifies this, requests
      ensures Valid() && slice[..] == old(Log()).log
    {
      slice := GetRequests();
      var i := 0;
      while i < |events|
        invariant 0 <= i <= |events| && Valid() && fresh(slice) && slice != requests
        invariant requests == old(requests) || fresh(requests)
        invariant slice[..] == old(Log()).log
      {
        match events[i] {
          case Served(r) => Handle(r);
          case Cleared => ClearLog();
        }
        i := i + 1;
      }
    }
  }
}
