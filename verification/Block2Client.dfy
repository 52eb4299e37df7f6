/**
 The client: the request path it retains for its follow-ups, the proxy setting, and its response handler's Block2
 follow-ups. Requests come from the command line or from the path table, and only the former go through a proxy by
 Proxy-Uri.
 */
module Block2Client {
  import opened Wrappers
  import opened CStrings
  import opened Slicer
  import opened Block2Server

  const PATH_MAX := 64

  /** How a request ended, as the memo's state tells the handler. */
  datatype Memo = Timeout | Truncated | Answered | Broken

  /** A response: its Block2 option, if any, with the M bit, its payload, and whether it came as an ACK. */
  datatype Response = Response(block: Option<Block2>, more: bool, payload: seq<byte>, ack: bool)

  datatype Method = Ping | Get | Post | Put

  /** Who builds a user's request: the shell command, or the senders that look their path up in a table. */
  datatype Origin = CommandLine | PathTable

  /** How a request names its resource: by Uri-Path options, or whole in the Proxy-Uri option. */
  datatype Address = UriPath(path: string) | ProxyUri(uri: string)

  datatype Request = Request(code: Method, address: Address, block: Option<Block2>, confirmable: bool)

  /** The client's static variables, the payload bytes it printed and the requests it sent. */
  datatype Client = Client(lastPath: string, proxied: bool, reqCount: int, printed: seq<byte>, sent: seq<Request>)

  /** The path a buffer of 64 characters retains: all of it or nothing. */
  function Retained(uri: string, uriLen: nat): string {
    if uriLen < PATH_MAX then uri else ""
  }

  /** How a user's request names `uri`: a proxy changes that for the command line alone. */
  function Addressed(origin: Origin, proxied: bool, uri: string): Address {
    if proxied && origin == CommandLine then ProxyUri(uri) else UriPath(uri)
  }

  /** How a follow-up names the retained text: a proxy changes that for every one of them. */
  function Continued(proxied: bool, path: string): Address {
    if proxied then ProxyUri(path) else UriPath(path)
  }

  /**
   A user's request. `uriLen` is the length the caller computed; a ping has no path and length zero. `ok` says
   that the message fitted its buffer and went out.
   */
  function StartRequest(c: Client, origin: Origin, code: Method, uri: string, uriLen: nat, confirmable: bool, ok: bool)
      : Client
  {
    c.(lastPath := Retained(uri, uriLen),
       reqCount := if ok then (c.reqCount + 1) % 0x1_0000 else c.reqCount,
       sent := if ok then c.sent + [Request(code, Addressed(origin, c.proxied, uri), None, confirmable)] else c.sent)
  }

  /** The block after the one in `r`. */
  function NextBlock(r: Response): Option<Block2>
    requires r.block.Some?
  {
    Some(Block2(r.block.value.num + 1, r.block.value.szx))
  }

  /** The request for the block after the one in `r`, aimed at `path`: a GET, whatever was asked first. */
  function FollowUp(proxied: bool, path: string, r: Response): Request
    requires r.block.Some?
  {
    Request(Get, Continued(proxied, path), NextBlock(r), r.ack)
  }

  /** The handler goes on, unless the first block comes with no path retained. */
  predicate AsksForMore(path: string, r: Response) {
    r.block.Some? && r.more && !(r.block.value.num == 0 && path == "")
  }

  predicate Usable(memo: Memo) {
    memo == Truncated || memo == Answered
  }

  /** `_resp_handler`. */
  function OnResponse(c: Client, memo: Memo, r: Response): Client {
    if !Usable(memo) then c
    else
      c.(printed := c.printed + r.payload,
         sent := if AsksForMore(c.lastPath, r) then c.sent + [FollowUp(c.proxied, c.lastPath, r)] else c.sent)
  }

  /** The client over its static variables: the path lives in a NUL-terminated array. */
  class GcoapClient {
    const lastReqPath: array<char>
    var proxied: bool
    var reqCount: int
    var printed: seq<byte>
    var sent: seq<Request>

    ghost predicate Valid()
      reads this, lastReqPath
    {
      lastReqPath.Length == PATH_MAX && Terminated(lastReqPath[..]) && 0 <= reqCount < 0x1_0000
    }

    ghost function View(): Client
      requires Valid()
      reads this, lastReqPath
    {
      Client(CString(lastReqPath[..]), proxied, reqCount, printed, sent)
    }

    constructor ()
      ensures Valid() && fresh(lastReqPath)
      ensures View() == Client("", false, 0, [], [])
    {
      lastReqPath := new char[64](_ => NUL);
      proxied, reqCount, printed, sent := false, 0, [], [];
      new;
      Holds(lastReqPath[..], "");
    }

    /**
     A request from the command line, whose `uriLen` is the text's length, or from the path table, whose
     lengths count the terminator. A proxied URI was cut to 63 characters while `uriLen` was not.
     */
    method Send(origin: Origin, code: Method, uri: string, uriLen: nat, confirmable: bool, ok: bool)
      requires Valid() && NUL !in uri
      requires uriLen == |uri| || uriLen == |uri| + 1 || uriLen >= PATH_MAX
      modifies this, lastReqPath
      ensures Valid() && View() == StartRequest(old(View()), origin, code, uri, uriLen, confirmable, ok)
      ensures CString(lastReqPath[..]) == (if uriLen <= 63 then uri else "")
    {
      hide CString, StrLen, Terminated;
      var address := UriPath(uri);
      if origin == CommandLine && proxied {
        address := ProxyUri(uri);
      }
      Clear(lastReqPath);
      if uriLen < PATH_MAX {
        CopyIntoCleared(lastReqPath, uri, uriLen);
      }
      if ok {
        sent := sent + [Request(code, address, None, confirmable)];
        reqCount := (reqCount + 1) % 0x1_0000;
      }
    }

    /** The proxy commands: only the setting changes, not the retained path. */
    method SetProxy(on: bool)
      requires Valid()
      modifies this
      ensures Valid() && View() == old(View()).(proxied := on)
    {
      proxied := on;
    }

    /** `_resp_handler`, whose block number is incremented in place before the next request is built. */
    method RespHandler(memo: Memo, r: Response)
      requires Valid()
      modifies this
      ensures Valid() && View() == OnResponse(old(View()), memo, r)
    {
      hide CString, StrLen;
      if memo == Timeout {
        return;
      } else if memo != Truncated && memo != Answered {
        return;
      }
      if |r.payload| > 0 {
        printed := printed + r.payload;
      }
      if r.block.Some? && r.more {
        var block := r.block.value;
        var path := CString(lastReqPath[..]);
        if block.num == 0 && |path| == 0 {
          return;
        }
        block := block.(num := block.num + 1);
        var address := UriPath(path);
        if proxied {
          address := ProxyUri(path);
        }
        sent := sent + [Request(Get, address, Some(block), r.ack)];
      }
    }
  }

  // ---------- runs of the client ----------

  datatype Event =
    | Started(origin: Origin, code: Method, uri: string, uriLen: nat, confirmable: bool, ok: bool)
    | ProxySet(on: bool)
    | Responded(memo: Memo, response: Response)

  function React(c: Client, e: Event): Client {
    match e
    case Started(origin, code, uri, uriLen, confirmable, ok) =>
      StartRequest(c, origin, code, uri, uriLen, confirmable, ok)
    case ProxySet(on) => c.(proxied := on)
    case Responded(memo, response) => OnResponse(c, memo, response)
  }

  function ReactAll(c: Client, es: seq<Event>): Client {
    if es == [] then c else React(ReactAll(c, es[..|es| - 1]), es[|es| - 1])
  }

  /** The path the user's latest request leaves behind. */
  function LatestPath(before: string, es: seq<Event>): string {
    if es == [] then before
    else if es[|es| - 1].Started? then Retained(es[|es| - 1].uri, es[|es| - 1].uriLen)
    else LatestPath(before, es[..|es| - 1])
  }

  /** The proxy setting the user's latest proxy command leaves behind. */
  function LatestProxy(before: bool, es: seq<Event>): bool {
    if es == [] then before
    else if es[|es| - 1].ProxySet? then es[|es| - 1].on
    else LatestProxy(before, es[..|es| - 1])
  }

  function SentByUser(es: seq<Event>): nat {
    if es == [] then 0
    else SentByUser(es[..|es| - 1]) + if es[|es| - 1].Started? && es[|es| - 1].ok then 1 else 0
  }

  /** What one event sends, told from the latest proxy setting and path before it. */
  function SendsOf(proxied: bool, path: string, e: Event): seq<Request> {
    match e
    case Started(origin, code, uri, _, confirmable, ok) =>
      if ok then [Request(code, Addressed(origin, proxied, uri), None, confirmable)] else []
    case ProxySet(_) => []
    case Responded(memo, r) => if Usable(memo) && AsksForMore(path, r) then [FollowUp(proxied, path, r)] else []
  }

  /** All that is sent: each request addressed by the proxy setting and the latest path at its own time. */
  function Sends(proxied: bool, path: string, es: seq<Event>): seq<Request> {
    if es == [] then []
    else
      var front := es[..|es| - 1];
      Sends(proxied, path, front) + SendsOf(LatestProxy(proxied, front), LatestPath(path, front), es[|es| - 1])
  }

  function Prints(es: seq<Event>): seq<byte> {
    if es == [] then []
    else
      var e := es[|es| - 1];
      Prints(es[..|es| - 1]) + if e.Responded? && Usable(e.memo) then e.response.payload else []
  }

  /**
   Over any interleaving of user requests, proxy commands and responses, whichever transfer a response belongs to:
   follow-ups go to the path of the latest request and through the latest proxy setting at that time, `req_count` counts
   the user's requests and no follow-up, modulo 65536, and what is printed is the usable payloads in order of arrival.
   */
  lemma {:induction false} ClientRun(c: Client, es: seq<Event>)
    requires 0 <= c.reqCount < 0x1_0000
    ensures ReactAll(c, es) ==
            Client(LatestPath(c.lastPath, es), LatestProxy(c.proxied, es), (c.reqCount + SentByUser(es)) % 0x1_0000,
                   c.printed + Prints(es), c.sent + Sends(c.proxied, c.lastPath, es))
  {
    hide AsksForMore, FollowUp, Retained, Addressed, Usable;
    if es == [] {
      assert c.printed + [] == c.printed && c.sent + [] == c.sent;
    } else {
      var front, e := es[..|es| - 1], es[|es| - 1];
      ClientRun(c, front);
      Joined(c.printed, Prints(front), if e.Responded? && Usable(e.memo) then e.response.payload else []);
      Joined(c.sent, Sends(c.proxied, c.lastPath, front),
             SendsOf(LatestProxy(c.proxied, front), LatestPath(c.lastPath, front), e));
    }
  }

  /** What each event adds to a run: a request replaces the path, a proxy command the setting, a response neither. */
  lemma EventSnoc(c: Client, es: seq<Event>, e: Event)
    ensures var was, now := ReactAll(c, es), ReactAll(c, es + [e]);
      && (e.ProxySet? ==> now == Client(was.lastPath, e.on, was.reqCount, was.printed, was.sent))
      && (e.Started? ==>
            now == Client(if e.uriLen <= 63 then e.uri else "", was.proxied,
                          if e.ok then (was.reqCount + 1) % 65536 else was.reqCount, was.printed, now.sent))
      && (e.Started? && e.ok ==>
            now.sent == was.sent + [
              Request(e.code, if was.proxied && e.origin == CommandLine then ProxyUri(e.uri) else UriPath(e.uri), None,
                      e.confirmable)])
      && (e.Started? && !e.ok ==> now.sent == was.sent)
      && (e.Responded? ==>
            now == Client(was.lastPath, was.proxied, was.reqCount,
                          if e.memo == Answered || e.memo == Truncated then was.printed + e.response.payload
                          else was.printed, now.sent))
  {
    assert (es + [e])[..|es|] == es;
  }

  /** When a response in a run is followed up, and by which request. */
  lemma ResponseSnoc(c: Client, es: seq<Event>, memo: Memo, r: Response)
    ensures var was, now := ReactAll(c, es), ReactAll(c, es + [Responded(memo, r)]);
      now.sent ==
        if (memo == Answered || memo == Truncated) && r.block.Some? && r.more
           && (r.block.value.num > 0 || was.lastPath != "") then
          was.sent + [Request(Get, if was.proxied then ProxyUri(was.lastPath) else UriPath(was.lastPath),
                              Some(Block2(r.block.value.num + 1, r.block.value.szx)), r.ack)]
        else was.sent
  {
    assert (es + [Responded(memo, r)])[..|es|] == es;
  }

  lemma Joined<T>(a: seq<T>, b: seq<T>, c: seq<T>)
    ensures a + b + c == a + (b + c)
    ensures a + b + [] == a + b
  {
  }

  // ---------- where a follow-up goes ----------

  /** The client after a request for `a` that went out, and then any events at all. */
  function Meanwhile(c: Client, origin: Origin, code: Method, a: string, uriLen: nat, confirmable: bool,
                     es: seq<Event>): Client
  {
    ReactAll(StartRequest(c, origin, code, a, uriLen, confirmable, true), es)
  }

  /** Taking `r`, the client asks for its next block under the very address the request for `a` had. */
  predicate AsksOn(c: Client, r: Response, first: Address)
    requires r.block.Some?
  {
    OnResponse(c, Answered, r).sent == c.sent + [Request(Get, first, NextBlock(r), r.ack)]
  }

  /**
   Why a new request must wait, and what a proxy does: after a request that retained its path and any further events,
   a response with more to come makes the client ask for the next block under the address of that request
   exactly when the latest request retained the same path, and the proxy is set now if and only if the
   request itself went by Proxy-Uri.
   */
  lemma FollowUpAimedIff(c: Client, origin: Origin, code: Method, a: string, uriLen: nat, confirmable: bool,
                         es: seq<Event>, r: Response)
    requires 0 <= c.reqCount < 0x1_0000 && a != "" && uriLen < PATH_MAX
    requires r.block.Some? && r.more
    ensures AsksOn(Meanwhile(c, origin, code, a, uriLen, confirmable, es), r, Addressed(origin, c.proxied, a))
            <==> LatestPath(a, es) == a
                 && LatestProxy(c.proxied, es) == (c.proxied && origin == CommandLine)
  {
    hide Sends, Prints, SentByUser;
    ClientRun(StartRequest(c, origin, code, a, uriLen, confirmable, true), es);
    var c' := Meanwhile(c, origin, code, a, uriLen, confirmable, es);
    var first := Addressed(origin, c.proxied, a);
    if AsksForMore(c'.lastPath, r) {
      assert (c'.sent + [FollowUp(c'.proxied, c'.lastPath, r)])[|c'.sent|] == FollowUp(c'.proxied, c'.lastPath, r);
      assert (c'.sent + [Request(Get, first, NextBlock(r), r.ack)])[|c'.sent|].address == first;
    }
  }

  lemma {:induction false} OnlyResponses(path: string, proxied: bool, es: seq<Event>)
    requires forall i :: 0 <= i < |es| ==> es[i].Responded?
    ensures LatestPath(path, es) == path && LatestProxy(proxied, es) == proxied
  {
    if es != [] {
      OnlyResponses(path, proxied, es[..|es| - 1]);
    }
  }

  /**
   With nothing but responses in between, every follow-up has the address of the request it continues exactly when
   that request was not a path-table one sent while a proxy is set.
   */
  lemma AddressKeptIff(c: Client, origin: Origin, code: Method, a: string, uriLen: nat, confirmable: bool,
                       es: seq<Event>, r: Response)
    requires 0 <= c.reqCount < 0x1_0000 && a != "" && uriLen < PATH_MAX
    requires r.block.Some? && r.more
    requires forall i :: 0 <= i < |es| ==> es[i].Responded?
    ensures AsksOn(Meanwhile(c, origin, code, a, uriLen, confirmable, es), r, Addressed(origin, c.proxied, a))
            <==> !(c.proxied && origin == PathTable)
  {
    hide AsksOn, Meanwhile, Addressed;
    OnlyResponses(a, c.proxied, es);
    FollowUpAimedIff(c, origin, code, a, uriLen, confirmable, es, r);
  }

  /**
   One request and one response in full, for every path and both sides of the buffer's end: 63 characters are retained
   and 64 are not. A first block is then given up; a later one is followed up with no path.
   */
  lemma RequestThenBlock(c: Client, origin: Origin, code: Method, uri: string, uriLen: nat, confirmable: bool,
                         num: nat, szx: nat, more: bool, payload: seq<byte>, ack: bool)
    requires uri != ""
    ensures var started := StartRequest(c, origin, code, uri, uriLen, confirmable, true);
      var c' := OnResponse(started, Answered, Response(Some(Block2(num, szx)), more, payload, ack));
      var path := if uriLen <= 63 then uri else "";
      var asked := if c.proxied && origin == CommandLine then ProxyUri(uri) else UriPath(uri);
      var next := if c.proxied then ProxyUri(path) else UriPath(path);
      && c' == Client(path, c.proxied, (c.reqCount + 1) % 65536, c.printed + payload, c'.sent)
      && c'.sent == c.sent + [Request(code, asked, None, confirmable)] + (
           if more && (uriLen <= 63 || num > 0) then [Request(Get, next, Some(Block2(num + 1, szx)), ack)] else [])
  {
    var started := StartRequest(c, origin, code, uri, uriLen, confirmable, true);
    assert started.sent + [] == started.sent;
  }

  /** The same boundary for a path typed at the shell: what is retained, and whether a first block is continued. */
  lemma PathBoundary(c: Client, uri: string, r: Response)
    requires uri != "" && r.block.Some? && r.block.value.num == 0 && r.more
    ensures var started := StartRequest(c, CommandLine, Get, uri, |uri|, true, true);
      && started.lastPath == (if |uri| <= 63 then uri else "")
      && (OnResponse(started, Answered, r).sent == started.sent <==> |uri| >= 64)
  {
    var started := StartRequest(c, CommandLine, Get, uri, |uri|, true, true);
    var sent := OnResponse(started, Answered, r).sent;
    assert |uri| <= 63 ==> |sent| == |started.sent| + 1;
  }

  const CORE := "/.well-known/core"

  /** A concrete change of address: with a proxy set, the table's request for the core list goes on in Proxy-Uri. */
  lemma CoreUnderProxyExample(c: Client, szx: nat, payload: seq<byte>)
    requires c.proxied
    ensures var started := StartRequest(c, PathTable, Get, CORE, 18, true, true);
      var r := Response(Some(Block2(0, szx)), true, payload, true);
      OnResponse(started, Answered, r).sent
      == c.sent + [Request(Get, UriPath(CORE), None, true), Request(Get, ProxyUri(CORE), Some(Block2(1, szx)), true)]
  {
  }

  /**
   The worst case: when the latest request's path was too long to retain, a response to an earlier transfer is
   given up if it is a first block, and otherwise its next block is asked for with no path at all.
   */
  lemma FollowUpWithoutPath(c: Client, es: seq<Event>, r: Response)
    requires 0 <= c.reqCount < 0x1_0000 && LatestPath(c.lastPath, es) == ""
    requires r.block.Some? && r.more
    ensures var c' := ReactAll(c, es);
      OnResponse(c', Answered, r).sent ==
        if r.block.value.num == 0 then c'.sent
        else c'.sent + [Request(Get, Continued(LatestProxy(c.proxied, es), ""), NextBlock(r), r.ack)]
  {
    hide Sends, Prints, SentByUser;
    ClientRun(c, es);
  }
}
