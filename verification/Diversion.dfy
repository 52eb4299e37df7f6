/**
 A Block2 transfer while the client goes on being used: the remote end looks at how each request names its resource, and
 other requests, responses and proxy commands come in between. The client keeps one path and one proxy setting for all
 transfers, so what happens meanwhile can divert a running one.
 */
module Diversion {
  import opened Wrappers
  import opened Slicer
  import opened Block2Server
  import opened Block2Client
  import opened Transfer

  /** The bodies the remote end of our transfer has; a Uri-Path and a Proxy-Uri of the same text are different names. */
  type Site = Address -> Option<seq<byte>>

  /** A response to our transfer that arrives or does not, or anything else that happens to the client. */
  datatype Happening = Ours(arrives: bool) | Theirs(event: Event)

  /** The client, our transfer's unanswered request, the addresses of its answered ones and the bytes they printed. */
  datatype Lineage = Lineage(client: Client, pending: Option<Request>, served: seq<Address>, got: seq<byte>)

  /** An unknown address is answered without a Block2 option and without content. */
  function AnswerOf(site: Site, szx: nat, request: Request): Response {
    match site(request.address)
    case None => Response(None, false, [], request.confirmable)
    case Some(body) =>
      var reply := Serve(body, request.block, szx);
      Response(Some(reply.block), reply.more, reply.payload, request.confirmable)
  }

  function Happen(site: Site, szx: nat, s: Lineage, h: Happening): Lineage {
    match h
    case Theirs(e) => s.(client := React(s.client, e))
    case Ours(arrives) =>
      if s.pending == None then s
      else if !arrives then
        s.(client := OnResponse(s.client, Timeout, AnswerOf(site, szx, s.pending.value)), pending := None)
      else
        var r := AnswerOf(site, szx, s.pending.value);
        Lineage(OnResponse(s.client, Answered, r),
                if AsksForMore(s.client.lastPath, r)
                then Some(FollowUp(s.client.proxied, s.client.lastPath, r)) else None,
                s.served + [s.pending.value.address],
                s.got + r.payload)
  }

  /** Our GET has just gone out. */
  function Launch(c: Client, q: Ask): Lineage {
    Lineage(StartRequest(c, q.origin, Get, q.uri, q.uriLen, q.confirmable, true),
            Some(Request(Get, Addressed(q.origin, c.proxied, q.uri), None, q.confirmable)), [], [])
  }

  function RunAll(site: Site, szx: nat, start: Lineage, hs: seq<Happening>): Lineage {
    if hs == [] then start else Happen(site, szx, RunAll(site, szx, start, hs[..|hs| - 1]), hs[|hs| - 1])
  }

  // ---------- what a run should name, told from what happens alone ----------

  /** What happens to the client besides our transfer. */
  function TheirEvents(hs: seq<Happening>): seq<Event> {
    if hs == [] then []
    else TheirEvents(hs[..|hs| - 1]) + match hs[|hs| - 1] case Theirs(e) => [e] case Ours(_) => []
  }

  /** One of our responses was lost. */
  predicate HasLoss(hs: seq<Happening>) {
    hs != [] && (hs[|hs| - 1] == Ours(false) || HasLoss(hs[..|hs| - 1]))
  }

  /** How many of our responses arrive before one is lost. */
  function Arrivals(hs: seq<Happening>): nat {
    if hs == [] then 0
    else Arrivals(hs[..|hs| - 1]) + if hs[|hs| - 1] == Ours(true) && !HasLoss(hs[..|hs| - 1]) then 1 else 0
  }

  /**
   How the first request names its resource, and, for each response of ours that arrives, how a follow-up sent
   just then would: the latest path through the latest proxy setting.
   */
  function Names(c: Client, q: Ask, hs: seq<Happening>): (names: seq<Address>)
    ensures |names| == Arrivals(hs) + 1
  {
    if hs == [] then [Addressed(q.origin, c.proxied, q.uri)]
    else
      var front := hs[..|hs| - 1];
      if hs[|hs| - 1] == Ours(true) && !HasLoss(front)
      then Names(c, q, front) + [LatestName(c, q, front)]
      else Names(c, q, front)
  }

  function LatestName(c: Client, q: Ask, hs: seq<Happening>): Address {
    Continued(LatestProxy(c.proxied, TheirEvents(hs)), LatestPath(Retained(q.uri, q.uriLen), TheirEvents(hs)))
  }

  /** What request `k` gets under `name`. */
  function Piece(site: Site, szx: nat, name: Address, k: nat): seq<byte> {
    match site(name)
    case None => []
    case Some(body) => Block(body, BlockSize(szx), k)
  }

  /** The pieces of the addresses in turn. */
  function Pieces(site: Site, szx: nat, names: seq<Address>): seq<byte> {
    if names == [] then []
    else Pieces(site, szx, names[..|names| - 1]) + Piece(site, szx, names[|names| - 1], |names| - 1)
  }

  /** More is left under `name` after its block `k`. */
  predicate GoesOn(site: Site, szx: nat, name: Address, k: nat) {
    site(name).Some? && |site(name).value| > k * BlockSize(szx) + BlockSize(szx)
  }

  /** Answer `k` is followed by another request: more is left, and it is not a first block without a path. */
  predicate Continues(site: Site, szx: nat, names: seq<Address>, k: nat)
    requires k + 1 < |names|
  {
    GoesOn(site, szx, names[k], k) && !(k == 0 && (names[1] == UriPath("") || names[1] == ProxyUri("")))
  }

  /** How many of the names are asked for and answered: those before the first answer that nothing follows. */
  function Reached(site: Site, szx: nat, names: seq<Address>): (m: nat)
    requires names != []
    ensures m < |names| && (|names| > 1 ==> m > 0)
    ensures forall k :: 0 <= k < m - 1 ==> Continues(site, szx, names, k)
    ensures m < |names| - 1 ==> !Continues(site, szx, names, m - 1)
  {
    if |names| == 1 then 0
    else
      var n := |names| - 1;
      var m := Reached(site, szx, names[..n]);
      assert forall k :: 0 <= k < m - 1 ==> Continues(site, szx, names, k) == Continues(site, szx, names[..n], k);
      if m == n - 1 && (n == 1 || Continues(site, szx, names, n - 2)) then n else m
  }

  /** The request that waits for its answer, if there is one. */
  function Waiting(site: Site, szx: nat, c: Client, q: Ask, hs: seq<Happening>): Option<Request> {
    var names := Names(c, q, hs);
    var n := |names| - 1;
    if HasLoss(hs) || Reached(site, szx, names) < n then None
    else if n == 0 then Some(Request(Get, names[0], None, q.confirmable))
    else if Continues(site, szx, names, n - 1) then Some(Request(Get, names[n], Some(Block2(n, szx)), q.confirmable))
    else None
  }

  // ---------- every run does it ----------

  lemma PiecesSnoc(site: Site, szx: nat, names: seq<Address>, name: Address)
    ensures Pieces(site, szx, names + [name]) == Pieces(site, szx, names) + Piece(site, szx, name, |names|)
  {
    hide Piece;
    assert (names + [name])[..|names|] == names;
  }

  /** The answer to request `k` is block `k` of what it names, with M set exactly when more is left there. */
  lemma AnswerIsPiece(site: Site, szx: nat, request: Request, k: nat)
    requires request.block == if k == 0 then None else Some(Block2(k, szx))
    ensures var r := AnswerOf(site, szx, request);
      && r.payload == Piece(site, szx, request.address, k)
      && (r.more <==> GoesOn(site, szx, request.address, k))
      && (r.more ==> r.block == Some(Block2(k, szx)))
      && r.ack == request.confirmable
  {
    hide Window, BlockSize;
  }

  lemma LatestSnoc(path: string, proxied: bool, es: seq<Event>, e: Event)
    ensures LatestPath(path, es + [e]) == if e.Started? then Retained(e.uri, e.uriLen) else LatestPath(path, es)
    ensures LatestProxy(proxied, es + [e]) == if e.ProxySet? then e.on else LatestProxy(proxied, es)
  {
    assert (es + [e])[..|es|] == es;
  }

  /** Only a request that starts changes the retained path, and only a proxy command the setting. */
  lemma PathStep(site: Site, szx: nat, s: Lineage, h: Happening)
    ensures var client := Happen(site, szx, s, h).client;
      && client.proxied == (if h.Theirs? && h.event.ProxySet? then h.event.on else s.client.proxied)
      && client.lastPath == (if h.Theirs? && h.event.Started? then Retained(h.event.uri, h.event.uriLen)
                             else s.client.lastPath)
  {
    hide AnswerOf, Retained, AsksForMore, FollowUp;
  }

  lemma {:induction false} PathDuring(site: Site, szx: nat, c: Client, q: Ask, hs: seq<Happening>)
    ensures var client := RunAll(site, szx, Launch(c, q), hs).client;
      && client.lastPath == LatestPath(Retained(q.uri, q.uriLen), TheirEvents(hs))
      && client.proxied == LatestProxy(c.proxied, TheirEvents(hs))
  {
    hide Happen, Retained;
    if hs != [] {
      hide LatestPath, LatestProxy;
      var front, h := hs[..|hs| - 1], hs[|hs| - 1];
      PathDuring(site, szx, c, q, front);
      PathStep(site, szx, RunAll(site, szx, Launch(c, q), front), h);
      if h.Theirs? {
        LatestSnoc(Retained(q.uri, q.uriLen), c.proxied, TheirEvents(front), h.event);
      } else {
        assert TheirEvents(front) + [] == TheirEvents(front);
      }
    }
  }

  /** What a run has served, got and still waits for is told by the names alone. */
  ghost predicate AsNamed(site: Site, szx: nat, c: Client, q: Ask, hs: seq<Happening>, s: Lineage) {
    var names := Names(c, q, hs);
    && s.served == names[..Reached(site, szx, names)]
    && s.got == Pieces(site, szx, s.served)
    && s.pending == Waiting(site, szx, c, q, hs)
  }

  lemma ReachedSnoc(site: Site, szx: nat, names: seq<Address>, name: Address)
    requires names != []
    ensures var n := |names|;
      Reached(site, szx, names + [name]) ==
        if Reached(site, szx, names) == n - 1 && (n == 1 || Continues(site, szx, names, n - 2)) then n
        else Reached(site, szx, names)
  {
    hide GoesOn;
    assert (names + [name])[..|names|] == names;
  }

  /** An answer of ours that arrives while the transfer waits for it. */
  lemma ArrivalStep(site: Site, szx: nat, c: Client, q: Ask, hs: seq<Happening>, s: Lineage)
    requires AsNamed(site, szx, c, q, hs, s) && s.pending.Some?
    requires Continued(s.client.proxied, s.client.lastPath) == LatestName(c, q, hs)
    ensures AsNamed(site, szx, c, q, hs + [Ours(true)], Happen(site, szx, s, Ours(true)))
  {
    hide Piece, Pieces, GoesOn, AnswerOf, Reached, LatestName, OnResponse;
    var names, all := Names(c, q, hs), hs + [Ours(true)];
    var n := |names| - 1;
    assert all[..|hs|] == hs;
    assert Names(c, q, all) == names + [LatestName(c, q, hs)];
    assert s.pending.value.address == names[n];
    ReachedSnoc(site, szx, names, LatestName(c, q, hs));
    AnswerIsPiece(site, szx, s.pending.value, n);
    PiecesSnoc(site, szx, s.served, names[n]);
    assert s.served + [names[n]] == names;
  }

  /** Anything but an awaited answer: nothing is served or got, and a loss ends the waiting. */
  lemma OtherStep(site: Site, szx: nat, c: Client, q: Ask, hs: seq<Happening>, s: Lineage, h: Happening)
    requires AsNamed(site, szx, c, q, hs, s) && (h == Ours(true) ==> s.pending == None)
    ensures AsNamed(site, szx, c, q, hs + [h], Happen(site, szx, s, h))
  {
    hide Piece, Pieces, GoesOn, AnswerOf, Reached, LatestName, OnResponse, React;
    var names, all := Names(c, q, hs), hs + [h];
    assert all[..|hs|] == hs;
    if h == Ours(true) && !HasLoss(hs) {
      ReachedSnoc(site, szx, names, LatestName(c, q, hs));
      assert Names(c, q, all) == names + [LatestName(c, q, hs)];
      assert (names + [LatestName(c, q, hs)])[..Reached(site, szx, names)] == names[..Reached(site, szx, names)];
    } else {
      assert Names(c, q, all) == names;
    }
  }

  /** Whole-run law, for everything that can happen: which addresses are served, what is got and what still waits. */
  lemma {:induction false} RunAsNamed(site: Site, szx: nat, c: Client, q: Ask, hs: seq<Happening>)
    ensures AsNamed(site, szx, c, q, hs, RunAll(site, szx, Launch(c, q), hs))
  {
    hide Happen, AsNamed, Launch, Continued, LatestPath, LatestProxy;
    if hs == [] {
      NamedAtFirst(site, szx, c, q);
    } else {
      var front, h := hs[..|hs| - 1], hs[|hs| - 1];
      var s := RunAll(site, szx, Launch(c, q), front);
      RunAsNamed(site, szx, c, q, front);
      assert front + [h] == hs;
      if h == Ours(true) && s.pending.Some? {
        PathDuring(site, szx, c, q, front);
        ArrivalStep(site, szx, c, q, front, s);
      } else {
        OtherStep(site, szx, c, q, front, s, h);
      }
    }
  }

  lemma NamedAtFirst(site: Site, szx: nat, c: Client, q: Ask)
    ensures AsNamed(site, szx, c, q, [], Launch(c, q))
  {
  }

  // ---------- single happenings ----------

  /** A loss is one of our responses that does not arrive, anywhere in the run. */
  lemma {:induction false} HasLossIff(hs: seq<Happening>)
    ensures HasLoss(hs) <==> exists i :: 0 <= i < |hs| && hs[i] == Ours(false)
  {
    if hs != [] {
      var front := hs[..|hs| - 1];
      HasLossIff(front);
      assert forall i :: 0 <= i < |front| ==> front[i] == hs[i];
    }
  }

  /** Only a response of ours with no loss before it counts as an arrival. */
  lemma ArrivalsSnoc(hs: seq<Happening>, h: Happening)
    ensures Arrivals([]) == 0
    ensures h == Ours(true) && (forall i :: 0 <= i < |hs| ==> hs[i] != Ours(false)) ==>
              Arrivals(hs + [h]) == Arrivals(hs) + 1
    ensures h != Ours(true) || (exists i :: 0 <= i < |hs| && hs[i] == Ours(false)) ==>
              Arrivals(hs + [h]) == Arrivals(hs)
  {
    HasLossIff(hs);
    assert (hs + [h])[..|hs|] == hs;
  }

  /** Whatever else happens goes to the client alone; a loss ends our transfer and changes nothing else. */
  lemma OthersSnoc(site: Site, szx: nat, s: Lineage, hs: seq<Happening>, e: Event)
    ensures var was := RunAll(site, szx, s, hs);
      && RunAll(site, szx, s, hs + [Theirs(e)]) == Lineage(React(was.client, e), was.pending, was.served, was.got)
      && RunAll(site, szx, s, hs + [Ours(false)]) == Lineage(was.client, None, was.served, was.got)
      && (was.pending == None ==> RunAll(site, szx, s, hs + [Ours(true)]) == was)
  {
    hide AnswerOf, React;
    RunSnoc(site, szx, s, hs, Theirs(e));
    RunSnoc(site, szx, s, hs, Ours(false));
    RunSnoc(site, szx, s, hs, Ours(true));
  }

  /** What a name has at block `k`: the body's bytes from there on, as many as a block holds, or nothing. */
  lemma PieceBytes(site: Site, szx: nat, name: Address, k: nat)
    ensures var size := BlockSize(szx);
      Piece(site, szx, name, k) ==
        if site(name) == None || |site(name).value| <= k * size then []
        else if |site(name).value| <= k * size + size then site(name).value[k * size..]
        else site(name).value[k * size..k * size + size]
  {
    hide BlockSize, Window;
    if site(name).Some? {
      WindowBytes(site(name).value, k * BlockSize(szx), k * BlockSize(szx) + BlockSize(szx));
    }
  }

  // ---------- the exact condition ----------

  lemma FullPiece(site: Site, szx: nat, name: Address, k: nat)
    ensures |Piece(site, szx, name, k)| <= BlockSize(szx)
    ensures GoesOn(site, szx, name, k) ==> |Piece(site, szx, name, k)| == BlockSize(szx)
  {
    hide BlockSize;
  }

  lemma {:induction false} PiecesMatchIff(site: Site, szx: nat, names: seq<Address>, body: seq<byte>)
    requires forall k :: 0 <= k < |names| - 1 ==> GoesOn(site, szx, names[k], k)
    ensures var size := BlockSize(szx);
      Pieces(site, szx, names) == Window(body, 0, |names| * size)
      <==> forall k :: 0 <= k < |names| ==> Piece(site, szx, names[k], k) == Block(body, size, k)
    ensures names != [] && GoesOn(site, szx, names[|names| - 1], |names| - 1) ==>
              |Pieces(site, szx, names)| == |names| * BlockSize(szx)
  {
    hide Piece, GoesOn, Window, Block, BlockSize;
    var n, size := |names|, BlockSize(szx);
    if n == 0 {
      NoWindow(body);
    } else {
      var front, last := names[..n - 1], Piece(site, szx, names[n - 1], n - 1);
      PiecesMatchIff(site, szx, front, body);
      FullPiece(site, szx, names[n - 1], n - 1);
      assert (n - 1) * size + size == n * size;
      var before := Pieces(site, szx, front);
      assert |before| == (n - 1) * size by {
        if n == 1 {
          assert 0 * size == 0;
        } else {
          assert GoesOn(site, szx, front[n - 2], n - 2);
        }
      }
      OneMorePiece(body, size, n - 1, before, last);
    }
  }

  /** Bytes of full length match one more block of a body exactly when they match what goes before it. */
  lemma OneMorePiece(body: seq<byte>, size: nat, k: nat, before: seq<byte>, last: seq<byte>)
    requires |before| == k * size
    ensures before + last == Window(body, 0, (k + 1) * size)
            <==> before == Window(body, 0, k * size) && last == Block(body, size, k)
  {
    hide Window, Block;
    assert (k + 1) * size == k * size + size;
    BlockExtends(body, size, k);
    WindowSize(body, k * size);
    WindowSize(body, (k + 1) * size);
    if |body| >= k * size {
      SplitEqual(before, last, Window(body, 0, k * size), Block(body, size, k));
    }
  }

  lemma WindowSize(body: seq<byte>, n: nat)
    ensures |Window(body, 0, n)| == Min(n, |body|)
  {
  }

  lemma SplitEqual(a: seq<byte>, b: seq<byte>, c: seq<byte>, d: seq<byte>)
    requires |a| == |c|
    ensures a + b == c + d <==> a == c && b == d
  {
    if a + b == c + d {
      assert a == (a + b)[..|a|] && c == (c + d)[..|a|];
      assert b == (a + b)[|a|..] && d == (c + d)[|a|..];
    }
  }

  lemma {:induction false} GotAtMost(site: Site, szx: nat, names: seq<Address>)
    ensures |Pieces(site, szx, names)| <= |names| * BlockSize(szx)
  {
    hide Piece, BlockSize;
    if names != [] {
      var n := |names| - 1;
      GotAtMost(site, szx, names[..n]);
      FullPiece(site, szx, names[n], n);
      assert (n + 1) * BlockSize(szx) == n * BlockSize(szx) + BlockSize(szx);
    }
  }

  /**
   Our transfer among anything else, told from what happens alone: the bytes its answers print are a given body
   exactly when each name reached has that body's block there, and those blocks reach the body's end.
   */
  lemma GotBodyIff(site: Site, szx: nat, c: Client, q: Ask, hs: seq<Happening>, body: seq<byte>)
    ensures var names, size := Names(c, q, hs), BlockSize(szx);
      var m := Reached(site, szx, names);
      RunAll(site, szx, Launch(c, q), hs).got == body
      <==> |body| <= m * size && forall k :: 0 <= k < m ==> Piece(site, szx, names[k], k) == Block(body, size, k)
  {
    hide Piece, GoesOn, Window, Block, BlockSize, RunAll, Launch, Reached, Names;
    var names, size := Names(c, q, hs), BlockSize(szx);
    var m := Reached(site, szx, names);
    RunAsNamed(site, szx, c, q, hs);
    var served := names[..m];
    forall k | 0 <= k < |served| - 1 ensures GoesOn(site, szx, served[k], k) {
      assert Continues(site, szx, names, k);
    }
    PiecesMatchIff(site, szx, served, body);
    WindowLength(body, m * size);
    GotAtMost(site, szx, served);
  }

  // ---------- the caller's obligation ----------

  /** No request that starts in between retains another path, and no proxy command changes the setting. */
  predicate Undisturbed(c: Client, q: Ask, hs: seq<Happening>) {
    forall i :: 0 <= i < |hs| && hs[i].Theirs? ==>
      && (hs[i].event.Started? ==> Retained(hs[i].event.uri, hs[i].event.uriLen) == q.uri)
      && (hs[i].event.ProxySet? ==> hs[i].event.on == c.proxied)
  }

  lemma {:induction false} UndisturbedLatest(c: Client, q: Ask, hs: seq<Happening>)
    requires Undisturbed(c, q, hs) && Retained(q.uri, q.uriLen) == q.uri
    ensures LatestName(c, q, hs) == Continued(c.proxied, q.uri)
    ensures LatestPath(Retained(q.uri, q.uriLen), TheirEvents(hs)) == q.uri
    ensures LatestProxy(c.proxied, TheirEvents(hs)) == c.proxied
  {
    hide Retained;
    if hs != [] {
      hide LatestPath, LatestProxy;
      var front, h := hs[..|hs| - 1], hs[|hs| - 1];
      UndisturbedLatest(c, q, front);
      if h.Theirs? {
        LatestSnoc(Retained(q.uri, q.uriLen), c.proxied, TheirEvents(front), h.event);
      } else {
        assert TheirEvents(front) + [] == TheirEvents(front);
      }
    }
  }

  lemma {:induction false} UndisturbedNames(c: Client, q: Ask, hs: seq<Happening>)
    requires Undisturbed(c, q, hs) && Retained(q.uri, q.uriLen) == q.uri
    ensures var names := Names(c, q, hs);
      && names[0] == Addressed(q.origin, c.proxied, q.uri)
      && forall k :: 0 < k < |names| ==> names[k] == Continued(c.proxied, q.uri)
  {
    hide Retained, LatestName, Addressed, Continued;
    if hs != [] {
      UndisturbedNames(c, q, hs[..|hs| - 1]);
      UndisturbedLatest(c, q, hs[..|hs| - 1]);
    }
  }

  /** With one name throughout, as many answers are used as arrive, up to the number of blocks. */
  lemma {:induction false} SteadyReach(site: Site, szx: nat, names: seq<Address>, name: Address, body: seq<byte>)
    requires names != [] && (forall k :: 0 <= k < |names| ==> names[k] == name)
    requires name != UriPath("") && name != ProxyUri("") && site(name) == Some(body)
    ensures Reached(site, szx, names) == Min(|names| - 1, Blocks(|body|, BlockSize(szx)))
  {
    hide Blocks, BlockSize;
    var n := |names| - 1;
    if n > 0 {
      SteadyReach(site, szx, names[..n], name, body);
      if n - 1 > 0 && n - 2 < Blocks(|body|, BlockSize(szx)) {
        MoreIff(|body|, BlockSize(szx), n - 2);
      }
    }
  }

  lemma {:induction false} SteadyPieces(site: Site, szx: nat, names: seq<Address>, name: Address, body: seq<byte>)
    requires (forall k :: 0 <= k < |names| ==> names[k] == name) && site(name) == Some(body)
    ensures Pieces(site, szx, names) == Window(body, 0, |names| * BlockSize(szx))
  {
    hide Window, Block, BlockSize;
    if names == [] {
      NoWindow(body);
    } else {
      var n := |names| - 1;
      SteadyPieces(site, szx, names[..n], name, body);
      BlockExtends(body, BlockSize(szx), n);
    }
  }

  /**
   The obligation is enough: undisturbed, and with its address kept, the transfer has at every moment printed as many
   whole blocks as answers arrived before a loss, up to the body's end, and waits exactly until then.
   */
  lemma UndisturbedTransfer(site: Site, szx: nat, c: Client, q: Ask, hs: seq<Happening>, body: seq<byte>)
    requires Undisturbed(c, q, hs) && q.uri != "" && Retained(q.uri, q.uriLen) == q.uri
    requires !(c.proxied && q.origin == PathTable)
    requires site(Addressed(q.origin, c.proxied, q.uri)) == Some(body)
    ensures var s, blocks := RunAll(site, szx, Launch(c, q), hs), Blocks(|body|, BlockSize(szx));
      && s.got == Window(body, 0, Min(Arrivals(hs), blocks) * BlockSize(szx))
      && (s.pending.Some? <==> !HasLoss(hs) && Arrivals(hs) < blocks)
      && (Arrivals(hs) >= blocks ==> s.got == body)
  {
    hide Window, Block, BlockSize, Blocks, RunAll, Launch, Undisturbed, Retained, Names, Reached, Pieces;
    var names, name, size := Names(c, q, hs), Addressed(q.origin, c.proxied, q.uri), BlockSize(szx);
    RunAsNamed(site, szx, c, q, hs);
    UndisturbedNames(c, q, hs);
    SteadyReach(site, szx, names, name, body);
    var n, blocks := Arrivals(hs), Blocks(|body|, size);
    var m := Min(n, blocks);
    SteadyPieces(site, szx, names[..m], name, body);
    if n > 0 && n - 1 < blocks {
      MoreIff(|body|, size, n - 1);
    }
    EnoughBlocks(body, size);
  }

  lemma EnoughBlocks(body: seq<byte>, size: nat)
    requires size > 0
    ensures Window(body, 0, Blocks(|body|, size) * size) == body
  {
  }

  /**
   The two handlers together: fetching the version text under its path, or under a full URI through a proxy that
   resolves it, prints it once as many answers have arrived as it has blocks, for any version, board and MCU names.
   */
  lemma VersionFetched(site: Site, szx: nat, c: Client, q: Ask, hs: seq<Happening>,
                       version: seq<byte>, board: seq<byte>, mcu: seq<byte>)
    requires if c.proxied then q.origin == CommandLine && q.uri != "" else q.uri == "/riot/ver"
    requires q.uriLen < PATH_MAX && Undisturbed(c, q, hs)
    requires site(Addressed(q.origin, c.proxied, q.uri)) == Some(VersionBody(version, board, mcu))
    requires Arrivals(hs) >= Blocks(|VersionBody(version, board, mcu)|, BlockSize(szx))
    ensures var s := RunAll(site, szx, Launch(c, q), hs);
      s.pending == None && s.got == VersionBody(version, board, mcu)
  {
    hide VersionBody, Window, BlockSize, Blocks, RunAll, Launch, Undisturbed;
    UndisturbedTransfer(site, szx, c, q, hs, VersionBody(version, board, mcu));
  }

  /**
   The proxied table request: undisturbed, its first block is asked for by path, and if the remote end resolves no
   Proxy-Uri that is just a path, the answers print the body exactly when one block was enough.
   */
  lemma ProxiedTableTransfer(site: Site, szx: nat, c: Client, q: Ask, hs: seq<Happening>, body: seq<byte>)
    requires Undisturbed(c, q, hs) && q.uri != "" && Retained(q.uri, q.uriLen) == q.uri
    requires c.proxied && q.origin == PathTable && Arrivals(hs) > 0
    requires site(UriPath(q.uri)) == Some(body) && site(ProxyUri(q.uri)) == None
    ensures RunAll(site, szx, Launch(c, q), hs).got == body <==> |body| <= BlockSize(szx)
  {
    hide Window, BlockSize, RunAll, Launch, Undisturbed, Retained, Names, Reached, Pieces;
    var names, size := Names(c, q, hs), BlockSize(szx);
    var m := Reached(site, szx, names);
    UndisturbedNames(c, q, hs);
    GotBodyIff(site, szx, c, q, hs, body);
    assert Piece(site, szx, names[0], 0) == Block(body, size, 0);
    assert 1 * size == size;
    if m > 1 {
      assert Continues(site, szx, names, 0);
      SecondBlock(body, size);
      assert Piece(site, szx, names[1], 1) == [];
    }
  }

  lemma SecondBlock(body: seq<byte>, size: nat)
    requires |body| > size > 0
    ensures Block(body, size, 1) != []
  {
    assert 1 * size == size;
  }

  const BOARD_PATH := "/riot/board"

  /**
   A concrete diverted transfer: the core list is asked for, and then the board before the first answer is in. The list
   goes on as the board, and of its seventeen bytes sixteen are printed.
   */
  lemma DivertedExample(site: Site, c: Client)
    requires !c.proxied
    requires site(UriPath(CORE)) == Some(SEVENTEEN) && site(UriPath(BOARD_PATH)) == Some([9, 9, 9, 9])
    ensures var board := Theirs(Started(PathTable, Get, BOARD_PATH, 12, true, true));
      var s := RunAll(site, 0, Launch(c, Ask(PathTable, CORE, 18, true)), [board, Ours(true), Ours(true)]);
      && s.served == [UriPath(CORE), UriPath(BOARD_PATH)]
      && s.pending == None && s.got == SEVENTEEN[..16]
  {
    var q, board := Ask(PathTable, CORE, 18, true), Theirs(Started(PathTable, Get, BOARD_PATH, 12, true, true));
    var s0 := Launch(c, q);
    var s1 := Happen(site, 0, s0, board);
    FirstAnswer(site, s1);
    var s2 := Happen(site, 0, s1, Ours(true));
    SecondAnswer(site, s2);
    hide Happen, Launch;
    RunThree(site, 0, s0, board, Ours(true), Ours(true));
    assert SEVENTEEN[..16] + [] == SEVENTEEN[..16];
  }

  lemma RunThree(site: Site, szx: nat, s: Lineage, h0: Happening, h1: Happening, h2: Happening)
    ensures RunAll(site, szx, s, [h0, h1, h2]) == Happen(site, szx, Happen(site, szx, Happen(site, szx, s, h0), h1), h2)
  {
    hide Happen;
    RunSnoc(site, szx, s, [], h0);
    RunSnoc(site, szx, s, [h0], h1);
    RunSnoc(site, szx, s, [h0, h1], h2);
    assert [] + [h0] == [h0] && [h0] + [h1] == [h0, h1] && [h0, h1] + [h2] == [h0, h1, h2];
  }

  lemma RunSnoc(site: Site, szx: nat, s: Lineage, hs: seq<Happening>, h: Happening)
    ensures RunAll(site, szx, s, hs + [h]) == Happen(site, szx, RunAll(site, szx, s, hs), h)
  {
    hide Happen;
    assert (hs + [h])[..|hs|] == hs;
  }

  lemma FirstAnswer(site: Site, s: Lineage)
    requires !s.client.proxied && s.client.lastPath == BOARD_PATH && s.served == [] && s.got == []
    requires s.pending == Some(Request(Get, UriPath(CORE), None, true)) && site(UriPath(CORE)) == Some(SEVENTEEN)
    ensures var s' := Happen(site, 0, s, Ours(true));
      && s'.pending == Some(Request(Get, UriPath(BOARD_PATH), Some(Block2(1, 0)), true))
      && s'.served == [UriPath(CORE)] && s'.got == SEVENTEEN[..16]
  {
    assert BlockSize(0) == 16;
    assert [] + [UriPath(CORE)] == [UriPath(CORE)];
    var r := AnswerOf(site, 0, s.pending.value);
    assert r.payload == SEVENTEEN[..16] && r.more && r.block == Some(Block2(0, 0)) && r.ack;
    assert [] + r.payload == r.payload;
    hide AnswerOf, OnResponse;
  }

  lemma SecondAnswer(site: Site, s: Lineage)
    requires s.pending == Some(Request(Get, UriPath(BOARD_PATH), Some(Block2(1, 0)), true))
    requires site(UriPath(BOARD_PATH)) == Some([9, 9, 9, 9])
    ensures var s' := Happen(site, 0, s, Ours(true));
      s'.pending == None && s'.served == s.served + [UriPath(BOARD_PATH)] && s'.got == s.got + []
  {
    assert BlockSize(0) == 16;
    var r := AnswerOf(site, 0, s.pending.value);
    assert r.payload == [] && !r.more;
    hide AnswerOf, OnResponse;
  }
}
