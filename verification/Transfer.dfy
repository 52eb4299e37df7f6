/**
 A Block2 transfer as a two-party run (section 2.4 of RFC 7959): the client of `Block2Client` against
 the server of `Block2Server`, over every pattern of delivery.
 */
module Transfer {
  import opened Wrappers
  import opened Slicer
  import opened Block2Server
  import opened Block2Client

  /** What becomes of one response on its way back: whole, cut down to its first bytes, timed out, or broken. */
  datatype Delivery = Whole | Cut(kept: nat) | Lost | Failed

  predicate Arrives(d: Delivery) {
    d.Whole? || d.Cut?
  }

  /** The two parties: the client, and the request the server has not answered yet. */
  datatype Parties = Parties(client: Client, pending: Option<Request>)

  function KeptBytes(payload: seq<byte>, d: Delivery): seq<byte> {
    match d
    case Cut(kept) => payload[..Clamp(kept, |payload|)]
    case _ => payload
  }

  function MemoOf(d: Delivery): Memo {
    match d
    case Whole => Answered
    case Cut(_) => Truncated
    case Lost => Timeout
    case Failed => Broken
  }

  /** The server answers the pending request and the client's handler takes the answer. */
  function Exchange(body: seq<byte>, szx: nat, s: Parties, d: Delivery): Parties {
    match s.pending
    case None => s
    case Some(request) =>
      var reply := Serve(body, request.block, szx);
      var response := Response(Some(reply.block), reply.more, KeptBytes(reply.payload, d), request.confirmable);
      var client := OnResponse(s.client, MemoOf(d), response);
      Parties(client, if |client.sent| > |s.client.sent| then Some(client.sent[|client.sent| - 1]) else None)
  }

  function RunTransfer(body: seq<byte>, szx: nat, start: Parties, ds: seq<Delivery>): Parties {
    if ds == [] then start
    else Exchange(body, szx, RunTransfer(body, szx, start, ds[..|ds| - 1]), ds[|ds| - 1])
  }

  /** A user's GET: where it comes from, its text, the length its caller computed, and whether it is confirmable. */
  datatype Ask = Ask(origin: Origin, uri: string, uriLen: nat, confirmable: bool)

  /** A fresh GET without a Block2 option has just gone out. */
  function Begin(c: Client, q: Ask): Parties {
    var c' := StartRequest(c, q.origin, Get, q.uri, q.uriLen, q.confirmable, true);
    Parties(c', Some(c'.sent[|c'.sent| - 1]))
  }

  // ---------- what a transfer should do ----------

  /** The number of blocks: the body's length over the block size, rounded up, and one for an empty body. */
  function Blocks(len: nat, size: nat): (n: nat)
    requires size > 0
    ensures n >= 1
    ensures (n - 1) * size < len <= n * size || (len == 0 && n == 1)
    decreases len
  {
    if len <= size then 1
    else
      var n := Blocks(len - size, size);
      assert n * size == (n - 1) * size + size && (n + 1) * size == n * size + size;
      n + 1
  }

  function Block(body: seq<byte>, size: nat, k: nat): seq<byte> {
    Window(body, k * size, k * size + size)
  }

  /** The bytes that arrive from the first `n` blocks. */
  function Arrived(body: seq<byte>, size: nat, ds: seq<Delivery>, n: nat): seq<byte>
    requires n <= |ds|
  {
    if n == 0 then [] else Arrived(body, size, ds, n - 1) + KeptBytes(Block(body, size, n - 1), ds[n - 1])
  }

  /** How many responses arrive before the first one that does not. */
  function Answers(ds: seq<Delivery>): (n: nat)
    ensures n <= |ds|
    ensures forall k :: 0 <= k < n ==> ds[k].Whole? || ds[k].Cut?
    ensures n < |ds| ==> ds[n].Lost? || ds[n].Failed?
  {
    if ds == [] then 0
    else
      var n := Answers(ds[..|ds| - 1]);
      if n == |ds| - 1 && Arrives(ds[n]) then n + 1 else n
  }

  /** The exchanges a transfer makes at most: all blocks, or just one when the path was too long to retain. */
  function Limit(body: seq<byte>, szx: nat, q: Ask): (n: nat)
    ensures n >= 1
  {
    if Retained(q.uri, q.uriLen) == "" then 1 else Blocks(|body|, BlockSize(szx))
  }

  /** The first `n` requests of a transfer: no option, then block numbers 1, 2, 3 and so on without a gap. */
  function Requests(proxied: bool, q: Ask, szx: nat, n: nat): (qs: seq<Request>)
    ensures |qs| == n
  {
    seq(n, k requires 0 <= k < n => RequestNo(proxied, q, szx, k))
  }

  function Min(a: nat, b: nat): nat {
    if a < b then a else b
  }

  /** Request `k` of a transfer: the user's own, then the follow-ups. */
  function RequestNo(proxied: bool, q: Ask, szx: nat, k: nat): Request {
    if k == 0 then Request(Get, Addressed(q.origin, proxied, q.uri), None, q.confirmable)
    else Request(Get, Continued(proxied, q.uri), Some(Block2(k, szx)), q.confirmable)
  }

  /** The parties after `asked` requests and the bytes `got`, with the last request answered or not. */
  function Stage(c: Client, q: Ask, szx: nat, asked: nat, got: seq<byte>, waiting: bool): Parties
    requires asked >= 1
  {
    var client := Client(Retained(q.uri, q.uriLen), c.proxied, (c.reqCount + 1) % 0x1_0000,
                         c.printed + got, c.sent + Requests(c.proxied, q, szx, asked));
    Parties(client, if waiting then Some(RequestNo(c.proxied, q, szx, asked - 1)) else None)
  }

  /** The blocks got are those that arrived before the first failure; the next one is asked for if there is one. */
  function ExpectedParties(body: seq<byte>, szx: nat, c: Client, q: Ask, ds: seq<Delivery>): Parties {
    var limit := Limit(body, szx, q);
    var n := Min(Answers(ds), limit);
    Stage(c, q, szx, Min(n + 1, limit), Arrived(body, BlockSize(szx), ds, n), n < limit && Answers(ds) == |ds|)
  }

  // ---------- the run does it ----------

  lemma MoreIff(len: nat, size: nat, k: nat)
    requires size > 0 && k < Blocks(len, size)
    ensures len > k * size + size <==> k + 1 < Blocks(len, size)
  {
    var n := Blocks(len, size);
    if k + 1 < n {
      assert (k + 1) * size <= (n - 1) * size;
    } else {
      assert n * size == k * size + size;
    }
  }

  lemma ArrivedSnoc(body: seq<byte>, size: nat, ds: seq<Delivery>, d: Delivery, n: nat)
    requires n <= |ds|
    ensures Arrived(body, size, ds + [d], n) == Arrived(body, size, ds, n)
  {
    hide KeptBytes, Block;
    if n > 0 {
      ArrivedSnoc(body, size, ds, d, n - 1);
    }
  }

  lemma ArrivedNext(body: seq<byte>, size: nat, ds: seq<Delivery>, d: Delivery)
    ensures Arrived(body, size, ds + [d], |ds| + 1)
            == Arrived(body, size, ds, |ds|) + KeptBytes(Block(body, size, |ds|), d)
  {
    hide KeptBytes, Block;
    ArrivedSnoc(body, size, ds, d, |ds|);
  }

  lemma AnswersSnoc(ds: seq<Delivery>, d: Delivery)
    ensures Answers(ds + [d]) == if Answers(ds) == |ds| && Arrives(d) then |ds| + 1 else Answers(ds)
  {
    assert (ds + [d])[..|ds|] == ds;
  }

  lemma RequestsSnoc(proxied: bool, q: Ask, szx: nat, n: nat)
    ensures Requests(proxied, q, szx, n + 1)
            == Requests(proxied, q, szx, n) + [RequestNo(proxied, q, szx, n)]
  {
  }

  /** Request `n` of a transfer is answered with block `n`, and M is set exactly when a block remains. */
  lemma AnswerTo(body: seq<byte>, szx: nat, n: nat)
    requires n < Blocks(|body|, BlockSize(szx))
    ensures Serve(body, if n == 0 then None else Some(Block2(n, szx)), szx)
            == Reply(Block2(n, szx), n + 1 < Blocks(|body|, BlockSize(szx)), Block(body, BlockSize(szx), n))
  {
    hide Window, BlockSize;
    MoreIff(|body|, BlockSize(szx), n);
  }

  /** A response that does not arrive ends the transfer where it was. */
  lemma FailedExchange(body: seq<byte>, szx: nat, s: Parties, d: Delivery)
    requires !Arrives(d)
    ensures Exchange(body, szx, s, d) == s.(pending := None)
  {
    hide Serve;
  }

  lemma PlusAssociates<T>(a: seq<T>, b: seq<T>, c: seq<T>)
    ensures a + b + c == a + (b + c)
  {
  }

  /** The next block arrives: its bytes are printed, and the request after it goes out if M was set. */
  lemma BlockExchange(body: seq<byte>, szx: nat, c: Client, q: Ask, n: nat, got: seq<byte>, d: Delivery)
    requires Arrives(d) && n < Limit(body, szx, q)
    ensures var limit := Limit(body, szx, q);
      Exchange(body, szx, Stage(c, q, szx, n + 1, got, true), d) ==
      Stage(c, q, szx, Min(n + 2, limit), got + KeptBytes(Block(body, BlockSize(szx), n), d), n + 1 < limit)
  {
    hide Window, Blocks, BlockSize, Requests, Serve, Block, KeptBytes;
    AnswerTo(body, szx, n);
    RequestsSnoc(c.proxied, q, szx, n + 1);
    PlusAssociates(c.printed, got, KeptBytes(Block(body, BlockSize(szx), n), d));
    PlusAssociates(c.sent, Requests(c.proxied, q, szx, n + 1), [RequestNo(c.proxied, q, szx, n + 1)]);
  }

  lemma ExchangeMeetsExpected(body: seq<byte>, szx: nat, c: Client, q: Ask, ds: seq<Delivery>, d: Delivery)
    ensures Exchange(body, szx, ExpectedParties(body, szx, c, q, ds), d) ==
            ExpectedParties(body, szx, c, q, ds + [d])
  {
    hide Exchange, Limit, Stage, BlockSize, KeptBytes, Block, Arrived, Answers;
    var limit, n := Limit(body, szx, q), Min(Answers(ds), Limit(body, szx, q));
    AnswersSnoc(ds, d);
    ArrivedSnoc(body, BlockSize(szx), ds, d, n);
    var s := ExpectedParties(body, szx, c, q, ds);
    StagePending(c, q, szx, Min(n + 1, limit), Arrived(body, BlockSize(szx), ds, n));
    if n == limit || Answers(ds) < |ds| {
      StoppedExchange(body, szx, s, d);
    } else if Arrives(d) {
      ArrivedNext(body, BlockSize(szx), ds, d);
      BlockExchange(body, szx, c, q, n, Arrived(body, BlockSize(szx), ds, n), d);
    } else {
      FailedExchange(body, szx, s, d);
    }
  }

  lemma StoppedExchange(body: seq<byte>, szx: nat, s: Parties, d: Delivery)
    requires s.pending == None
    ensures Exchange(body, szx, s, d) == s
  {
  }

  lemma StagePending(c: Client, q: Ask, szx: nat, asked: nat, got: seq<byte>)
    requires asked >= 1
    ensures Stage(c, q, szx, asked, got, false).pending == None
    ensures Stage(c, q, szx, asked, got, true).pending.Some?
    ensures Stage(c, q, szx, asked, got, true).(pending := None) == Stage(c, q, szx, asked, got, false)
  {
  }

  /** Whole-run law: what the two parties have done after any deliveries, for any body, block size and URI. */
  lemma {:induction false} TransferMeetsExpected(body: seq<byte>, szx: nat, c: Client, q: Ask, ds: seq<Delivery>)
    ensures RunTransfer(body, szx, Begin(c, q), ds) == ExpectedParties(body, szx, c, q, ds)
  {
    if ds == [] {
      assert Requests(c.proxied, q, szx, 1) == [RequestNo(c.proxied, q, szx, 0)];
    } else {
      var front, d := ds[..|ds| - 1], ds[|ds| - 1];
      TransferMeetsExpected(body, szx, c, q, front);
      assert front + [d] == ds;
      ExchangeMeetsExpected(body, szx, c, q, front, d);
    }
  }

  // ---------- consequences ----------

  lemma ArrivedWhole(body: seq<byte>, size: nat, ds: seq<Delivery>, n: nat)
    requires n <= |ds| && forall k :: 0 <= k < n ==> !ds[k].Cut?
    ensures Arrived(body, size, ds, n) == Window(body, 0, n * size)
  {
    forall k | 0 <= k < n ensures Intact(body, size, ds, k) {
    }
    ArrivedIntact(body, size, ds, n);
  }

  /** Without truncation the printed bytes are at every moment a prefix of the body, cut at a block boundary. */
  lemma PrefixSafety(body: seq<byte>, szx: nat, c: Client, q: Ask, ds: seq<Delivery>)
    requires forall k :: 0 <= k < |ds| ==> !ds[k].Cut?
    ensures var n := Min(Answers(ds), Limit(body, szx, q));
      RunTransfer(body, szx, Begin(c, q), ds).client.printed == c.printed + Window(body, 0, n * BlockSize(szx))
  {
    hide Window, Limit, BlockSize, Serve, Requests, Answers;
    TransferMeetsExpected(body, szx, c, q, ds);
    ArrivedWhole(body, BlockSize(szx), ds, Min(Answers(ds), Limit(body, szx, q)));
  }

  lemma {:induction false} AnswersAll(ds: seq<Delivery>)
    requires forall k :: 0 <= k < |ds| ==> Arrives(ds[k])
    ensures Answers(ds) == |ds|
  {
    if ds != [] {
      AnswersAll(ds[..|ds| - 1]);
    }
  }

  lemma {:induction false} ArrivedLength(body: seq<byte>, size: nat, ds: seq<Delivery>, n: nat)
    requires n <= |ds|
    ensures |Arrived(body, size, ds, n)| <= |Window(body, 0, n * size)|
    ensures |Arrived(body, size, ds, n)| == |Window(body, 0, n * size)|
            <==> forall k :: 0 <= k < n ==> Intact(body, size, ds, k)
  {
    hide Window, Block;
    if n == 0 {
      NoWindow(body);
    } else {
      ArrivedLength(body, size, ds, n - 1);
      BlockExtends(body, size, n - 1);
      assert Intact(body, size, ds, n - 1)
        <==> |KeptBytes(Block(body, size, n - 1), ds[n - 1])| == |Block(body, size, n - 1)|;
    }
  }

  /** Delivery `k` cuts nothing off block `k`. */
  predicate Intact(body: seq<byte>, size: nat, ds: seq<Delivery>, k: nat)
    requires k < |ds|
  {
    ds[k].Cut? ==> ds[k].kept >= |Block(body, size, k)|
  }

  lemma {:induction false} ArrivedIntact(body: seq<byte>, size: nat, ds: seq<Delivery>, n: nat)
    requires n <= |ds| && forall k :: 0 <= k < n ==> Intact(body, size, ds, k)
    ensures Arrived(body, size, ds, n) == Window(body, 0, n * size)
  {
    hide Block, Window;
    if n == 0 {
      NoWindow(body);
    } else {
      ArrivedIntact(body, size, ds, n - 1);
      assert Intact(body, size, ds, n - 1);
      assert KeptBytes(Block(body, size, n - 1), ds[n - 1]) == Block(body, size, n - 1);
      BlockExtends(body, size, n - 1);
    }
  }

  lemma NoWindow(body: seq<byte>)
    ensures Window(body, 0, 0) == []
  {
  }

  lemma BlockExtends(body: seq<byte>, size: nat, k: nat)
    ensures Window(body, 0, k * size) + Block(body, size, k) == Window(body, 0, (k + 1) * size)
  {
    assert (k + 1) * size == k * size + size;
  }

  /**
   After any deliveries: the transfer still waits exactly when nothing has failed and blocks remain, so with all
   responses delivered it is over after `Limit` exchanges. It has asked for 0, 1, 2 and so on, each once.
   */
  lemma TransferStops(body: seq<byte>, szx: nat, c: Client, q: Ask, ds: seq<Delivery>)
    ensures var limit, end := Limit(body, szx, q), RunTransfer(body, szx, Begin(c, q), ds);
      && (end.pending.Some? <==> Answers(ds) == |ds| < limit)
      && end.client.sent == c.sent + Requests(c.proxied, q, szx, Min(Answers(ds) + 1, limit))
      && end.client.printed == c.printed + Arrived(body, BlockSize(szx), ds, Min(Answers(ds), limit))
  {
    hide BlockSize, Requests, RunTransfer, Arrived, Begin, Limit, Answers;
    TransferMeetsExpected(body, szx, c, q, ds);
  }

  /** A truncated response keeps the first bytes of its payload. */
  lemma CutKeepsFront(payload: seq<byte>, kept: nat)
    ensures KeptBytes(payload, Cut(kept)) == if kept < |payload| then payload[..kept] else payload
    ensures KeptBytes(payload, Whole) == payload
  {
  }

  /** The requests of a run, one by one: the user's own without an option, then block 1, 2 and so on, each once. */
  lemma AskedInOrder(body: seq<byte>, szx: nat, c: Client, q: Ask, ds: seq<Delivery>, k: nat)
    requires |c.sent| + k < |RunTransfer(body, szx, Begin(c, q), ds).client.sent|
    ensures var byProxy := c.proxied && (k > 0 || q.origin == CommandLine);
      RunTransfer(body, szx, Begin(c, q), ds).client.sent[|c.sent| + k] ==
        Request(Get, if byProxy then ProxyUri(q.uri) else UriPath(q.uri), if k == 0 then None else Some(Block2(k, szx)),
                q.confirmable)
  {
    hide BlockSize, RunTransfer, Arrived, Begin, Limit, Answers;
    TransferStops(body, szx, c, q, ds);
  }

  /** After a response that was lost or broken, nothing more happens, whatever is delivered later. */
  lemma NothingAfterLoss(body: seq<byte>, szx: nat, c: Client, q: Ask, ds: seq<Delivery>, k: nat)
    requires k < |ds| && (ds[k] == Lost || ds[k] == Failed)
    ensures RunTransfer(body, szx, Begin(c, q), ds) ==
            RunTransfer(body, szx, Begin(c, q), ds[..k]).(pending := None)
    decreases |ds|
  {
    hide Serve, BlockSize;
    var n := |ds| - 1;
    if k == n {
      assert !Arrives(ds[k]);
      FailedExchange(body, szx, RunTransfer(body, szx, Begin(c, q), ds[..n]), ds[n]);
    } else {
      NothingAfterLoss(body, szx, c, q, ds[..n], k);
      assert ds[..n][..k] == ds[..k];
    }
  }

  /** What has arrived is the body exactly when the blocks reach its end and no byte was cut. */
  lemma ArrivedIsBodyIff(body: seq<byte>, size: nat, ds: seq<Delivery>, n: nat)
    requires n <= |ds|
    ensures Arrived(body, size, ds, n) == body
            <==> |body| <= n * size && forall k :: 0 <= k < n ==> Intact(body, size, ds, k)
  {
    hide Window, Arrived, Intact;
    ArrivedLength(body, size, ds, n);
    WindowLength(body, n * size);
    if |body| <= n * size && forall k :: 0 <= k < n ==> Intact(body, size, ds, k) {
      ArrivedIntact(body, size, ds, n);
    }
  }

  /**
   The transfer theorem, for any deliveries: what was printed is the whole body exactly when the blocks that
   arrived before the first failure reach its end and no truncated one lost a byte. The handler goes on
   to the next block after a truncated one, so the bytes lost are never asked for again.
   */
  lemma TransferFaithfulIff(body: seq<byte>, szx: nat, c: Client, q: Ask, ds: seq<Delivery>)
    ensures var n := Min(Answers(ds), Limit(body, szx, q));
      RunTransfer(body, szx, Begin(c, q), ds).client.printed == c.printed + body
      <==> |body| <= n * BlockSize(szx) && forall k :: 0 <= k < n ==> Intact(body, BlockSize(szx), ds, k)
  {
    hide BlockSize, RunTransfer, Arrived, Begin, Intact, Retained, Limit, Requests, StartRequest, Answers;
    var size, n := BlockSize(szx), Min(Answers(ds), Limit(body, szx, q));
    TransferStops(body, szx, c, q, ds);
    PlusCancels(c.printed, Arrived(body, size, ds, n), body);
    ArrivedIsBodyIff(body, size, ds, n);
  }

  /**
   A transfer that ran to its end printed the whole body exactly when the path was retained, or one block was
   enough, and no truncated response lost a byte.
   */
  lemma FinishedTransferIff(body: seq<byte>, szx: nat, c: Client, q: Ask, ds: seq<Delivery>)
    requires Answers(ds) >= Limit(body, szx, q)
    ensures RunTransfer(body, szx, Begin(c, q), ds).client.printed == c.printed + body
            <==> (Retained(q.uri, q.uriLen) != "" || |body| <= BlockSize(szx))
                 && forall k :: 0 <= k < Limit(body, szx, q) ==> Intact(body, BlockSize(szx), ds, k)
  {
    hide BlockSize, RunTransfer, Begin, Intact, Retained, Limit, Answers;
    TransferFaithfulIff(body, szx, c, q, ds);
    LimitReaches(body, szx, q);
  }

  const SEVENTEEN: seq<byte> := [1, 2, 3, 4, 5, 6, 7, 8, 9, 10, 11, 12, 13, 14, 15, 16, 17]

  /** A concrete truncated transfer: seventeen bytes in blocks of sixteen, the first cut to three, print four. */
  lemma TruncationExample(c: Client)
    ensures var end := RunTransfer(SEVENTEEN, 0, Begin(c, Ask(CommandLine, "/a", 2, false)), [Cut(3), Whole]);
      end.pending == None && end.client.printed == c.printed + [1, 2, 3, 17]
  {
    var q, ds := Ask(CommandLine, "/a", 2, false), [Cut(3), Whole];
    assert Blocks(1, 16) == 1 && Blocks(17, 16) == 2;
    assert ds[..1] == [Cut(3)] && ds[..1][..0] == [];
    assert Answers(ds[..1]) == 1 && Answers(ds) == 2;
    assert BlockSize(0) == 16;
    assert Block(SEVENTEEN, 16, 0)[..3] == [1, 2, 3] && Block(SEVENTEEN, 16, 1) == [17];
    assert Arrived(SEVENTEEN, 16, ds, 1) == [1, 2, 3];
    assert Arrived(SEVENTEEN, 16, ds, 2) == [1, 2, 3, 17];
    hide RunTransfer, Begin, Arrived, Block, Requests;
    TransferStops(SEVENTEEN, 0, c, q, ds);
  }

  lemma LimitReaches(body: seq<byte>, szx: nat, q: Ask)
    ensures |body| <= Limit(body, szx, q) * BlockSize(szx)
            <==> Retained(q.uri, q.uriLen) != "" || |body| <= BlockSize(szx)
  {
    hide BlockSize, Retained;
    var size := BlockSize(szx);
    assert 1 * size == size;
  }

  lemma PlusCancels(a: seq<byte>, b: seq<byte>, c: seq<byte>)
    ensures a + b == a + c <==> b == c
  {
    if a + b == a + c {
      assert b == (a + b)[|a|..] == (a + c)[|a|..] == c;
    }
  }

  lemma WindowLength(s: seq<byte>, n: nat)
    ensures |Window(s, 0, n)| == Min(n, |s|)
    ensures n >= |s| ==> Window(s, 0, n) == s
  {
  }
}
