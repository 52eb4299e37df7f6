/**
 The `/sha256` resource: one hash context shared by all requests, fed by Block1 transfers (section 2.5 of
 RFC 7959). SHA-256 itself is not part of this model: finishing a context that was initialised applies any
 function `hash` to the bytes absorbed since, and finishing one that was not applies any function `spent`.
 */
module Block1Hash {
  import opened Wrappers
  import opened Parity
  import opened Slicer
  import opened Block2Server

  /** A Block1 option: number, M bit and size exponent. */
  datatype Block1 = Block1(num: nat, more: bool, szx: nat)

  datatype Packet = Packet(block1: Option<Block1>, payload: seq<byte>)

  datatype Code = Changed204 | Continue231

  /** A reply: its code, the echoed option, and the digest as hex if the hash was finished. */
  datatype HashReply = HashReply(code: Code, block1: Option<Block1>, digest: Option<string>)

  /**
   The context with the bytes absorbed since its last init, or, before any init and after a final, which
   both leave it zeroed, since then.
   */
  datatype Context = Live(bytes: seq<byte>) | Spent(bytes: seq<byte>)

  const ZEROED := Spent([])

  /** The payload's offset in the whole body; a request without the option starts at zero. */
  function Offset(p: Packet): nat {
    match p.block1
    case None => 0
    case Some(b) => b.num * BlockSize(b.szx)
  }

  predicate Opens(p: Packet) {
    Offset(p) == 0
  }

  predicate IsLast(p: Packet) {
    p.block1 == None || !p.block1.value.more
  }

  /** The context once the payload is in: initialised first if the offset is zero. */
  function Absorb(ctx: Context, p: Packet): Context {
    var entered := if Opens(p) then Live([]) else ctx;
    match entered
    case Live(bytes) => Live(bytes + p.payload)
    case Spent(bytes) => Spent(bytes + p.payload)
  }

  function After(ctx: Context, p: Packet): Context {
    if IsLast(p) then ZEROED else Absorb(ctx, p)
  }

  function Digest(hash: seq<byte> -> string, spent: seq<byte> -> string, ctx: Context): string {
    match ctx
    case Live(bytes) => hash(bytes)
    case Spent(bytes) => spent(bytes)
  }

  function ReplyTo(hash: seq<byte> -> string, spent: seq<byte> -> string, ctx: Context, p: Packet): HashReply {
    HashReply(if p.block1.Some? && p.block1.value.more then Continue231 else Changed204,
              p.block1,
              if IsLast(p) then Some(Digest(hash, spent, Absorb(ctx, p))) else None)
  }

  // ---------- any stream of packets, in closed form ----------

  /** Where the packets after the latest last block begin. */
  function AfterLast(ps: seq<Packet>): (a: nat)
    ensures a <= |ps|
    ensures a == 0 || IsLast(ps[a - 1])
    ensures forall k :: a <= k < |ps| ==> !IsLast(ps[k])
  {
    if ps == [] then 0
    else if IsLast(ps[|ps| - 1]) then |ps|
    else AfterLast(ps[..|ps| - 1])
  }

  /** Where the latest packet at offset zero is; the stream's length if there is none. */
  function LatestOpening(ps: seq<Packet>): (o: nat)
    ensures o <= |ps|
    ensures o < |ps| ==> Opens(ps[o]) && forall k :: o < k < |ps| ==> !Opens(ps[k])
    ensures o == |ps| ==> forall k :: 0 <= k < |ps| ==> !Opens(ps[k])
  {
    if ps == [] then 0
    else if Opens(ps[|ps| - 1]) then |ps| - 1
    else
      var o := LatestOpening(ps[..|ps| - 1]);
      if o == |ps| - 1 then |ps| else o
  }

  function Payloads(ps: seq<Packet>): seq<byte> {
    if ps == [] then [] else Payloads(ps[..|ps| - 1]) + ps[|ps| - 1].payload
  }

  /** An opening came after the latest last block. */
  predicate InUpload(ps: seq<Packet>) {
    AfterLast(ps) <= LatestOpening(ps) < |ps|
  }

  /** What the context must be after a stream, told from the stream alone. */
  function Held(ps: seq<Packet>): Context {
    if InUpload(ps) then Live(Payloads(ps[LatestOpening(ps)..])) else Spent(Payloads(ps[AfterLast(ps)..]))
  }

  lemma PayloadsSnoc(ps: seq<Packet>, p: Packet, from: nat)
    requires from <= |ps|
    ensures Payloads((ps + [p])[from..]) == Payloads(ps[from..]) + p.payload
    ensures Payloads((ps + [p])[|ps|..]) == p.payload
  {
    assert (ps + [p])[from..] == ps[from..] + [p];
    assert (ps[from..] + [p])[..|ps| - from] == ps[from..];
    assert (ps + [p])[|ps|..] == [p] && [p][..0] == [];
    assert Payloads([p]) == [] + p.payload;
  }

  lemma MarksSnoc(ps: seq<Packet>, p: Packet)
    ensures AfterLast(ps + [p]) == if IsLast(p) then |ps| + 1 else AfterLast(ps)
    ensures LatestOpening(ps + [p]) ==
            if Opens(p) then |ps| else if LatestOpening(ps) == |ps| then |ps| + 1 else LatestOpening(ps)
  {
    assert (ps + [p])[..|ps|] == ps;
  }

  /** One packet takes the closed form of a stream to the closed form of the longer stream. */
  lemma HeldSnoc(ps: seq<Packet>, p: Packet)
    ensures Held(ps + [p]) == After(Held(ps), p)
  {
    hide Opens, IsLast, AfterLast, LatestOpening, Payloads;
    MarksSnoc(ps, p);
    var all := ps + [p];
    PayloadsSnoc(ps, p, AfterLast(ps));
    PayloadsSnoc(ps, p, LatestOpening(ps));
    if IsLast(p) {
      assert all[|all|..] == [];
      NoPayloads();
    } else {
      assert [] + p.payload == p.payload;
    }
  }

  lemma NoPayloads()
    ensures Payloads([]) == []
    ensures Held([]) == ZEROED
  {
  }

  /** The resource with its static context. */
  class Sha256Resource {
    const hash: seq<byte> -> string
    const spent: seq<byte> -> string
    var ctx: Context

    constructor (hash: seq<byte> -> string, spent: seq<byte> -> string)
      ensures this.hash == hash && this.spent == spent && ctx == Held([])
    {
      this.hash, this.spent, ctx := hash, spent, ZEROED;
      new;
      NoPayloads();
    }

    /** `_sha256_handler`. */
    method Handle(p: Packet) returns (reply: HashReply)
      modifies this`ctx
      ensures ctx == After(old(ctx), p)
      ensures reply == ReplyTo(hash, spent, old(ctx), p)
      ensures reply.code == (if p.block1.Some? && p.block1.value.more then Continue231 else Changed204)
      ensures reply.block1 == p.block1
      ensures reply.digest == None <==> p.block1.Some? && p.block1.value.more
      ensures p.block1 == None ==> reply.digest == Some(hash(p.payload)) && ctx == Spent([])
    {
      var result := Changed204;
      if Offset(p) == 0 {
        ctx := Live([]);
      }
      ctx := ctx.(bytes := ctx.bytes + p.payload);
      assert [] + p.payload == p.payload;
      if p.block1.Some? && p.block1.value.more {
        result := Continue231;
      }
      var digest := None;
      if p.block1 == None || !p.block1.value.more {
        digest := Some(Digest(hash, spent, ctx));
        ctx := ZEROED;
      }
      reply := HashReply(result, p.block1, digest);
    }

    /** Any stream of packets: every reply follows from the stream before its packet. */
    method HandleAll(ps: seq<Packet>) returns (replies: seq<HashReply>)
      requires ctx == Held([])
      modifies this`ctx
      ensures ctx == Held(ps)
      ensures |replies| == |ps|
      ensures forall i :: 0 <= i < |ps| ==> replies[i] == ReplyTo(hash, spent, Held(ps[..i]), ps[i])
      ensures forall i :: 0 <= i < |ps| && ps[i].block1 == None ==>
                replies[i] == HashReply(Changed204, None, Some(hash(ps[i].payload)))
    {
      hide Held, ReplyTo, After;
      replies := [];
      assert ps[..0] == [];
      for i := 0 to |ps|
        invariant ctx == Held(ps[..i])
        invariant |replies| == i
        invariant forall k :: 0 <= k < i ==> replies[k] == ReplyTo(hash, spent, Held(ps[..k]), ps[k])
      {
        HeldSnoc(ps[..i], ps[i]);
        assert ps[..i] + [ps[i]] == ps[..i + 1];
        var reply := Handle(ps[i]);
        replies := replies + [reply];
      }
      assert ps[..|ps|] == ps;
      forall i | 0 <= i < |ps| && ps[i].block1 == None
        ensures replies[i] == HashReply(Changed204, None, Some(hash(ps[i].payload)))
      {
        PlainRequest(hash, spent, ps[..i], ps[i].payload);
      }
    }
  }

  // ---------- requests without the option, and other single packets ----------

  /**
   A request without Block1, such as a plain POST, is answered 2.04 with the hash of its own payload, whatever stream
   came before it, and abandons an upload in progress: the context is spent and empty.
   */
  lemma PlainRequest(hash: seq<byte> -> string, spent: seq<byte> -> string, ps: seq<Packet>, m: seq<byte>)
    ensures ReplyTo(hash, spent, Held(ps), Packet(None, m)) == HashReply(Changed204, None, Some(hash(m)))
    ensures Held(ps + [Packet(None, m)]) == Spent([])
  {
    HeldSnoc(ps, Packet(None, m));
    hide Held;
    assert [] + m == m;
  }

  /**
   A packet with the option, after any stream: Continue and no digest exactly while M is set; the option comes back as
   it was sent; a block at number 0 starts over, and any other adds to what there is.
   */
  lemma BlockReply(hash: seq<byte> -> string, spent: seq<byte> -> string, ps: seq<Packet>, b: Block1, m: seq<byte>)
    ensures var p, had := Packet(Some(b), m), Held(ps);
      var bytes := if b.num == 0 then m else had.bytes + m;
      var live := b.num == 0 || had.Live?;
      && ReplyTo(hash, spent, had, p) ==
           (if b.more then HashReply(Continue231, Some(b), None)
            else HashReply(Changed204, Some(b), Some(if live then hash(bytes) else spent(bytes))))
      && Held(ps + [p]) == (if !b.more then Spent([]) else if live then Live(bytes) else Spent(bytes))
  {
    HeldSnoc(ps, Packet(Some(b), m));
    hide Held, BlockSize;
    if b.num == 0 {
      assert 0 * BlockSize(b.szx) == 0;
      assert [] + m == m;
    } else {
      OffsetPositive(b.num, BlockSize(b.szx));
    }
  }

  // ---------- when a digest is right ----------

  /** Whatever the hash is, the reply to `p` after the stream `ps` carries the hash of `body`. */
  ghost predicate CarriesHash(ps: seq<Packet>, p: Packet, body: seq<byte>) {
    forall hash: seq<byte> -> string, spent: seq<byte> -> string ::
      ReplyTo(hash, spent, Held(ps), p).digest == Some(hash(body))
  }

  lemma CarriesIffLive(ps: seq<Packet>, p: Packet, body: seq<byte>)
    ensures CarriesHash(ps, p, body) <==> IsLast(p) && Absorb(Held(ps), p) == Live(body)
  {
    hide Held, Absorb, IsLast;
    var ctx := Absorb(Held(ps), p);
    if IsLast(p) && ctx != Live(body) {
      var hash := (bytes: seq<byte>) => if bytes == body then "right" else "wrong";
      var spent := (bytes: seq<byte>) => "wrong";
      assert ReplyTo(hash, spent, Held(ps), p).digest == Some("wrong");
    }
    if !IsLast(p) {
      var none := (bytes: seq<byte>) => "";
      assert ReplyTo(none, none, Held(ps), p).digest == None;
    }
  }

  lemma AbsorbedFromOpening(ps: seq<Packet>, p: Packet)
    ensures var all, ctx := ps + [p], Absorb(Held(ps), p);
      var o := LatestOpening(all);
      && (ctx.Live? <==> AfterLast(ps) <= o <= |ps|)
      && (ctx.Live? ==> ctx.bytes == Payloads(all[o..]))
  {
    hide Opens, IsLast, AfterLast, LatestOpening, Payloads;
    MarksSnoc(ps, p);
    PayloadsSnoc(ps, p, LatestOpening(ps));
    assert [] + p.payload == p.payload;
  }

  /**
   The exact condition on any stream, with blocks repeated, skipped, or from elsewhere: the reply to a packet
   carries the hash of `body` exactly when it is a last block, an opening came after the last block before it, and
   the payloads from the latest opening on, its own included, are `body`.
   */
  lemma CarriesHashIff(ps: seq<Packet>, p: Packet, body: seq<byte>)
    ensures var all := ps + [p];
      CarriesHash(ps, p, body)
      <==> IsLast(p) && LatestOpening(all) <= |ps| && LatestOpening(all) >= AfterLast(ps)
           && Payloads(all[LatestOpening(all)..]) == body
  {
    hide Opens, IsLast, AfterLast, LatestOpening, Payloads, CarriesHash, Absorb, Held;
    CarriesIffLive(ps, p, body);
    AbsorbedFromOpening(ps, p);
  }

  // ---------- serial transfers ----------

  /** A transfer as a client sends it: in order from block 0, complete or abandoned after some block. */
  datatype Upload = Upload(blocks: seq<seq<byte>>, szx: nat, complete: bool)

  function PacketsOf(t: Upload): (ps: seq<Packet>)
    ensures |ps| == |t.blocks|
    ensures forall i :: 0 <= i < |ps| ==> ps[i].payload == t.blocks[i]
    ensures forall i :: 0 <= i < |ps| ==> (IsLast(ps[i]) <==> t.complete && i == |ps| - 1)
  {
    seq(|t.blocks|, i requires 0 <= i < |t.blocks| =>
      Packet(Some(Block1(i, !(t.complete && i == |t.blocks| - 1), t.szx)), t.blocks[i]))
  }

  function AllPackets(ts: seq<Upload>): seq<Packet> {
    if ts == [] then [] else AllPackets(ts[..|ts| - 1]) + PacketsOf(ts[|ts| - 1])
  }

  lemma ConcatSnoc(blocks: seq<seq<byte>>, n: nat)
    requires n < |blocks|
    ensures Concat(blocks[..n + 1]) == Concat(blocks[..n]) + blocks[n]
    ensures Concat(blocks[..0]) == []
  {
    assert blocks[..n + 1][..n] == blocks[..n];
  }

  /** The first block starts over; a later one is added to what is there. */
  lemma AbsorbBlock(t: Upload, i: nat, ctx: Context)
    requires i < |t.blocks|
    ensures Absorb(ctx, PacketsOf(t)[i]) ==
            if i == 0 then Live(t.blocks[0]) else ctx.(bytes := ctx.bytes + t.blocks[i])
  {
    if i == 0 {
      assert 0 * BlockSize(t.szx) == 0;
      assert [] + t.blocks[0] == t.blocks[0];
    } else {
      OffsetPositive(i, BlockSize(t.szx));
    }
  }

  /** A block's offset in bytes, for every size exponent. */
  lemma OffsetIs(b: Block1, m: seq<byte>)
    ensures Offset(Packet(Some(b), m)) == b.num * (16 * Pow2(b.szx))
  {
    BlockSizeIs(b.szx);
  }

  lemma OffsetPositive(num: nat, size: nat)
    requires num > 0 && size > 0
    ensures num * size > 0
  {
  }

  /** Inside one transfer the context holds exactly the blocks so far, whatever went before. */
  lemma {:induction false} DuringUpload(before: seq<Packet>, t: Upload, n: nat)
    requires 0 < n <= |t.blocks|
    ensures Absorb(Held(before + PacketsOf(t)[..n - 1]), PacketsOf(t)[n - 1]) == Live(Concat(t.blocks[..n]))
  {
    hide Absorb, Concat, Held;
    var ps := PacketsOf(t);
    AbsorbBlock(t, n - 1, Held(before + ps[..n - 1]));
    ConcatSnoc(t.blocks, n - 1);
    if n == 1 {
      assert Concat(t.blocks[..0]) + t.blocks[0] == t.blocks[0];
    } else {
      DuringUpload(before, t, n - 1);
      HeldSnoc(before + ps[..n - 2], ps[n - 2]);
      assert before + ps[..n - 2] + [ps[n - 2]] == before + ps[..n - 1];
    }
  }

  /** Where transfer `j` begins in the whole run. */
  lemma {:induction false} SplitRun(ts: seq<Upload>, j: nat) returns (before: seq<Packet>, rest: seq<Packet>)
    requires j < |ts|
    ensures before == AllPackets(ts[..j])
    ensures AllPackets(ts) == before + PacketsOf(ts[j]) + rest
  {
    var n := |ts| - 1;
    if j == n {
      before, rest := AllPackets(ts[..j]), [];
    } else {
      var rest';
      before, rest' := SplitRun(ts[..n], j);
      assert ts[..n][..j] == ts[..j];
      rest := rest' + PacketsOf(ts[n]);
    }
  }

  /**
   Block1 hashing over whole runs: in any series of serial transfers, some abandoned part-way, the reply to
   block `i` of transfer `j` is Continue without a digest, unless it is the last block of a complete
   transfer; that one is answered 2.04 with the hash of exactly that transfer's payloads.
   */
  lemma SerialUploads(hash: seq<byte> -> string, spent: seq<byte> -> string, ts: seq<Upload>, j: nat, i: nat)
    requires j < |ts| && i < |ts[j].blocks|
    ensures var t, all, at := ts[j], AllPackets(ts), |AllPackets(ts[..j])| + i;
      && at < |all| && all[at] == PacketsOf(t)[i]
      && ReplyTo(hash, spent, Held(all[..at]), all[at]) ==
           if t.complete && i == |t.blocks| - 1
           then HashReply(Changed204, Some(Block1(i, false, t.szx)), Some(hash(Concat(t.blocks))))
           else HashReply(Continue231, Some(Block1(i, true, t.szx)), None)
  {
    hide Held, AllPackets, Absorb, Concat;
    var t, all := ts[j], AllPackets(ts);
    var before, rest := SplitRun(ts, j);
    var ps := PacketsOf(t);
    assert all[..|before| + i] == before + ps[..i];
    DuringUpload(before, t, i + 1);
    assert t.blocks[..|t.blocks|] == t.blocks;
  }

  // ---------- a block that arrives twice ----------

  /** Blocks `i` to `j` of a transfer, none of them the first or the last, add their payloads to the context. */
  lemma {:induction false} LaterBlocks(qs: seq<Packet>, t: Upload, i: nat, j: nat)
    requires 0 < i <= j < |t.blocks|
    ensures var ctx := Held(qs);
      Held(qs + PacketsOf(t)[i..j]) == ctx.(bytes := ctx.bytes + Concat(t.blocks[i..j]))
  {
    hide Absorb, Held;
    var ps := PacketsOf(t);
    if i == j {
      assert qs + ps[i..j] == qs;
      assert Held(qs).bytes + [] == Held(qs).bytes;
    } else {
      LaterBlocks(qs, t, i, j - 1);
      var now := qs + ps[i..j - 1];
      HeldSnoc(now, ps[j - 1]);
      assert now + [ps[j - 1]] == qs + ps[i..j];
      AbsorbBlock(t, j - 1, Held(now));
      assert t.blocks[i..j][..j - 1 - i] == t.blocks[i..j - 1];
      Associates(Held(qs).bytes, Concat(t.blocks[i..j - 1]), t.blocks[j - 1]);
    }
  }

  lemma Associates(a: seq<byte>, b: seq<byte>, c: seq<byte>)
    ensures a + b + c == a + (b + c)
  {
  }

  lemma {:induction false} ConcatSplit(blocks: seq<seq<byte>>, i: nat)
    requires i <= |blocks|
    ensures Concat(blocks) == Concat(blocks[..i]) + Concat(blocks[i..])
  {
    if i == |blocks| {
      assert blocks[..i] == blocks && blocks[i..] == [];
    } else {
      var n := |blocks| - 1;
      ConcatSplit(blocks[..n], i);
      assert blocks[..n][..i] == blocks[..i] && blocks[..n][i..] == blocks[i..][..n - i];
      Associates(Concat(blocks[..i]), Concat(blocks[..n][i..]), blocks[n]);
    }
  }

  /** The transfer with block `i` handled twice in a row, up to but without its last packet. */
  function Repeating(before: seq<Packet>, t: Upload, i: nat): seq<Packet>
    requires i < |t.blocks|
  {
    before + PacketsOf(t)[..i + 1] + PacketsOf(t)[i..|t.blocks| - 1]
  }

  /** What the context holds when the last packet of such a transfer is in. */
  lemma RepeatedContext(before: seq<Packet>, t: Upload, i: nat)
    requires t.complete && i < |t.blocks|
    ensures var n := |t.blocks|;
      Absorb(Held(Repeating(before, t, i)), PacketsOf(t)[n - 1]) ==
        if i == 0 then Live(Concat(t.blocks))
        else if i == n - 1 then Spent(t.blocks[i])
        else Live(Concat(t.blocks[..i + 1]) + Concat(t.blocks[i..]))
  {
    hide Absorb, Held, Concat;
    var n, ps := |t.blocks|, PacketsOf(t);
    var once := before + ps[..i + 1];
    DuringUpload(before, t, i + 1);
    HeldSnoc(before + ps[..i], ps[i]);
    assert before + ps[..i] + [ps[i]] == once;
    AbsorbBlock(t, n - 1, Held(Repeating(before, t, i)));
    if i == 0 {
      DuringUpload(once, t, n);
      assert t.blocks[..n] == t.blocks;
    } else if i == n - 1 {
      assert Repeating(before, t, i) == once;
      assert [] + t.blocks[i] == t.blocks[i];
    } else {
      LaterBlocks(once, t, i, n - 1);
      Associates(Concat(t.blocks[..i + 1]), Concat(t.blocks[i..n - 1]), t.blocks[n - 1]);
      ConcatSnoc(t.blocks[i..], n - 1 - i);
      assert t.blocks[i..][..n - 1 - i] == t.blocks[i..n - 1] && t.blocks[i..][..n - i] == t.blocks[i..];
    }
  }

  /**
   A block handled twice in a row: whatever the hash, the reply to the transfer's last packet carries the hash of its
   payloads exactly when the repeated block is the first, which starts over, or is empty and not the last. A last
   block that arrives again after a longer transfer is answered from a context that was never initialised.
   */
  lemma RepeatedBlockIff(before: seq<Packet>, t: Upload, i: nat)
    requires t.complete && i < |t.blocks|
    ensures CarriesHash(Repeating(before, t, i), PacketsOf(t)[|t.blocks| - 1], Concat(t.blocks))
            <==> i == 0 || (i < |t.blocks| - 1 && t.blocks[i] == [])
  {
    hide Absorb, Held, Concat;
    var n := |t.blocks|;
    var qs, p := Repeating(before, t, i), PacketsOf(t)[n - 1];
    RepeatedContext(before, t, i);
    CarriesIffLive(qs, p, Concat(t.blocks));
    if 0 < i < n - 1 {
      ConcatSplit(t.blocks, i);
      ConcatSnoc(t.blocks, i);
      var front, block, back := Concat(t.blocks[..i]), t.blocks[i], Concat(t.blocks[i..]);
      assert front + block + back == front + back <==> block == [] by {
        assert |front + block + back| == |front + back| + |block|;
        assert front + [] == front;
      }
    }
  }

  /** Three bytes in three blocks, and two in two. */
  const THREE := Upload([[1], [2], [3]], 0, true)
  const TWO := Upload([[1], [2]], 0, true)

  /**
   Concrete repetitions: with the middle one of three blocks handled twice the digest is of four bytes, and a last block
   that arrives again is answered from a context that was never initialised.
   */
  lemma RepetitionExample(hash: seq<byte> -> string, spent: seq<byte> -> string)
    ensures ReplyTo(hash, spent, Held(Repeating([], THREE, 1)), PacketsOf(THREE)[2]).digest == Some(hash([1, 2, 2, 3]))
    ensures ReplyTo(hash, spent, Held(Repeating([], TWO, 1)), PacketsOf(TWO)[1]).digest == Some(spent([2]))
  {
    hide Held, Absorb;
    RepeatedContext([], THREE, 1);
    RepeatedContext([], TWO, 1);
    assert THREE.blocks[..2] == [[1], [2]] && THREE.blocks[1..] == [[2], [3]];
    PairConcat([1], [2]);
    PairConcat([2], [3]);
    hide Concat;
    assert Concat(THREE.blocks[..2]) + Concat(THREE.blocks[1..]) == [1, 2, 2, 3];
  }

  lemma PairConcat(a: seq<byte>, b: seq<byte>)
    ensures Concat([a, b]) == a + b
  {
    assert [a, b][..1] == [a] && [a][..0] == [];
    assert Concat([a]) == [] + a;
  }
}
