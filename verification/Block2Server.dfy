/** The server's side of a Block2 exchange: `/riot/ver` written piece by piece into the reply. */
module Block2Server {
  import opened Wrappers
  import opened Parity
  import opened Slicer

  /** A Block2 option as a message carries it: block number and size exponent, the M bit only in replies. */
  datatype Block2 = Block2(num: nat, szx: nat)

  datatype Reply = Reply(block: Block2, more: bool, payload: seq<byte>)

  /** Section 2.2 of RFC 7959: the block size is two to the power of SZX plus four. */
  function BlockSize(szx: nat): (size: nat)
    ensures size >= 16
  {
    if szx == 0 then 16 else 2 * BlockSize(szx - 1)
  }

  /** The exponent's meaning, in full. */
  lemma {:induction false} BlockSizeIs(szx: nat)
    ensures BlockSize(szx) == 16 * Pow2(szx)
    ensures BlockSize(0) == 16 && BlockSize(2) == 64 && BlockSize(6) == 1024
  {
    if szx > 0 {
      BlockSizeIs(szx - 1);
    }
  }

  /** The block a request is answered with: its own number, and its size unless the server's is smaller. */
  function Granted(request: Option<Block2>, serverSzx: nat): Block2 {
    match request
    case None => Block2(0, serverSzx)
    case Some(b) => Block2(b.num, if b.szx < serverSzx then b.szx else serverSzx)
  }

  /** The reply a request for a body deserves. */
  function Serve(body: seq<byte>, request: Option<Block2>, serverSzx: nat): Reply {
    var b := Granted(request, serverSzx);
    var start := b.num * BlockSize(b.szx);
    Reply(b, |body| > start + BlockSize(b.szx), Window(body, start, start + BlockSize(b.szx)))
  }

  /**
   The reply in the request's own terms: its number, the smaller of the two exponents, the body's bytes from that many
   blocks on, as many as the block holds, and M exactly when the body goes on.
   */
  lemma ServeIs(body: seq<byte>, request: Option<Block2>, serverSzx: nat)
    ensures var reply := Serve(body, request, serverSzx);
      var num, szx := reply.block.num, reply.block.szx;
      var start, size := num * (16 * Pow2(szx)), 16 * Pow2(szx);
      && num == (if request == None then 0 else request.value.num)
      && szx <= serverSzx && (request == None ==> szx == serverSzx)
      && (request != None ==> szx <= request.value.szx && (szx == serverSzx || szx == request.value.szx))
      && (reply.more <==> |body| > start + size)
      && reply.payload == (
           if |body| <= start then [] else if |body| <= start + size then body[start..] else body[start..start + size])
  {
    hide BlockSize, Window, Pow2;
    var b := Granted(request, serverSzx);
    BlockSizeIs(b.szx);
    var start := b.num * BlockSize(b.szx);
    WindowBytes(body, start, start + BlockSize(b.szx));
  }

  function Bytes(s: string): seq<byte> {
    seq(|s|, i requires 0 <= i < |s| => Byte(s[i]))
  }

  const INTRO := Bytes("This is RIOT (Version: ")
  const ON_BOARD := Bytes(" running on a ")
  const WITH_MCU := Bytes(" board with a ")

  function Byte(c: char): byte {
    (c as int % 256) as byte
  }

  /** The text `/riot/ver` stands for; version, board and MCU are build constants. */
  function VersionBody(version: seq<byte>, board: seq<byte>, mcu: seq<byte>): seq<byte> {
    Concat([INTRO, version, Bytes(")"), ON_BOARD, board, WITH_MCU, mcu, Bytes(" MCU.")])
  }

  /** ASCII characters as bytes. */
  predicate IsAscii(s: string) {
    forall c :: c in s ==> c as int < 128
  }

  lemma BytesAppend(s: string, t: string)
    ensures Bytes(s + t) == Bytes(s) + Bytes(t)
  {
  }

  /** The bytes are the characters' codes, so two ASCII texts with the same bytes are the same text. */
  lemma BytesAre(s: string)
    requires IsAscii(s)
    ensures |Bytes(s)| == |s| && forall i :: 0 <= i < |s| ==> Bytes(s)[i] as int == s[i] as int
  {
    forall i | 0 <= i < |s| ensures Bytes(s)[i] as int == s[i] as int {
      assert s[i] in s;
    }
  }

  lemma BodyInOrder(version: seq<byte>, board: seq<byte>, mcu: seq<byte>)
    ensures VersionBody(version, board, mcu) ==
            [] + (INTRO + version + Bytes(")")) + (ON_BOARD + board + WITH_MCU + mcu) + Bytes(" MCU.")
  {
    hide INTRO, ON_BOARD, WITH_MCU, Bytes;
    var ps := [INTRO, version, Bytes(")"), ON_BOARD, board, WITH_MCU, mcu, Bytes(" MCU.")];
    Snoc(ps, 7); Snoc(ps, 6); Snoc(ps, 5); Snoc(ps, 4); Snoc(ps, 3); Snoc(ps, 2); Snoc(ps, 1); Snoc(ps, 0);
  }

  /** The text itself, character by character. */
  lemma VersionBodyIs(version: string, board: string, mcu: string)
    ensures VersionBody(Bytes(version), Bytes(board), Bytes(mcu)) ==
            Bytes("This is RIOT (Version: " + version + ") running on a " + board + " board with a " + mcu + " MCU.")
  {
    BodyInOrder(Bytes(version), Bytes(board), Bytes(mcu));
    hide Bytes;
    var a, b, c, d := "This is RIOT (Version: ", ") running on a ", " board with a ", " MCU.";
    BytesAppend(")", " running on a ");
    BytesAppend(a, version);
    BytesAppend(a + version, b);
    BytesAppend(a + version + b, board);
    BytesAppend(a + version + b + board, c);
    BytesAppend(a + version + b + board + c, mcu);
    BytesAppend(a + version + b + board + c + mcu, d);
    assert ")" + " running on a " == b;
  }

  /** The writer's text grows piece by piece. */
  lemma Snoc(ps: seq<seq<byte>>, n: nat)
    requires n < |ps|
    ensures Concat(ps[..n + 1]) == Concat(ps[..n]) + ps[n]
    ensures ps[..0] == [] && ps[..|ps|] == ps
  {
    assert ps[..n + 1][..n] == ps[..n];
  }

  /** The introduction, the version and the closing bracket. */
  method PutVersion(slicer: BlockSlicer, buf: array<byte>, version: seq<byte>) returns (pos: nat)
    requires slicer.Wrote(buf, 0)
    modifies slicer, buf
    ensures slicer.seen == old(slicer.seen) + (INTRO + version + Bytes(")")) && slicer.Wrote(buf, pos)
  {
    hide INTRO, BlockSlicer.Wrote;
    var n := slicer.PutBytes(buf, 0, INTRO);
    pos := n;
    n := slicer.PutBytes(buf, pos, version);
    pos := pos + n;
    n := slicer.PutChar(buf, pos, Byte(')'));
    pos := pos + n;
    assert Bytes(")") == [Byte(')')];
  }

  /** The board and the MCU with the words before them. */
  method PutBoard(slicer: BlockSlicer, buf: array<byte>, from: nat, board: seq<byte>, mcu: seq<byte>)
      returns (pos: nat)
    requires slicer.Wrote(buf, from)
    modifies slicer, buf
    ensures slicer.seen == old(slicer.seen) + (ON_BOARD + board + WITH_MCU + mcu) && slicer.Wrote(buf, pos)
  {
    hide ON_BOARD, WITH_MCU, BlockSlicer.Wrote;
    var n := slicer.PutBytes(buf, from, ON_BOARD);
    pos := from + n;
    n := slicer.PutBytes(buf, pos, board);
    pos := pos + n;
    n := slicer.PutBytes(buf, pos, WITH_MCU);
    pos := pos + n;
    n := slicer.PutBytes(buf, pos, mcu);
    pos := pos + n;
  }

  /** The last five characters, one at a time. */
  method PutClosing(slicer: BlockSlicer, buf: array<byte>, from: nat) returns (pos: nat)
    requires slicer.Wrote(buf, from)
    modifies slicer, buf
    ensures slicer.seen == old(slicer.seen) + Bytes(" MCU.") && slicer.Wrote(buf, pos)
  {
    hide BlockSlicer.Wrote, Byte;
    var n := slicer.PutChar(buf, from, Byte(' '));
    pos := from + n;
    n := slicer.PutChar(buf, pos, Byte('M'));
    pos := pos + n;
    n := slicer.PutChar(buf, pos, Byte('C'));
    pos := pos + n;
    n := slicer.PutChar(buf, pos, Byte('U'));
    pos := pos + n;
    n := slicer.PutChar(buf, pos, Byte('.'));
    pos := pos + n;
    assert Bytes(" MCU.") == [Byte(' '), Byte('M'), Byte('C'), Byte('U'), Byte('.')];
  }

  lemma NothingWritten(slicer: BlockSlicer, buf: array<byte>)
    requires slicer.start <= slicer.end <= slicer.start + buf.Length && slicer.cur == 0 && slicer.seen == []
    ensures slicer.Wrote(buf, 0)
  {
  }

  lemma AllWritten(slicer: BlockSlicer, buf: array<byte>, pos: nat)
    requires slicer.Wrote(buf, pos)
    ensures slicer.start <= slicer.end && slicer.cur == |slicer.seen| && pos <= buf.Length
    ensures buf[..pos] == Window(slicer.seen, slicer.start, slicer.end)
  {
  }

  /**
   `_riot_block2_handler`: the writes through one slicer put the requested block of the body, and nothing
   else, into the payload, in a buffer of just one block.
   */
  method RiotBlock2Handler(version: seq<byte>, board: seq<byte>, mcu: seq<byte>,
                           request: Option<Block2>, serverSzx: nat, buf: array<byte>) returns (reply: Reply)
    requires buf.Length >= BlockSize(Granted(request, serverSzx).szx)
    modifies buf
    ensures reply == Serve(VersionBody(version, board, mcu), request, serverSzx)
    ensures |reply.payload| <= buf.Length && buf[..|reply.payload|] == reply.payload
  {
    hide VersionBody, INTRO, ON_BOARD, WITH_MCU, Bytes, Window, BlockSize, BlockSlicer.Wrote;
    var block := Granted(request, serverSzx);
    var slicer := new BlockSlicer(block.num, BlockSize(block.szx));
    NothingWritten(slicer, buf);
    var pos := PutVersion(slicer, buf, version);
    pos := PutBoard(slicer, buf, pos, board, mcu);
    pos := PutClosing(slicer, buf, pos);
    BodyInOrder(version, board, mcu);
    AllWritten(slicer, buf, pos);
    reply := Reply(block, slicer.More(), buf[..pos]);
  }
}
