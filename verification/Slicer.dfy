/**
 The block slicer of the nanoCoAP blockwise API, by contract: it sees a body piece by piece and writes out
 only what falls inside one block's window. The library itself is not part of this model; the window and
 the M bit follow sections 2.2 and 2.4 of RFC 7959.
 */
module Slicer {
  newtype byte = x: int | 0 <= x < 256

  function Clamp(i: int, n: nat): (r: nat)
    ensures r <= n
  {
    if i < 0 then 0 else if i > n then n else i
  }

  /** The part of `s` at offsets `lo` to `hi`, as far as `s` reaches; the offsets may lie outside it. */
  function Window(s: seq<byte>, lo: int, hi: int): seq<byte>
    requires lo <= hi
  {
    s[Clamp(lo, |s|)..Clamp(hi, |s|)]
  }

  /** What a window holds: the bytes of `s` from `lo` on, and none outside `s` or past `hi`. */
  lemma WindowBytes(s: seq<byte>, lo: nat, hi: nat)
    requires lo <= hi
    ensures Window(s, lo, hi) == if |s| <= lo then [] else if |s| <= hi then s[lo..] else s[lo..hi]
  {
  }

  /** A window over two pieces is a window over the first, then one over the second counted from its own start. */
  lemma WindowAppend(s: seq<byte>, t: seq<byte>, lo: int, hi: int)
    requires lo <= hi
    ensures Window(s + t, lo, hi) == Window(s, lo, hi) + Window(t, lo - |s|, hi - |s|)
  {
  }

  function Concat(pieces: seq<seq<byte>>): seq<byte> {
    if pieces == [] then [] else Concat(pieces[..|pieces| - 1]) + pieces[|pieces| - 1]
  }

  /** What a fresh slicer writes when it is given the pieces one after the other. */
  function Sliced(pieces: seq<seq<byte>>, start: nat, end: nat): seq<byte>
    requires start <= end
  {
    if pieces == [] then []
    else
      var front := pieces[..|pieces| - 1];
      Sliced(front, start, end) + Window(pieces[|pieces| - 1], start - |Concat(front)|, end - |Concat(front)|)
  }

  /** Piecewise slicing is slicing of the whole, for any pieces and any window. */
  lemma {:induction false} SlicedIsWindow(pieces: seq<seq<byte>>, start: nat, end: nat)
    requires start <= end
    ensures Sliced(pieces, start, end) == Window(Concat(pieces), start, end)
  {
    if pieces != [] {
      var front := pieces[..|pieces| - 1];
      SlicedIsWindow(front, start, end);
      WindowAppend(Concat(front), pieces[|pieces| - 1], start, end);
    }
  }

  /** `memcpy(buf + pos, part, n)`. */
  method CopyAt(buf: array<byte>, pos: nat, part: seq<byte>)
    requires pos + |part| <= buf.Length
    modifies buf
    ensures buf[..pos + |part|] == old(buf[..pos]) + part
  {
    for i := 0 to |part|
      invariant buf[..pos + i] == old(buf[..pos]) + part[..i]
    {
      buf[pos + i] := part[i];
      assert buf[..pos + i + 1] == buf[..pos + i] + [part[i]];
    }
  }

  class BlockSlicer {
    const start: nat
    const end: nat
    var cur: nat
    /** The pieces offered so far, end to end. */
    ghost var seen: seq<byte>

    /** The first `pos` bytes of `buf` are this slicer's window of what it has seen, and a whole block fits. */
    ghost predicate Wrote(buf: array<byte>, pos: nat)
      reads this, buf
    {
      && start <= end && cur == |seen|
      && pos <= buf.Length && end - start <= buf.Length
      && buf[..pos] == Window(seen, start, end)
    }

    constructor (num: nat, size: nat)
      ensures start == num * size && end == start + size && cur == 0 && seen == []
    {
      start, end, cur, seen := num * size, num * size + size, 0, [];
    }

    /** `coap_blockwise_put_bytes`: copy the overlap with the window and move the cursor past the whole piece. */
    method PutBytes(buf: array<byte>, pos: nat, data: seq<byte>) returns (n: nat)
      requires Wrote(buf, pos)
      modifies this, buf
      ensures seen == old(seen) + data && Wrote(buf, pos + n)
    {
      WindowAppend(seen, data, start, end);
      var part := Window(data, start - cur, end - cur);
      n := |part|;
      CopyAt(buf, pos, part);
      cur, seen := cur + |data|, seen + data;
    }

    /** `coap_blockwise_put_char`: write the character if the cursor is inside the window; the cursor always moves. */
    method PutChar(buf: array<byte>, pos: nat, c: byte) returns (n: nat)
      requires Wrote(buf, pos)
      modifies this, buf
      ensures seen == old(seen) + [c] && Wrote(buf, pos + n)
    {
      WindowAppend(seen, [c], start, end);
      if start <= cur < end {
        buf[pos] := c;
        n := 1;
        assert buf[..pos + 1] == buf[..pos] + [c];
      } else {
        n := 0;
      }
      cur, seen := cur + 1, seen + [c];
    }

    /** The M bit: content goes on past this block. */
    function More(): bool
      reads this
    {
      cur > end
    }
  }
}
