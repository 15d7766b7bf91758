/**
 SLIP framing of the tunnel bridge: packets are escaped into an output buffer that is
 flushed by partial writes; the reader unescapes whatever bytes each call finds.
 */
module Slip {
  import opened Bytes
  import opened Checksum

  const SLIP_END: byte := 0xC0
  const SLIP_ESC: byte := 0xDB
  const SLIP_ESC_END: byte := 0xDC
  const SLIP_ESC_ESC: byte := 0xDD
  const BUF_SIZE: nat := 2000

  // ---------------------------------------------------------------------------
  // Encoding
  // ---------------------------------------------------------------------------

  function EscapeByte(b: byte): (r: seq<byte>) {
    if b == SLIP_END then [SLIP_ESC, SLIP_ESC_END]
    else if b == SLIP_ESC then [SLIP_ESC, SLIP_ESC_ESC]
    else [b]
  }

  function Escape(p: seq<byte>): seq<byte> {
    if p == [] then [] else Escape(p[..|p| - 1]) + EscapeByte(p[|p| - 1])
  }

  function Encode(p: seq<byte>): seq<byte> {
    Escape(p) + [SLIP_END]
  }

  /** Packets one after the other; an empty packet is a lone end marker, such as the
      one that the program sends when it starts. */
  function EncodeAll(ps: seq<seq<byte>>): seq<byte> {
    if ps == [] then [] else Encode(ps[0]) + EncodeAll(ps[1..])
  }

  // ---------------------------------------------------------------------------
  // Decoding
  // ---------------------------------------------------------------------------

  /** Frames found, the unfinished frame, and the input left: nothing, or an escape
      byte whose second byte has not come yet. */
  datatype Decoded = Decoded(frames: seq<seq<byte>>, current: seq<byte>, pending: seq<byte>)

  /** The buffer starts again when it is full. */
  function Store(current: seq<byte>, c: byte): seq<byte> {
    if |current| + 1 >= BUF_SIZE then [] else current + [c]
  }

  function Unescape(c: byte): byte {
    if c == SLIP_ESC_END then SLIP_END else if c == SLIP_ESC_ESC then SLIP_ESC else c
  }

  function Decode(current: seq<byte>, input: seq<byte>): (d: Decoded)
    decreases |input|
  {
    if input == [] then Decoded([], current, [])
    else if input[0] == SLIP_END then
      var d := Decode([], input[1..]);
      if current == [] then d else d.(frames := [current] + d.frames)
    else if input[0] == SLIP_ESC then
      if |input| == 1 then Decoded([], current, input)
      else Decode(Store(current, Unescape(input[1])), input[2..])
    else Decode(Store(current, input[0]), input[1..])
  }

  /** What the first `a` bytes leave behind is all that decoding the rest needs. */
  lemma {:induction false} DecodeAppend(current: seq<byte>, a: seq<byte>, b: seq<byte>)
    ensures var d := Decode(current, a);
            var e := Decode(d.current, d.pending + b);
            Decode(current, a + b) == Decoded(d.frames + e.frames, e.current, e.pending)
    decreases |a|
  {
    if a == [] {
      assert a + b == b && Decode(current, a).pending + b == b;
    } else if a[0] == SLIP_END {
      DecodeAppend([], a[1..], b);
      assert (a + b)[1..] == a[1..] + b;
      ConsAppend(current, Decode([], a[1..]).frames);
    } else if a[0] == SLIP_ESC {
      if |a| > 1 {
        DecodeAppend(Store(current, Unescape(a[1])), a[2..], b);
        assert (a + b)[2..] == a[2..] + b;
      }
    } else {
      DecodeAppend(Store(current, a[0]), a[1..], b);
      assert (a + b)[1..] == a[1..] + b;
    }
  }

  lemma ConsAppend(x: seq<byte>, fs: seq<seq<byte>>)
    ensures forall gs: seq<seq<byte>> :: [x] + (fs + gs) == ([x] + fs) + gs
  {
  }

  lemma {:induction false} DecodeEscape(current: seq<byte>, p: seq<byte>)
    requires |current| + |p| < BUF_SIZE
    ensures Decode(current, Escape(p)) == Decoded([], current + p, [])
  {
    hide EscapeByte, Decode;
    if p == [] {
      NothingLeft(current);
      assert current + p == current;
    } else {
      var front, c := p[..|p| - 1], p[|p| - 1];
      DecodeEscape(current, front);
      DecodeAppend(current, Escape(front), EscapeByte(c));
      DecodeEscapedByte(current + front, c);
      assert [] + EscapeByte(c) == EscapeByte(c);
      assert (current + front) + [c] == current + p;
    }
  }

  lemma NothingLeft(current: seq<byte>)
    ensures Decode(current, []) == Decoded([], current, [])
  {
  }

  lemma DecodeEscapedByte(current: seq<byte>, c: byte)
    requires |current| + 1 < BUF_SIZE
    ensures Decode(current, EscapeByte(c)) == Decoded([], current + [c], [])
  {
    if c == SLIP_END || c == SLIP_ESC {
      var e := EscapeByte(c);
      assert e[2..] == [] && Unescape(e[1]) == c;
      assert Decode(current, e) == Decode(current + [c], e[2..]);
    } else {
      assert EscapeByte(c)[1..] == [];
    }
  }

  /** One packet. */
  lemma DecodePacket(p: seq<byte>)
    requires |p| < BUF_SIZE
    ensures Decode([], Encode(p)) == Decoded(if p == [] then [] else [p], [], [])
  {
    DecodeEscape([], p);
    DecodeAppend([], Escape(p), [SLIP_END]);
    assert [] + p == p && [] + [SLIP_END] == [SLIP_END] && [SLIP_END][1..] == [];
    assert Decode(p, [SLIP_END]) == Decoded(if p == [] then [] else [p], [], []);
  }

  function NonEmpty(ps: seq<seq<byte>>): seq<seq<byte>> {
    if ps == [] then [] else (if ps[0] == [] then [] else [ps[0]]) + NonEmpty(ps[1..])
  }

  /** Encoded packets are recovered, in order. */
  lemma {:induction false} RoundTrip(ps: seq<seq<byte>>)
    requires forall i :: 0 <= i < |ps| ==> |ps[i]| < BUF_SIZE
    ensures Decode([], EncodeAll(ps)) == Decoded(NonEmpty(ps), [], [])
  {
    if ps != [] {
      RoundTrip(ps[1..]);
      DecodePacket(ps[0]);
      DecodeAppend([], Encode(ps[0]), EncodeAll(ps[1..]));
      assert [] + EncodeAll(ps[1..]) == EncodeAll(ps[1..]);
    }
  }

  lemma {:induction false} FramesFit(current: seq<byte>, input: seq<byte>)
    requires |current| < BUF_SIZE
    ensures var d := Decode(current, input);
            |d.current| < BUF_SIZE && forall i :: 0 <= i < |d.frames| ==> 0 < |d.frames[i]| < BUF_SIZE
    decreases |input|
  {
    if input != [] {
      if input[0] == SLIP_END {
        FramesFit([], input[1..]);
      } else if input[0] == SLIP_ESC {
        if |input| > 1 { FramesFit(Store(current, Unescape(input[1])), input[2..]); }
      } else {
        FramesFit(Store(current, input[0]), input[1..]);
      }
    }
  }

  /** Exactly which packets are recovered: those of 1 to 1999 bytes. */
  lemma RecoveredExactly(p: seq<byte>)
    ensures Decode([], Encode(p)).frames == [p] <==> 0 < |p| < BUF_SIZE
  {
    FramesFit([], Encode(p));
    if |p| < BUF_SIZE {
      DecodePacket(p);
    } else {
      var frames := Decode([], Encode(p)).frames;
      assert |frames| == 1 ==> |frames[0]| < BUF_SIZE;
    }
  }

  /** Successive reads, each of whatever has arrived. */
  function ReadAll(d: Decoded, chunks: seq<seq<byte>>): Decoded
    decreases |chunks|
  {
    if chunks == [] then d
    else
      var e := Decode(d.current, d.pending + chunks[0]);
      ReadAll(Decoded(d.frames + e.frames, e.current, e.pending), chunks[1..])
  }

  function Concat(chunks: seq<seq<byte>>): seq<byte> {
    if chunks == [] then [] else chunks[0] + Concat(chunks[1..])
  }

  /** Reading in pieces is reading at once. */
  lemma {:induction false} ReadAllIsDecode(d: Decoded, chunks: seq<seq<byte>>)
    requires Decode(d.current, d.pending) == Decoded([], d.current, d.pending)
    ensures var e := Decode(d.current, d.pending + Concat(chunks));
            ReadAll(d, chunks) == Decoded(d.frames + e.frames, e.current, e.pending)
    decreases |chunks|
  {
    hide Decode;
    if chunks == [] {
      assert d.pending + [] == d.pending;
      assert d.frames + [] == d.frames;
    } else {
      var input := d.pending + chunks[0];
      var e := Decode(d.current, input);
      var next := Decoded(d.frames + e.frames, e.current, e.pending);
      LeftOver(d.current, input);
      ReadAllIsDecode(next, chunks[1..]);
      DecodeAppend(d.current, input, Concat(chunks[1..]));
      assert d.pending + Concat(chunks) == input + Concat(chunks[1..]);
      var rest := Decode(e.current, e.pending + Concat(chunks[1..]));
      assert (d.frames + e.frames) + rest.frames == d.frames + (e.frames + rest.frames);
    }
  }

  /** Decoding again what was left over finds nothing more. */
  lemma LeftOver(current: seq<byte>, input: seq<byte>)
    ensures var d := Decode(current, input);
            Decode(d.current, d.pending) == Decoded([], d.current, d.pending)
  {
    PendingIsEscape(current, input);
  }

  lemma {:induction false} PendingIsEscape(current: seq<byte>, input: seq<byte>)
    ensures var d := Decode(current, input); d.pending == [] || d.pending == [SLIP_ESC]
    decreases |input|
  {
    if input != [] {
      if input[0] == SLIP_END {
        PendingIsEscape([], input[1..]);
      } else if input[0] == SLIP_ESC {
        if |input| > 1 { PendingIsEscape(Store(current, Unescape(input[1])), input[2..]); }
      } else {
        PendingIsEscape(Store(current, input[0]), input[1..]);
      }
    }
  }

  /** However the byte stream is cut into reads, the reader recovers the packets that
      were written. */
  lemma AnySplitRecovers(ps: seq<seq<byte>>, chunks: seq<seq<byte>>)
    requires forall i :: 0 <= i < |ps| ==> |ps[i]| < BUF_SIZE
    requires Concat(chunks) == EncodeAll(ps)
    ensures ReadAll(Decoded([], [], []), chunks) == Decoded(NonEmpty(ps), [], [])
  {
    assert Decode([], []) == Decoded([], [], []);
    ReadAllIsDecode(Decoded([], [], []), chunks);
    assert [] + Concat(chunks) == EncodeAll(ps);
    RoundTrip(ps);
    assert [] + NonEmpty(ps) == NonEmpty(ps);
  }

  /** While part of the stream is still on its way, the frames found so far are the
      first packets. */
  lemma PartOfTheStream(ps: seq<seq<byte>>, wire: seq<byte>, rest: seq<byte>)
    requires forall i :: 0 <= i < |ps| ==> |ps[i]| < BUF_SIZE
    requires wire + rest == EncodeAll(ps)
    ensures Decode([], wire).frames <= NonEmpty(ps)
  {
    DecodeAppend([], wire, rest);
    RoundTrip(ps);
  }

  /** Queueing one more packet. */
  lemma {:induction false} EncodeAllSnoc(ps: seq<seq<byte>>, p: seq<byte>)
    ensures EncodeAll(ps + [p]) == EncodeAll(ps) + Encode(p)
  {
    hide Encode;
    if ps == [] {
      assert [p][1..] == [] && [] + [p] == [p];
      assert EncodeAll([p]) == Encode(p) + [];
    } else {
      EncodeAllSnoc(ps[1..], p);
      assert (ps + [p])[1..] == ps[1..] + [p];
    }
  }

  // ---------------------------------------------------------------------------
  // The reader
  // ---------------------------------------------------------------------------

  class Reader {
    const inbuf: array<byte>
    var inbufptr: nat
    var input: seq<byte>

    ghost predicate Valid()
      reads this, inbuf
    {
      inbuf.Length == BUF_SIZE && inbufptr < BUF_SIZE
    }

    ghost function Current(): seq<byte>
      reads this, inbuf
      requires Valid()
    {
      inbuf[..inbufptr]
    }

    constructor ()
      ensures Valid() && fresh(inbuf) && Current() == [] && input == []
    {
      inbuf := new byte[BUF_SIZE](_ => 0);
      inbufptr, input := 0, [];
    }

    /** Bytes arrive on the line. */
    method Arrive(bytes: seq<byte>)
      modifies this`input
      ensures input == old(input) + bytes
    {
      input := input + bytes;
    }

    method StoreByte(c: byte)
      requires Valid()
      modifies this`inbufptr, inbuf
      ensures Valid() && Current() == Store(old(Current()), c)
    {
      inbuf[inbufptr] := c;
      inbufptr := inbufptr + 1;
      if inbufptr >= BUF_SIZE {
        inbufptr := 0;
      }
    }

    /** serial_to_tun, up to what is done with a complete frame: reads until the input
        is exhausted; an escape byte at its end is put back. */
    method SerialToTun() returns (frames: seq<seq<byte>>)
      requires Valid()
      modifies this, inbuf
      ensures Valid()
      ensures Decoded(frames, Current(), input) == Decode(old(Current()), old(input))
    {
      hide Store;
      frames := [];
      ghost var goal := Decode(Current(), input);
      while input != []
        invariant Valid()
        invariant var d := Decode(Current(), input); goal == d.(frames := frames + d.frames)
        decreases |input|
      {
        var c := input[0];
        if c == SLIP_END {
          input := input[1..];
          if inbufptr > 0 {
            frames := frames + [inbuf[..inbufptr]];
            inbufptr := 0;
          }
        } else if c == SLIP_ESC {
          if |input| == 1 {
            return;
          }
          c := Unescape(input[1]);
          input := input[2..];
          StoreByte(c);
        } else {
          input := input[1..];
          StoreByte(c);
        }
      }
    }
  }

  // ---------------------------------------------------------------------------
  // The writer
  // ---------------------------------------------------------------------------

  datatype Outcome = Queued | Dropped | Overflow

  /** The packet that is queued for an accepted packet: numbered if necessary. */
  function Outgoing(mem: seq<byte>, id: nat, little: bool): (r: seq<byte>)
    requires MAX_HEADER_LEN <= |mem| && id < 0x1_0000
    ensures |r| == |mem|
  {
    if NeedsId(mem, little) then WithId(mem, id) else mem
  }

  class Writer {
    const slipBuf: array<byte>
    var slipEnd: nat
    var slipBegin: nat
    var ipId: nat
    const little: bool
    /** Every byte ever queued, and every byte ever written to the line. */
    ghost var queued: seq<byte>
    ghost var wire: seq<byte>

    /** Nothing is lost, written twice or reordered between the queue and the line. */
    ghost predicate Valid()
      reads this, slipBuf
    {
      && slipBuf.Length == BUF_SIZE && slipBegin <= slipEnd <= BUF_SIZE && ipId < 0x1_0000
      && (slipBegin == slipEnd ==> slipEnd == 0)
      && wire + slipBuf[slipBegin..slipEnd] == queued
    }

    constructor (littleEndian: bool)
      ensures Valid() && fresh(slipBuf) && queued == [] && wire == [] && slipEnd == 0 && ipId == 0 && little == littleEndian
    {
      slipBuf := new byte[BUF_SIZE](_ => 0);
      slipEnd, slipBegin, ipId, little := 0, 0, 0, littleEndian;
      queued, wire := [], [];
    }

    /** slip_send; the program ends on an overflow. */
    method SlipSend(c: byte) returns (ok: bool)
      requires Valid()
      modifies this`slipEnd, this`queued, slipBuf
      ensures Valid()
      ensures ok <==> old(slipEnd) < BUF_SIZE
      ensures ok ==> slipEnd == old(slipEnd) + 1 && queued == old(queued) + [c]
      ensures !ok ==> slipEnd == old(slipEnd) && queued == old(queued)
    {
      if slipEnd >= BUF_SIZE {
        return false;
      }
      slipBuf[slipEnd] := c;
      slipEnd := slipEnd + 1;
      queued := queued + [c];
      assert slipBuf[slipBegin..slipEnd] == old(slipBuf[slipBegin..slipEnd]) + [c];
      return true;
    }

    /** slip_flushbuf: the system takes any part of what is offered, or nothing. */
    method FlushBuf(written: nat)
      requires Valid() && slipBegin + written <= slipEnd
      modifies this`slipBegin, this`slipEnd, this`wire
      ensures Valid() && queued == old(queued)
      ensures wire == old(wire) + old(slipBuf[slipBegin..slipBegin + written])
      ensures written == old(slipEnd - slipBegin) ==> slipEnd == 0 && wire == queued
    {
      if slipEnd == 0 {
        return;
      }
      assert slipBuf[slipBegin..slipEnd]
          == slipBuf[slipBegin..slipBegin + written] + slipBuf[slipBegin + written..slipEnd];
      wire := wire + slipBuf[slipBegin..slipBegin + written];
      slipBegin := slipBegin + written;
      if slipBegin == slipEnd {
        slipBegin, slipEnd := 0, 0;
      }
    }

    /** The escaping loop of write_to_serial: succeeds exactly when the encoded packet
        fits behind what is queued already. */
    method Queue(p: array<byte>, len: nat) returns (ok: bool)
      requires Valid() && len <= p.Length && p != slipBuf
      modifies this`slipEnd, this`queued, slipBuf
      ensures Valid()
      ensures ok <==> old(slipEnd) + |Encode(p[..len])| <= BUF_SIZE
      ensures ok ==> queued == old(queued) + Encode(p[..len]) && slipEnd == old(slipEnd) + |Encode(p[..len])|
    {
      hide EscapeByte;
      var i := 0;
      while i < len
        invariant 0 <= i <= len && Valid()
        invariant queued == old(queued) + Escape(p[..i]) && slipEnd == old(slipEnd) + |Escape(p[..i])|
      {
        assert p[..i + 1][..i] == p[..i];
        EscapeGrows(p[..len], i + 1);
        assert p[..len][..i + 1] == p[..i + 1];
        ok := SendEscaped(p[i]);
        if !ok {
          return;
        }
        i := i + 1;
      }
      ok := SlipSend(SLIP_END);
    }

    method SendEscaped(c: byte) returns (ok: bool)
      requires Valid()
      modifies this`slipEnd, this`queued, slipBuf
      ensures Valid()
      ensures ok <==> old(slipEnd) + |EscapeByte(c)| <= BUF_SIZE
      ensures ok ==> queued == old(queued) + EscapeByte(c) && slipEnd == old(slipEnd) + |EscapeByte(c)|
    {
      if c == SLIP_END {
        ok := SlipSend(SLIP_ESC);
        if ok { ok := SlipSend(SLIP_ESC_END); }
      } else if c == SLIP_ESC {
        ok := SlipSend(SLIP_ESC);
        if ok { ok := SlipSend(SLIP_ESC_ESC); }
      } else {
        ok := SlipSend(c);
      }
    }

    /** write_to_serial: a packet that fails the check is dropped; otherwise the packet,
        numbered if it asks for it, is queued whole. Only packets with a header length
        of 8, or of fewer than 12 bytes, can fail the second check. */
    method WriteToSerial(buf: array<byte>, len: nat) returns (r: Outcome)
      requires Valid() && MAX_HEADER_LEN <= buf.Length && len <= buf.Length && len < 0x1_0000 && buf != slipBuf
      modifies this`slipEnd, this`queued, this`ipId, slipBuf, buf
      ensures Valid()
      ensures r.Dropped? ==> queued == old(queued)
      ensures var mem := old(buf[..]);
              var out := Outgoing(mem, old(ipId), little);
              && (CheckIp(mem, len) != Ok ==> r.Dropped? && buf[..] == mem && ipId == old(ipId))
              && (CheckIp(mem, len) == Ok ==>
                    && buf[..] == out && ipId == (if NeedsId(mem, little) then (old(ipId) + 1) % 0x1_0000 else old(ipId))
                    && (r.Dropped? <==> CheckIp(out, len) != Ok)
                    && (12 <= len && HeaderLen(mem) != 8 ==> !r.Dropped?)
                    && (!r.Dropped? ==> (r.Queued? <==> old(slipEnd) + |Encode(out[..len])| <= BUF_SIZE))
                    && (r.Queued? ==> CheckIp(out, len) == Ok && queued == old(queued) + Encode(out[..len])))
    {
      hide CheckIp, HostWord, WithId, Encode, HeaderLen;
      ghost var mem := buf[..];
      var v := CheckPacket(buf, len);
      if v != Ok {
        return Dropped;
      }
      if Word(buf[4], buf[5]) == 0 && HostWord(little, buf[6], buf[7]) / 0x4000 % 2 == 1 {
        var id := ipId;
        ipId := (ipId + 1) % 0x1_0000;
        RewriteId(buf, id, little);
        if 12 <= len && HeaderLen(mem) != 8 {
          RewriteKeepsVerdict(mem, len, id);
        }
        v := CheckPacket(buf, len);
        if v != Ok {
          return Dropped;
        }
      }
      assert buf[..] == Outgoing(mem, old(ipId), little);
      assert buf[..len] == buf[..][..len];
      var ok := Queue(buf, len);
      r := if ok then Queued else Overflow;
    }
  }

  lemma {:induction false} EscapeGrows(p: seq<byte>, k: nat)
    requires k <= |p|
    ensures |Escape(p[..k])| <= |Escape(p)|
    decreases |p| - k
  {
    if k == |p| {
      assert p[..k] == p;
    } else {
      EscapeGrows(p, k + 1);
      assert p[..k + 1][..k] == p[..k];
    }
  }

  /** After an escape byte that is not followed by one of the two codes, the byte behind it
      is taken as it is (RFC 1055, PROTOCOL). */
  lemma BadEscape(current: seq<byte>, c: byte, rest: seq<byte>)
    requires c != SLIP_ESC_END && c != SLIP_ESC_ESC && |current| + 1 < BUF_SIZE
    ensures Decode(current, [SLIP_ESC, c] + rest) == Decode(current + [c], rest)
  {
    assert ([SLIP_ESC, c] + rest)[2..] == rest;
  }

  /** A frame that fills the buffer is dropped up to there. */
  lemma FullBuffer(current: seq<byte>, c: byte, rest: seq<byte>)
    requires c != SLIP_ESC && c != SLIP_END && |current| == BUF_SIZE - 1
    ensures Decode(current, [c] + rest) == Decode([], rest)
  {
    assert ([c] + rest)[1..] == rest;
  }

  /** What leaves the tunnel: a packet that asks for it carries the next number, and every
      byte but those of its number and its checksum is as it came; any other packet is
      untouched. */
  lemma NumberedExactly(mem: seq<byte>, id: nat, little: bool)
    requires MAX_HEADER_LEN <= |mem| && id < 0x1_0000
    ensures var r := Outgoing(mem, id, little);
            && (NeedsId(mem, little) ==> Checksum.Word(r[4], r[5]) == id)
            && (!NeedsId(mem, little) ==> r == mem)
            && forall i :: 0 <= i < |mem| && i !in {4, 5, 10, 11} ==> r[i] == mem[i]
  {
    hide NeedsId, Add;
    assert WordAt(WithId(mem, id), 4) == id;
  }
}
