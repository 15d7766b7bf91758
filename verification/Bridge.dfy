/**
 The bridge from the tunnel to the reader at the other end of the serial line: packets
 are checked, numbered and queued, the queue is flushed by partial writes, bytes arrive
 in pieces of any size, and the reader is called now and then.
 */
module Bridge {
  import opened Bytes
  import opened Checksum
  import opened Slip

  /** `Take(p)`: a packet comes from the tunnel. `Flush(n)`: the system takes at most `n`
      bytes from the queue. `Arrive(n)`: at most `n` bytes get to the other end.
      `Read`: the reader is called. */
  datatype Op = Take(packet: seq<byte>) | Flush(n: nat) | Arrive(n: nat) | Read

  /** The tunnel buffer, of which a packet overwrites the front, the next identification,
      and the packets queued so far. */
  datatype Side = Side(mem: seq<byte>, id: nat, accepted: seq<seq<byte>>)

  predicate Sound(s: Side) {
    |s.mem| == BUF_SIZE && s.id < 0x1_0000
  }

  /** At most a bufferful of a packet is read. */
  function Fitting(packet: seq<byte>): (r: seq<byte>)
    ensures |r| <= BUF_SIZE
  {
    if |packet| > BUF_SIZE then packet[..BUF_SIZE] else packet
  }

  /** A packet is queued, numbered if it asks for it, if it passes the check before and
      after. */
  function TakeStep(s: Side, packet: seq<byte>, little: bool): (r: Side)
    requires Sound(s)
    ensures Sound(r)
  {
    var p := Fitting(packet);
    var mem := p + s.mem[|p|..];
    if CheckIp(mem, |p|) != Ok then s.(mem := mem)
    else TakeGood(s, mem, |p|, little)
  }

  function TakeGood(s: Side, mem: seq<byte>, len: nat, little: bool): (r: Side)
    requires Sound(s) && |mem| == BUF_SIZE && len <= BUF_SIZE
    ensures Sound(r)
  {
    Side(Outgoing(mem, s.id, little), if NeedsId(mem, little) then (s.id + 1) % 0x1_0000 else s.id,
         if CheckIp(Outgoing(mem, s.id, little), len) == Ok then s.accepted + [Outgoing(mem, s.id, little)[..len]] else s.accepted)
  }

  /** The tunnel's side after a sequence of operations. */
  function After(s: Side, ops: seq<Op>, little: bool): (r: Side)
    requires Sound(s)
    ensures Sound(r)
    decreases |ops|
  {
    if ops == [] then s
    else
      var before := After(s, ops[..|ops| - 1], little);
      var op := ops[|ops| - 1];
      if op.Take? then TakeStep(before, op.packet, little) else before
  }

  function Start(): (s: Side)
    ensures Sound(s)
  {
    Side(seq(BUF_SIZE, _ => 0), 0, [])
  }

  class Bridge {
    const writer: Writer
    const reader: Reader
    const tunBuf: array<byte>
    /** Bytes that are on the line. */
    var line: seq<byte>
    /** Frames that the reader has found. */
    var frames: seq<seq<byte>>
    ghost var side: Side
    /** Bytes that have arrived. */
    ghost var seen: seq<byte>

    ghost predicate Separate() {
      writer.slipBuf != reader.inbuf && writer.slipBuf != tunBuf && reader.inbuf != tunBuf
    }

    /** The queue holds the accepted packets, nothing is lost between queue and reader,
        and the reader has decoded what has arrived. */
    ghost predicate Valid()
      reads this, writer, reader, writer.slipBuf, reader.inbuf, tunBuf
    {
      && Separate() && writer.Valid() && reader.Valid()
      && Sound(side) && side.mem == tunBuf[..] && side.id == writer.ipId
      && writer.queued == EncodeAll(side.accepted) && AllShort(side.accepted)
      && writer.wire == seen + line
      && Continues(seen, frames, reader.Current(), reader.input)
    }

    constructor (little: bool)
      ensures Valid() && fresh(writer) && fresh(reader) && fresh(tunBuf) && fresh(writer.slipBuf) && fresh(reader.inbuf)
      ensures side == Start() && frames == [] && writer.little == little
    {
      var w := new Writer(little);
      var r := new Reader();
      writer, reader, tunBuf := w, r, new byte[BUF_SIZE](_ => 0);
      line, frames, side, seen := [], [], Start(), [];
      new;
      assert tunBuf[..] == Start().mem;
    }

    /** tun_to_serial; the program ends on an overflow of the queue. */
    method Take(packet: seq<byte>) returns (ok: bool)
      requires Valid()
      modifies this`side, writer, writer.slipBuf, tunBuf
      ensures ok ==> Valid() && side == TakeStep(old(side), packet, writer.little)
      ensures !ok ==> side == old(side)
    {
      hide CheckIp, EncodeAll, Encode, Outgoing, NeedsId, Continues;
      var p := Fitting(packet);
      Overlay(p);
      ghost var mem := tunBuf[..];
      ghost var out := Outgoing(mem, writer.ipId, writer.little);
      var r := writer.WriteToSerial(tunBuf, |p|);
      ok := !r.Overflow?;
      if ok {
        if r.Queued? {
          EncodeAllSnoc(side.accepted, out[..|p|]);
          EncodeIsLonger(out[..|p|]);
        }
        side := TakeStep(side, packet, writer.little);
      }
    }

    /** A packet read into the front of the tunnel buffer. */
    method Overlay(p: seq<byte>)
      requires |p| <= tunBuf.Length
      modifies tunBuf
      ensures tunBuf[..] == p + old(tunBuf[|p|..])
    {
      var i := 0;
      while i < |p|
        invariant 0 <= i <= |p|
        invariant forall k :: 0 <= k < tunBuf.Length ==> tunBuf[k] == if k < i then p[k] else old(tunBuf[k])
      {
        tunBuf[i] := p[i];
        i := i + 1;
      }
    }

    /** slip_flushbuf with a partial write of at most `n` bytes. */
    method Flush(n: nat)
      requires Valid()
      modifies this`line, writer
      ensures Valid() && side == old(side) && frames == old(frames)
    {
      hide CheckIp, EncodeAll, Continues;
      var k := if n < writer.slipEnd - writer.slipBegin then n else writer.slipEnd - writer.slipBegin;
      var bytes := writer.slipBuf[writer.slipBegin..writer.slipBegin + k];
      writer.FlushBuf(k);
      assert (seen + line) + bytes == seen + (line + bytes);
      line := line + bytes;
    }

    /** At most `n` bytes get to the other end. */
    method Arrive(n: nat)
      requires Valid()
      modifies this`line, this`seen, reader`input
      ensures Valid() && side == old(side) && frames == old(frames)
    {
      hide CheckIp, EncodeAll, Continues;
      var k := if n < |line| then n else |line|;
      var bytes := line[..k];
      ContinuesLonger(seen, frames, reader.Current(), reader.input, bytes);
      reader.Arrive(bytes);
      assert seen + line == (seen + bytes) + line[k..];
      seen, line := seen + bytes, line[k..];
    }

    /** The reader is called. */
    method Read()
      requires Valid()
      modifies this`frames, reader, reader.inbuf
      ensures Valid() && side == old(side)
    {
      hide CheckIp, EncodeAll, Continues;
      ghost var current, input := reader.Current(), reader.input;
      var found := reader.SerialToTun();
      ContinuesRead(seen, frames, current, input);
      frames := frames + found;
    }

    ghost predicate Drained()
      reads this, writer, reader
    {
      writer.slipEnd == 0 && line == [] && reader.input == []
    }

    /** The frames so far are the first accepted packets, and all of them once nothing is
        on its way. */
    lemma FramesSoFar()
      requires Valid()
      ensures frames <= NonEmpty(side.accepted)
      ensures Drained() ==> frames == NonEmpty(side.accepted)
    {
      hide Decode, EncodeAll, NonEmpty, CheckIp;
      NothingLeft(reader.Current());
      var rest := line + writer.slipBuf[writer.slipBegin..writer.slipEnd];
      var d := Decode(reader.Current(), reader.input);
      assert seen + rest == EncodeAll(side.accepted);
      PartOfTheStream(side.accepted, seen, rest);
      assert Decode([], seen).frames == frames + d.frames;
      if Drained() {
        assert seen == EncodeAll(side.accepted);
        RoundTrip(side.accepted);
        assert frames + [] == frames;
      }
    }
  }

  ghost predicate AllShort(ps: seq<seq<byte>>) {
    forall i :: 0 <= i < |ps| ==> |ps[i]| < BUF_SIZE
  }

  /** Decoding the unread input from the reader's state completes the decoding of all that
      has arrived. */
  ghost predicate Continues(seen: seq<byte>, frames: seq<seq<byte>>, current: seq<byte>, input: seq<byte>) {
    var d := Decode(current, input);
    Decode([], seen) == Decoded(frames + d.frames, d.current, d.pending)
  }

  lemma ContinuesLonger(seen: seq<byte>, frames: seq<seq<byte>>, current: seq<byte>, input: seq<byte>, bytes: seq<byte>)
    requires Continues(seen, frames, current, input)
    ensures Continues(seen + bytes, frames, current, input + bytes)
  {
    hide Decode;
    DecodeAppend([], seen, bytes);
    DecodeAppend(current, input, bytes);
    var d := Decode(current, input);
    var e := Decode(d.current, d.pending + bytes);
    assert (frames + d.frames) + e.frames == frames + (d.frames + e.frames);
  }

  lemma ContinuesRead(seen: seq<byte>, frames: seq<seq<byte>>, current: seq<byte>, input: seq<byte>)
    requires Continues(seen, frames, current, input)
    ensures var d := Decode(current, input); Continues(seen, frames + d.frames, d.current, d.pending)
  {
    hide Decode;
    var d := Decode(current, input);
    LeftOver(current, input);
    assert (frames + d.frames) + [] == frames + d.frames;
  }

  lemma EncodeIsLonger(p: seq<byte>)
    ensures |p| < |Encode(p)|
  {
    EscapeIsLonger(p);
  }

  lemma {:induction false} EscapeIsLonger(p: seq<byte>)
    ensures |p| <= |Escape(p)|
  {
    if p != [] {
      EscapeIsLonger(p[..|p| - 1]);
    }
  }

  /** Any interleaving of packets, partial writes, arrivals and reads: the frames that the
      reader has found are the first of the packets that the bridge accepted, in order and
      unchanged, and all of them once the line is drained. Without an overflow the accepted
      packets are those that the operations determine. */
  method RunBridge(ops: seq<Op>, little: bool) returns (ok: bool, b: Bridge)
    ensures fresh(b) && b.frames <= NonEmpty(b.side.accepted)
    ensures ok ==> b.Valid() && b.side == After(Start(), ops, little)
    ensures ok && b.Drained() ==> b.frames == NonEmpty(b.side.accepted)
  {
    hide TakeStep, EncodeAll, Continues, NonEmpty;
    b := new Bridge(little);
    var i := 0;
    while i < |ops|
      invariant 0 <= i <= |ops| && b.Valid() && b.side == After(Start(), ops[..i], little) && b.writer.little == little
      invariant fresh(b) && fresh(b.writer) && fresh(b.reader) && fresh(b.tunBuf) && fresh(b.writer.slipBuf) && fresh(b.reader.inbuf)
    {
      assert ops[..i + 1][..i] == ops[..i];
      match ops[i] {
        case Take(packet) =>
          b.FramesSoFar();
          ok := b.Take(packet);
          if !ok {
            return;
          }
        case Flush(n) => b.Flush(n);
        case Arrive(n) => b.Arrive(n);
        case Read => b.Read();
      }
      i := i + 1;
    }
    assert ops[..i] == ops;
    b.FramesSoFar();
    ok := true;
  }

  /** A good packet that asks for a number leaves with the next one, and the number after
      that is kept for the packet that asks next; others leave the numbers alone. */
  lemma TakesNumber(s: Side, p: seq<byte>, little: bool)
    requires Sound(s) && |p| <= BUF_SIZE
    ensures var mem := p + s.mem[|p|..];
            var asks := CheckIp(mem, |p|) == Ok && NeedsId(mem, little);
            var r := TakeStep(s, p, little);
            && r.id == (if asks then (s.id + 1) % 0x1_0000 else s.id)
            && (asks ==> Word(r.mem[4], r.mem[5]) == s.id)
  {
    hide CheckIp, NeedsId, Outgoing, Word;
    NumberedExactly(p + s.mem[|p|..], s.id, little);
  }
}
