/**
 The option format of the CoAP codec: option jumps, headers with extended lengths,
 integer values, and the splitting and merging of path and query strings.
 */
module CoapOptions {
  import opened Bytes

  const JUMP_ONE: byte := 0xF1
  const JUMP_TWO: byte := 0xF2
  const JUMP_THREE: byte := 0xF3
  const TERMINATOR: byte := 0xF0

  /** An option: its number and its value. */
  datatype Opt = Opt(number: nat, value: seq<byte>)

  // ---------------------------------------------------------------------------
  // Writing
  // ---------------------------------------------------------------------------

  function ExtendedLength(n: nat): seq<byte> {
    if n > 254 then [255] + ExtendedLength(n - 255) else [n]
  }

  /** coap_set_option_header. */
  function Header(nibble: nat, length: nat): (r: seq<byte>)
    requires nibble < 16
    ensures |r| > 0
  {
    if length < 15 then [HeaderByte(nibble, length)] else [HeaderByte(nibble, 15)] + ExtendedLength(length - 15)
  }

  function HeaderByte(nibble: nat, low: nat): byte
    requires nibble < 16 && low < 16
  {
    nibble * 16 + low
  }

  /** coap_insert_option_jump: the bytes of the jump. */
  function Jump(delta: nat): (r: seq<byte>)
    requires delta < 0x1_0000
    ensures |r| <= 3
  {
    if delta < 15 then []
    else if delta < 30 then [JUMP_ONE]
    else if delta < 2064 then [JUMP_TWO, delta / 8 - 2]
    else [JUMP_THREE, (delta / 8 - 258) / 256, (delta / 8 - 258) % 256]
  }

  /** What the writer adds to its current number for a jump. */
  function Advance(delta: nat): (r: nat)
    requires delta < 0x1_0000
    ensures r <= delta
  {
    if delta < 15 then 0 else if delta < 30 then 15 else if delta < 2064 then delta / 8 - 2 else delta / 8 - 258
  }

  function Nibble(delta: nat): (r: nat)
    requires delta < 0x1_0000
    ensures r < 16
  {
    (delta - Advance(delta)) % 16
  }

  function EncodeOption(number: nat, current: nat, value: seq<byte>): (r: seq<byte>)
    requires current <= number < 0x1_0000
    ensures |r| > 0
  {
    Jump(number - current) + Header(Nibble(number - current), |value|) + value
  }

  ghost predicate Ascending(opts: seq<Opt>, current: nat) {
    && (forall i :: 0 <= i < |opts| ==> current <= opts[i].number < 0x1_0000)
    && (forall i, j :: 0 <= i < j < |opts| ==> opts[i].number <= opts[j].number)
  }

  function EncodeOptions(opts: seq<Opt>, current: nat): seq<byte>
    requires Ascending(opts, current)
  {
    if opts == [] then []
    else EncodeOption(opts[0].number, current, opts[0].value) + EncodeOptions(opts[1..], opts[0].number)
  }

  // ---------------------------------------------------------------------------
  // Reading
  // ---------------------------------------------------------------------------

  /** What the parser finds at the start of `s`: an option whose value lies `head` bytes
      further on, the terminator, or too few bytes. */
  datatype Found = Overrun | End | Entry(number: nat, head: nat, len: nat)

  function ReadExtended(s: seq<byte>, len: nat, head: nat, number: nat): Found
    requires head <= |s|
    decreases |s| - head
  {
    if head == |s| then Overrun
    else if s[head] == 255 then ReadExtended(s, len + 255, head + 1, number)
    else InBounds(s, number, head + 1, len + s[head])
  }

  function InBounds(s: seq<byte>, number: nat, head: nat, len: nat): Found {
    if head + len > |s| then Overrun else Entry(number, head, len)
  }

  /** Header and length at `head`, after a jump. */
  function ReadHeader(s: seq<byte>, head: nat, current: nat): Found {
    if head >= |s| then Overrun
    else
      var number, low := current + s[head] / 16, s[head] % 16;
      if low < 15 then InBounds(s, number, head + 1, low) else ReadExtended(s, 15, head + 1, number)
  }

  function Wide(hi: nat, lo: nat): nat { hi * 256 + lo }

  function ReadOption(s: seq<byte>, current: nat): (r: Found)
  {
    if s == [] then Overrun
    else if s[0] == TERMINATOR then End
    else if s[0] == JUMP_ONE then ReadHeader(s, 1, current + 15)
    else if s[0] == JUMP_TWO then if |s| < 2 then Overrun else ReadHeader(s, 2, current + (s[1] as int + 2) * 8)
    else if s[0] == JUMP_THREE then if |s| < 3 then Overrun else ReadHeader(s, 3, current + (Wide(s[1], s[2]) + 258) * 8)
    else ReadHeader(s, 0, current)
  }

  lemma {:induction false} ExtendedInBounds(s: seq<byte>, len: nat, head: nat, number: nat)
    requires head <= |s|
    ensures var r := ReadExtended(s, len, head, number); r.Entry? ==> head < r.head && r.head + r.len <= |s| && r.number == number
    ensures !ReadExtended(s, len, head, number).End?
    decreases |s| - head
  {
    if head < |s| && s[head] == 255 {
      ExtendedInBounds(s, len + 255, head + 1, number);
    }
  }

  /** A value that is found lies inside the bytes, behind at least one header byte. */
  lemma FoundInBounds(s: seq<byte>, current: nat)
    ensures var r := ReadOption(s, current); r.Entry? ==> 0 < r.head && r.head + r.len <= |s| && current <= r.number
  {
    forall head: nat, number: nat, len: nat | head <= |s|
      ensures var r := ReadExtended(s, len, head, number); r.Entry? ==> head < r.head && r.head + r.len <= |s| && r.number == number
    {
      ExtendedInBounds(s, len, head, number);
    }
  }

  // ---------------------------------------------------------------------------
  // Reading what was written
  // ---------------------------------------------------------------------------

  /** The delta that the parser reads back. */
  function ReadBack(delta: nat): nat
    requires delta < 0x1_0000
  {
    if delta < 30 then delta else delta / 8 * 8 + Nibble(delta)
  }

  /** Writer and parser agree on an option's number exactly for deltas below 30 and for
      those whose eighth leaves 2 modulo 16: the writer advances its current number by
      the byte of a long jump, the parser by what the byte stands for. */
  lemma JumpAgreement(delta: nat)
    requires delta < 0x1_0000
    ensures ReadBack(delta) == delta <==> delta < 30 || delta / 8 % 16 == 2
  {
    if delta >= 30 {
      var q, r := delta / 8, delta % 8;
      assert delta == 8 * q + r;
      var k := if delta < 2064 then 2 else 258;
      assert delta - Advance(delta) == 7 * q + r + k;
      SevenInverse(q, r, k);
    }
  }

  lemma SevenInverse(q: nat, r: nat, k: nat)
    requires r < 8 && (k == 2 || k == 258)
    ensures (7 * q + r + k) % 16 == r <==> q % 16 == 2
  {
    var m, t := q % 16, q / 16;
    Modulo16(7 * m + r + 2, 7 * t + if k == 258 then 16 else 0);
    assert 7 * q + r + k == 7 * m + r + 2 + 16 * (7 * t + if k == 258 then 16 else 0);
    SmallSevenInverse(m, r);
  }

  lemma Modulo16(x: nat, y: nat)
    ensures (x + 16 * y) % 16 == x % 16
  {
  }

  lemma SmallSevenInverse(m: nat, r: nat)
    requires m < 16 && r < 8
    ensures (7 * m + r + 2) % 16 == r <==> m == 2
  {
    var n := 7 * m + 2;
    assert n % 16 == 0 <==> m == 2;
    var low := n % 16;
    assert n + r == 16 * (n / 16) + (low + r);
    if low + r < 16 {
      assert (n + r) % 16 == low + r;
    } else {
      assert (n + r) % 16 == low + r - 16;
    }
  }

  lemma {:induction false} ReadExtendedLength(pre: seq<byte>, n: nat, tail: seq<byte>, len: nat, number: nat)
    requires len + n <= |tail|
    ensures ReadExtended(pre + ExtendedLength(n) + tail, len, |pre|, number)
            == Entry(number, |pre| + |ExtendedLength(n)|, len + n)
    decreases n
  {
    var s := pre + ExtendedLength(n) + tail;
    if n > 254 {
      ReadExtendedLength(pre + [255], n - 255, tail, len + 255, number);
      assert s == (pre + [255]) + ExtendedLength(n - 255) + tail;
      assert s[|pre|] == 255;
    } else {
      assert s[|pre|] == n;
    }
  }

  lemma ReadWrittenHeader(pre: seq<byte>, nibble: nat, value: seq<byte>, rest: seq<byte>, current: nat)
    requires nibble < 16
    ensures ReadHeader(pre + Header(nibble, |value|) + value + rest, |pre|, current)
            == Entry(current + nibble, |pre| + |Header(nibble, |value|)|, |value|)
  {
    var h := Header(nibble, |value|);
    var s := pre + h + value + rest;
    assert s[|pre|] == h[0];
    if |value| >= 15 {
      ReadExtendedLength(pre + [h[0]], |value| - 15, value + rest, 15, current + nibble);
      assert s == (pre + [h[0]]) + ExtendedLength(|value| - 15) + (value + rest);
    }
  }

  /** Any option, whatever follows it: the parser finds the value, under the number that
      it reads back. */
  lemma ReadEncoded(number: nat, current: nat, value: seq<byte>, rest: seq<byte>)
    requires current <= number < 0x1_0000
    ensures var e := EncodeOption(number, current, value);
            ReadOption(e + rest, current) == Entry(current + ReadBack(number - current), |e| - |value|, |value|)
  {
    hide Jump, Header, Nibble, ReadHeader, ReadBack;
    var delta := number - current;
    var jump, h := Jump(delta), Header(Nibble(delta), |value|);
    var s := EncodeOption(number, current, value) + rest;
    assert s == jump + h + value + rest;
    var base := if delta < 15 then current else if delta < 30 then current + 15 else current + delta / 8 * 8;
    ReadWrittenHeader(jump, Nibble(delta), value, rest, base);
    ReadBackCases(delta);
    assert forall i :: 0 <= i < |jump| ==> s[i] == jump[i];
    if delta < 15 {
      UnfoldJump(delta);
      FirstByte(delta, |value|);
      assert s[0] == h[0];
    } else if delta < 30 {
      UnfoldJump(delta);
      assert s[0] == JUMP_ONE;
    } else if delta < 2064 {
      UnfoldJump(delta);
      assert s[0] == JUMP_TWO && s[1] as int == delta / 8 - 2;
    } else {
      UnfoldJump(delta);
      assert s[0] == JUMP_THREE && s[1] == jump[1] && s[2] == jump[2];
    }
  }

  lemma UnfoldJump(delta: nat)
    requires delta < 0x1_0000
    ensures delta < 15 ==> Jump(delta) == []
    ensures 15 <= delta < 30 ==> Jump(delta) == [JUMP_ONE]
    ensures 30 <= delta < 2064 ==> |Jump(delta)| == 2 && Jump(delta)[0] == JUMP_TWO && Jump(delta)[1] as int == delta / 8 - 2
    ensures delta >= 2064 ==> |Jump(delta)| == 3 && Jump(delta)[0] == JUMP_THREE && Wide(Jump(delta)[1], Jump(delta)[2]) == delta / 8 - 258
  {
  }

  lemma ReadBackCases(delta: nat)
    requires delta < 0x1_0000
    ensures ReadBack(delta) == Nibble(delta) + if delta < 15 then 0 else if delta < 30 then 15 else delta / 8 * 8
  {
  }

  /** Without a jump the first byte is not that of a jump or terminator. */
  lemma FirstByte(delta: nat, length: nat)
    requires delta < 15
    ensures Header(Nibble(delta), length)[0] < TERMINATOR
  {
  }
}
