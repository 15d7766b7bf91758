/**
 The Internet checksum of the tunnel bridge: the one's-complement sum in host order,
 the check of a packet, the packet rewriting that keeps the checksum up to date
 incrementally, and the packets that are built for DHCP clients.

 A packet is the first `len` bytes of a buffer. The check reads its header wherever
 the header length field says the header ends, also behind `len`, and takes the rest
 of the packet modulo 65536, as the program does; `Overrun` is a read behind the
 buffer.
 */
module Checksum {
  import opened Bytes

  const HEADER_LEN: nat := 20
  const UDP_HEADER_LEN: nat := 8
  const MAX_HEADER_LEN: nat := 60
  const TCP: nat := 6
  const UDP: nat := 17
  const ICMP: nat := 1
  const BOOTPS: nat := 67
  const BOOTPC: nat := 68

  // ---------------------------------------------------------------------------
  // One's-complement sums
  // ---------------------------------------------------------------------------

  /** 16-bit addition with the carry added back in. */
  function Add(sum: nat, t: nat): (r: nat)
    requires sum < 0x1_0000 && t < 0x1_0000
    ensures r < 0x1_0000
  {
    var s := (sum + t) % 0x1_0000;
    if s < t then s + 1 else s
  }

  function Word(hi: nat, lo: nat): nat { hi * 256 + lo }

  /** The sum of the big-endian words of a byte string; an odd last byte is the high
      byte of a word. */
  function Words(s: seq<byte>): nat {
    if s == [] then 0
    else if |s| == 1 then Word(s[0], 0)
    else Word(s[0], s[1]) + Words(s[2..])
  }

  /** The 16-bit one's-complement representation of a sum. */
  function Fold(n: nat): (r: nat)
    ensures r < 0x1_0000
  {
    if n == 0 then 0 else (n - 1) % 0xFFFF + 1
  }

  /** Both representations of zero. */
  predicate Zero(sum: nat) {
    sum == 0xFFFF || sum == 0
  }

  lemma AddIsFold(sum: nat, t: nat)
    requires sum < 0x1_0000 && t < 0x1_0000
    ensures Add(sum, t) == Fold(sum + t)
  {
  }

  lemma FoldStep(n: nat, t: nat)
    requires t < 0x1_0000
    ensures Add(Fold(n), t) == Fold(n + t)
  {
    AddIsFold(Fold(n), t);
    FoldFold(n, t);
  }

  lemma FoldFold(n: nat, m: nat)
    ensures Fold(Fold(n) + m) == Fold(n + m)
  {
    if n > 0 {
      var q := (n - 1) / 0xFFFF;
      assert n + m - 1 == (Fold(n) + m - 1) + q * 0xFFFF;
      ModShift(Fold(n) + m - 1, q);
    }
  }

  lemma ModShift(x: nat, q: nat)
    ensures (x + q * 0xFFFF) % 0xFFFF == x % 0xFFFF
  {
  }

  /** A sum that is zero in one's-complement arithmetic. */
  predicate Multiple(n: nat) {
    n % 0xFFFF == 0
  }

  lemma ZeroIsMultiple(n: nat)
    ensures Zero(Fold(n)) <==> Multiple(n)
  {
    if n > 0 {
      var q := (n - 1) / 0xFFFF;
      assert n - 1 == q * 0xFFFF + (n - 1) % 0xFFFF;
      if (n - 1) % 0xFFFF == 0xFFFE {
        assert n == (q + 1) * 0xFFFF;
        ModShift(0, q + 1);
      } else {
        ModShift((n - 1) % 0xFFFF + 1, q);
      }
    }
  }

  lemma {:induction false} WordsAppend(a: seq<byte>, b: seq<byte>)
    requires |a| % 2 == 0
    ensures Words(a + b) == Words(a) + Words(b)
  {
    if a == [] {
      assert a + b == b;
    } else {
      WordsAppend(a[2..], b);
      assert (a + b)[2..] == a[2..] + b;
    }
  }

  /** What ip4sum computes: the folded sum of the words, added to the initial sum. */
  function Ip4Sum(sum: nat, s: seq<byte>): (r: nat)
    ensures r < 0x1_0000
  {
    Fold(sum + Words(s))
  }

  /** Sums over consecutive pieces of even length compose. */
  lemma SumComposes(sum: nat, a: seq<byte>, b: seq<byte>)
    requires |a| % 2 == 0
    ensures Ip4Sum(Ip4Sum(sum, a), b) == Ip4Sum(sum, a + b)
  {
    WordsAppend(a, b);
    FoldFold(sum + Words(a), Words(b));
  }

  /** sum += t; if the sum wrapped round, add the carry. */
  method AddCarry(a: nat, b: nat) returns (sum: nat)
    requires a < 0x1_0000 && b < 0x1_0000
    ensures sum == Add(a, b)
  {
    sum := (a + b) % 0x1_0000;
    if sum < b {
      sum := sum + 1;
    }
  }

  /** ip4sum. */
  method SumLoop(initial: nat, buf: array<byte>, start: nat, len: nat) returns (sum: nat)
    requires initial < 0x1_0000 && start + len <= buf.Length
    ensures sum == Ip4Sum(initial, buf[start..start + len])
  {
    hide Add, Fold, Word;
    sum := initial;
    var p, end := start, start + len;
    FoldSmall(initial);
    while p < end - 1
      invariant start <= p <= end && (p - start) % 2 == 0 && sum < 0x1_0000
      invariant sum == Fold(initial + Words(buf[start..p]))
    {
      SumWord(initial, buf[start..p], buf[p], buf[p + 1]);
      assert buf[start..p] + [buf[p], buf[p + 1]] == buf[start..p + 2];
      sum := AddCarry(sum, Word(buf[p], buf[p + 1]));
      p := p + 2;
    }
    if p < end {
      SumLastByte(initial, buf[start..p], buf[p]);
      assert buf[start..p] + [buf[p]] == buf[start..p + 1];
      sum := AddCarry(sum, Word(buf[p], 0));
    }
  }

  lemma SumWord(initial: nat, s: seq<byte>, hi: byte, lo: byte)
    requires |s| % 2 == 0
    ensures Word(hi, lo) < 0x1_0000
    ensures Add(Fold(initial + Words(s)), Word(hi, lo)) == Fold(initial + Words(s + [hi, lo]))
  {
    hide Add, Fold, Words;
    PairSum(hi, lo);
    FoldStep(initial + Words(s), Word(hi, lo));
    WordsAppend(s, [hi, lo]);
  }

  lemma PairSum(hi: byte, lo: byte)
    ensures Words([hi, lo]) == Word(hi, lo)
  {
  }

  lemma SumLastByte(initial: nat, s: seq<byte>, hi: byte)
    requires |s| % 2 == 0
    ensures Word(hi, 0) < 0x1_0000
    ensures Add(Fold(initial + Words(s)), Word(hi, 0)) == Fold(initial + Words(s + [hi]))
  {
    hide Add, Fold, Words;
    SingleSum(hi);
    FoldStep(initial + Words(s), Word(hi, 0));
    WordsAppend(s, [hi]);
  }

  lemma SingleSum(hi: byte)
    ensures Words([hi]) == Word(hi, 0)
  {
  }

  lemma FoldSmall(n: nat)
    requires n < 0x1_0000
    ensures Fold(n) == n
  {
  }

  // ---------------------------------------------------------------------------
  // Words in a buffer
  // ---------------------------------------------------------------------------

  function WordAt(s: seq<byte>, k: nat): (r: nat)
    requires k + 2 <= |s|
    ensures r < 0x1_0000
  {
    Word(s[k], s[k + 1])
  }

  function SetWord(s: seq<byte>, k: nat, v: nat): (r: seq<byte>)
    requires k + 2 <= |s| && v < 0x1_0000
    ensures |r| == |s| && WordAt(r, k) == v
    ensures forall i :: 0 <= i < |s| && i != k && i != k + 1 ==> r[i] == s[i]
  {
    s[k := v / 256][k + 1 := v % 256]
  }

  /** Replacing an aligned word changes the sum by the difference. */
  lemma WordsSetWord(s: seq<byte>, k: nat, v: nat)
    requires k + 2 <= |s| && v < 0x1_0000 && k % 2 == 0
    ensures Words(SetWord(s, k, v)) == Words(s) - WordAt(s, k) + v
  {
    SplitAtWord(s, k);
    SplitAtWord(SetWord(s, k, v), k);
    assert SetWord(s, k, v)[..k] == s[..k];
    assert SetWord(s, k, v)[k + 2..] == s[k + 2..];
  }

  lemma SplitAtWord(s: seq<byte>, k: nat)
    requires k + 2 <= |s| && k % 2 == 0
    ensures Words(s) == Words(s[..k]) + WordAt(s, k) + Words(s[k + 2..])
  {
    WordsAppend(s[..k], s[k..]);
    assert s == s[..k] + s[k..];
    assert s[k..][2..] == s[k + 2..];
  }

  // ---------------------------------------------------------------------------
  // Checking a packet
  // ---------------------------------------------------------------------------

  datatype Verdict = Ok | Bad(code: int) | Overrun

  predicate Ipv4(mem: seq<byte>)
    requires 0 < |mem|
  {
    mem[0] / 16 == 4
  }

  function HeaderLen(mem: seq<byte>): (r: nat)
    requires 0 < |mem|
    ensures r <= MAX_HEADER_LEN && r % 4 == 0
  {
    4 * (mem[0] % 16)
  }

  /** Length of what follows the header, in 16 bits. */
  function RestLen(mem: seq<byte>, len: nat): (r: nat)
    requires 0 < |mem|
    ensures r < 0x1_0000
  {
    (len - HeaderLen(mem)) % 0x1_0000
  }

  function Rest(mem: seq<byte>, len: nat): seq<byte>
    requires 0 < |mem| && HeaderLen(mem) + RestLen(mem, len) <= |mem|
  {
    mem[HeaderLen(mem)..HeaderLen(mem) + RestLen(mem, len)]
  }

  /** Protocol and length, in 16 bits. */
  function PseudoStart(protocol: nat, rest: nat): (r: nat)
    ensures r < 0x1_0000
  {
    (protocol + rest) % 0x1_0000
  }

  /** Sum of the pseudo header. */
  function PseudoSum(mem: seq<byte>, len: nat): nat
    requires MAX_HEADER_LEN <= |mem|
  {
    PseudoStart(mem[9], RestLen(mem, len)) + Words(mem[12..20])
  }

  /** check_ip: version, length, header sum and transport sum. */
  function CheckIp(mem: seq<byte>, len: nat): Verdict
    requires MAX_HEADER_LEN <= |mem|
  {
    if !Ipv4(mem) then Bad(-1)
    else if WordAt(mem, 2) > len then Bad(-2)
    else if WordAt(mem, 2) < len then Bad(-3)
    else if !Multiple(Words(mem[..HeaderLen(mem)])) then Bad(-4)
    else if mem[9] != TCP && mem[9] != UDP && mem[9] != ICMP then Ok
    else if HeaderLen(mem) + RestLen(mem, len) > |mem| then Overrun
    else if mem[9] == ICMP then
      if Multiple(Words(Rest(mem, len))) then Ok else Bad(-7)
    else if Multiple(PseudoSum(mem, len) + Words(Rest(mem, len))) then Ok
    else if mem[9] == TCP then Bad(-5)
    else if WordAt(mem, 26) != 0 then Bad(-6) else Ok
  }

  method CheckPacket(buf: array<byte>, len: nat) returns (v: Verdict)
    requires MAX_HEADER_LEN <= buf.Length && len < 0x1_0000
    ensures v == CheckIp(buf[..], len)
  {
    hide Word, Words, Fold, Multiple, HeaderLen, RestLen, Ipv4;
    ghost var mem := buf[..];
    UnfoldHeader(mem, len);
    if buf[0] / 16 != 4 {
      return Bad(-1);
    }
    var total := Word(buf[2], buf[3]);
    if total > len {
      return Bad(-2);
    }
    if total < len {
      return Bad(-3);
    }
    var hl := 4 * (buf[0] % 16);
    var headerGood := GoodSum(0, buf, 0, hl);
    assert buf[0..0 + hl] == mem[..hl];
    if !headerGood {
      return Bad(-4);
    }
    if buf[9] == TCP || buf[9] == UDP || buf[9] == ICMP {
      var rest := (len - hl) % 0x1_0000;
      if hl + rest > buf.Length {
        return Overrun;
      }
      assert buf[hl..hl + rest] == Rest(mem, len);
      if buf[9] == ICMP {
        var good := GoodSum(0, buf, hl, rest);
        if !good {
          return Bad(-7);
        }
      } else {
        var sum := SumLoop(PseudoStart(buf[9], rest), buf, 12, 8);
        assert buf[12..12 + 8] == mem[12..20];
        var good := GoodSum(sum, buf, hl, rest);
        FoldFold(PseudoSum(mem, len), Words(Rest(mem, len)));
        ZeroIsMultiple(PseudoSum(mem, len) + Words(Rest(mem, len)));
        ZeroIsMultiple(sum + Words(Rest(mem, len)));
        if !good {
          if buf[9] == TCP {
            return Bad(-5);
          }
          if Word(buf[26], buf[27]) != 0 {
            return Bad(-6);
          }
        }
      }
    }
    return Ok;
  }

  lemma UnfoldHeader(mem: seq<byte>, len: nat)
    requires 0 < |mem|
    ensures Ipv4(mem) <==> mem[0] / 16 == 4
    ensures HeaderLen(mem) == 4 * (mem[0] % 16)
    ensures RestLen(mem, len) == (len - HeaderLen(mem)) % 0x1_0000
  {
  }

  /** The sum over a stretch is accepted: 0xFFFF or 0. */
  method GoodSum(initial: nat, buf: array<byte>, start: nat, len: nat) returns (good: bool)
    requires initial < 0x1_0000 && start + len <= buf.Length
    ensures good <==> Multiple(initial + Words(buf[start..start + len]))
  {
    var sum := SumLoop(initial, buf, start, len);
    ZeroIsMultiple(initial + Words(buf[start..start + len]));
    good := !(sum != 0xFFFF && sum != 0);
  }

  // ---------------------------------------------------------------------------
  // Rewriting the identification
  // ---------------------------------------------------------------------------

  /** The program works on 16-bit fields in the byte order of its host. */
  function HostWord(little: bool, hi: byte, lo: byte): (r: nat)
    ensures r < 0x1_0000
  {
    if little then Word(lo, hi) else Word(hi, lo)
  }

  function Swap(x: nat): (r: nat)
    requires x < 0x1_0000
    ensures r < 0x1_0000
  {
    x % 256 * 256 + x / 256
  }

  /** One's-complement addition does not depend on the byte order. */
  lemma SwapAdd(a: nat, b: nat)
    requires a < 0x1_0000 && b < 0x1_0000
    ensures Swap(Add(a, b)) == Add(Swap(a), Swap(b))
  {
    hide Add, ByteSum;
    var a1, a0, b1, b0 := a / 256, a % 256, b / 256, b % 256;
    AddByBytes(a1, a0, b1, b0);
    AddByBytes(a0, a1, b0, b1);
    assert a == a1 * 256 + a0 && b == b1 * 256 + b0;
    assert Swap(a) == a0 * 256 + a1 && Swap(b) == b0 * 256 + b1;
    ByteSumSwaps(a1 + b1, a0 + b0);
  }

  function Byte(x: nat): nat
    requires x < 512
  {
    if x >= 256 then x - 256 else x
  }

  function Carry(x: nat): nat {
    if x >= 256 then 1 else 0
  }

  /** A sum from its two byte sums: each byte gets the carry of the other. */
  function ByteSum(high: nat, low: nat): (r: nat)
    requires high <= 510 && low <= 510
    ensures r < 0x1_0000
  {
    Byte(high + Carry(low)) * 256 + Byte(low) + Carry(high + Carry(low))
  }

  lemma AddByBytes(a1: nat, a0: nat, b1: nat, b0: nat)
    requires a1 < 256 && a0 < 256 && b1 < 256 && b0 < 256
    ensures Add(a1 * 256 + a0, b1 * 256 + b0) == ByteSum(a1 + b1, a0 + b0)
  {
    var s := a1 * 256 + a0 + b1 * 256 + b0;
    assert s % 0x1_0000 == if s >= 0x1_0000 then s - 0x1_0000 else s;
  }

  lemma SwapBytes(h: nat, l: nat)
    requires h < 256 && l < 256
    ensures Swap(h * 256 + l) == l * 256 + h
  {
  }

  lemma ByteSumSwaps(x: nat, y: nat)
    requires x <= 510 && y <= 510
    ensures Swap(ByteSum(x, y)) == ByteSum(y, x)
  {
    hide Swap;
    if x < 256 && y < 256 {
      SwapBytes(x, y);
    } else if x >= 256 && y >= 256 {
      SwapBytes(x - 255, y - 255);
    } else if x >= 256 {
      if y < 255 { SwapBytes(x - 256, y + 1); } else { SwapBytes(x - 255, 0); }
    } else {
      if x < 255 { SwapBytes(x + 1, y - 256); } else { SwapBytes(0, y - 255); }
    }
  }

  /** The condition under which write_to_serial numbers a packet. The flag is tested
      on the field as the host reads it, so on a little-endian host it is a bit of
      the fragment offset. */
  predicate NeedsId(mem: seq<byte>, little: bool)
    requires MAX_HEADER_LEN <= |mem|
  {
    WordAt(mem, 4) == 0 && HostWord(little, mem[6], mem[7]) / 0x4000 % 2 == 1
  }

  /** The packet with identification `id` and the checksum updated incrementally. */
  function WithId(mem: seq<byte>, id: nat): (r: seq<byte>)
    requires MAX_HEADER_LEN <= |mem| && id < 0x1_0000
    ensures |r| == |mem|
  {
    SetWord(SetWord(mem, 4, id), 10, Add(WordAt(mem, 10), 0xFFFF - id))
  }

  /** The update as the program makes it, on host-order words of an array. */
  method RewriteId(buf: array<byte>, id: nat, little: bool)
    requires MAX_HEADER_LEN <= buf.Length && id < 0x1_0000
    modifies buf
    ensures buf[..] == WithId(old(buf[..]), id)
  {
    hide HostWord, Word, Add, Swap;
    var nid := 0xFFFF - HostWord(little, id / 256, id % 256);
    var sum := HostWord(little, buf[10], buf[11]);
    HostAdd(little, buf[10], buf[11], id);
    var sum1 := AddCarry(sum, nid);
    buf[4], buf[5] := id / 256, id % 256;
    if little {
      SwappedBytes(sum1);
      buf[10], buf[11] := sum1 % 256, sum1 / 256;
    } else {
      buf[10], buf[11] := sum1 / 256, sum1 % 256;
    }
    assert buf[..] == WithId(old(buf[..]), id);
  }

  lemma SwappedBytes(x: nat)
    requires x < 0x1_0000
    ensures Swap(x) / 256 == x % 256 && Swap(x) % 256 == x / 256
  {
  }

  lemma HostAdd(little: bool, hi: byte, lo: byte, id: nat)
    requires id < 0x1_0000
    ensures var sum := Add(HostWord(little, hi, lo), 0xFFFF - HostWord(little, id / 256, id % 256));
            Word(hi, lo) < 0x1_0000 && Add(Word(hi, lo), 0xFFFF - id) == if little then Swap(sum) else sum
  {
    hide Add, Swap;
    var s := Word(hi, lo);
    assert Word(id / 256, id % 256) == id;
    if little {
      SwapBytes(hi, lo);
      SwapComplement(id);
      SwapAdd(s, 0xFFFF - id);
      SwapTwice(Add(s, 0xFFFF - id));
    }
  }

  lemma SwapComplement(id: nat)
    requires id < 0x1_0000
    ensures Swap(0xFFFF - id) == 0xFFFF - Word(id % 256, id / 256)
  {
    assert 0xFFFF - id == (255 - id / 256) * 256 + (255 - id % 256);
    SwapBytes(255 - id / 256, 255 - id % 256);
  }

  lemma SwapTwice(x: nat)
    requires x < 0x1_0000
    ensures Swap(Swap(x)) == x
  {
    SwapBytes(x % 256, x / 256);
  }

  /** The identification and the checksum together contribute the same as before,
      modulo 65535. */
  lemma IdAndSum(sum: nat, id: nat)
    requires sum < 0x1_0000 && id < 0x1_0000
    ensures exists q: int :: id + Add(sum, 0xFFFF - id) - sum == q * 0xFFFF
  {
    var a := Add(sum, 0xFFFF - id);
    assert a == sum + (0xFFFF - id) || a == sum + (0xFFFF - id) - 0xFFFF;
    if a == sum + (0xFFFF - id) {
      assert id + a - sum == 1 * 0xFFFF;
    } else {
      assert id + a - sum == 0 * 0xFFFF;
    }
  }

  lemma MultiplesKeepZero(n: nat, m: nat, q: int)
    requires m - n == q * 0xFFFF
    ensures Multiple(m) <==> Multiple(n)
  {
    if q >= 0 { ModShift(n, q); } else { ModShift(m, -q); }
  }

  lemma WithIdFrame(mem: seq<byte>, id: nat)
    requires MAX_HEADER_LEN <= |mem| && id < 0x1_0000
    ensures forall i :: 0 <= i < |mem| && !(4 <= i < 6) && !(10 <= i < 12) ==> WithId(mem, id)[i] == mem[i]
    ensures WordAt(WithId(mem, id), 4) == id && WordAt(WithId(mem, id), 10) == Add(WordAt(mem, 10), 0xFFFF - id)
  {
    hide Word, Add;
  }

  /** Equal words have equal bytes. */
  lemma WordBytes(a: seq<byte>, k: nat, b: seq<byte>, j: nat)
    requires k + 2 <= |a| && j + 2 <= |b| && WordAt(a, k) == WordAt(b, j)
    ensures a[k] == b[j] && a[k + 1] == b[j + 1]
  {
  }

  /** A stretch that holds both words, as two word updates. */
  lemma StretchWithId(mem: seq<byte>, id: nat, from: nat, to: nat)
    requires MAX_HEADER_LEN <= |mem| && id < 0x1_0000
    requires from <= 4 && 12 <= to <= |mem|
    ensures var s1 := SetWord(mem[from..to], 4 - from, id);
            WithId(mem, id)[from..to] == SetWord(s1, 10 - from, Add(WordAt(mem, 10), 0xFFFF - id))
  {
    hide Word, Add, SetWord;
    var r := WithId(mem, id);
    WithIdFrame(mem, id);
    var s1 := SetWord(mem[from..to], 4 - from, id);
    var s2 := SetWord(s1, 10 - from, Add(WordAt(mem, 10), 0xFFFF - id));
    assert WordAt(s2, 4 - from) == WordAt(s1, 4 - from);
    WordBytes(r, 4, s2, 4 - from);
    WordBytes(r, 10, s2, 10 - from);
    assert forall i :: 0 <= i < to - from ==> r[from..to][i] == s2[i];
  }

  /** The sum over a stretch of the packet that holds both words or neither is the
      same as before modulo 65535. */
  lemma StretchKept(mem: seq<byte>, id: nat, from: nat, to: nat, base: nat)
    requires MAX_HEADER_LEN <= |mem| && id < 0x1_0000 && WordAt(mem, 4) == 0
    requires from <= to <= |mem| && from % 2 == 0
    requires (from <= 4 && 12 <= to) || from >= 12 || to <= 4
    ensures Multiple(base + Words(WithId(mem, id)[from..to])) <==> Multiple(base + Words(mem[from..to]))
  {
    hide Word, Words, Add, Multiple, SetWord;
    var r := WithId(mem, id);
    WithIdFrame(mem, id);
    if from <= 4 && 12 <= to {
      var sum, s := WordAt(mem, 10), mem[from..to];
      var s1 := SetWord(s, 4 - from, id);
      var s2 := SetWord(s1, 10 - from, Add(sum, 0xFFFF - id));
      StretchWithId(mem, id, from, to);
      WordsSetWord(s, 4 - from, id);
      WordsSetWord(s1, 10 - from, Add(sum, 0xFFFF - id));
      assert WordAt(s, 4 - from) == 0;
      assert WordAt(s1, 10 - from) == WordAt(s, 10 - from) == sum;
      IdAndSum(sum, id);
      var q: int :| id + Add(sum, 0xFFFF - id) - sum == q * 0xFFFF;
      MultiplesKeepZero(base + Words(s), base + Words(s2), q);
    } else {
      assert r[from..to] == mem[from..to];
    }
  }

  lemma EndOfRest(mem: seq<byte>, len: nat)
    requires 0 < |mem| && 12 <= len < 0x1_0000
    ensures HeaderLen(mem) == 0 || HeaderLen(mem) == 4 || HeaderLen(mem) == 8 || HeaderLen(mem) >= 12
    ensures HeaderLen(mem) < 12 ==> HeaderLen(mem) + RestLen(mem, len) == len
  {
  }

  /** Numbering a packet that contains its checksum field never changes the verdict,
      unless the header length is 8: then the header sum covers the identification
      but not the checksum. */
  lemma RewriteKeepsVerdict(mem: seq<byte>, len: nat, id: nat)
    requires MAX_HEADER_LEN <= |mem| && id < 0x1_0000 && WordAt(mem, 4) == 0
    requires 12 <= len < 0x1_0000 && HeaderLen(mem) != 8
    ensures CheckIp(WithId(mem, id), len) == CheckIp(mem, len)
  {
    hide Words, Word, Add, Multiple, RestLen, HeaderLen, Ipv4, SetWord;
    WithIdFrame(mem, id);
    UnfoldHeader(mem, len);
    UnfoldHeader(WithId(mem, id), len);
    EndOfRest(mem, len);
    var r := WithId(mem, id);
    var hl := HeaderLen(mem);
    StretchKept(mem, id, 0, hl, 0);
    assert r[0..hl] == r[..hl] && mem[0..hl] == mem[..hl];
    var end := hl + RestLen(mem, len);
    if end <= |mem| {
      StretchKept(mem, id, hl, end, 0);
      StretchKept(mem, id, hl, end, PseudoSum(mem, len));
      assert r[12..20] == mem[12..20];
    }
  }

  /** How much the sum over the bytes `from` to `to` grows when the word at `k` changes
      from `was` to `now`: by the difference of the words, or of their high bytes when the
      stretch ends inside the word. */
  function Part(k: nat, was: nat, now: nat, from: nat, to: nat): int {
    if from <= k && k + 2 <= to then now - was
    else if from <= k && k + 1 == to then now / 256 * 256 - was / 256 * 256
    else 0
  }

  /** How much numbering a packet adds to the sum over a stretch of it. */
  function Drift(mem: seq<byte>, id: nat, from: nat, to: nat): int
    requires MAX_HEADER_LEN <= |mem| && id < 0x1_0000
  {
    var sum := WordAt(mem, 10);
    Part(4, WordAt(mem, 4), id, from, to) + Part(10, sum, Add(sum, 0xFFFF - id), from, to)
  }

  lemma StretchPart(s: seq<byte>, k: nat, v: nat, from: nat, to: nat)
    requires k + 2 <= |s| && v < 0x1_0000 && k % 2 == 0 && from % 2 == 0 && from <= to <= |s|
    ensures Words(SetWord(s, k, v)[from..to]) == Words(s[from..to]) + Part(k, WordAt(s, k), v, from, to)
  {
    hide Words, Word, SetWord;
    var r := SetWord(s, k, v);
    if from <= k && k + 2 <= to {
      WordsSetWord(s[from..to], k - from, v);
      WordBytes(r, k, SetWord(s[from..to], k - from, v), k - from);
      assert forall i :: 0 <= i < to - from ==> r[from..to][i] == SetWord(s[from..to], k - from, v)[i];
      assert r[from..to] == SetWord(s[from..to], k - from, v);
      assert WordAt(s[from..to], k - from) == WordAt(s, k);
    } else if from <= k && k + 1 == to {
      CutWord(s, k, from);
      CutWord(r, k, from);
      assert r[from..k] == s[from..k];
    } else {
      assert r[from..to] == s[from..to];
    }
  }

  /** A stretch that ends inside a word counts the word's high byte. */
  lemma CutWord(s: seq<byte>, k: nat, from: nat)
    requires k + 2 <= |s| && from <= k && (k - from) % 2 == 0
    ensures Words(s[from..k + 1]) == Words(s[from..k]) + WordAt(s, k) / 256 * 256
  {
    WordsAppend(s[from..k], [s[k]]);
    assert s[from..k] + [s[k]] == s[from..k + 1];
    SingleSum(s[k]);
  }

  lemma StretchDrifts(mem: seq<byte>, id: nat, from: nat, to: nat)
    requires MAX_HEADER_LEN <= |mem| && id < 0x1_0000 && from % 2 == 0 && from <= to <= |mem|
    ensures Words(WithId(mem, id)[from..to]) == Words(mem[from..to]) + Drift(mem, id, from, to)
  {
    hide Words, Word, SetWord, Add, Part;
    var one := SetWord(mem, 4, id);
    var v := Add(WordAt(mem, 10), 0xFFFF - id);
    StretchPart(mem, 4, id, from, to);
    StretchPart(one, 10, v, from, to);
    assert WordAt(one, 10) == WordAt(mem, 10);
  }

  /** A change that is a multiple of 65535. */
  predicate Neutral(d: int) {
    d % 0xFFFF == 0
  }

  lemma NeutralKeepsZero(n: nat, d: int)
    requires Multiple(n) && n + d >= 0
    ensures Multiple(n + d) <==> Neutral(d)
  {
    var q := n / 0xFFFF;
    assert n + d == d + q * 0xFFFF;
  }

  /** The packets whose rest is summed and must be right. */
  predicate RestMatters(mem: seq<byte>)
    requires MAX_HEADER_LEN <= |mem|
  {
    mem[9] == TCP || mem[9] == ICMP || (mem[9] == UDP && WordAt(mem, 26) != 0)
  }

  /** Exactly when an accepted packet of any length that is numbered stays accepted: the
      header sum, and the sum of the rest where it matters, change by a multiple of
      65535. */
  lemma RewriteKeepsAccepted(mem: seq<byte>, len: nat, id: nat)
    requires MAX_HEADER_LEN <= |mem| && id < 0x1_0000 && len < 0x1_0000 && CheckIp(mem, len) == Ok
    ensures var hl := HeaderLen(mem);
            CheckIp(WithId(mem, id), len) == Ok
            <==> Neutral(Drift(mem, id, 0, hl))
                 && (RestMatters(mem) ==> Neutral(Drift(mem, id, hl, hl + RestLen(mem, len))))
  {
    hide Words, Word, Add, Multiple, Neutral, RestLen, HeaderLen, Ipv4, SetWord, Drift;
    WithIdFrame(mem, id);
    UnfoldHeader(mem, len);
    UnfoldHeader(WithId(mem, id), len);
    var r, hl := WithId(mem, id), HeaderLen(mem);
    StretchDrifts(mem, id, 0, hl);
    assert r[0..hl] == r[..hl] && mem[0..hl] == mem[..hl];
    NeutralKeepsZero(Words(mem[..hl]), Drift(mem, id, 0, hl));
    var end := hl + RestLen(mem, len);
    assert r[12..20] == mem[12..20];
    assert WordAt(r, 26) == WordAt(mem, 26) && WordAt(r, 2) == WordAt(mem, 2);
    if RestMatters(mem) {
      StretchDrifts(mem, id, hl, end);
      NeutralKeepsZero((if mem[9] == ICMP then 0 else PseudoSum(mem, len)) + Words(mem[hl..end]), Drift(mem, id, hl, end));
    }
  }

  /** For a packet that contains its checksum field: unless the header length is 8 and the
      identification is not one of the two zeros. */
  lemma RewriteKeepsLongAccepted(mem: seq<byte>, len: nat, id: nat)
    requires MAX_HEADER_LEN <= |mem| && id < 0x1_0000 && WordAt(mem, 4) == 0
    requires 12 <= len < 0x1_0000 && CheckIp(mem, len) == Ok
    ensures CheckIp(WithId(mem, id), len) == Ok <==> HeaderLen(mem) != 8 || Multiple(id)
  {
    hide Word, Add, RestLen, HeaderLen, CheckIp, RestMatters;
    RewriteKeepsAccepted(mem, len, id);
    EndOfRest(mem, len);
    UnfoldHeader(mem, len);
    BothWordsNeutral(WordAt(mem, 10), id);
  }

  lemma BothWordsNeutral(sum: nat, id: nat)
    requires sum < 0x1_0000 && id < 0x1_0000
    ensures Neutral(id + (Add(sum, 0xFFFF - id) - sum))
    ensures Multiple(id) ==> Neutral(Add(sum, 0xFFFF - id) - sum)
  {
    var d := Add(sum, 0xFFFF - id) - sum;
    assert id + d == 0xFFFF || id + d == 0;
    assert Multiple(id) ==> id == 0 || id == 0xFFFF;
  }

  /** A packet that ends inside its checksum: without a header, its rest covers the
      identification and half of the checksum, so it may not stay accepted. */
  lemma ShortPacketExactly(mem: seq<byte>, id: nat)
    requires MAX_HEADER_LEN <= |mem| && id < 0x1_0000 && WordAt(mem, 4) == 0
    requires CheckIp(mem, 11) == Ok && HeaderLen(mem) == 0 && mem[9] == ICMP
    ensures var sum := WordAt(mem, 10);
            CheckIp(WithId(mem, id), 11) == Ok <==> Neutral(id + (Add(sum, 0xFFFF - id) / 256 * 256 - sum / 256 * 256))
  {
    hide Word, HeaderLen, CheckIp;
    RewriteKeepsAccepted(mem, 11, id);
    UnfoldHeader(mem, 11);
  }

  /** The number 1 makes such a packet fail, unless the low byte of its checksum is 0. */
  lemma ShortPacketFails(mem: seq<byte>)
    requires MAX_HEADER_LEN <= |mem| && WordAt(mem, 4) == 0
    requires CheckIp(mem, 11) == Ok && HeaderLen(mem) == 0 && mem[9] == ICMP && WordAt(mem, 10) % 256 != 0
    ensures CheckIp(WithId(mem, 1), 11) != Ok
  {
    hide Word, HeaderLen, CheckIp;
    ShortPacketExactly(mem, 1);
    SmallDrift(WordAt(mem, 10));
  }

  lemma SmallDrift(sum: nat)
    requires sum < 0x1_0000 && sum % 256 != 0
    ensures !Neutral(1 + (Add(sum, 0xFFFE) / 256 * 256 - sum / 256 * 256))
  {
  }

  // ---------------------------------------------------------------------------
  // Packets built for DHCP clients
  // ---------------------------------------------------------------------------

  /** The value that makes a sum zero. */
  lemma Complement(n: nat)
    ensures Multiple(n + (0xFFFF - Fold(n)))
  {
    if n > 0 {
      var q := (n - 1) / 0xFFFF;
      assert n == Fold(n) + q * 0xFFFF;
      ModShift(0, q + 1);
    }
  }

  /** The fixed fields of a UDP packet of `len` bytes without its two checksums. */
  predicate Draft(mem: seq<byte>, len: nat) {
    && MAX_HEADER_LEN <= |mem| && HEADER_LEN + UDP_HEADER_LEN <= len <= |mem| && len < 0xFF00
    && mem[0] == 0x45 && WordAt(mem, 2) == len && mem[9] == UDP && WordAt(mem, 10) == 0 && WordAt(mem, 26) == 0
  }

  function HeaderSum(mem: seq<byte>): (r: nat)
    requires MAX_HEADER_LEN <= |mem|
    ensures r < 0x1_0000
  {
    Ip4Sum(0, mem[..20])
  }

  function UdpSum(mem: seq<byte>, len: nat): (r: nat)
    requires MAX_HEADER_LEN <= |mem| && 20 <= len <= |mem|
    ensures r < 0x1_0000
  {
    Ip4Sum(Ip4Sum(UDP + len - 20, mem[12..20]), mem[20..len])
  }

  /** A draft with its two checksums. */
  function Summed(mem: seq<byte>, len: nat): (r: seq<byte>)
    requires Draft(mem, len)
    ensures |r| == |mem|
  {
    var udp := UdpSum(mem, len);
    SetWord(SetWord(mem, 10, 0xFFFF - HeaderSum(mem)), 26, if udp != 0xFFFF then 0xFFFF - udp else 0xFFFF)
  }

  lemma SummedFrame(mem: seq<byte>, len: nat)
    requires Draft(mem, len)
    ensures var r := Summed(mem, len);
            && (forall i :: 0 <= i < |mem| && !(10 <= i < 12) && !(26 <= i < 28) ==> r[i] == mem[i])
            && r[..20] == SetWord(mem[..20], 10, 0xFFFF - HeaderSum(mem))
            && r[20..len] == SetWord(mem[20..len], 6, if UdpSum(mem, len) != 0xFFFF then 0xFFFF - UdpSum(mem, len) else 0xFFFF)
  {
    hide Word, HeaderSum, UdpSum, SetWord;
    var r := Summed(mem, len);
    var s1 := SetWord(mem, 10, 0xFFFF - HeaderSum(mem));
    assert WordAt(r, 10) == WordAt(s1, 10);
    WordBytes(r, 10, SetWord(mem[..20], 10, 0xFFFF - HeaderSum(mem)), 10);
    WordBytes(r, 26, SetWord(mem[20..len], 6, if UdpSum(mem, len) != 0xFFFF then 0xFFFF - UdpSum(mem, len) else 0xFFFF), 6);
  }

  /** Every packet that is built for a DHCP client passes the check, and is not numbered
      again on its way out. */
  lemma SummedAccepted(mem: seq<byte>, len: nat, little: bool)
    requires Draft(mem, len) && WordAt(mem, 6) == 0
    ensures CheckIp(Summed(mem, len), len) == Ok && !NeedsId(Summed(mem, len), little)
  {
    hide Words, Word, Multiple, RestLen, HeaderLen, Ipv4, SetWord, Summed, HeaderSum, UdpSum, HostWord;
    var r := Summed(mem, len);
    SummedFrame(mem, len);
    UnfoldHeader(r, len);
    SummedHeader(mem, len);
    UdpSumIsFold(mem, len);
    assert WordAt(mem[20..len], 6) == WordAt(mem, 26);
    CompletesSum(UDP + len - 20 + Words(mem[12..20]), mem[20..len], UdpSum(mem, len));
    assert PseudoStart(UDP, len - 20) == UDP + len - 20;
    assert Rest(r, len) == r[20..len];
    assert r[12..20] == mem[12..20];
    ZeroWord(mem, 6);
    ZeroHostWord(little);
  }

  lemma ZeroWord(s: seq<byte>, k: nat)
    requires k + 2 <= |s| && WordAt(s, k) == 0
    ensures s[k] == 0 && s[k + 1] == 0
  {
  }

  lemma ZeroHostWord(little: bool)
    ensures HostWord(little, 0, 0) / 0x4000 % 2 == 0
  {
  }

  lemma SummedHeader(mem: seq<byte>, len: nat)
    requires Draft(mem, len)
    ensures Multiple(Words(Summed(mem, len)[..20]))
  {
    hide Words, Word, Multiple, SetWord, Summed, Fold;
    SummedFrame(mem, len);
    var w := Words(mem[..20]);
    WordsSetWord(mem[..20], 10, 0xFFFF - HeaderSum(mem));
    assert WordAt(mem[..20], 10) == WordAt(mem, 10);
    Complement(w);
  }

  /** Setting a word to the complement of a sum, or to 0xFFFF if that is zero, makes the
      sum zero. */
  lemma CompletesSum(start: nat, rest: seq<byte>, sum: nat)
    requires 8 <= |rest| && WordAt(rest, 6) == 0 && sum == Fold(start + Words(rest))
    ensures Multiple(start + Words(SetWord(rest, 6, if sum != 0xFFFF then 0xFFFF - sum else 0xFFFF)))
  {
    hide Words, Word, Multiple, SetWord, Fold;
    var n := start + Words(rest);
    WordsSetWord(rest, 6, if sum != 0xFFFF then 0xFFFF - sum else 0xFFFF);
    if sum != 0xFFFF {
      Complement(n);
    } else {
      ZeroIsMultiple(n);
      MultiplesKeepZero(n, n + 0xFFFF, 1);
    }
  }

  lemma UdpSumIsFold(mem: seq<byte>, len: nat)
    requires MAX_HEADER_LEN <= |mem| && 20 <= len <= |mem|
    ensures UdpSum(mem, len) == Fold(UDP + len - 20 + Words(mem[12..20]) + Words(mem[20..len]))
  {
    hide Words, Fold;
    FoldFold(UDP + len - 20 + Words(mem[12..20]), Words(mem[20..len]));
  }

  /** The headers and checksums of a reply whose DHCP message already lies behind
      them. */
  method WriteHeaders(buf: array<byte>, message: nat, id: nat, src: seq<byte>, dst: seq<byte>)
    requires MAX_HEADER_LEN <= buf.Length && HEADER_LEN + UDP_HEADER_LEN + message <= buf.Length < 0xFF00
    requires |src| == |dst| == 4 && id < 0x1_0000
    modifies buf
    ensures var len := HEADER_LEN + UDP_HEADER_LEN + message;
            && CheckIp(buf[..], len) == Ok && (forall little :: !NeedsId(buf[..], little))
            && buf[28..] == old(buf[28..]) && WordAt(buf[..], 4) == id && buf[12..16] == src && buf[16..20] == dst
            && WordAt(buf[..], 20) == BOOTPS && WordAt(buf[..], 22) == BOOTPC && WordAt(buf[..], 24) == len - HEADER_LEN
  {
    hide Words, Word, Fold, CheckIp, NeedsId, Summed, Draft;
    var len := HEADER_LEN + UDP_HEADER_LEN + message;
    WriteFields(buf, len, id, src, dst);
    ghost var mem := buf[..];
    var sum := SumLoop(0, buf, 0, 20);
    assert buf[0..0 + 20] == mem[..20];
    var udp := UDP + len - 20;
    udp := SumLoop(udp, buf, 12, 8);
    assert buf[12..12 + 8] == mem[12..20];
    udp := SumLoop(udp, buf, 20, len - 20);
    assert buf[20..20 + (len - 20)] == mem[20..len];
    WriteSums(buf, len, sum, if udp != 0xFFFF then 0xFFFF - udp else 0xFFFF);
    assert buf[..] == Summed(mem, len) by { UnfoldSummed(mem, len); }
    SummedFrame(mem, len);
    forall little: bool ensures CheckIp(buf[..], len) == Ok && !NeedsId(buf[..], little) {
      SummedAccepted(mem, len, little);
    }
    assert CheckIp(buf[..], len) == Ok by { SummedAccepted(mem, len, true); }
    assert buf[28..] == mem[28..];
    assert buf[12..16] == mem[12..16] && buf[16..20] == mem[16..20];
  }

  lemma UnfoldSummed(mem: seq<byte>, len: nat)
    requires Draft(mem, len)
    ensures var udp := UdpSum(mem, len);
            MAX_HEADER_LEN <= |mem|
            && Summed(mem, len) == SetWord(SetWord(mem, 10, 0xFFFF - HeaderSum(mem)), 26, if udp != 0xFFFF then 0xFFFF - udp else 0xFFFF)
  {
  }

  method WriteSums(buf: array<byte>, len: nat, sum: nat, udp: nat)
    requires MAX_HEADER_LEN <= buf.Length && sum < 0x1_0000 && udp < 0x1_0000
    modifies buf
    ensures buf[..] == SetWord(SetWord(old(buf[..]), 10, 0xFFFF - sum), 26, udp)
  {
    var h := 0xFFFF - sum;
    buf[10], buf[11] := h / 256, h % 256;
    buf[26], buf[27] := udp / 256, udp % 256;
  }

  method WriteFields(buf: array<byte>, len: nat, id: nat, src: seq<byte>, dst: seq<byte>)
    requires MAX_HEADER_LEN <= buf.Length && HEADER_LEN + UDP_HEADER_LEN <= len <= buf.Length < 0xFF00
    requires |src| == |dst| == 4 && id < 0x1_0000
    modifies buf
    ensures Draft(buf[..], len) && WordAt(buf[..], 6) == 0 && buf[28..] == old(buf[28..])
    ensures WordAt(buf[..], 4) == id && buf[12..16] == src && buf[16..20] == dst
    ensures WordAt(buf[..], 20) == BOOTPS && WordAt(buf[..], 22) == BOOTPC && WordAt(buf[..], 24) == len - HEADER_LEN
  {
    hide Word;
    WriteIpFields(buf, len, id);
    WriteAddresses(buf, src, dst);
    WriteUdpFields(buf, len - HEADER_LEN);
    KeepWord(buf[..]);
  }

  lemma KeepWord(mem: seq<byte>)
    requires 28 <= |mem|
    ensures forall k :: 0 <= k < 27 ==> WordAt(mem, k) == Word(mem[k], mem[k + 1])
  {
  }

  lemma WordOf(n: nat)
    requires n < 0x1_0000
    ensures Word(n / 256, n % 256) == n
  {
  }

  method WriteIpFields(buf: array<byte>, len: nat, id: nat)
    requires MAX_HEADER_LEN <= buf.Length && len < 0x1_0000 && id < 0x1_0000
    modifies buf
    ensures buf[0] == 0x45 && buf[9] == UDP && buf[12..] == old(buf[12..])
    ensures Word(buf[2], buf[3]) == len && Word(buf[4], buf[5]) == id
    ensures Word(buf[6], buf[7]) == 0 && Word(buf[10], buf[11]) == 0
  {
    hide Word;
    WordOf(len);
    WordOf(id);
    WordOf(0);
    buf[0], buf[1], buf[2], buf[3] := 0x45, 0, len / 256, len % 256;
    buf[4], buf[5], buf[6], buf[7] := id / 256, id % 256, 0, 0;
    buf[8], buf[9], buf[10], buf[11] := 64, UDP, 0, 0;
  }

  method WriteAddresses(buf: array<byte>, src: seq<byte>, dst: seq<byte>)
    requires MAX_HEADER_LEN <= buf.Length && |src| == |dst| == 4
    modifies buf
    ensures buf[..12] == old(buf[..12]) && buf[20..] == old(buf[20..]) && buf[12..16] == src && buf[16..20] == dst
  {
    buf[12], buf[13], buf[14], buf[15] := src[0], src[1], src[2], src[3];
    buf[16], buf[17], buf[18], buf[19] := dst[0], dst[1], dst[2], dst[3];
  }

  method WriteUdpFields(buf: array<byte>, len: nat)
    requires MAX_HEADER_LEN <= buf.Length && len < 0x1_0000
    modifies buf
    ensures buf[..20] == old(buf[..20]) && buf[28..] == old(buf[28..])
    ensures Word(buf[20], buf[21]) == BOOTPS && Word(buf[22], buf[23]) == BOOTPC
    ensures Word(buf[24], buf[25]) == len && Word(buf[26], buf[27]) == 0
  {
    hide Word;
    WordOf(len);
    WordOf(0);
    WordOf(BOOTPS);
    WordOf(BOOTPC);
    buf[20], buf[21], buf[22], buf[23] := 0, BOOTPS, 0, BOOTPC;
    buf[24], buf[25], buf[26], buf[27] := len / 256, len % 256, 0, 0;
  }

  // ---------------------------------------------------------------------------
  // What the verdicts and conditions say of the bytes
  // ---------------------------------------------------------------------------

  /** Which error code a packet gets: the first that applies of a wrong version, a packet
      cut short, one with more bytes than it says, a bad header sum, and a bad sum of the
      transport protocol; a UDP packet without a checksum is never refused for its sum. */
  lemma Verdicts(mem: seq<byte>, len: nat)
    requires MAX_HEADER_LEN <= |mem|
    ensures var total := 256 * mem[2] as nat + mem[3] as nat;
            var v := CheckIp(mem, len);
            && (v == Bad(-1) <==> !(64 <= mem[0] < 80))
            && (v == Bad(-2) <==> 64 <= mem[0] < 80 && len < total)
            && (v == Bad(-3) <==> 64 <= mem[0] < 80 && total < len)
            && (v == Bad(-4) <==> 64 <= mem[0] < 80 && len == total && !Multiple(Words(mem[..4 * (mem[0] as nat - 64)])))
            && (v == Bad(-5) ==> mem[9] == 6) && (v == Bad(-7) ==> mem[9] == 1)
            && (v == Bad(-6) ==> mem[9] == 17 && !(mem[26] == 0 && mem[27] == 0))
            && (mem[9] == 17 && mem[26] == 0 && mem[27] == 0 ==> v != Bad(-6))
            && (mem[9] != 1 && mem[9] != 6 && mem[9] != 17 && v.Bad? ==> v.code >= -4)
  {
    hide Words, Multiple;
    VersionByte(mem[0]);
    assert mem[0] / 16 == 4 ==> HeaderLen(mem) == 4 * (mem[0] as nat - 64);
  }

  lemma VersionByte(b: byte)
    ensures b / 16 == 4 <==> 64 <= b < 80
    ensures 64 <= b < 80 ==> b % 16 == b - 64
  {
  }

  /** The sum starts with the pseudo header: addresses, protocol and length of the rest
      (section 3.1 of RFC 793), as long as the last two need no carry. */
  lemma PseudoHeader(mem: seq<byte>, len: nat, high: byte, low: byte)
    requires MAX_HEADER_LEN <= |mem| && RestLen(mem, len) == 256 * high as nat + low as nat
    requires mem[9] as nat + RestLen(mem, len) < 0x1_0000
    ensures PseudoSum(mem, len) == Words(mem[12..16] + mem[16..20] + [0, mem[9]] + [high, low])
  {
    hide Words;
    assert mem[12..16] + mem[16..20] == mem[12..20];
    WordsAppend(mem[12..20], [0, mem[9]]);
    WordsAppend(mem[12..20] + [0, mem[9]], [high, low]);
    PairSum(0, mem[9]);
    PairSum(high, low);
  }

  /** A packet is numbered exactly if its identification is zero and one bit is set: the
      don't-fragment flag on a big-endian host, a bit of the fragment offset on a
      little-endian one. */
  lemma NeedsIdExactly(mem: seq<byte>, little: bool)
    requires MAX_HEADER_LEN <= |mem|
    ensures NeedsId(mem, little) <==> mem[4] == 0 && mem[5] == 0 && (if little then mem[7] else mem[6]) / 64 % 2 == 1
  {
    FlagByte(mem[6], mem[7]);
    FlagByte(mem[7], mem[6]);
  }

  lemma FlagByte(hi: byte, lo: byte)
    ensures Word(hi, lo) / 0x4000 == hi as nat / 64
  {
    assert Word(hi, lo) == 0x4000 * (hi as nat / 64) + 256 * (hi as nat % 64) + lo as nat;
  }

  /** So a packet that must not be fragmented, and has no offset, is numbered on big-endian
      hosts only. */
  lemma DontFragment(mem: seq<byte>)
    requires MAX_HEADER_LEN <= |mem| && mem[4] == 0 && mem[5] == 0 && mem[6] == 0x40 && mem[7] == 0
    ensures NeedsId(mem, false) && !NeedsId(mem, true)
  {
    hide NeedsId;
    NeedsIdExactly(mem, false);
    NeedsIdExactly(mem, true);
  }
}
