/**
 The values of CoAP options: integers in as few bytes as possible, Block values, and
 strings that are split into one option per part and merged again by the parser.
 */
module CoapValues {
  import opened Bytes

  const SLASH: byte := 0x2F
  const AMPERSAND: byte := 0x26
  const WORD: nat := 0x1_0000_0000

  // ---------------------------------------------------------------------------
  // Integers
  // ---------------------------------------------------------------------------

  /** The value bytes of coap_serialize_int_option. */
  function IntBytes(value: nat): (r: seq<byte>)
    ensures value < 0x100 ==> |r| <= 1
    ensures value < 0x1_0000 ==> |r| <= 2
    ensures value < 0x100_0000 ==> |r| <= 3
    ensures value < WORD ==> |r| <= 4
  {
    if value == 0 then [] else IntBytes(value / 256) + [value % 256]
  }

  /** coap_parse_int_option, in 32 bits. */
  function IntValue(s: seq<byte>): (r: nat)
    ensures r < WORD
  {
    if s == [] then 0 else (IntValue(s[..|s| - 1]) * 256 + s[|s| - 1]) % WORD
  }

  lemma {:induction false} IntRoundTrip(value: nat)
    requires value < WORD
    ensures IntValue(IntBytes(value)) == value
  {
    if value > 0 {
      IntRoundTrip(value / 256);
      var s := IntBytes(value);
      assert s[..|s| - 1] == IntBytes(value / 256);
    }
  }

  // ---------------------------------------------------------------------------
  // Blocks
  // ---------------------------------------------------------------------------

  /** `offset` is computed by the parser only. */
  datatype Block = Block(num: nat, more: bool, size: nat, offset: nat)

  /** coap_log_2. */
  function Log2(value: nat): nat {
    if value < 2 then 0 else 1 + Log2(value / 2)
  }

  function PowerOf2(k: nat): (r: nat)
    ensures r > 0
  {
    if k == 0 then 1 else 2 * PowerOf2(k - 1)
  }

  lemma {:induction false} Log2OfPower(k: nat)
    ensures Log2(PowerOf2(k)) == k
  {
    if k > 0 {
      Log2OfPower(k - 1);
    }
  }

  /** The Block value of the serializer: number, more flag and size exponent. The size
      exponent has four bits there, of which the highest is the more flag's. */
  function BlockValue(b: Block): (r: nat)
    ensures r < WORD
  {
    var szx := Log2(b.size / 16) % 16;
    b.num * 16 % WORD + if b.more && szx < 8 then szx + 8 else szx
  }

  /** The Block fields of the parser. */
  function BlockOf(value: nat): Block {
    Block(value / 16, value / 8 % 2 == 1, 16 * PowerOf2(value % 8), value / 16 * 16 * PowerOf2(value % 8) % WORD)
  }

  /** A block as it is received: the offset is the number times the size. */
  function WithOffset(b: Block): Block {
    b.(offset := b.num * b.size % WORD)
  }

  predicate ValidBlock(b: Block) {
    b.num < 0x1000_0000 && exists k: nat :: k < 8 && b.size == 16 * PowerOf2(k)
  }

  /** Block values survive the round trip, with an offset of number times size. */
  lemma BlockRoundTrip(b: Block)
    requires ValidBlock(b)
    ensures BlockOf(BlockValue(b)) == WithOffset(b)
  {
    hide BlockOf, BlockValue;
    var k: nat :| k < 8 && b.size == 16 * PowerOf2(k);
    WrittenBlock(b, k);
    ReadBlock(b.num, if b.more then k + 8 else k);
  }

  lemma WrittenBlock(b: Block, k: nat)
    requires b.num < 0x1000_0000 && k < 8 && b.size == 16 * PowerOf2(k)
    ensures BlockValue(b) == b.num * 16 + if b.more then k + 8 else k
  {
    hide PowerOf2, Log2;
    Log2OfPower(k);
    assert b.size / 16 == PowerOf2(k);
  }

  lemma ReadBlock(num: nat, low: nat)
    requires low < 16
    ensures BlockOf(num * 16 + low) == WithOffset(Block(num, low >= 8, 16 * PowerOf2(low % 8), 0))
  {
    hide PowerOf2;
    BlockFields(num, low);
    Associate(num, PowerOf2(low % 8));
  }

  lemma BlockFields(num: nat, low: nat)
    requires low < 16
    ensures (num * 16 + low) / 16 == num && (num * 16 + low) % 8 == low % 8
    ensures (num * 16 + low) / 8 % 2 == 1 <==> low >= 8
  {
    assert (num * 16 + low) / 8 == num * 2 + low / 8;
  }

  lemma Associate(n: nat, p: nat)
    ensures n * 16 * p == n * (16 * p)
  {
  }

  // ---------------------------------------------------------------------------
  // Splitting and merging
  // ---------------------------------------------------------------------------

  /** Slashes after a separator are skipped, whatever the separator. */
  function SkipSlashes(s: seq<byte>, j: nat): (k: nat)
    ensures j <= k && (j <= |s| ==> k <= |s|)
    ensures j < |s| && s[j] != SLASH ==> k == j
    ensures j < |s| && s[j] == SLASH ==> k > j
    decreases |s| - j
  {
    if j < |s| && s[j] == SLASH then SkipSlashes(s, j + 1) else j
  }

  /** The parts from index `j` on, where `start` is the start of the current part. The
      first byte of a part is never compared with the separator, and a separator at the
      end starts no part. */
  function Parts(s: seq<byte>, start: nat, j: nat, separator: byte): (r: seq<seq<byte>>)
    requires start <= j && start <= |s|
    ensures j <= |s| <==> r != []
    decreases |s| + 1 - j
  {
    if j > |s| then []
    else if j == |s| || s[j] == separator then
      var k := SkipSlashes(s, j + 1);
      [s[start..j]] + if k < |s| then Parts(s, k, k + 1, separator) else []
    else Parts(s, start, j + 1, separator)
  }

  /** The option values of a string. */
  function Split(s: seq<byte>, separator: byte): (r: seq<seq<byte>>)
    ensures r != []
  {
    Parts(s, 0, 0, separator)
  }

  /** coap_merge_multi_option: an empty field takes the value over. */
  function Merge(field: seq<byte>, value: seq<byte>, separator: byte): seq<byte> {
    if field == [] then value else field + [separator] + value
  }

  function MergeOnto(field: seq<byte>, values: seq<seq<byte>>, separator: byte): seq<byte>
    decreases |values|
  {
    if values == [] then field else MergeOnto(Merge(field, values[0], separator), values[1..], separator)
  }

  /** The values with separators between them. */
  function Join(values: seq<seq<byte>>, separator: byte): seq<byte> {
    if values == [] then []
    else if |values| == 1 then values[0]
    else values[0] + [separator] + Join(values[1..], separator)
  }

  /** Merging onto a field that is not empty is joining. */
  lemma {:induction false} MergeIsJoin(field: seq<byte>, values: seq<seq<byte>>, separator: byte)
    requires field != []
    ensures MergeOnto(field, values, separator) == Join([field] + values, separator)
    decreases |values|
  {
    if values == [] {
      assert [field] + values == [field];
    } else {
      var next := Merge(field, values[0], separator);
      MergeIsJoin(next, values[1..], separator);
      assert ([field] + values)[1..] == values;
      if |values| == 1 {
        assert [next] + values[1..] == [next];
      } else {
        assert ([next] + values[1..])[1..] == values[1..];
        assert next + [separator] + Join(values[1..], separator)
            == field + [separator] + (values[0] + [separator] + Join(values[1..], separator));
      }
    }
  }

  /** Leading empty values only make the merged field shorter. */
  lemma {:induction false} MergeIsShort(values: seq<seq<byte>>, separator: byte)
    ensures |MergeOnto([], values, separator)| <= |Join(values, separator)|
    decreases |values|
  {
    if values != [] {
      if values[0] == [] {
        MergeIsShort(values[1..], separator);
      } else {
        MergeIsJoin(values[0], values[1..], separator);
        assert [values[0]] + values[1..] == values;
      }
    }
  }

  /** No separator that is looked at, from `j` on, is the last byte or followed by a
      slash. */
  predicate CleanFrom(s: seq<byte>, j: nat, separator: byte)
    decreases |s| - j
  {
    if j >= |s| then true
    else if s[j] == separator then j + 1 < |s| && s[j + 1] != SLASH && CleanFrom(s, j + 2, separator)
    else CleanFrom(s, j + 1, separator)
  }

  predicate Clean(s: seq<byte>, separator: byte) {
    s == [] || (s[0] != separator && CleanFrom(s, 1, separator))
  }

  lemma {:induction false} JoinParts(s: seq<byte>, start: nat, j: nat, separator: byte)
    requires start <= j <= |s|
    ensures var joined := Join(Parts(s, start, j, separator), separator);
            if CleanFrom(s, j, separator) then joined == s[start..] else |joined| < |s| - start
    decreases |s| + 1 - j
  {
    if j == |s| {
      assert s[start..j] == s[start..];
    } else if s[j] == separator {
      var k := SkipSlashes(s, j + 1);
      if k < |s| {
        JoinParts(s, k, k + 1, separator);
        var rest := Parts(s, k, k + 1, separator);
        assert ([s[start..j]] + rest)[1..] == rest;
        assert s[start..] == s[start..j] + [separator] + s[j + 1..];
      }
    } else {
      JoinParts(s, start, j + 1, separator);
    }
  }

  /** The first part of a string that does not start with the separator. */
  lemma {:induction false} FirstPart(s: seq<byte>, j: nat, separator: byte)
    requires 0 < j <= |s|
    ensures Parts(s, 0, j, separator)[0] != []
    decreases |s| - j
  {
    if j < |s| && s[j] != separator {
      FirstPart(s, j + 1, separator);
    }
  }

  /** Exactly which strings come back from splitting and merging. */
  lemma SplitMerge(s: seq<byte>, separator: byte)
    ensures MergeOnto([], Split(s, separator), separator) == s <==> Clean(s, separator)
  {
    var parts := Split(s, separator);
    if s == [] {
      assert parts == [[]];
    } else if s[0] == separator {
      var k := SkipSlashes(s, 1);
      assert s[0..0] == [];
      var rest := if k < |s| then Parts(s, k, k + 1, separator) else [];
      assert parts == [[]] + rest && parts[1..] == rest;
      MergeIsShort(rest, separator);
      if k < |s| {
        JoinParts(s, k, k + 1, separator);
      }
    } else {
      JoinParts(s, 0, 1, separator);
      FirstPart(s, 1, separator);
      MergeIsJoin(parts[0], parts[1..], separator);
      assert [parts[0]] + parts[1..] == parts;
      assert s[0..] == s;
    }
  }

  /** For paths: no empty part. */
  lemma CleanPath(s: seq<byte>)
    ensures Clean(s, SLASH) <==>
            forall i :: 0 <= i < |s| && s[i] == SLASH ==> 0 < i < |s| - 1 && s[i + 1] != SLASH
  {
    if s != [] {
      CleanPathFrom(s, 1);
    }
  }

  lemma {:induction false} CleanPathFrom(s: seq<byte>, j: nat)
    requires 0 < j
    ensures CleanFrom(s, j, SLASH) <==>
            forall i :: j <= i < |s| && s[i] == SLASH ==> i < |s| - 1 && s[i + 1] != SLASH
    decreases |s| - j
  {
    if j < |s| {
      if s[j] == SLASH {
        if j + 1 < |s| { CleanPathFrom(s, j + 2); }
      } else {
        CleanPathFrom(s, j + 1);
      }
    }
  }

  /** For queries: no empty part and none that starts with a slash is enough. */
  lemma CleanQuery(s: seq<byte>)
    requires forall i :: 0 <= i < |s| && s[i] == AMPERSAND ==>
               0 < i < |s| - 1 && s[i + 1] != SLASH && s[i + 1] != AMPERSAND
    ensures Clean(s, AMPERSAND)
  {
    if s != [] {
      CleanQueryFrom(s, 1);
    }
  }

  lemma {:induction false} CleanQueryFrom(s: seq<byte>, j: nat)
    requires forall i :: j <= i < |s| && s[i] == AMPERSAND ==> i < |s| - 1 && s[i + 1] != SLASH
    ensures CleanFrom(s, j, AMPERSAND)
    decreases |s| - j
  {
    if j < |s| {
      if s[j] == AMPERSAND {
        CleanQueryFrom(s, j + 2);
      } else {
        CleanQueryFrom(s, j + 1);
      }
    }
  }

  // ---------------------------------------------------------------------------
  // The order of bytes
  // ---------------------------------------------------------------------------

  function PowerOf256(k: nat): nat {
    if k == 0 then 1 else 256 * PowerOf256(k - 1)
  }

  /** Values of up to four bytes are big-endian: the first byte counts most. */
  lemma {:induction false} FirstByteCountsMost(b: byte, s: seq<byte>)
    requires |s| < 4
    ensures IntValue(s) < PowerOf256(|s|) && IntValue([b] + s) == b as nat * PowerOf256(|s|) + IntValue(s)
  {
    if s != [] {
      var front, last := s[..|s| - 1], s[|s| - 1];
      FirstByteCountsMost(b, front);
      assert ([b] + s)[..|s|] == [b] + front;
      SmallPowers();
      Scaled(b as nat, PowerOf256(|s| - 1));
      assert PowerOf256(|s|) == 256 * PowerOf256(|s| - 1);
      AtMostAll(b as nat, PowerOf256(|s| - 1));
    } else {
      assert [b] + s == [b] && [b][..0] == [];
      assert IntValue([b][..0]) == 0;
    }
  }

  lemma Scaled(b: nat, p: nat)
    ensures b * (256 * p) == 256 * (b * p)
  {
  }

  lemma AtMostAll(b: nat, p: nat)
    requires b < 256
    ensures b * p <= 255 * p
  {
  }

  lemma SmallPowers()
    ensures PowerOf256(0) == 1 && PowerOf256(1) == 256 && PowerOf256(2) == 65536 && PowerOf256(3) == 16777216
  {
  }

  /** Integers are written in as few bytes as possible. */
  lemma {:induction false} FewBytes(value: nat)
    requires value < WORD
    ensures value < PowerOf256(|IntBytes(value)|) && (value > 0 ==> PowerOf256(|IntBytes(value)| - 1) <= value)
  {
    if value > 0 {
      FewBytes(value / 256);
    }
  }
}
