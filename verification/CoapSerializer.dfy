/**
 The serializer as the program runs it: options are printed one after the other into
 the message buffer, integers from back to front around their header, strings part by
 part. The buffer ends up with the bytes that module CoapMessage gives.
 */
module CoapSerializer {
  import opened Bytes
  import opened CoapOptions
  import opened CoapValues
  import opened CoapMessage
  import opened Wrappers

  /** `s` with `bytes` written at `at`. */
  function Put(s: seq<byte>, at: nat, bytes: seq<byte>): (r: seq<byte>)
    requires at + |bytes| <= |s|
    ensures |r| == |s|
  {
    s[..at] + bytes + s[at + |bytes|..]
  }

  lemma PutNext(s: seq<byte>, at: nat, a: seq<byte>, b: seq<byte>)
    requires at + |a| + |b| <= |s|
    ensures Put(Put(s, at, a), at + |a|, b) == Put(s, at, a + b)
  {
  }

  lemma PutBefore(s: seq<byte>, at: nat, a: seq<byte>, b: seq<byte>)
    requires at + |a| + |b| <= |s|
    ensures Put(Put(s, at + |a|, b), at, a) == Put(s, at, a + b)
  {
  }

  /** The length of a header must fit the program's 8-bit counter. */
  const MAX_VALUE: nat := 64000

  class Serializer {
    const buffer: array<byte>
    var option: nat
    var currentNumber: nat
    var optionCount: nat

    constructor (b: array<byte>)
      ensures buffer == b && option == COAP_HEADER_LEN && currentNumber == 0 && optionCount == 0
    {
      buffer, option, currentNumber, optionCount := b, COAP_HEADER_LEN, 0, 0;
    }

    method WriteByte(at: nat, b: byte)
      requires at < buffer.Length
      modifies buffer
      ensures buffer[..] == Put(old(buffer[..]), at, [b])
    {
      buffer[at] := b;
    }

    method CopyBytes(at: nat, bytes: seq<byte>)
      requires at + |bytes| <= buffer.Length
      modifies buffer
      ensures buffer[..] == Put(old(buffer[..]), at, bytes)
    {
      hide Put;
      ghost var before := buffer[..];
      PutNothing(before, at);
      var i := 0;
      while i < |bytes|
        invariant 0 <= i <= |bytes|
        invariant buffer[..] == Put(before, at, bytes[..i])
      {
        PutNext(before, at, bytes[..i], [bytes[i]]);
        assert bytes[..i] + [bytes[i]] == bytes[..i + 1];
        WriteByte(at + i, bytes[i]);
        i := i + 1;
      }
      assert bytes[..i] == bytes;
    }

    method SetOptionHeader(delta: nat, length: nat, at: nat) returns (size: nat)
      requires length < MAX_VALUE && at + |Header(delta % 16, length)| <= buffer.Length
      modifies buffer
      ensures buffer[..] == Put(old(buffer[..]), at, Header(delta % 16, length))
      ensures size == |Header(delta % 16, length)| && size < 256
    {
      hide Put;
      if length < 15 {
        WriteByte(at, HeaderByte(delta % 16, length));
        size := 1;
      } else {
        ghost var before := buffer[..];
        size := 0;
        WriteByte(at, HeaderByte(delta % 16, 15));
        var left := length - 15;
        ghost var done: seq<byte> := [HeaderByte(delta % 16, 15)];
        while left > 254
          invariant |done| == size + 1 && 255 * size + left == length - 15
          invariant done + ExtendedLength(left) == Header(delta % 16, length)
          invariant at + |done| <= buffer.Length && buffer[..] == Put(before, at, done)
        {
          size := size + 1;
          PutNext(before, at, done, [255]);
          WriteByte(at + size, 255);
          ghost var more := done + [255];
          assert more + ExtendedLength(left - 255) == done + ExtendedLength(left);
          done := more;
          left := left - 255;
        }
        size := size + 1;
        PutNext(before, at, done, [left]);
        WriteByte(at + size, left);
        assert ExtendedLength(left) == [left];
        size := size + 1;
      }
    }

    method InsertOptionJump(number: nat, current: nat, at: nat) returns (size: nat, advanced: nat)
      requires current <= number < 0x1_0000 && at + |Jump(number - current)| <= buffer.Length
      modifies buffer
      ensures buffer[..] == Put(old(buffer[..]), at, Jump(number - current))
      ensures size == |Jump(number - current)| && advanced == current + Advance(number - current)
    {
      var delta := number - current;
      if delta < 15 {
        assert buffer[..] == Put(buffer[..], at, []);
        return 0, current;
      } else if delta < 30 {
        buffer[at] := JUMP_ONE;
        return 1, current + 15;
      } else if delta < 2064 {
        buffer[at], buffer[at + 1] := JUMP_TWO, delta / 8 - 2;
        return 2, current + (delta / 8 - 2);
      } else {
        delta := delta / 8 - 258;
        buffer[at], buffer[at + 1], buffer[at + 2] := JUMP_THREE, delta / 256, delta % 256;
        return 3, current + delta;
      }
    }

    /** The value bytes of an integer, high byte first and without leading zeros. */
    method WriteInt(at: nat, value: nat) returns (size: nat)
      requires value < WORD && at + |IntBytes(value)| <= buffer.Length
      modifies buffer
      ensures buffer[..] == Put(old(buffer[..]), at, IntBytes(value)) && size == |IntBytes(value)|
    {
      hide Put;
      IntBytesByValue(value);
      ghost var before := buffer[..];
      PutNothing(before, at);
      var i := 0;
      assert IntBytes(value)[..i] == [];
      if value >= 0x100_0000 {
        PutNext(before, at, IntBytes(value)[..i], [value / 0x100_0000]);
        assert IntBytes(value)[..i] + [value / 0x100_0000] == IntBytes(value)[..i + 1];
        WriteByte(at + i, value / 0x100_0000);
        i := i + 1;
      }
      assert buffer[..] == Put(before, at, IntBytes(value)[..i]);
      if value >= 0x1_0000 {
        PutNext(before, at, IntBytes(value)[..i], [value / 0x1_0000 % 256]);
        assert IntBytes(value)[..i] + [value / 0x1_0000 % 256] == IntBytes(value)[..i + 1];
        WriteByte(at + i, value / 0x1_0000 % 256);
        i := i + 1;
      }
      assert buffer[..] == Put(before, at, IntBytes(value)[..i]);
      if value >= 0x100 {
        PutNext(before, at, IntBytes(value)[..i], [value / 0x100 % 256]);
        assert IntBytes(value)[..i] + [value / 0x100 % 256] == IntBytes(value)[..i + 1];
        WriteByte(at + i, value / 0x100 % 256);
        i := i + 1;
      }
      assert buffer[..] == Put(before, at, IntBytes(value)[..i]);
      if value >= 1 {
        PutNext(before, at, IntBytes(value)[..i], [value % 256]);
        assert IntBytes(value)[..i] + [value % 256] == IntBytes(value)[..i + 1];
        WriteByte(at + i, value % 256);
        i := i + 1;
      }
      assert IntBytes(value)[..i] == IntBytes(value);
      size := i;
    }

    /** coap_serialize_int_option: jump, value bytes behind the place of the header, then
        the header. */
    method SerializeIntOption(number: nat, current: nat, at: nat, value: nat) returns (size: nat)
      requires current <= number < 0x1_0000 && value < WORD
      requires at + |EncodeOption(number, current, IntBytes(value))| <= buffer.Length
      modifies buffer
      ensures buffer[..] == Put(old(buffer[..]), at, EncodeOption(number, current, IntBytes(value)))
      ensures size == |EncodeOption(number, current, IntBytes(value))|
    {
      hide Put, Jump, Advance, IntBytes;
      ghost var before := buffer[..];
      ghost var jump, bytes := Jump(number - current), IntBytes(value);
      ghost var header := Header(Nibble(number - current), |bytes|);
      var i, advanced := InsertOptionJump(number, current, at);
      ghost var s1 := buffer[..];
      var n := WriteInt(at + i + 1, value);
      var h := SetOptionHeader(number - advanced, n, at + i);
      assert buffer[..] == Put(Put(s1, at + i + 1, bytes), at + i, header);
      PutBefore(s1, at + i, header, bytes);
      PutNext(before, at, jump, header + bytes);
      assert jump + (header + bytes) == EncodeOption(number, current, bytes);
      size := i + n + h;
    }

    /** A header and a value, with the number of the option before already advanced by
        the jump. */
    method WritePart(delta: nat, at: nat, part: seq<byte>) returns (size: nat)
      requires |part| < MAX_VALUE && at + |Header(delta % 16, |part|)| + |part| <= buffer.Length
      modifies buffer
      ensures buffer[..] == Put(old(buffer[..]), at, Header(delta % 16, |part|) + part)
      ensures size == |Header(delta % 16, |part|)| + |part|
    {
      hide Put, Header;
      ghost var before := buffer[..];
      var h := SetOptionHeader(delta, |part|, at);
      CopyBytes(at + h, part);
      PutNext(before, at, Header(delta % 16, |part|), part);
      size := h + |part|;
    }

    /** One option, not split. */
    method SerializeWholeOption(number: nat, current: nat, at: nat, value: seq<byte>) returns (size: nat)
      requires current <= number < 0x1_0000 && |value| < MAX_VALUE
      requires at + |EncodeOption(number, current, value)| <= buffer.Length
      modifies buffer
      ensures buffer[..] == Put(old(buffer[..]), at, EncodeOption(number, current, value))
      ensures size == |EncodeOption(number, current, value)|
    {
      hide Put, Jump, Header, Advance;
      ghost var before := buffer[..];
      ghost var jump, part := Jump(number - current), Header(Nibble(number - current), |value|) + value;
      assert EncodeOption(number, current, value) == jump + part;
      var i, advanced := InsertOptionJump(number, current, at);
      var n := WritePart(number - advanced, at + i, value);
      PutNext(before, at, jump, part);
      size := i + n;
    }

    /** coap_serialize_array_option with a separator: one option per part. Only the first
        part has a delta and possibly a jump. */
    method SerializeSplitOption(number: nat, current: nat, at: nat, value: seq<byte>, separator: byte)
      returns (size: nat, count: nat)
      requires current <= number < 0x1_0000 && buffer.Length < MAX_VALUE
      requires at + |EncodeParts(number, current, Split(value, separator))| <= buffer.Length
      modifies buffer
      ensures buffer[..] == Put(old(buffer[..]), at, EncodeParts(number, current, Split(value, separator)))
      ensures size == |EncodeParts(number, current, Split(value, separator))| && count == |Split(value, separator)|
    {
      hide Put, EncodeOption, EncodeParts, SkipSlashes;
      ghost var before := buffer[..];
      ghost var all := Split(value, separator);
      ghost var done: seq<seq<byte>> := [];
      PutNothing(before, at);
      EncodeNoParts(number, current);
      size, count := 0, 0;
      var last, j, start := current, 0, 0;
      while j <= |value|
        invariant j <= |value| ==> start <= j
        invariant all == done + PartsLeft(value, start, j, separator)
        invariant count == |done| && last == (if done == [] then current else number)
        invariant size == |EncodeParts(number, current, done)| && at + size <= buffer.Length
        invariant buffer[..] == Put(before, at, EncodeParts(number, current, done))
        decreases |value| + 1 - j
      {
        if j == |value| || value[j] == separator {
          var part := value[start..j];
          ghost var rest := PartsLeft(value, start, j, separator)[1..];
          assert all == (done + [part]) + rest;
          EncodePartsAppend(number, current, done + [part], rest);
          EncodeOnePart(number, current, done, part);
          LongerThanValue(number, last, part);
          PutNext(before, at, EncodeParts(number, current, done), EncodeOption(number, last, part));
          var n := SerializeWholeOption(number, last, at + size, part);
          size, count, last := size + n, count + 1, number;
          done := done + [part];
          j := j + 1;
          ghost var j0 := j;
          while j < |value| && value[j] == SLASH
            invariant SkipSlashes(value, j) == SkipSlashes(value, j0)
            invariant buffer[..] == Put(before, at, EncodeParts(number, current, done))
          {
            SkipOne(value, j);
            j := j + 1;
          }
          SkipOne(value, j);
          start := j;
        }
        j := j + 1;
      }
      assert done == all;
    }

    /** The first `k` fields of the message have been written. */
    ghost predicate At(m: Message, k: nat, before: seq<byte>)
      reads this, buffer
    {
      && k <= FIELDS && buffer.Length < MAX_VALUE && |before| == buffer.Length
      && COAP_HEADER_LEN + |OptionBytes(m)| <= buffer.Length
      && option == COAP_HEADER_LEN + |PrefixBytes(m, k)| && |PrefixBytes(m, k)| <= |OptionBytes(m)|
      && buffer[..] == Put(before, COAP_HEADER_LEN, PrefixBytes(m, k))
      && currentNumber == LastNumber(Prefix(m, k), 0) && optionCount == |Prefix(m, k)|
    }

    /** A field has been written behind the others. */
    lemma FieldWritten(m: Message, k: nat, before: seq<byte>, was: seq<byte>, at: nat)
      requires k < FIELDS && buffer.Length < MAX_VALUE && |before| == |was| == buffer.Length
      requires COAP_HEADER_LEN + |OptionBytes(m)| <= buffer.Length
      requires at == COAP_HEADER_LEN + |PrefixBytes(m, k)| && |PrefixBytes(m, k)| <= |OptionBytes(m)|
      requires was == Put(before, COAP_HEADER_LEN, PrefixBytes(m, k))
      requires at + |SegmentBytes(m, k)| <= buffer.Length && buffer[..] == Put(was, at, SegmentBytes(m, k))
      requires option == at + |SegmentBytes(m, k)|
      requires currentNumber == LastNumber(Segment(m, k), LastNumber(Prefix(m, k), 0))
      requires optionCount == |Prefix(m, k)| + |Segment(m, k)|
      ensures At(m, k + 1, before)
    {
      hide Put, Segment, PrefixBytes, SegmentBytes, OptionBytes;
      PrefixStep(m, k);
      PutNext(before, COAP_HEADER_LEN, PrefixBytes(m, k), SegmentBytes(m, k));
    }

    /** COAP_SERIALIZE_INT_OPTION; If-None-Match is written as a zero. */
    method PrintInt(number: nat, field: Option<nat>, ghost m: Message, ghost k: nat, ghost before: seq<byte>)
      requires At(m, k, before) && k < FIELDS && number == NumberOf(k) && Segment(m, k) == IntOption(number, field) && Below(field, WORD)
      modifies this, buffer
      ensures At(m, k + 1, before)
    {
      hide Put, Segment, PrefixBytes, SegmentBytes, OptionBytes, EncodeOption, IntBytes, Prefix, NumberOf;
      PrefixStep(m, k);
      ghost var was, at := buffer[..], option;
      if field.Some? {
        OneOption(m, k, Opt(number, IntBytes(field.value)));
        var size := SerializeIntOption(number, currentNumber, option, field.value);
        option, optionCount, currentNumber := option + size, optionCount + 1, number;
      } else {
        NoOption(m, k, was, at);
      }
      FieldWritten(m, k, before, was, at);
    }

    /** COAP_SERIALIZE_BYTE_OPTION, and COAP_SERIALIZE_STRING_OPTION without a separator. */
    method PrintBytes(number: nat, field: Option<seq<byte>>, ghost m: Message, ghost k: nat, ghost before: seq<byte>)
      requires At(m, k, before) && k < FIELDS && number == NumberOf(k) && Segment(m, k) == BytesOption(number, field)
      modifies this, buffer
      ensures At(m, k + 1, before)
    {
      hide Put, Segment, PrefixBytes, SegmentBytes, OptionBytes, EncodeOption, Prefix, NumberOf;
      PrefixStep(m, k);
      ghost var was, at := buffer[..], option;
      if field.Some? {
        OneOption(m, k, Opt(number, field.value));
        LongerThanValue(number, currentNumber, field.value);
        var size := SerializeWholeOption(number, currentNumber, option, field.value);
        option, optionCount, currentNumber := option + size, optionCount + 1, number;
      } else {
        NoOption(m, k, was, at);
      }
      FieldWritten(m, k, before, was, at);
    }

    /** COAP_SERIALIZE_STRING_OPTION with a separator. */
    method PrintString(number: nat, field: Option<seq<byte>>, separator: byte, ghost m: Message, ghost k: nat, ghost before: seq<byte>)
      requires At(m, k, before) && k < FIELDS && number == NumberOf(k) && Segment(m, k) == StringOptions(number, field, separator)
      modifies this, buffer
      ensures At(m, k + 1, before)
    {
      hide Put, Segment, PrefixBytes, SegmentBytes, OptionBytes, EncodeOption, Prefix, NumberOf, EncodeParts, Split, Repeated;
      PrefixStep(m, k);
      ghost var was, at := buffer[..], option;
      if field.Some? {
        PartsOption(m, k, Split(field.value, separator));
        var size, count := SerializeSplitOption(number, currentNumber, option, field.value, separator);
        option, optionCount, currentNumber := option + size, optionCount + count, number;
      } else {
        NoOption(m, k, was, at);
      }
      FieldWritten(m, k, before, was, at);
    }

    /** COAP_SERIALIZE_BLOCK_OPTION. */
    method PrintBlock(number: nat, field: Option<Block>, ghost m: Message, ghost k: nat, ghost before: seq<byte>)
      requires At(m, k, before) && k < FIELDS && number == NumberOf(k) && Segment(m, k) == BlockOption(number, field)
      modifies this, buffer
      ensures At(m, k + 1, before)
    {
      hide At, Segment, NumberOf, BlockValue, IntBytes;
      var value := if field.Some? then Some(BlockValue(field.value)) else None;
      PrintInt(number, value, m, k, before);
    }

    /** COAP_SERIALIZE_ACCEPT_OPTION. */
    method PrintAccept(field: Option<seq<nat>>, ghost m: Message, ghost k: nat, ghost before: seq<byte>)
      requires At(m, k, before) && k < FIELDS && ACCEPT == NumberOf(k) && Segment(m, k) == AcceptOptions(field)
      requires field.Some? ==> forall i :: 0 <= i < |field.value| ==> field.value[i] < 0x1_0000
      modifies this, buffer
      ensures At(m, k + 1, before)
    {
      hide Put, Segment, PrefixBytes, SegmentBytes, OptionBytes, EncodeOption, Prefix, NumberOf, EncodeParts, IntBytes;
      PrefixStep(m, k);
      ghost var was, at, start, count0 := buffer[..], option, currentNumber, optionCount;
      if field.Some? && field.value != [] {
        ghost var all := IntParts(field.value);
        AcceptParts(field.value);
        PartsOption(m, k, all);
        PutNothing(was, at);
        EncodeNoParts(ACCEPT, start);
        var i := 0;
        assert IntParts(field.value[..0]) == [];
        while i < |field.value|
          invariant 0 <= i <= |field.value| && optionCount == count0 + i
          invariant currentNumber == if i == 0 then start else ACCEPT
          invariant option == at + |EncodeParts(ACCEPT, start, IntParts(field.value[..i]))| && option <= buffer.Length
          invariant buffer[..] == Put(was, at, EncodeParts(ACCEPT, start, IntParts(field.value[..i])))
        {
          ghost var done, part := IntParts(field.value[..i]), IntBytes(field.value[i]);
          AcceptStep(field.value, i, start);
          PutNext(was, at, EncodeParts(ACCEPT, start, done), EncodeOption(ACCEPT, currentNumber, part));
          var size := SerializeIntOption(ACCEPT, currentNumber, option, field.value[i]);
          option, optionCount, currentNumber := option + size, optionCount + 1, ACCEPT;
          i := i + 1;
        }
        assert field.value[..i] == field.value;
      } else {
        NoOption(m, k, was, at);
      }
      FieldWritten(m, k, before, was, at);
    }
  }

  function IntParts(values: seq<nat>): (r: seq<seq<byte>>)
    ensures |r| == |values|
  {
    if values == [] then [] else IntParts(values[..|values| - 1]) + [IntBytes(values[|values| - 1])]
  }

  lemma {:induction false} AcceptParts(values: seq<nat>)
    ensures AcceptOptions(Some(values)) == Repeated(ACCEPT, IntParts(values))
    decreases |values|
  {
    hide IntBytes;
    if values != [] {
      AcceptParts(values[1..]);
      IntPartsHead(values);
    }
  }

  lemma {:induction false} IntPartsHead(values: seq<nat>)
    requires values != []
    ensures IntParts(values) == [IntBytes(values[0])] + IntParts(values[1..])
    decreases |values|
  {
    hide IntBytes;
    if |values| == 1 {
      assert values[..0] == [] && values[1..] == [];
    } else {
      IntPartsHead(values[..|values| - 1]);
      assert values[..|values| - 1][1..] == values[1..][..|values| - 2];
    }
  }

  /** The bytes up to one more value, which are not more than those of all values. */
  lemma AcceptStep(values: seq<nat>, i: nat, start: nat)
    requires i < |values| && start <= ACCEPT
    ensures EncodeParts(ACCEPT, start, IntParts(values[..i + 1]))
            == EncodeParts(ACCEPT, start, IntParts(values[..i])) + EncodeOption(ACCEPT, if i == 0 then start else ACCEPT, IntBytes(values[i]))
    ensures |EncodeParts(ACCEPT, start, IntParts(values[..i + 1]))| <= |EncodeParts(ACCEPT, start, IntParts(values))|
  {
    hide IntBytes, EncodeOption, EncodeParts;
    assert values[..i + 1][..i] == values[..i];
    EncodeOnePart(ACCEPT, start, IntParts(values[..i]), IntBytes(values[i]));
    EncodePrefix(values, i + 1, start);
  }

  lemma {:induction false} EncodePrefix(values: seq<nat>, i: nat, start: nat)
    requires i <= |values| && start <= ACCEPT
    ensures |EncodeParts(ACCEPT, start, IntParts(values[..i]))| <= |EncodeParts(ACCEPT, start, IntParts(values))|
    decreases |values| - i
  {
    hide IntBytes, EncodeOption, EncodeParts;
    if i == |values| {
      assert values[..i] == values;
    } else {
      EncodePrefix(values, i + 1, start);
      assert values[..i + 1][..i] == values[..i];
      EncodeOnePart(ACCEPT, start, IntParts(values[..i]), IntBytes(values[i]));
    }
  }

  // ---------------------------------------------------------------------------
  // The fields written so far
  // ---------------------------------------------------------------------------

  function Prefix(m: Message, k: nat): seq<Opt>
    requires k <= FIELDS
  {
    if k == 0 then [] else Prefix(m, k - 1) + Segment(m, k - 1)
  }

  function PrefixBytes(m: Message, k: nat): seq<byte>
    requires k <= FIELDS
  {
    PrefixAscends(m, k);
    EncodeOptions(Prefix(m, k), 0)
  }

  function SegmentBytes(m: Message, k: nat): seq<byte>
    requires k < FIELDS
  {
    SegmentAscends(m, k);
    EncodeOptions(Segment(m, k), LastNumber(Prefix(m, k), 0))
  }

  lemma {:induction false} PrefixIsPrefix(m: Message, k: nat)
    requires k <= FIELDS
    ensures Prefix(m, k) + OptionsFrom(m, k) == Options(m)
  {
    hide Segment, Prefix, OptionsFrom, Options;
    Unfold(m, k);
    if k > 0 {
      Unfold(m, k - 1);
      PrefixIsPrefix(m, k - 1);
      Associate(Prefix(m, k - 1), Segment(m, k - 1), OptionsFrom(m, k));
    } else {
      assert [] + Options(m) == Options(m);
    }
  }

  lemma Unfold(m: Message, k: nat)
    requires k <= FIELDS
    ensures k > 0 ==> Prefix(m, k) == Prefix(m, k - 1) + Segment(m, k - 1)
    ensures k == 0 ==> Prefix(m, k) == [] && OptionsFrom(m, k) == Options(m)
    ensures k < FIELDS ==> OptionsFrom(m, k) == Segment(m, k) + OptionsFrom(m, k + 1)
    ensures k == FIELDS ==> OptionsFrom(m, k) == []
  {
    hide Segment;
  }

  lemma Associate(a: seq<Opt>, b: seq<Opt>, c: seq<Opt>)
    ensures a + b + c == a + (b + c)
  {
  }

  lemma AscendingParts(a: seq<Opt>, b: seq<Opt>, current: nat)
    requires Ascending(a + b, current)
    ensures Ascending(a, current) && Ascending(b, LastNumber(a, current))
  {
    var all := a + b;
    assert forall i :: 0 <= i < |a| ==> all[i] == a[i];
    assert forall i :: 0 <= i < |b| ==> all[|a| + i] == b[i];
  }

  lemma {:induction false} EncodeOptionsAppend(a: seq<Opt>, b: seq<Opt>, current: nat)
    requires Ascending(a + b, current)
    ensures Ascending(a, current) && Ascending(b, LastNumber(a, current))
    ensures EncodeOptions(a + b, current) == EncodeOptions(a, current) + EncodeOptions(b, LastNumber(a, current))
    decreases |a|
  {
    hide EncodeOption, EncodeOptions, Ascending;
    AscendingParts(a, b, current);
    EncodeRest(a, current);
    EncodeRest(a + b, current);
    if a == [] {
      assert a + b == b;
    } else {
      assert (a + b)[1..] == a[1..] + b && (a + b)[0] == a[0];
      EncodeOptionsAppend(a[1..], b, a[0].number);
      assert LastNumber(a, current) == LastNumber(a[1..], a[0].number);
    }
  }

  lemma EncodeRest(opts: seq<Opt>, current: nat)
    requires Ascending(opts, current)
    ensures opts == [] ==> EncodeOptions(opts, current) == []
    ensures opts != [] ==>
              && Ascending(opts[1..], opts[0].number) && current <= opts[0].number < 0x1_0000
              && EncodeOptions(opts, current)
                 == EncodeOption(opts[0].number, current, opts[0].value) + EncodeOptions(opts[1..], opts[0].number)
  {
    hide EncodeOption;
  }

  lemma OptionsAscending(m: Message)
    ensures Ascending(Options(m), 0)
  {
    OptionsAscend(m, 0);
  }

  lemma PrefixAscends(m: Message, k: nat)
    requires k <= FIELDS
    ensures Ascending(Prefix(m, k), 0)
  {
    hide Segment, Ascending;
    OptionsAscending(m);
    PrefixIsPrefix(m, k);
    AscendingParts(Prefix(m, k), OptionsFrom(m, k), 0);
  }

  lemma SegmentAscends(m: Message, k: nat)
    requires k < FIELDS
    ensures Ascending(Segment(m, k), LastNumber(Prefix(m, k), 0))
  {
    hide Segment, Ascending;
    PrefixAscends(m, k + 1);
    AscendingParts(Prefix(m, k), Segment(m, k), 0);
  }

  /** One more field. */
  lemma PrefixStep(m: Message, k: nat)
    requires k < FIELDS
    ensures PrefixBytes(m, k + 1) == PrefixBytes(m, k) + SegmentBytes(m, k)
    ensures |PrefixBytes(m, k + 1)| <= |OptionBytes(m)|
    ensures LastNumber(Prefix(m, k + 1), 0) == LastNumber(Segment(m, k), LastNumber(Prefix(m, k), 0))
    ensures |Prefix(m, k + 1)| == |Prefix(m, k)| + |Segment(m, k)|
    ensures Segment(m, k) != [] ==> LastNumber(Prefix(m, k), 0) <= NumberOf(k) < 0x1_0000
  {
    hide Segment, Ascending, EncodeOptions;
    PrefixAscends(m, k + 1);
    EncodeOptionsAppend(Prefix(m, k), Segment(m, k), 0);
    OptionsAscending(m);
    PrefixIsPrefix(m, k + 1);
    EncodeOptionsAppend(Prefix(m, k + 1), OptionsFrom(m, k + 1), 0);
    SegmentNumber(m, k);
    SegmentAscends(m, k);
    FirstAscends(Segment(m, k), LastNumber(Prefix(m, k), 0));
  }

  lemma FirstAscends(opts: seq<Opt>, current: nat)
    requires Ascending(opts, current)
    ensures opts != [] ==> current <= opts[0].number < 0x1_0000
  {
  }

  lemma NoOption(m: Message, k: nat, was: seq<byte>, at: nat)
    requires k < FIELDS && Segment(m, k) == [] && at <= |was|
    ensures SegmentBytes(m, k) == [] && Put(was, at, []) == was
  {
    hide Segment;
  }

  lemma OneOption(m: Message, k: nat, opt: Opt)
    requires k < FIELDS && Segment(m, k) == [opt] && opt.number == NumberOf(k)
    ensures var current := LastNumber(Prefix(m, k), 0);
            current <= opt.number < 0x1_0000 && SegmentBytes(m, k) == EncodeOption(opt.number, current, opt.value)
  {
    hide Segment, EncodeOption, NumberOf, Prefix;
    PrefixStep(m, k);
    SegmentAscends(m, k);
    var current := LastNumber(Prefix(m, k), 0);
    EncodeRest([opt], current);
    EncodeRest([], opt.number);
    assert [opt][1..] == [];
    assert EncodeOption(opt.number, current, opt.value) + [] == EncodeOption(opt.number, current, opt.value);
  }

  lemma PartsOption(m: Message, k: nat, parts: seq<seq<byte>>)
    requires k < FIELDS && parts != [] && Segment(m, k) == Repeated(NumberOf(k), parts)
    ensures var current := LastNumber(Prefix(m, k), 0);
            current <= NumberOf(k) < 0x1_0000 && SegmentBytes(m, k) == EncodeParts(NumberOf(k), current, parts)
    ensures LastNumber(Segment(m, k), LastNumber(Prefix(m, k), 0)) == NumberOf(k)
  {
    hide Segment, EncodeOption, NumberOf, Prefix, EncodeParts;
    PrefixStep(m, k);
    SegmentAscends(m, k);
    PartsAreOptions(NumberOf(k), LastNumber(Prefix(m, k), 0), parts);
  }

  lemma {:induction false} PartsAreOptions(number: nat, current: nat, parts: seq<seq<byte>>)
    requires current <= number < 0x1_0000 && Ascending(Repeated(number, parts), current)
    ensures EncodeOptions(Repeated(number, parts), current) == EncodeParts(number, current, parts)
    decreases |parts|
  {
    hide EncodeOption;
    if parts != [] {
      assert Repeated(number, parts)[1..] == Repeated(number, parts[1..]);
      PartsAreOptions(number, number, parts[1..]);
    }
  }


  /** The parts that the loop has still to write. */
  ghost function PartsLeft(value: seq<byte>, start: nat, j: nat, separator: byte): seq<seq<byte>>
    requires j <= |value| ==> start <= j
  {
    if j <= |value| then Parts(value, start, j, separator) else []
  }

  lemma SkipOne(s: seq<byte>, j: nat)
    ensures SkipSlashes(s, j) == if j < |s| && s[j] == SLASH then SkipSlashes(s, j + 1) else j
  {
  }

  /** Parts as options of one number. */
  function EncodeParts(number: nat, current: nat, parts: seq<seq<byte>>): seq<byte>
    requires current <= number < 0x1_0000
    decreases |parts|
  {
    if parts == [] then [] else EncodeOption(number, current, parts[0]) + EncodeParts(number, number, parts[1..])
  }

  lemma EncodeNoParts(number: nat, current: nat)
    requires current <= number < 0x1_0000
    ensures EncodeParts(number, current, []) == []
  {
  }

  lemma {:induction false} EncodePartsAppend(number: nat, current: nat, a: seq<seq<byte>>, b: seq<seq<byte>>)
    requires current <= number < 0x1_0000
    ensures EncodeParts(number, current, a + b)
            == EncodeParts(number, current, a) + EncodeParts(number, if a == [] then current else number, b)
    decreases |a|
  {
    hide EncodeOption;
    if a == [] {
      assert a + b == b;
    } else {
      EncodePartsAppend(number, number, a[1..], b);
      assert (a + b)[1..] == a[1..] + b;
    }
  }

  lemma EncodeOnePart(number: nat, current: nat, done: seq<seq<byte>>, part: seq<byte>)
    requires current <= number < 0x1_0000
    ensures EncodeParts(number, current, done + [part])
            == EncodeParts(number, current, done) + EncodeOption(number, if done == [] then current else number, part)
  {
    hide EncodeOption;
    EncodePartsAppend(number, current, done, [part]);
    assert [part][1..] == [];
  }

  lemma LongerThanValue(number: nat, current: nat, value: seq<byte>)
    requires current <= number < 0x1_0000
    ensures |value| <= |EncodeOption(number, current, value)|
  {
    hide Jump, Header;
  }

  lemma PutNothing(s: seq<byte>, at: nat)
    requires at <= |s|
    ensures Put(s, at, []) == s
  {
  }

  /** The value bytes written out. */
  lemma IntBytesByValue(value: nat)
    requires value < WORD
    ensures var b := IntBytes(value);
            && |b| == (if value >= 0x100_0000 then 4 else if value >= 0x1_0000 then 3 else if value >= 0x100 then 2 else if value >= 1 then 1 else 0)
            && (value >= 1 ==> b[|b| - 1] == value % 256)
            && (value >= 0x100 ==> b[|b| - 2] == value / 0x100 % 256)
            && (value >= 0x1_0000 ==> b[|b| - 3] == value / 0x1_0000 % 256)
            && (value >= 0x100_0000 ==> b[|b| - 4] == value / 0x100_0000)
  {
    ByteSteps(value);
    var v1, v2, v3 := value / 0x100, value / 0x1_0000, value / 0x100_0000;
    assert value >= 1 ==> IntBytes(value) == IntBytes(v1) + [value % 256];
    assert v1 >= 1 ==> IntBytes(v1) == IntBytes(v2) + [v1 % 256];
    assert v2 >= 1 ==> IntBytes(v2) == IntBytes(v3) + [v2 % 256];
    assert v3 >= 1 ==> IntBytes(v3) == IntBytes(v3 / 256) + [v3 % 256];
    assert IntBytes(0) == [];
  }

  lemma ByteSteps(value: nat)
    requires value < WORD
    ensures value / 0x100 / 256 == value / 0x1_0000 && value / 0x1_0000 / 256 == value / 0x100_0000
    ensures value / 0x100_0000 / 256 == 0 && value / 0x100_0000 < 256
  {
  }

  // ---------------------------------------------------------------------------
  // The message
  // ---------------------------------------------------------------------------

  /** memmove of the payload, which may lie further on in the same buffer. */
  method MovePayload(buffer: array<byte>, at: nat, source: array<byte>, start: nat, n: nat)
    requires at + n <= buffer.Length && start + n <= source.Length
    requires source == buffer ==> at <= start
    modifies buffer
    ensures buffer[..] == Put(old(buffer[..]), at, old(source[start..start + n]))
  {
    ghost var before, bytes := buffer[..], source[start..start + n];
    var i := 0;
    while i < n
      invariant 0 <= i <= n
      invariant forall j :: 0 <= j < buffer.Length ==> buffer[j] == if at <= j < at + i then bytes[j - at] else before[j]
      invariant forall j :: i <= j < n ==> source[start + j] == bytes[j]
    {
      buffer[at + i] := source[start + i];
      i := i + 1;
    }
    assert buffer[..] == Put(before, at, bytes);
  }

  /** The message without its payload. */
  function HeaderAndOptions(m: Message): seq<byte>
    requires m.mtype < 4 && m.mid < 0x1_0000
  {
    HeaderBytes(m, |Options(m)|) + OptionBytes(m) + TerminatorBytes(|Options(m)|)
  }

  /** coap_serialize_message: the length of the message, or 0 if the header and options
      take more than COAP_MAX_HEADER_SIZE bytes. The payload may wait in the message
      buffer itself, behind the place that is reserved for the header. */
  method SerializeMessage(m: Message, buffer: array<byte>, payload: array<byte>, start: nat) returns (length: nat)
    requires FieldTypes(m) && buffer.Length < MAX_VALUE
    requires COAP_HEADER_LEN + |OptionBytes(m)| + 1 + |m.payload| <= buffer.Length
    requires start + |m.payload| <= payload.Length && payload[start..start + |m.payload|] == m.payload
    requires payload == buffer ==> start >= COAP_MAX_HEADER_SIZE
    modifies buffer
    ensures match Serialize(m)
            case None => length == 0
            case Some(bytes) => length == |bytes| && buffer[..] == Put(old(buffer[..]), 0, bytes)
  {
    hide OptionBytes, HeaderBytes, Options, Put;
    ghost var before := buffer[..];
    var s := PrintOptions(m, buffer);
    ghost var options, terminator := OptionBytes(m), TerminatorBytes(|Options(m)|);
    var option := s.option;
    if s.optionCount > 14 {
      s.optionCount := 15;
      PutNext(before, COAP_HEADER_LEN, options, terminator);
      buffer[option] := TERMINATOR;
      PutOne(before, COAP_HEADER_LEN, options, buffer, option);
      option := option + 1;
    } else {
      assert options + terminator == options;
    }
    assert |HeaderAndOptions(m)| == option;
    if option > COAP_MAX_HEADER_SIZE {
      return 0;
    }
    PutFrame(before, COAP_HEADER_LEN, options + terminator);
    assert payload[start..start + |m.payload|] == m.payload;
    MovePayload(buffer, option, payload, start, |m.payload|);
    PutNext(before, COAP_HEADER_LEN, options + terminator, m.payload);
    ghost var tail := options + terminator + m.payload;
    WriteHeader(m, buffer, s.optionCount);
    PutBefore(before, 0, HeaderBytes(m, |Options(m)|), tail);
    assert HeaderBytes(m, |Options(m)|) + tail == HeaderAndOptions(m) + m.payload;
    length := option + |m.payload|;
  }

  lemma PutOne(before: seq<byte>, at: nat, bytes: seq<byte>, buffer: array<byte>, k: nat)
    requires at + |bytes| + 1 <= |before| == buffer.Length && k == at + |bytes| && buffer[k] == TERMINATOR
    requires forall i :: 0 <= i < |before| && i != k ==> buffer[i] == Put(before, at, bytes)[i]
    ensures buffer[..] == Put(before, at, bytes + [TERMINATOR])
  {
  }

  lemma PutFrame(before: seq<byte>, at: nat, bytes: seq<byte>)
    requires at + |bytes| <= |before|
    ensures forall i :: at + |bytes| <= i < |before| ==> Put(before, at, bytes)[i] == before[i]
  {
  }

  /** The four header bytes. */
  method WriteHeader(m: Message, buffer: array<byte>, count: nat)
    requires m.mtype < 4 && m.mid < 0x1_0000 && buffer.Length >= COAP_HEADER_LEN && count == Min15(|Options(m)|)
    modifies buffer
    ensures buffer[..] == Put(old(buffer[..]), 0, HeaderBytes(m, |Options(m)|))
  {
    hide Options;
    buffer[0] := 64 + m.mtype * 16 + count;
    buffer[1] := m.code;
    buffer[2] := m.mid / 256;
    buffer[3] := m.mid % 256;
  }

  function Min15(n: nat): nat {
    if n > 14 then 15 else n
  }

  method PrintFirst(m: Message, s: Serializer, ghost before: seq<byte>)
    requires FieldTypes(m) && s.At(m, 0, before)
    modifies s, s.buffer
    ensures s.At(m, 6, before)
  {
    hide IntOption, BytesOption, StringOptions, AcceptOptions, BlockOption, Serializer.At;
    s.PrintBytes(IF_MATCH, m.ifMatch, m, 0, before);
    s.PrintBytes(URI_HOST, m.uriHost, m, 1, before);
    s.PrintBytes(ETAG, m.etag, m, 2, before);
    ZeroField(m);
    s.PrintInt(IF_NONE_MATCH, if m.ifNoneMatch then Some(0) else None, m, 3, before);
    s.PrintInt(OBSERVE, m.observe, m, 4, before);
    s.PrintInt(URI_PORT, m.uriPort, m, 5, before);
  }

  method PrintMiddle(m: Message, s: Serializer, ghost before: seq<byte>)
    requires FieldTypes(m) && s.At(m, 6, before)
    modifies s, s.buffer
    ensures s.At(m, 12, before)
  {
    hide IntOption, BytesOption, StringOptions, AcceptOptions, BlockOption, Serializer.At;
    s.PrintString(LOCATION_PATH, m.locationPath, SLASH, m, 6, before);
    s.PrintString(URI_PATH, m.uriPath, SLASH, m, 7, before);
    s.PrintInt(CONTENT_TYPE, m.contentType, m, 8, before);
    s.PrintInt(MAX_AGE, m.maxAge, m, 9, before);
    s.PrintString(URI_QUERY, m.uriQuery, AMPERSAND, m, 10, before);
    s.PrintAccept(m.accept, m, 11, before);
  }

  method PrintLast(m: Message, s: Serializer, ghost before: seq<byte>)
    requires FieldTypes(m) && s.At(m, 12, before)
    modifies s, s.buffer
    ensures s.At(m, FIELDS, before)
  {
    hide IntOption, BytesOption, StringOptions, AcceptOptions, BlockOption, Serializer.At;
    s.PrintBytes(TOKEN, m.token, m, 12, before);
    s.PrintString(LOCATION_QUERY, m.locationQuery, AMPERSAND, m, 13, before);
    s.PrintBlock(BLOCK2, m.block2, m, 14, before);
    s.PrintBlock(BLOCK1, m.block1, m, 15, before);
    s.PrintInt(SIZE, m.size, m, 16, before);
    s.PrintBytes(PROXY_URI, m.proxyUri, m, 17, before);
  }

  /** The options in the order of their numbers. */
  method PrintOptions(m: Message, buffer: array<byte>) returns (s: Serializer)
    requires FieldTypes(m) && COAP_HEADER_LEN + |OptionBytes(m)| <= buffer.Length < MAX_VALUE
    modifies buffer
    ensures fresh(s) && s.buffer == buffer && s.option == COAP_HEADER_LEN + |OptionBytes(m)| && s.optionCount == |Options(m)|
    ensures buffer[..] == Put(old(buffer[..]), COAP_HEADER_LEN, OptionBytes(m))
  {
    hide Put, OptionBytes, Serializer.At, Segment, FieldTypes;
    ghost var before := buffer[..];
    s := new Serializer(buffer);
    Start(m, s, before);
    PrintFirst(m, s, before);
    PrintMiddle(m, s, before);
    PrintLast(m, s, before);
    Finished(m, s, before);
  }

  lemma ZeroField(m: Message)
    ensures Segment(m, 3) == IntOption(IF_NONE_MATCH, if m.ifNoneMatch then Some(0) else None)
  {
  }

  lemma Start(m: Message, s: Serializer, before: seq<byte>)
    requires s.buffer.Length < MAX_VALUE && before == s.buffer[..] && COAP_HEADER_LEN + |OptionBytes(m)| <= s.buffer.Length
    requires s.option == COAP_HEADER_LEN && s.currentNumber == 0 && s.optionCount == 0
    ensures s.At(m, 0, before)
  {
    hide OptionBytes;
    assert PrefixBytes(m, 0) == [];
  }

  lemma Finished(m: Message, s: Serializer, before: seq<byte>)
    requires s.At(m, FIELDS, before)
    ensures s.option == COAP_HEADER_LEN + |OptionBytes(m)| <= |before| && s.optionCount == |Options(m)|
    ensures s.buffer[..] == Put(before, COAP_HEADER_LEN, OptionBytes(m))
  {
    hide Segment, EncodeOptions;
    PrefixIsPrefix(m, FIELDS);
    assert Prefix(m, FIELDS) == Options(m);
  }
}
