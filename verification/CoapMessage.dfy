/**
 CoAP messages as values, their serialized form, and the parser as a function of the
 received bytes: parsing a serialized message gives the message back.
 */
module CoapMessage {
  import opened Bytes
  import opened CoapOptions
  import opened CoapValues
  import opened Wrappers

  const COAP_HEADER_LEN: nat := 4
  const COAP_MAX_HEADER_SIZE: nat := 70
  const REST_MAX_CHUNK_SIZE: nat := 128
  const COAP_ETAG_LEN: nat := 8
  const COAP_MAX_ACCEPT_NUM: nat := 2

  const BAD_REQUEST_4_00: nat := 128
  const BAD_OPTION_4_02: nat := 130
  const PROXYING_NOT_SUPPORTED_5_05: nat := 165

  const IF_MATCH: nat := 1
  const URI_HOST: nat := 3
  const ETAG: nat := 4
  const IF_NONE_MATCH: nat := 5
  const OBSERVE: nat := 6
  const URI_PORT: nat := 7
  const LOCATION_PATH: nat := 8
  const URI_PATH: nat := 11
  const CONTENT_TYPE: nat := 12
  const MAX_AGE: nat := 14
  const URI_QUERY: nat := 15
  const ACCEPT: nat := 16
  const TOKEN: nat := 19
  const LOCATION_QUERY: nat := 20
  const BLOCK2: nat := 23
  const BLOCK1: nat := 27
  const SIZE: nat := 28
  const PROXY_URI: nat := 35

  datatype Message = Message(
    mtype: nat, code: byte, mid: nat,
    ifMatch: Option<seq<byte>>, uriHost: Option<seq<byte>>, etag: Option<seq<byte>>, ifNoneMatch: bool,
    observe: Option<nat>, uriPort: Option<nat>, locationPath: Option<seq<byte>>, uriPath: Option<seq<byte>>,
    contentType: Option<nat>, maxAge: Option<nat>, uriQuery: Option<seq<byte>>, accept: Option<seq<nat>>,
    token: Option<seq<byte>>, locationQuery: Option<seq<byte>>, block2: Option<Block>, block1: Option<Block>,
    size: Option<nat>, proxyUri: Option<seq<byte>>, payload: seq<byte>)

  function Empty(mtype: nat, code: byte, mid: nat): Message {
    Message(mtype, code, mid, None, None, None, false, None, None, None, None, None, None, None, None,
            None, None, None, None, None, None, [])
  }

  // ---------------------------------------------------------------------------
  // The options of a message
  // ---------------------------------------------------------------------------

  function IntOption(number: nat, field: Option<nat>): seq<Opt> {
    if field.Some? then [Opt(number, IntBytes(field.value))] else []
  }

  function BytesOption(number: nat, field: Option<seq<byte>>): seq<Opt> {
    if field.Some? then [Opt(number, field.value)] else []
  }

  function Repeated(number: nat, values: seq<seq<byte>>): (r: seq<Opt>)
    ensures |r| == |values| && forall i :: 0 <= i < |r| ==> r[i] == Opt(number, values[i])
  {
    if values == [] then [] else [Opt(number, values[0])] + Repeated(number, values[1..])
  }

  function StringOptions(number: nat, field: Option<seq<byte>>, separator: byte): seq<Opt> {
    if field.Some? then Repeated(number, Split(field.value, separator)) else []
  }

  function AcceptOptions(field: Option<seq<nat>>): (r: seq<Opt>)
    ensures forall i :: 0 <= i < |r| ==> r[i].number == ACCEPT
    decreases if field.Some? then |field.value| else 0
  {
    if field.None? || field.value == [] then []
    else [Opt(ACCEPT, IntBytes(field.value[0]))] + AcceptOptions(Some(field.value[1..]))
  }

  function BlockOption(number: nat, field: Option<Block>): seq<Opt> {
    if field.Some? then [Opt(number, IntBytes(BlockValue(field.value)))] else []
  }

  const FIELDS: nat := 18

  /** The option numbers in the order of serialization. */
  function NumberOf(k: nat): nat
    requires k < FIELDS
  {
    match k
    case 0 => IF_MATCH
    case 1 => URI_HOST
    case 2 => ETAG
    case 3 => IF_NONE_MATCH
    case 4 => OBSERVE
    case 5 => URI_PORT
    case 6 => LOCATION_PATH
    case 7 => URI_PATH
    case 8 => CONTENT_TYPE
    case 9 => MAX_AGE
    case 10 => URI_QUERY
    case 11 => ACCEPT
    case 12 => TOKEN
    case 13 => LOCATION_QUERY
    case 14 => BLOCK2
    case 15 => BLOCK1
    case 16 => SIZE
    case _ => PROXY_URI
  }

  /** The options of the `k`-th field; If-None-Match has no value. */
  function Segment(m: Message, k: nat): seq<Opt>
    requires k < FIELDS
  {
    match k
    case 0 => BytesOption(IF_MATCH, m.ifMatch)
    case 1 => BytesOption(URI_HOST, m.uriHost)
    case 2 => BytesOption(ETAG, m.etag)
    case 3 => if m.ifNoneMatch then [Opt(IF_NONE_MATCH, [])] else []
    case 4 => IntOption(OBSERVE, m.observe)
    case 5 => IntOption(URI_PORT, m.uriPort)
    case 6 => StringOptions(LOCATION_PATH, m.locationPath, SLASH)
    case 7 => StringOptions(URI_PATH, m.uriPath, SLASH)
    case 8 => IntOption(CONTENT_TYPE, m.contentType)
    case 9 => IntOption(MAX_AGE, m.maxAge)
    case 10 => StringOptions(URI_QUERY, m.uriQuery, AMPERSAND)
    case 11 => AcceptOptions(m.accept)
    case 12 => BytesOption(TOKEN, m.token)
    case 13 => StringOptions(LOCATION_QUERY, m.locationQuery, AMPERSAND)
    case 14 => BlockOption(BLOCK2, m.block2)
    case 15 => BlockOption(BLOCK1, m.block1)
    case 16 => IntOption(SIZE, m.size)
    case _ => BytesOption(PROXY_URI, m.proxyUri)
  }

  function OptionsFrom(m: Message, k: nat): seq<Opt>
    requires k <= FIELDS
    decreases FIELDS - k
  {
    if k == FIELDS then [] else Segment(m, k) + OptionsFrom(m, k + 1)
  }

  function Options(m: Message): seq<Opt> {
    OptionsFrom(m, 0)
  }

  lemma SegmentNumber(m: Message, k: nat)
    requires k < FIELDS
    ensures forall i :: 0 <= i < |Segment(m, k)| ==> Segment(m, k)[i].number == NumberOf(k)
  {
    hide IntBytes, BlockValue, Split;
  }

  function NumberFrom(k: nat): nat
    requires k <= FIELDS
  {
    if k < FIELDS then NumberOf(k) else PROXY_URI
  }

  lemma {:induction false} OptionsAscend(m: Message, k: nat)
    requires k <= FIELDS
    ensures Ascending(OptionsFrom(m, k), NumberFrom(k))
    ensures m.proxyUri.None? ==> forall i :: 0 <= i < |OptionsFrom(m, k)| ==> OptionsFrom(m, k)[i].number <= SIZE
    decreases FIELDS - k
  {
    hide Segment, Ascending;
    if k == FIELDS {
      AscendingEmpty(NumberFrom(k));
    } else {
      OptionsAscend(m, k + 1);
      SegmentNumber(m, k);
      NumbersGrow(k);
      if k == FIELDS - 1 { LastSegment(m); }
      AscendingConcat(Segment(m, k), OptionsFrom(m, k + 1), NumberOf(k), NumberFrom(k + 1));
    }
  }

  lemma AscendingEmpty(n: nat)
    ensures Ascending([], n)
  {
  }

  lemma AscendingConcat(a: seq<Opt>, b: seq<Opt>, n: nat, next: nat)
    requires forall i :: 0 <= i < |a| ==> a[i].number == n
    requires Ascending(b, next) && n <= next && n < 0x1_0000
    ensures Ascending(a + b, n)
  {
  }

  lemma NumbersGrow(k: nat)
    requires k < FIELDS
    ensures NumberOf(k) <= NumberFrom(k + 1) && NumberOf(k) <= PROXY_URI && (k < FIELDS - 1 ==> NumberOf(k) <= SIZE)
  {
  }

  lemma LastSegment(m: Message)
    ensures m.proxyUri.None? ==> Segment(m, FIELDS - 1) == []
  {
  }

  // ---------------------------------------------------------------------------
  // Serializing
  // ---------------------------------------------------------------------------

  function HeaderBytes(m: Message, count: nat): (r: seq<byte>)
    requires m.mtype < 4 && m.mid < 0x1_0000
    ensures |r| == COAP_HEADER_LEN
  {
    [64 + m.mtype * 16 + (if count > 14 then 15 else count), m.code, m.mid / 256, m.mid % 256]
  }

  function OptionBytes(m: Message): seq<byte> {
    OptionsAscend(m, 0);
    EncodeOptions(Options(m), 0)
  }

  /** The option terminator for 15 and more options. */
  function TerminatorBytes(count: nat): seq<byte> {
    if count > 14 then [TERMINATOR] else []
  }

  /** coap_serialize_message; nothing when the header would be too long. */
  function Serialize(m: Message): Option<seq<byte>>
    requires m.mtype < 4 && m.mid < 0x1_0000
  {
    var count := |Options(m)|;
    var header := HeaderBytes(m, count) + OptionBytes(m) + TerminatorBytes(count);
    if |header| <= COAP_MAX_HEADER_SIZE then Some(header + m.payload) else None
  }

  // ---------------------------------------------------------------------------
  // Parsing
  // ---------------------------------------------------------------------------

  datatype Stored = Stored(m: Message) | Rejected(code: nat)

  function Limited(value: seq<byte>): seq<byte> {
    if |value| > COAP_ETAG_LEN then value[..COAP_ETAG_LEN] else value
  }

  function Merged(field: Option<seq<byte>>, value: seq<byte>, separator: byte): Option<seq<byte>> {
    Some(Merge(if field.Some? then field.value else [], value, separator))
  }

  /** One option of a message that is being parsed. */
  function SetOption(m: Message, number: nat, value: seq<byte>): Stored {
    if number == CONTENT_TYPE then Stored(m.(contentType := Some(IntValue(value))))
    else if number == MAX_AGE then Stored(m.(maxAge := Some(IntValue(value))))
    else if number == PROXY_URI then Rejected(PROXYING_NOT_SUPPORTED_5_05)
    else if number == ETAG then Stored(m.(etag := Some(Limited(value))))
    else if number == URI_HOST then Stored(m.(uriHost := Some(value)))
    else if number == LOCATION_PATH then Stored(m.(locationPath := Merged(m.locationPath, value, SLASH)))
    else if number == URI_PORT then Stored(m.(uriPort := Some(IntValue(value) % 0x1_0000)))
    else if number == LOCATION_QUERY then Stored(m.(locationQuery := Merged(m.locationQuery, value, AMPERSAND)))
    else if number == URI_PATH then Stored(m.(uriPath := Merged(m.uriPath, value, SLASH)))
    else if number == OBSERVE then Stored(m.(observe := Some(IntValue(value) % 0x1_0000)))
    else if number == TOKEN then Stored(m.(token := Some(Limited(value))))
    else if number == ACCEPT then Stored(m.(accept := Accepted(m.accept, value)))
    else if number == IF_MATCH then Stored(m.(ifMatch := Some(Limited(value))))
    else if number == URI_QUERY then Stored(m.(uriQuery := Merged(m.uriQuery, value, AMPERSAND)))
    else if number == BLOCK2 then Stored(m.(block2 := Some(BlockOf(IntValue(value)))))
    else if number == BLOCK1 then Stored(m.(block1 := Some(BlockOf(IntValue(value)))))
    else if number == SIZE then Stored(m.(size := Some(IntValue(value))))
    else if number == IF_NONE_MATCH then Stored(m.(ifNoneMatch := true))
    else if number % 2 == 1 then Rejected(BAD_OPTION_4_02)
    else Stored(m)
  }

  /** Only the first values are kept. */
  function Accepted(field: Option<seq<nat>>, value: seq<byte>): Option<seq<nat>> {
    var values := if field.Some? then field.value else [];
    Some(if |values| < COAP_MAX_ACCEPT_NUM then values + [IntValue(value) % 0x1_0000] else values)
  }

  /** The rest of the bytes after the options; a failure with its code; or a read behind
      the end of the buffer. */
  datatype Outcome = Done(m: Message, rest: seq<byte>) | Failed(code: nat) | OutOfBytes

  /** The option loop; `count` is the number of options left, without meaning if the
      options go on to the terminator. */
  function ParseOptions(s: seq<byte>, count: nat, bounded: bool, current: nat, m: Message): (r: Outcome)
    ensures r.Done? ==> |r.rest| <= |s|
    decreases |s|
  {
    if bounded && count == 0 then Done(m, s)
    else
      FoundInBounds(s, current);
      match ReadOption(s, current)
      case Overrun => OutOfBytes
      case End => Done(m, s)
      case Entry(number, head, len) =>
        match SetOption(m, number, s[head..head + len])
        case Rejected(code) => Failed(code)
        case Stored(next) =>
          ParseOptions(s[head + len..], if count == 0 then 0 else count - 1, bounded, number, next)
  }

  /** One turn of the option loop. */
  lemma UnfoldParseOptions(s: seq<byte>, count: nat, bounded: bool, current: nat, m: Message)
    ensures bounded && count == 0 ==> ParseOptions(s, count, bounded, current, m) == Done(m, s)
    ensures !(bounded && count == 0) ==>
              match ReadOption(s, current)
              case Overrun => ParseOptions(s, count, bounded, current, m) == OutOfBytes
              case End => ParseOptions(s, count, bounded, current, m) == Done(m, s)
              case Entry(number, head, len) =>
                && 0 < head && head + len <= |s| && current <= number
                && match SetOption(m, number, s[head..head + len])
                   case Rejected(code) => ParseOptions(s, count, bounded, current, m) == Failed(code)
                   case Stored(next) =>
                     ParseOptions(s, count, bounded, current, m)
                     == ParseOptions(s[head + len..], if count == 0 then 0 else count - 1, bounded, number, next)
  {
    hide SetOption, ReadOption;
    FoundInBounds(s, current);
  }

  datatype Result = Ok(m: Message) | Error(code: nat) | Outside

  /** The 16-bit length of the payload, and the limit on it. */
  function PayloadLength(length: nat, position: nat): nat {
    var n := (length - position) % 0x1_0000;
    if n > REST_MAX_CHUNK_SIZE then REST_MAX_CHUNK_SIZE else n
  }

  /** coap_parse_message on a buffer whose first `length` bytes are the message: the
      program never compares its position with `length`, and writes a zero behind the
      payload; `Outside` is an access behind the buffer. */
  function Parse(mem: seq<byte>, length: nat): Result {
    if |mem| < COAP_HEADER_LEN then Outside
    else if mem[0] / 64 != 1 then Error(BAD_REQUEST_4_00)
    else
      var count := mem[0] % 16;
      var m := Empty(mem[0] / 16 % 4, mem[1], Wide(mem[2], mem[3]));
      match ParseOptions(mem[COAP_HEADER_LEN..], count, count != 15, 0, m)
      case OutOfBytes => Outside
      case Failed(code) => Error(code)
      case Done(done, rest) => Finish(mem, length, done, rest)
  }

  function Finish(mem: seq<byte>, length: nat, m: Message, rest: seq<byte>): Result
    requires |rest| <= |mem|
  {
    var n := PayloadLength(length, |mem| - |rest|);
    if n >= |rest| then Outside else Ok(m.(payload := rest[..n]))
  }

  // ---------------------------------------------------------------------------
  // Parsing what was serialized
  // ---------------------------------------------------------------------------

  function SetAll(m: Message, opts: seq<Opt>): Stored
    decreases |opts|
  {
    if opts == [] then Stored(m)
    else
      match SetOption(m, opts[0].number, opts[0].value)
      case Rejected(code) => Rejected(code)
      case Stored(next) => SetAll(next, opts[1..])
  }

  lemma {:induction false} SetAllAppend(m: Message, a: seq<Opt>, b: seq<Opt>)
    requires SetAll(m, a).Stored?
    ensures SetAll(m, a + b) == SetAll(SetAll(m, a).m, b)
    decreases |a|
  {
    hide SetOption;
    if a == [] {
      assert a + b == b;
    } else {
      SetAllAppend(SetOption(m, a[0].number, a[0].value).m, a[1..], b);
      assert (a + b)[1..] == a[1..] + b;
    }
  }

  function LastNumber(opts: seq<Opt>, current: nat): nat {
    if opts == [] then current else opts[|opts| - 1].number
  }

  /** One turn of the option loop. */
  lemma ParseOne(s: seq<byte>, count: nat, bounded: bool, current: nat, m: Message, opt: Opt, head: nat, more: seq<byte>)
    requires ReadOption(s, current) == Entry(opt.number, head, |opt.value|)
    requires head + |opt.value| <= |s| && s[head..head + |opt.value|] == opt.value && s[head + |opt.value|..] == more
    requires !(bounded && count == 0) && SetOption(m, opt.number, opt.value).Stored?
    ensures ParseOptions(s, count, bounded, current, m)
            == ParseOptions(more, if count == 0 then 0 else count - 1, bounded, opt.number, SetOption(m, opt.number, opt.value).m)
  {
    hide SetOption, ReadOption;
  }

  /** The parser finds the options that were encoded, and goes on behind them. */
  lemma {:induction false} ParseEncoded(opts: seq<Opt>, current: nat, count: nat, bounded: bool, m: Message, rest: seq<byte>)
    requires Ascending(opts, current) && (bounded ==> count >= |opts|)
    requires forall i :: 0 <= i < |opts| ==> opts[i].number < current + 30
    requires SetAll(m, opts).Stored?
    ensures ParseOptions(EncodeOptions(opts, current) + rest, count, bounded, current, m)
            == ParseOptions(rest, if count >= |opts| then count - |opts| else 0, bounded, LastNumber(opts, current), SetAll(m, opts).m)
    decreases |opts|
  {
    hide SetOption, ReadOption, EncodeOption, ReadBack, ParseOptions, EncodeOptions, Ascending;
    EncodeFirst(opts, current, rest);
    if opts != [] {
      var number, value := opts[0].number, opts[0].value;
      var e := EncodeOption(number, current, value);
      var more := EncodeOptions(opts[1..], number) + rest;
      ReadEncoded(number, current, value, more);
      SmallReadBack(number - current);
      EncodedValue(number, current, value, more);
      ParseOne(e + more, count, bounded, current, m, opts[0], |e| - |value|, more);
      ParseEncoded(opts[1..], number, if count == 0 then 0 else count - 1, bounded, SetOption(m, number, value).m, rest);
      assert LastNumber(opts, current) == LastNumber(opts[1..], number);
    }
  }

  lemma EncodeFirst(opts: seq<Opt>, current: nat, rest: seq<byte>)
    requires Ascending(opts, current)
    ensures opts == [] ==> EncodeOptions(opts, current) + rest == rest
    ensures opts != [] ==>
              && Ascending(opts[1..], opts[0].number) && current <= opts[0].number < 0x1_0000
              && EncodeOptions(opts, current) + rest
                 == EncodeOption(opts[0].number, current, opts[0].value) + (EncodeOptions(opts[1..], opts[0].number) + rest)
  {
    hide EncodeOption;
  }

  lemma SmallReadBack(delta: nat)
    requires delta < 30
    ensures ReadBack(delta) == delta
  {
  }

  lemma EncodedValue(number: nat, current: nat, value: seq<byte>, more: seq<byte>)
    requires current <= number < 0x1_0000
    ensures var e := EncodeOption(number, current, value);
            |value| <= |e| && (e + more)[|e| - |value|..|e|] == value && (e + more)[|e|..] == more
  {
    hide Jump, Header;
  }

  // ---------------------------------------------------------------------------
  // Field by field
  // ---------------------------------------------------------------------------

  /** A string as it comes back. */
  function Rejoined(field: Option<seq<byte>>, separator: byte): Option<seq<byte>> {
    if field.Some? then Some(MergeOnto([], Split(field.value, separator), separator)) else None
  }

  function Located(field: Option<Block>): Option<Block> {
    if field.Some? then Some(WithOffset(field.value)) else None
  }

  /** A message as it comes back, without its payload. */
  function Received(m: Message): Message {
    m.(locationPath := Rejoined(m.locationPath, SLASH), uriPath := Rejoined(m.uriPath, SLASH),
       uriQuery := Rejoined(m.uriQuery, AMPERSAND), locationQuery := Rejoined(m.locationQuery, AMPERSAND),
       block2 := Located(m.block2), block1 := Located(m.block1), payload := [])
  }

  predicate Below(field: Option<nat>, bound: nat) {
    field.Some? ==> field.value < bound
  }

  predicate Short(field: Option<seq<byte>>) {
    field.Some? ==> |field.value| <= COAP_ETAG_LEN
  }

  predicate ValidBlocks(field: Option<Block>) {
    field.Some? ==> ValidBlock(field.value)
  }

  /** What the types of the packet's fields allow. */
  predicate FieldTypes(m: Message) {
    && m.mtype < 4 && m.mid < 0x1_0000
    && Below(m.observe, 0x1_0000) && Below(m.uriPort, 0x1_0000)
    && Below(m.contentType, WORD) && Below(m.maxAge, WORD) && Below(m.size, WORD)
    && (m.accept.Some? ==> forall i :: 0 <= i < |m.accept.value| ==> m.accept.value[i] < 0x1_0000)
  }

  /** Messages without Proxy-Uri that keep the limits of the packet's fields. */
  predicate Ranges(m: Message) {
    && FieldTypes(m) && |m.payload| <= REST_MAX_CHUNK_SIZE
    && Short(m.ifMatch) && Short(m.etag) && Short(m.token)
    && (m.accept.Some? ==> 0 < |m.accept.value| <= COAP_MAX_ACCEPT_NUM)
    && ValidBlocks(m.block2) && ValidBlocks(m.block1) && m.proxyUri.None?
  }

  /** The first `k` fields of a message. */
  function Partial(m: Message, k: nat): Message {
    Message(m.mtype, m.code, m.mid,
            if k > 0 then m.ifMatch else None, if k > 1 then m.uriHost else None, if k > 2 then m.etag else None,
            k > 3 && m.ifNoneMatch, if k > 4 then m.observe else None, if k > 5 then m.uriPort else None,
            if k > 6 then m.locationPath else None, if k > 7 then m.uriPath else None,
            if k > 8 then m.contentType else None, if k > 9 then m.maxAge else None,
            if k > 10 then m.uriQuery else None, if k > 11 then m.accept else None,
            if k > 12 then m.token else None, if k > 13 then m.locationQuery else None,
            if k > 14 then m.block2 else None, if k > 15 then m.block1 else None,
            if k > 16 then m.size else None, None, [])
  }

  /** Options of one number, set one after the other. */
  lemma SetOne(m: Message, opt: Opt)
    ensures SetAll(m, [opt]) == SetOption(m, opt.number, opt.value)
  {
    hide SetOption;
    assert [opt][1..] == [];
  }

  /** Integer fields. */
  lemma IntSegment(m: Message, k: nat)
    requires (k == 4 || k == 5 || k == 8 || k == 9 || k == 16) && Ranges(m)
    ensures SetAll(Partial(m, k), Segment(m, k)) == Stored(Partial(m, k + 1))
  {
    hide SetAll, IntValue, IntBytes;
    var field := match k case 4 => m.observe case 5 => m.uriPort case 8 => m.contentType case 9 => m.maxAge case _ => m.size;
    SetNone(Partial(m, k));
    if field.Some? {
      IntRoundTrip(field.value);
      SetOne(Partial(m, k), Opt(NumberOf(k), IntBytes(field.value)));
    }
  }

  lemma SetNone(m: Message)
    ensures SetAll(m, []) == Stored(m)
  {
  }

  /** Byte fields, Uri-Host and If-None-Match. */
  lemma BytesSegment(m: Message, k: nat)
    requires (k < 4 || k == 12 || k == 17) && Ranges(m)
    ensures SetAll(Partial(m, k), Segment(m, k)) == Stored(Partial(m, k + 1))
  {
    hide SetAll;
    SetNone(Partial(m, k));
    if k == 3 {
      if m.ifNoneMatch { SetOne(Partial(m, k), Opt(IF_NONE_MATCH, [])); }
    } else {
      var field := match k case 0 => m.ifMatch case 1 => m.uriHost case 2 => m.etag case 12 => m.token case _ => m.proxyUri;
      if field.Some? { SetOne(Partial(m, k), Opt(NumberOf(k), field.value)); }
    }
  }

  lemma BlockSegment(m: Message, k: nat)
    requires (k == 14 || k == 15) && Ranges(m)
    ensures SetAll(Partial(Received(m), k), Segment(m, k)) == Stored(Partial(Received(m), k + 1))
  {
    hide SetAll, IntValue, IntBytes, BlockOf, BlockValue, Rejoined;
    var field := if k == 14 then m.block2 else m.block1;
    var n := Partial(Received(m), k);
    SetNone(n);
    if field.Some? {
      BlockRoundTrip(field.value);
      IntRoundTrip(BlockValue(field.value));
      SetOne(n, Opt(NumberOf(k), IntBytes(BlockValue(field.value))));
    }
  }

  lemma AcceptSegment(m: Message)
    requires Ranges(m)
    ensures SetAll(Partial(m, 11), Segment(m, 11)) == Stored(Partial(m, 12))
  {
    hide SetAll, IntValue, IntBytes;
    var n := Partial(m, 11);
    SetNone(n);
    if m.accept.Some? {
      var v := m.accept.value;
      var first := Opt(ACCEPT, IntBytes(v[0]));
      IntRoundTrip(v[0]);
      SetOne(n, first);
      var n1 := n.(accept := Some([v[0]]));
      AcceptedValue(None, IntBytes(v[0]));
      AcceptedValue(Some([v[0]]), IntBytes(v[|v| - 1]));
      assert SetAll(n, [first]) == Stored(n1);
      if |v| == 1 {
        assert v[1..] == [] && v == [v[0]];
        assert AcceptOptions(Some(v[1..])) == [];
        assert Segment(m, 11) == [first];
      } else {
        var second := Opt(ACCEPT, IntBytes(v[1]));
        IntRoundTrip(v[1]);
        SetOne(n1, second);
        SetAllAppend(n, [first], [second]);
        assert v == [v[0], v[1]] && v[1..][1..] == [] && v[1..][0] == v[1];
        assert AcceptOptions(Some(v[1..])) == [second] + AcceptOptions(Some(v[1..][1..]));
        assert Segment(m, 11) == [first] + [second];
      }
    }
  }

  lemma AcceptedValue(field: Option<seq<nat>>, value: seq<byte>)
    requires field.Some? ==> |field.value| < COAP_MAX_ACCEPT_NUM
    ensures Accepted(field, value) == Some((if field.Some? then field.value else []) + [IntValue(value) % 0x1_0000])
    ensures field.None? ==> Accepted(field, value) == Some([IntValue(value) % 0x1_0000])
    ensures field.Some? && |field.value| == 1
            ==> Accepted(field, value) == Some([field.value[0], IntValue(value) % 0x1_0000])
  {
    hide IntValue;
    var n := IntValue(value) % 0x1_0000;
    assert [] + [n] == [n];
    if field.Some? && |field.value| == 1 {
      assert field.value + [n] == [field.value[0], n];
    }
  }

  /** The string field with a given number. */
  function StringField(m: Message, k: nat): Option<seq<byte>>
    requires k == 6 || k == 7 || k == 10 || k == 13
  {
    match k case 6 => m.locationPath case 7 => m.uriPath case 10 => m.uriQuery case _ => m.locationQuery
  }

  function WithString(m: Message, k: nat, field: Option<seq<byte>>): Message
    requires k == 6 || k == 7 || k == 10 || k == 13
  {
    match k
    case 6 => m.(locationPath := field)
    case 7 => m.(uriPath := field)
    case 10 => m.(uriQuery := field)
    case _ => m.(locationQuery := field)
  }

  function SeparatorOf(k: nat): byte {
    if k < 10 then SLASH else AMPERSAND
  }

  lemma SetStringOption(m: Message, k: nat, value: seq<byte>)
    requires k == 6 || k == 7 || k == 10 || k == 13
    ensures SetOption(m, NumberOf(k), value) == Stored(WithString(m, k, Merged(StringField(m, k), value, SeparatorOf(k))))
  {
    hide Merged;
  }

  lemma {:induction false} SetRepeated(m: Message, k: nat, values: seq<seq<byte>>)
    requires (k == 6 || k == 7 || k == 10 || k == 13) && StringField(m, k).Some?
    ensures SetAll(m, Repeated(NumberOf(k), values))
            == Stored(WithString(m, k, Some(MergeOnto(StringField(m, k).value, values, SeparatorOf(k)))))
    decreases |values|
  {
    hide SetOption, Merge;
    if values != [] {
      SetStringOption(m, k, values[0]);
      var merged := Merge(StringField(m, k).value, values[0], SeparatorOf(k));
      SetRepeated(WithString(m, k, Some(merged)), k, values[1..]);
      assert Repeated(NumberOf(k), values)[1..] == Repeated(NumberOf(k), values[1..]);
    }
  }

  lemma StringSegment(m: Message, k: nat)
    requires k == 6 || k == 7 || k == 10 || k == 13
    ensures SetAll(Partial(Received(m), k), Segment(m, k)) == Stored(Partial(Received(m), k + 1))
  {
    hide SetAll, SetOption, Split, MergeOnto;
    var n := Partial(Received(m), k);
    SetNone(n);
    var field := StringField(m, k);
    if field.Some? {
      var values := Split(field.value, SeparatorOf(k));
      var opts := Repeated(NumberOf(k), values);
      assert Segment(m, k) == opts;
      SetStringOption(n, k, values[0]);
      var n1 := WithString(n, k, Some(values[0]));
      SetRepeated(n1, k, values[1..]);
      FirstThenRest(n, n1, k, values);
      MergeFirst(values, SeparatorOf(k));
    }
  }

  lemma FirstThenRest(n: Message, n1: Message, k: nat, values: seq<seq<byte>>)
    requires values != [] && k < FIELDS && SetOption(n, NumberOf(k), values[0]) == Stored(n1)
    ensures SetAll(n, Repeated(NumberOf(k), values)) == SetAll(n1, Repeated(NumberOf(k), values[1..]))
  {
    hide SetOption;
    assert Repeated(NumberOf(k), values)[1..] == Repeated(NumberOf(k), values[1..]);
  }

  lemma MergeFirst(values: seq<seq<byte>>, separator: byte)
    requires values != []
    ensures MergeOnto([], values, separator) == MergeOnto(values[0], values[1..], separator)
  {
  }

  /** The parser rebuilds the message field by field. */
  lemma FieldSet(m: Message, k: nat)
    requires k < FIELDS && Ranges(m)
    ensures SetAll(Partial(Received(m), k), Segment(m, k)) == Stored(Partial(Received(m), k + 1))
  {
    hide SetAll, Partial, Ranges;
    if k == 6 || k == 7 || k == 10 || k == 13 {
      StringSegment(m, k);
    } else if k == 14 || k == 15 {
      BlockSegment(m, k);
    } else {
      ReceivedRanges(m);
      SameSegment(m, k);
      if k == 11 {
        AcceptSegment(Received(m));
      } else if k < 4 || k == 12 || k == 17 {
        BytesSegment(Received(m), k);
      } else {
        IntSegment(Received(m), k);
      }
    }
  }

  lemma SameSegment(m: Message, k: nat)
    requires k < FIELDS && k != 6 && k != 7 && k != 10 && k != 13 && k != 14 && k != 15
    ensures Segment(Received(m), k) == Segment(m, k)
  {
    hide IntBytes, Rejoined, Located;
  }

  lemma ReceivedRanges(m: Message)
    requires Ranges(m)
    ensures Ranges(Received(m))
  {
    hide Rejoined, PowerOf2;
    if m.block2.Some? { LocatedValid(m.block2.value); }
    if m.block1.Some? { LocatedValid(m.block1.value); }
  }

  lemma LocatedValid(b: Block)
    requires ValidBlock(b)
    ensures ValidBlock(WithOffset(b))
  {
    hide PowerOf2;
  }

  lemma {:induction false} FieldsSet(m: Message, k: nat)
    requires k <= FIELDS && Ranges(m)
    ensures SetAll(Partial(Received(m), k), OptionsFrom(m, k)) == Stored(Partial(Received(m), FIELDS))
    decreases FIELDS - k
  {
    hide SetAll, Partial, Ranges, Segment;
    if k == FIELDS {
      SetNone(Partial(Received(m), k));
    } else {
      FieldSet(m, k);
      FieldsSet(m, k + 1);
      SetAllAppend(Partial(Received(m), k), Segment(m, k), OptionsFrom(m, k + 1));
    }
  }

  // ---------------------------------------------------------------------------
  // Round trip
  // ---------------------------------------------------------------------------

  /** The payload as it comes back: the terminator of 15 and more options is left in
      front of it. */
  function ReceivedPayload(m: Message): seq<byte> {
    var payload := TerminatorBytes(|Options(m)|) + m.payload;
    if |payload| > REST_MAX_CHUNK_SIZE then payload[..REST_MAX_CHUNK_SIZE] else payload
  }

  /** The option loop on serialized options. */
  lemma ParseSerializedOptions(m: Message, rest: seq<byte>)
    requires Ranges(m)
    ensures var count := |Options(m)|;
            var oc := if count > 14 then 15 else count;
            ParseOptions(OptionBytes(m) + TerminatorBytes(count) + rest, oc, oc != 15, 0, Empty(m.mtype, m.code, m.mid))
            == Done(Received(m), TerminatorBytes(count) + rest)
  {
    hide SetAll, Segment, EncodeOptions, SetOption, Received;
    var opts := Options(m);
    var oc := if |opts| > 14 then 15 else |opts|;
    var more := TerminatorBytes(|opts|) + rest;
    OptionsAscend(m, 0);
    FieldsSet(m, 0);
    PartialEnds(m);
    ParseEncoded(opts, 0, oc, oc != 15, Empty(m.mtype, m.code, m.mid), more);
    assert OptionBytes(m) + TerminatorBytes(|opts|) + rest == EncodeOptions(opts, 0) + more;
    if oc == 15 {
      assert more[0] == TERMINATOR;
    }
  }

  lemma PartialEnds(m: Message)
    requires m.proxyUri.None?
    ensures Partial(Received(m), 0) == Empty(m.mtype, m.code, m.mid)
    ensures Partial(Received(m), FIELDS) == Received(m)
  {
    hide Rejoined, Located;
  }

  lemma ParseSteps(mem: seq<byte>, length: nat, m: Message, rest: seq<byte>)
    requires |mem| >= COAP_HEADER_LEN && mem[0] / 64 == 1
    requires var count := mem[0] % 16;
             ParseOptions(mem[COAP_HEADER_LEN..], count, count != 15, 0, Empty(mem[0] / 16 % 4, mem[1], Wide(mem[2], mem[3])))
             == Done(m, rest)
    ensures |rest| <= |mem| && Parse(mem, length) == Finish(mem, length, m, rest)
  {
  }

  /** Parsing a serialized message, wherever it lies in a larger buffer. */
  lemma ParseSerialized(m: Message, tail: seq<byte>)
    requires Ranges(m) && Serialize(m).Some? && tail != []
    ensures var bytes := Serialize(m).value;
            Parse(bytes + tail, |bytes|) == Ok(Received(m).(payload := ReceivedPayload(m)))
  {
    hide Ranges, Received, ParseOptions, OptionBytes, Parse, Finish, HeaderBytes, Options;
    RangesOf(m);
    var bytes := Serialize(m).value;
    var count := |Options(m)|;
    var options, terminator := OptionBytes(m), TerminatorBytes(count);
    var mem := bytes + tail;
    assert mem == HeaderBytes(m, count) + (options + terminator + (m.payload + tail));
    assert mem[COAP_HEADER_LEN..] == options + terminator + (m.payload + tail);
    HeaderFields(m, count, mem);
    ParseSerializedOptions(m, m.payload + tail);
    ParseSteps(mem, |bytes|, Received(m), terminator + (m.payload + tail));
    FinishSerialized(m, bytes, tail);
  }

  lemma FinishSerialized(m: Message, bytes: seq<byte>, tail: seq<byte>)
    requires |m.payload| <= REST_MAX_CHUNK_SIZE && tail != []
    requires var terminator := TerminatorBytes(|Options(m)|);
             |bytes| >= |terminator| + |m.payload|
    ensures var rest := TerminatorBytes(|Options(m)|) + (m.payload + tail);
            |rest| <= |bytes + tail|
            && Finish(bytes + tail, |bytes|, Received(m), rest) == Ok(Received(m).(payload := ReceivedPayload(m)))
  {
    hide Received, Options;
    var terminator := TerminatorBytes(|Options(m)|);
    var rest := terminator + (m.payload + tail);
    assert rest == (terminator + m.payload) + tail;
    var n := PayloadLength(|bytes|, |bytes + tail| - |rest|);
    assert n == |ReceivedPayload(m)|;
    assert rest[..n] == ReceivedPayload(m);
  }

  lemma RangesOf(m: Message)
    requires Ranges(m)
    ensures m.mtype < 4 && m.mid < 0x1_0000 && |m.payload| <= REST_MAX_CHUNK_SIZE && m.proxyUri.None?
  {
  }

  lemma HeaderFields(m: Message, count: nat, mem: seq<byte>)
    requires m.mtype < 4 && m.mid < 0x1_0000 && HeaderBytes(m, count) <= mem
    ensures mem[0] / 64 == 1 && mem[0] / 16 % 4 == m.mtype && mem[0] % 16 == if count > 14 then 15 else count
    ensures mem[1] == m.code && Wide(mem[2], mem[3]) == m.mid
  {
    assert mem[0] == HeaderBytes(m, count)[0] && mem[1] == HeaderBytes(m, count)[1];
    assert mem[2] == HeaderBytes(m, count)[2] && mem[3] == HeaderBytes(m, count)[3];
  }

  predicate CleanField(field: Option<seq<byte>>, separator: byte) {
    field.Some? ==> Clean(field.value, separator)
  }

  predicate CleanStrings(m: Message) {
    && CleanField(m.locationPath, SLASH) && CleanField(m.uriPath, SLASH)
    && CleanField(m.uriQuery, AMPERSAND) && CleanField(m.locationQuery, AMPERSAND)
  }

  /** A full payload of terminator bytes looks the same with one more in front. */
  predicate AllTerminators(payload: seq<byte>) {
    |payload| == REST_MAX_CHUNK_SIZE && forall i :: 0 <= i < |payload| ==> payload[i] == TERMINATOR
  }

  /** Exactly which messages come back unchanged, up to the block offsets that the
      parser adds: those with clean strings and fewer than 15 options. */
  lemma RoundTripExactly(m: Message, tail: seq<byte>)
    requires Ranges(m) && Serialize(m).Some? && tail != []
    ensures var bytes := Serialize(m).value;
            Parse(bytes + tail, |bytes|) == Ok(m.(block2 := Located(m.block2), block1 := Located(m.block1)))
            <==> CleanStrings(m) && (|Options(m)| < 15 || AllTerminators(m.payload))
  {
    hide Options, Parse, Ranges, Located, Clean, Split, MergeOnto;
    RangesOf(m);
    ParseSerialized(m, tail);
    RejoinedExactly(m.locationPath, SLASH);
    RejoinedExactly(m.uriPath, SLASH);
    RejoinedExactly(m.uriQuery, AMPERSAND);
    RejoinedExactly(m.locationQuery, AMPERSAND);
    PayloadExactly(m);
  }

  lemma RejoinedExactly(field: Option<seq<byte>>, separator: byte)
    ensures Rejoined(field, separator) == field <==> CleanField(field, separator)
  {
    hide Split, MergeOnto, Clean;
    if field.Some? { SplitMerge(field.value, separator); }
  }

  lemma PayloadExactly(m: Message)
    requires |m.payload| <= REST_MAX_CHUNK_SIZE
    ensures ReceivedPayload(m) == m.payload <==> |Options(m)| < 15 || AllTerminators(m.payload)
  {
    hide Options;
    if |Options(m)| >= 15 {
      if ReceivedPayload(m) == m.payload {
        assert |m.payload| == REST_MAX_CHUNK_SIZE;
        ShiftedEqual(m.payload, REST_MAX_CHUNK_SIZE);
      }
      assert AllTerminators(m.payload) ==> ReceivedPayload(m) == m.payload;
    } else {
      assert [] + m.payload == m.payload;
    }
  }

  lemma {:induction false} ShiftedEqual(payload: seq<byte>, k: nat)
    requires k <= |payload| == REST_MAX_CHUNK_SIZE
    requires ([TERMINATOR] + payload)[..REST_MAX_CHUNK_SIZE] == payload
    ensures forall i :: 0 <= i < k ==> payload[i] == TERMINATOR
  {
    if k > 0 {
      ShiftedEqual(payload, k - 1);
      assert payload[k - 1] == ([TERMINATOR] + payload)[..REST_MAX_CHUNK_SIZE][k - 1];
    }
  }
}
