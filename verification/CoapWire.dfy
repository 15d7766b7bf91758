/**
 Which message the received bytes stand for, when they hold any list of options, known
 and unknown ones: every field is determined by the options of its number alone, and
 the first option that must not be ignored decides on the error.
 */
module CoapWire {
  import opened Bytes
  import opened CoapOptions
  import opened CoapValues
  import opened CoapMessage
  import opened Wrappers

  /** The numbers of the options that the program understands. */
  const KNOWN: set<nat> := {1, 3, 4, 5, 6, 7, 8, 11, 12, 14, 15, 16, 19, 20, 23, 27, 28}

  /** An option that is not understood and, with its odd number, critical. */
  predicate UnknownCritical(number: nat) {
    number !in KNOWN && number != PROXY_URI && number % 2 == 1
  }

  predicate Refused(number: nat) {
    UnknownCritical(number) || number == PROXY_URI
  }

  // ---------------------------------------------------------------------------
  // Messages by their options
  // ---------------------------------------------------------------------------

  /** The values of all options with a number, in order. */
  function All(opts: seq<Opt>, number: nat): seq<seq<byte>> {
    if opts == [] then []
    else All(opts[..|opts| - 1], number)
         + if opts[|opts| - 1].number == number then [opts[|opts| - 1].value] else []
  }

  /** The value of the last option with a number. */
  function Final(opts: seq<Opt>, number: nat): Option<seq<byte>> {
    var values := All(opts, number);
    if values == [] then None else Some(values[|values| - 1])
  }

  function IntField(opts: seq<Opt>, number: nat, bound: nat): Option<nat>
    requires bound > 0
  {
    match Final(opts, number)
    case None => None
    case Some(v) => Some(IntValue(v) % bound)
  }

  /** The first eight bytes. */
  function TagField(opts: seq<Opt>, number: nat): Option<seq<byte>> {
    match Final(opts, number)
    case None => None
    case Some(v) => Some(if |v| <= 8 then v else v[..8])
  }

  function BlockField(opts: seq<Opt>, number: nat): Option<Block> {
    match Final(opts, number)
    case None => None
    case Some(v) => Some(BlockOf(IntValue(v)))
  }

  function JoinedField(opts: seq<Opt>, number: nat, separator: byte): Option<seq<byte>> {
    var values := All(opts, number);
    if values == [] then None else Some(MergeOnto([], values, separator))
  }

  /** The first two values. */
  function AcceptField(opts: seq<Opt>): Option<seq<nat>> {
    var values := All(opts, ACCEPT);
    if values == [] then None
    else if |values| == 1 then Some([IntValue(values[0]) % 0x1_0000])
    else Some([IntValue(values[0]) % 0x1_0000, IntValue(values[1]) % 0x1_0000])
  }

  function MessageOf(mtype: nat, code: byte, mid: nat, opts: seq<Opt>): Message {
    Message(mtype, code, mid,
            TagField(opts, IF_MATCH), Final(opts, URI_HOST), TagField(opts, ETAG), All(opts, IF_NONE_MATCH) != [],
            IntField(opts, OBSERVE, 0x1_0000), IntField(opts, URI_PORT, 0x1_0000),
            JoinedField(opts, LOCATION_PATH, SLASH), JoinedField(opts, URI_PATH, SLASH),
            IntField(opts, CONTENT_TYPE, WORD), IntField(opts, MAX_AGE, WORD),
            JoinedField(opts, URI_QUERY, AMPERSAND), AcceptField(opts),
            TagField(opts, TOKEN), JoinedField(opts, LOCATION_QUERY, AMPERSAND),
            BlockField(opts, BLOCK2), BlockField(opts, BLOCK1), IntField(opts, SIZE, WORD), None, [])
  }

  // ---------------------------------------------------------------------------
  // Setting options one after the other
  // ---------------------------------------------------------------------------

  lemma OneMore(front: seq<Opt>, o: Opt, n: nat)
    ensures All(front + [o], n) == if o.number == n then All(front, n) + [o.value] else All(front, n)
  {
    assert (front + [o])[..|front|] == front;
  }

  lemma {:induction false} MergeOntoSnoc(field: seq<byte>, values: seq<seq<byte>>, v: seq<byte>, separator: byte)
    ensures MergeOnto(field, values + [v], separator) == Merge(MergeOnto(field, values, separator), v, separator)
    decreases |values|
  {
    hide Merge;
    if values == [] {
      assert [v][1..] == [];
    } else {
      MergeOntoSnoc(Merge(field, values[0], separator), values[1..], v, separator);
      assert (values + [v])[1..] == values[1..] + [v];
    }
  }

  lemma FieldsOneMore(front: seq<Opt>, o: Opt, n: nat, separator: byte, bound: nat)
    requires bound > 0
    ensures var opts := front + [o];
            if o.number != n then
              && Final(opts, n) == Final(front, n) && TagField(opts, n) == TagField(front, n)
              && IntField(opts, n, bound) == IntField(front, n, bound) && BlockField(opts, n) == BlockField(front, n)
              && JoinedField(opts, n, separator) == JoinedField(front, n, separator)
              && (All(opts, n) == [] <==> All(front, n) == [])
            else
              && Final(opts, n) == Some(o.value) && TagField(opts, n) == Some(Limited(o.value))
              && IntField(opts, n, bound) == Some(IntValue(o.value) % bound)
              && BlockField(opts, n) == Some(BlockOf(IntValue(o.value)))
              && JoinedField(opts, n, separator) == Merged(JoinedField(front, n, separator), o.value, separator)
              && All(opts, n) != []
  {
    hide All, IntValue, Merge, BlockOf, MergeOnto;
    OneMore(front, o, n);
    MergeOntoSnoc([], All(front, n), o.value, separator);
    MergeOntoNothing(separator);
  }

  lemma MergeOntoNothing(separator: byte)
    ensures MergeOnto([], [], separator) == []
  {
  }

  lemma AcceptOneMore(front: seq<Opt>, o: Opt)
    ensures AcceptField(front + [o]) == if o.number == ACCEPT then Accepted(AcceptField(front), o.value) else AcceptField(front)
  {
    hide All, IntValue;
    OneMore(front, o, ACCEPT);
    var before := All(front, ACCEPT);
    if |before| < COAP_MAX_ACCEPT_NUM {
      AcceptedValue(AcceptField(front), o.value);
    }
  }

  /** One option that is not refused sets what its number stands for. */
  lemma SetOneMore(mtype: nat, code: byte, mid: nat, front: seq<Opt>, o: Opt)
    requires !Refused(o.number)
    ensures SetOption(MessageOf(mtype, code, mid, front), o.number, o.value)
            == Stored(MessageOf(mtype, code, mid, front + [o]))
  {
    hide All, Final, IntField, TagField, BlockField, JoinedField, AcceptField, IntValue, BlockOf, Merged, Accepted, Limited;
    ShortOneMore(front, o);
    LongOneMore(front, o);
    StringsOneMore(front, o);
    TagsOneMore(front, o);
    AcceptOneMore(front, o);
    IntBelow(o.value);
  }

  lemma IntBelow(v: seq<byte>)
    ensures IntValue(v) % WORD == IntValue(v)
  {
  }

  lemma ShortOneMore(front: seq<Opt>, o: Opt)
    ensures forall n <- {OBSERVE, URI_PORT} ::
              IntField(front + [o], n, 0x1_0000)
              == if o.number == n then Some(IntValue(o.value) % 0x1_0000) else IntField(front, n, 0x1_0000)
  {
    hide Final, IntField, IntValue, All, BlockField, JoinedField, TagField;
    FieldsOneMore(front, o, OBSERVE, 0, 0x1_0000);
    FieldsOneMore(front, o, URI_PORT, 0, 0x1_0000);
  }

  lemma LongOneMore(front: seq<Opt>, o: Opt)
    ensures forall n <- {CONTENT_TYPE, MAX_AGE, SIZE} ::
              IntField(front + [o], n, WORD) == if o.number == n then Some(IntValue(o.value) % WORD) else IntField(front, n, WORD)
    ensures forall n <- {BLOCK1, BLOCK2} ::
              BlockField(front + [o], n) == if o.number == n then Some(BlockOf(IntValue(o.value))) else BlockField(front, n)
  {
    hide Final, IntField, IntValue, All, BlockField, JoinedField, TagField, BlockOf;
    FieldsOneMore(front, o, CONTENT_TYPE, 0, WORD);
    FieldsOneMore(front, o, MAX_AGE, 0, WORD);
    FieldsOneMore(front, o, SIZE, 0, WORD);
    FieldsOneMore(front, o, BLOCK1, 0, WORD);
    FieldsOneMore(front, o, BLOCK2, 0, WORD);
  }

  lemma StringsOneMore(front: seq<Opt>, o: Opt)
    ensures forall n <- {LOCATION_PATH, URI_PATH} ::
              JoinedField(front + [o], n, SLASH)
              == if o.number == n then Merged(JoinedField(front, n, SLASH), o.value, SLASH) else JoinedField(front, n, SLASH)
    ensures forall n <- {URI_QUERY, LOCATION_QUERY} ::
              JoinedField(front + [o], n, AMPERSAND)
              == if o.number == n then Merged(JoinedField(front, n, AMPERSAND), o.value, AMPERSAND)
                 else JoinedField(front, n, AMPERSAND)
  {
    hide Final, IntField, IntValue, All, BlockField, JoinedField, TagField, Merged;
    FieldsOneMore(front, o, LOCATION_PATH, SLASH, 1);
    FieldsOneMore(front, o, URI_PATH, SLASH, 1);
    FieldsOneMore(front, o, URI_QUERY, AMPERSAND, 1);
    FieldsOneMore(front, o, LOCATION_QUERY, AMPERSAND, 1);
  }

  lemma TagsOneMore(front: seq<Opt>, o: Opt)
    ensures forall n <- {IF_MATCH, ETAG, TOKEN} ::
              TagField(front + [o], n) == if o.number == n then Some(Limited(o.value)) else TagField(front, n)
    ensures Final(front + [o], URI_HOST) == if o.number == URI_HOST then Some(o.value) else Final(front, URI_HOST)
    ensures All(front + [o], IF_NONE_MATCH) != [] <==> o.number == IF_NONE_MATCH || All(front, IF_NONE_MATCH) != []
  {
    hide Final, IntField, IntValue, All, BlockField, JoinedField, TagField, Limited;
    FieldsOneMore(front, o, IF_MATCH, 0, 1);
    FieldsOneMore(front, o, ETAG, 0, 1);
    FieldsOneMore(front, o, TOKEN, 0, 1);
    FieldsOneMore(front, o, URI_HOST, 0, 1);
    FieldsOneMore(front, o, IF_NONE_MATCH, 0, 1);
  }

  lemma {:induction false} SetEach(mtype: nat, code: byte, mid: nat, opts: seq<Opt>)
    requires forall i :: 0 <= i < |opts| ==> !Refused(opts[i].number)
    ensures SetAll(Empty(mtype, code, mid), opts) == Stored(MessageOf(mtype, code, mid, opts))
    decreases |opts|
  {
    hide SetOption, MessageOf, SetAll;
    if opts == [] {
      NoOptions(mtype, code, mid);
    } else {
      var front, o := opts[..|opts| - 1], opts[|opts| - 1];
      SetEach(mtype, code, mid, front);
      SetAllAppend(Empty(mtype, code, mid), front, [o]);
      SetOne(MessageOf(mtype, code, mid, front), o);
      SetOneMore(mtype, code, mid, front, o);
      assert front + [o] == opts;
    }
  }

  lemma NoOptions(mtype: nat, code: byte, mid: nat)
    ensures SetAll(Empty(mtype, code, mid), []) == Stored(MessageOf(mtype, code, mid, []))
  {
    assert forall n :: All([], n) == [];
  }

  /** The first option that must not be ignored. */
  ghost predicate FirstRefused(opts: seq<Opt>, k: nat) {
    k < |opts| && Refused(opts[k].number) && forall j :: 0 <= j < k ==> !Refused(opts[j].number)
  }

  function CodeFor(number: nat): nat {
    if number == PROXY_URI then PROXYING_NOT_SUPPORTED_5_05 else BAD_OPTION_4_02
  }

  lemma {:induction false} SetUntil(mtype: nat, code: byte, mid: nat, opts: seq<Opt>, k: nat)
    requires FirstRefused(opts, k)
    ensures SetAll(Empty(mtype, code, mid), opts) == Rejected(CodeFor(opts[k].number))
  {
    hide SetOption, MessageOf, SetAll;
    SetEach(mtype, code, mid, opts[..k]);
    SetAllAppend(Empty(mtype, code, mid), opts[..k], opts[k..]);
    assert opts == opts[..k] + opts[k..];
    SetRefused(MessageOf(mtype, code, mid, opts[..k]), opts[k..]);
  }

  lemma SetRefused(m: Message, opts: seq<Opt>)
    requires opts != [] && Refused(opts[0].number)
    ensures SetAll(m, opts) == Rejected(CodeFor(opts[0].number))
  {
  }

  // ---------------------------------------------------------------------------
  // On the wire
  // ---------------------------------------------------------------------------

  /** Writer and parser agree on every option number, see JumpAgreement. */
  predicate Agreed(opts: seq<Opt>, current: nat)
    decreases |opts|
  {
    opts == [] ||
    (current <= opts[0].number < 0x1_0000
     && (opts[0].number - current < 30 || (opts[0].number - current) / 8 % 16 == 2)
     && Agreed(opts[1..], opts[0].number))
  }

  /** The option loop finds every option of the list up to the first that is refused. */
  lemma {:induction false} ParseList(opts: seq<Opt>, current: nat, count: nat, bounded: bool, m: Message, rest: seq<byte>)
    requires Ascending(opts, current) && Agreed(opts, current) && (bounded ==> count >= |opts|)
    ensures ParseOptions(EncodeOptions(opts, current) + rest, count, bounded, current, m)
            == match SetAll(m, opts)
               case Stored(r) => ParseOptions(rest, if count >= |opts| then count - |opts| else 0, bounded, LastNumber(opts, current), r)
               case Rejected(code) => Failed(code)
    decreases |opts|
  {
    hide SetOption, ReadOption, EncodeOption, ReadBack, ParseOptions, EncodeOptions, Ascending;
    EncodeFirst(opts, current, rest);
    if opts != [] {
      var number, value := opts[0].number, opts[0].value;
      var e := EncodeOption(number, current, value);
      var more := EncodeOptions(opts[1..], number) + rest;
      ReadEncoded(number, current, value, more);
      JumpAgreement(number - current);
      EncodedValue(number, current, value, more);
      UnfoldParseOptions(e + more, count, bounded, current, m);
      if SetOption(m, number, value).Stored? {
        ParseList(opts[1..], number, if count == 0 then 0 else count - 1, bounded, SetOption(m, number, value).m, rest);
        assert LastNumber(opts, current) == LastNumber(opts[1..], number);
      }
    }
  }

  /** The bytes of a message with any options. */
  function Wire(mtype: nat, code: byte, mid: nat, opts: seq<Opt>, payload: seq<byte>): seq<byte>
    requires mtype < 4 && mid < 0x1_0000 && Ascending(opts, 0)
  {
    HeaderBytes(Empty(mtype, code, mid), |opts|) + EncodeOptions(opts, 0) + TerminatorBytes(|opts|) + payload
  }

  /** As much of the payload as is kept, behind the terminator that is left in front of it. */
  function Kept(count: nat, payload: seq<byte>): seq<byte> {
    var all := TerminatorBytes(count) + payload;
    if |all| <= REST_MAX_CHUNK_SIZE then all else all[..REST_MAX_CHUNK_SIZE]
  }

  lemma ParseWire(mtype: nat, code: byte, mid: nat, opts: seq<Opt>, payload: seq<byte>, tail: seq<byte>)
    requires mtype < 4 && mid < 0x1_0000 && Ascending(opts, 0) && Agreed(opts, 0) && tail != [] && |payload| < 0xFFFF
    ensures var bytes := Wire(mtype, code, mid, opts, payload);
            Parse(bytes + tail, |bytes|)
            == match SetAll(Empty(mtype, code, mid), opts)
               case Stored(m) => Ok(m.(payload := Kept(|opts|, payload)))
               case Rejected(code) => Error(code)
  {
    hide SetAll, ParseOptions, EncodeOptions, Finish, HeaderBytes, Ascending, Agreed;
    var start := Empty(mtype, code, mid);
    var bytes := Wire(mtype, code, mid, opts, payload);
    var count := |opts|;
    var oc := if count > 14 then 15 else count;
    var options, terminator := EncodeOptions(opts, 0), TerminatorBytes(count);
    var mem := bytes + tail;
    assert mem == HeaderBytes(start, count) + (options + (terminator + payload + tail));
    assert mem[COAP_HEADER_LEN..] == options + (terminator + payload + tail);
    HeaderFields(start, count, mem);
    ParseList(opts, 0, oc, oc != 15, start, terminator + payload + tail);
    match SetAll(start, opts)
    case Rejected(_) =>
    case Stored(m) =>
      LoopEnds(terminator + payload + tail, count, LastNumber(opts, 0), m);
      FinishWire(mem, |bytes|, m, terminator + payload, tail);
  }

  /** Behind the options the loop ends, at the terminator if there is one. */
  lemma LoopEnds(s: seq<byte>, count: nat, current: nat, m: Message)
    requires count > 14 ==> s != [] && s[0] == TERMINATOR
    ensures var oc := if count > 14 then 15 else count;
            ParseOptions(s, if oc >= count then oc - count else 0, oc != 15, current, m) == Done(m, s)
  {
  }

  lemma FinishWire(mem: seq<byte>, length: nat, m: Message, all: seq<byte>, tail: seq<byte>)
    requires tail != [] && |all| < 0x1_0000 && length == |mem| - |tail| && |all| + |tail| <= |mem|
    ensures Finish(mem, length, m, all + tail)
            == Ok(m.(payload := if |all| <= REST_MAX_CHUNK_SIZE then all else all[..REST_MAX_CHUNK_SIZE]))
  {
    var n := if |all| <= REST_MAX_CHUNK_SIZE then |all| else REST_MAX_CHUNK_SIZE;
    assert PayloadLength(length, |mem| - |all + tail|) == n;
    assert (all + tail)[..n] == all[..n];
    assert all[..|all|] == all;
  }

  /** What a message with any options on the wire is taken for: the message of its options,
      of which unknown ones with even numbers set nothing, if none is refused; the error of
      unknown critical options if the first that is refused is one; and that of proxying if
      it is a Proxy-Uri. */
  lemma ParseWireExactly(mtype: nat, code: byte, mid: nat, opts: seq<Opt>, payload: seq<byte>, tail: seq<byte>)
    requires mtype < 4 && mid < 0x1_0000 && Ascending(opts, 0) && Agreed(opts, 0) && tail != [] && |payload| < 0xFFFF
    ensures var bytes := Wire(mtype, code, mid, opts, payload);
            var r := Parse(bytes + tail, |bytes|);
            && (r == Ok(MessageOf(mtype, code, mid, opts).(payload := Kept(|opts|, payload)))
                <==> forall k :: 0 <= k < |opts| ==> !Refused(opts[k].number))
            && (r == Error(BAD_OPTION_4_02) <==> exists k: nat :: FirstRefused(opts, k) && UnknownCritical(opts[k].number))
            && (r == Error(PROXYING_NOT_SUPPORTED_5_05) <==> exists k: nat :: FirstRefused(opts, k) && opts[k].number == PROXY_URI)
  {
    hide *;
    var k := ParseToFirst(mtype, code, mid, opts, payload, tail);
    if k < |opts| {
      FirstDecides(opts, k);
      CodesDiffer(opts[k].number);
    } else {
      NoneIsFirst(opts);
    }
  }

  lemma ParseToFirst(mtype: nat, code: byte, mid: nat, opts: seq<Opt>, payload: seq<byte>, tail: seq<byte>) returns (k: nat)
    requires mtype < 4 && mid < 0x1_0000 && Ascending(opts, 0) && Agreed(opts, 0) && tail != [] && |payload| < 0xFFFF
    ensures var bytes := Wire(mtype, code, mid, opts, payload);
            if k < |opts| then FirstRefused(opts, k) && Parse(bytes + tail, |bytes|) == Error(CodeFor(opts[k].number))
            else
              && (forall j :: 0 <= j < |opts| ==> !Refused(opts[j].number))
              && Parse(bytes + tail, |bytes|) == Ok(MessageOf(mtype, code, mid, opts).(payload := Kept(|opts|, payload)))
  {
    hide SetAll, MessageOf, Parse, Wire, Agreed, Ascending, Kept, Empty, CodeFor, Refused;
    ParseWire(mtype, code, mid, opts, payload, tail);
    k := Search(opts, 0);
    if k < |opts| {
      SetUntil(mtype, code, mid, opts, k);
    } else {
      SetEach(mtype, code, mid, opts);
    }
  }

  lemma FirstDecides(opts: seq<Opt>, k: nat)
    requires FirstRefused(opts, k)
    ensures k < |opts| && !(forall j :: 0 <= j < |opts| ==> !Refused(opts[j].number))
    ensures (exists j: nat :: FirstRefused(opts, j) && UnknownCritical(opts[j].number)) <==> opts[k].number != PROXY_URI
    ensures (exists j: nat :: FirstRefused(opts, j) && opts[j].number == PROXY_URI) <==> opts[k].number == PROXY_URI
  {
    hide UnknownCritical;
    OneKind(opts[k].number);
    assert forall j: nat :: FirstRefused(opts, j) ==> j == k;
  }

  lemma NoneIsFirst(opts: seq<Opt>)
    requires forall j :: 0 <= j < |opts| ==> !Refused(opts[j].number)
    ensures forall j: nat :: !FirstRefused(opts, j)
  {
    hide Refused;
  }

  lemma CodesDiffer(number: nat)
    ensures CodeFor(number) == (if number == PROXY_URI then PROXYING_NOT_SUPPORTED_5_05 else BAD_OPTION_4_02)
    ensures BAD_OPTION_4_02 != PROXYING_NOT_SUPPORTED_5_05
  {
  }

  lemma OneKind(number: nat)
    ensures !(UnknownCritical(number) && number == PROXY_URI)
  {
  }

  lemma {:induction false} Search(opts: seq<Opt>, from: nat) returns (k: nat)
    requires from <= |opts| && forall j :: 0 <= j < from ==> !Refused(opts[j].number)
    ensures FirstRefused(opts, k) || (k == |opts| && forall j :: 0 <= j < |opts| ==> !Refused(opts[j].number))
    decreases |opts| - from
  {
    if from == |opts| || Refused(opts[from].number) {
      k := from;
    } else {
      k := Search(opts, from + 1);
    }
  }

  // ---------------------------------------------------------------------------
  // Unknown options
  // ---------------------------------------------------------------------------

  /** The options that are understood. */
  function Understood(opts: seq<Opt>): seq<Opt> {
    if opts == [] then []
    else Understood(opts[..|opts| - 1]) + if opts[|opts| - 1].number in KNOWN then [opts[|opts| - 1]] else []
  }

  lemma {:induction false} SameValues(opts: seq<Opt>, n: nat)
    requires n in KNOWN
    ensures All(Understood(opts), n) == All(opts, n)
    decreases |opts|
  {
    if opts != [] {
      var front, o := opts[..|opts| - 1], opts[|opts| - 1];
      SameValues(front, n);
      OneMore(Understood(front), o, n);
      assert Understood(front) + [] == Understood(front);
    }
  }

  /** Options that are not understood set nothing. */
  lemma UnknownSetNothing(mtype: nat, code: byte, mid: nat, opts: seq<Opt>)
    ensures MessageOf(mtype, code, mid, opts) == MessageOf(mtype, code, mid, Understood(opts))
  {
    hide All, Understood, IntValue, BlockOf, MergeOnto;
    forall n | n in KNOWN ensures All(Understood(opts), n) == All(opts, n) { SameValues(opts, n); }
  }

  /** One empty option 9, which is critical, and one empty option 10, which is not. */
  lemma NineAndTen()
    ensures Parse([0x41, 1, 0, 7, 0x90, 0], 5) == Error(BAD_OPTION_4_02)
    ensures Parse([0x41, 1, 0, 7, 0xA0, 0], 5) == Ok(Empty(0, 1, 7))
  {
    ParseOptionOnly(9);
    ParseOptionOnly(10);
  }

  lemma ParseOptionOnly(number: nat)
    requires number == 9 || number == 10
    ensures Parse([0x41, 1, 0, 7, (number * 16) as byte, 0], 5)
            == if number == 9 then Error(BAD_OPTION_4_02) else Ok(Empty(0, 1, 7))
  {
    hide Parse, SetAll, Merged, Limited, BlockOf, IntValue, Accepted;
    var opts := [Opt(number, [])];
    assert EncodeOptions(opts, 0) == [(number * 16) as byte] by {
      assert opts[1..] == [];
      assert EncodeOption(number, 0, []) == [(number * 16) as byte];
    }
    assert Wire(0, 1, 7, opts, []) + [0] == [0x41, 1, 0, 7, (number * 16) as byte, 0];
    ParseWire(0, 1, 7, opts, [], [0]);
    SetOne(Empty(0, 1, 7), opts[0]);
  }

  // ---------------------------------------------------------------------------
  // Other errors
  // ---------------------------------------------------------------------------

  lemma {:induction false} OptionErrors(s: seq<byte>, count: nat, bounded: bool, current: nat, m: Message)
    ensures var r := ParseOptions(s, count, bounded, current, m);
            r.Failed? ==> r.code == BAD_OPTION_4_02 || r.code == PROXYING_NOT_SUPPORTED_5_05
    decreases |s|
  {
    hide SetOption, ReadOption, ParseOptions;
    UnfoldParseOptions(s, count, bounded, current, m);
    if !(bounded && count == 0) && ReadOption(s, current).Entry? {
      var e := ReadOption(s, current);
      var value := s[e.head..e.head + e.len];
      SetErrors(m, e.number, value);
      if SetOption(m, e.number, value).Stored? {
        OptionErrors(s[e.head + e.len..], if count == 0 then 0 else count - 1, bounded, e.number, SetOption(m, e.number, value).m);
      }
    }
  }

  lemma SetErrors(m: Message, number: nat, value: seq<byte>)
    ensures var r := SetOption(m, number, value);
            r.Rejected? ==> r.code == BAD_OPTION_4_02 || r.code == PROXYING_NOT_SUPPORTED_5_05
  {
    hide Merged, Limited, BlockOf, IntValue, Accepted;
  }

  /** A message is a bad request exactly if its version is not 1, whatever else it holds. */
  lemma BadRequestExactly(mem: seq<byte>, length: nat)
    requires |mem| >= 4
    ensures Parse(mem, length) == Error(128) <==> !(64 <= mem[0] < 128)
  {
    hide ParseOptions, Finish;
    OptionErrors(mem[4..], mem[0] as nat % 16, mem[0] as nat % 16 != 15, 0, Empty(mem[0] as nat / 16 % 4, mem[1], Wide(mem[2], mem[3])));
    assert mem[0] / 64 == 1 <==> 64 <= mem[0] < 128;
    FinishIsNoError(mem, length);
  }

  lemma FinishIsNoError(mem: seq<byte>, length: nat)
    ensures forall m, rest | |rest| <= |mem| :: !Finish(mem, length, m, rest).Error?
  {
  }

  /** A message is serialized exactly if header, options and terminator have at most 70
      bytes; the payload does not count. */
  lemma SerializedExactly(m: Message)
    requires m.mtype < 4 && m.mid < 0x1_0000
    ensures var count := |Options(m)|;
            Serialize(m) == None <==> 70 < 4 + |OptionBytes(m)| + (if count < 15 then 0 else 1)
    ensures Serialize(m).Some? ==> |Serialize(m).value| <= 70 + |m.payload|
  {
    hide OptionBytes, Options;
  }
}
