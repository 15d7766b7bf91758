/**
 The parser as the program runs it, inside the buffer that holds the received bytes:
 strings are slices of that buffer, and the parts of a path or query are moved together
 in place while the rest of the message is still to be parsed.
 */
module CoapParser {
  import opened Bytes
  import opened CoapOptions
  import opened CoapValues
  import opened CoapMessage
  import opened Wrappers

  /** A pointer into the buffer and a length. */
  datatype Slice = Slice(start: nat, len: nat)

  datatype Status = Parsed | Refused(code: nat) | PastBuffer

  /** The numbers of the fields that are slices of the buffer. */
  predicate IsString(number: nat) {
    number == URI_HOST || number == LOCATION_PATH || number == URI_PATH || number == URI_QUERY || number == LOCATION_QUERY
  }

  /** The bytes of a slice of a memory. */
  function BytesAt(mem: seq<byte>, s: Option<Slice>): Option<seq<byte>> {
    if s.Some? && s.value.start + s.value.len <= |mem|
    then Some(mem[s.value.start..s.value.start + s.value.len]) else None
  }

  function WithStrings(m: Message, host: Option<seq<byte>>, path: Option<seq<byte>>, uri: Option<seq<byte>>,
                       query: Option<seq<byte>>, location: Option<seq<byte>>): Message
  {
    m.(uriHost := host, locationPath := path, uriPath := uri, uriQuery := query, locationQuery := location, payload := [])
  }

  /** A string below the bytes that were written. */
  lemma Untouched(before: seq<byte>, after: seq<byte>, s: Option<Slice>, floor: nat)
    requires s.Some? ==> s.value.start + s.value.len <= floor
    requires |before| == |after| && forall i :: 0 <= i < floor && i < |after| ==> after[i] == before[i]
    ensures BytesAt(after, s) == BytesAt(before, s)
  {
    if s.Some? && s.value.start + s.value.len <= |after| {
      var from, to := s.value.start, s.value.start + s.value.len;
      assert forall i :: from <= i < to ==> after[i] == before[i];
      assert after[from..to] == before[from..to];
    }
  }

  class Packet {
    const buffer: array<byte>
    /** All fields but the strings and the payload. */
    var fields: Message
    var uriHost: Option<Slice>
    var locationPath: Option<Slice>
    var uriPath: Option<Slice>
    var uriQuery: Option<Slice>
    var locationQuery: Option<Slice>
    var payload: Slice

    constructor (data: array<byte>)
      ensures buffer == data && payload == Slice(0, 0) && NoStrings()
    {
      buffer, fields, payload := data, Empty(0, 0, 0), Slice(0, 0);
      uriHost, locationPath, uriPath, uriQuery, locationQuery := None, None, None, None, None;
    }

    ghost predicate NoStrings()
      reads this
    {
      uriHost.None? && locationPath.None? && uriPath.None? && uriQuery.None? && locationQuery.None?
    }

    /** The message parsed so far, without its payload. */
    function View(): Message
      reads this, buffer
    {
      WithStrings(fields, BytesAt(buffer[..], uriHost), BytesAt(buffer[..], locationPath),
                  BytesAt(buffer[..], uriPath), BytesAt(buffer[..], uriQuery), BytesAt(buffer[..], locationQuery))
    }

    // -------------------------------------------------------------------------
    // Where the strings are
    // -------------------------------------------------------------------------

    /** The bytes of the options of the current number start at `floor`; strings of
        smaller numbers end there, and a string of the current number lies between
        there and `pos`, the end of what has been parsed. */
    ghost predicate InPlace(s: Option<Slice>, number: nat, current: nat, floor: nat, pos: nat) {
      s.Some? ==>
        && number <= current && s.value.start + s.value.len <= pos
        && (number < current ==> s.value.start + s.value.len <= floor)
        && (number == current ==> floor <= s.value.start)
    }

    ghost predicate Placed(current: nat, floor: nat, pos: nat)
      reads this
    {
      && floor <= pos <= buffer.Length
      && InPlace(uriHost, URI_HOST, current, floor, pos) && InPlace(locationPath, LOCATION_PATH, current, floor, pos)
      && InPlace(uriPath, URI_PATH, current, floor, pos) && InPlace(uriQuery, URI_QUERY, current, floor, pos)
      && InPlace(locationQuery, LOCATION_QUERY, current, floor, pos)
    }

    /** Going on to an option with another number starts a new stretch. */
    lemma NextNumber(current: nat, floor: nat, pos: nat, number: nat)
      requires Placed(current, floor, pos) && current <= number
      ensures Placed(number, if number == current then floor else pos, pos)
    {
    }

    // -------------------------------------------------------------------------
    // Merging
    // -------------------------------------------------------------------------

    /** memmove to a lower address. */
    method MoveDown(dst: nat, start: nat, len: nat)
      requires dst <= start && start + len <= buffer.Length
      modifies buffer
      ensures forall i :: 0 <= i < buffer.Length ==>
                buffer[i] == if dst <= i < dst + len then old(buffer[i - dst + start]) else old(buffer[i])
    {
      var i := 0;
      while i < len
        invariant 0 <= i <= len
        invariant forall k :: 0 <= k < buffer.Length ==>
                    buffer[k] == if dst <= k < dst + i then old(buffer[k - dst + start]) else old(buffer[k])
      {
        buffer[dst + i] := buffer[start + i];
        i := i + 1;
      }
    }

    /** coap_merge_multi_option: writes only between the end of the field and the end of
        the option. */
    method MergeMultiOption(field: Option<Slice>, start: nat, len: nat, separator: byte) returns (r: Slice)
      requires start + len <= buffer.Length
      requires field.Some? ==> field.value.start + field.value.len < start
      modifies buffer
      ensures r.start + r.len <= start + len && r.start >= if field.Some? && field.value.len > 0 then field.value.start else start
      ensures BytesAt(buffer[..], Some(r)) == Merged(BytesAt(old(buffer[..]), field), old(buffer[start..start + len]), separator)
      ensures forall i :: 0 <= i < buffer.Length && (i < r.start || i >= start + len) ==> buffer[i] == old(buffer[i])
    {
      ghost var before := buffer[..];
      if field.Some? && field.value.len > 0 {
        var dst, n := field.value.start, field.value.len;
        buffer[dst + n] := separator;
        MoveDown(dst + n + 1, start, len);
        r := Slice(dst, n + 1 + len);
        MergedBytes(before, buffer[..], dst, n, start, len, separator);
      } else {
        r := Slice(start, len);
      }
    }

    /** The strings of smaller numbers keep their bytes when only bytes from `floor` on are
        written, and those of greater numbers are not there yet. */
    lemma OthersKept(before: seq<byte>, number: nat, floor: nat, pos: nat)
      requires Placed(number, floor, pos) && |before| == buffer.Length
      requires forall i :: 0 <= i < floor ==> buffer[i] == before[i]
      ensures number != URI_HOST ==> BytesAt(buffer[..], uriHost) == BytesAt(before, uriHost)
      ensures number != LOCATION_PATH ==> BytesAt(buffer[..], locationPath) == BytesAt(before, locationPath)
      ensures number != URI_PATH ==> BytesAt(buffer[..], uriPath) == BytesAt(before, uriPath)
      ensures number != URI_QUERY ==> BytesAt(buffer[..], uriQuery) == BytesAt(before, uriQuery)
      ensures number != LOCATION_QUERY ==> BytesAt(buffer[..], locationQuery) == BytesAt(before, locationQuery)
    {
      hide BytesAt;
      NoneAt(before);
      NoneAt(buffer[..]);
      if number != URI_HOST { KeptBelow(before, uriHost, URI_HOST, number, floor, pos); }
      if number != LOCATION_PATH { KeptBelow(before, locationPath, LOCATION_PATH, number, floor, pos); }
      if number != URI_PATH { KeptBelow(before, uriPath, URI_PATH, number, floor, pos); }
      if number != URI_QUERY { KeptBelow(before, uriQuery, URI_QUERY, number, floor, pos); }
      if number != LOCATION_QUERY { KeptBelow(before, locationQuery, LOCATION_QUERY, number, floor, pos); }
    }

    lemma KeptBelow(before: seq<byte>, s: Option<Slice>, k: nat, number: nat, floor: nat, pos: nat)
      requires InPlace(s, k, number, floor, pos) && k != number && floor <= pos <= buffer.Length == |before|
      requires forall i :: 0 <= i < floor ==> buffer[i] == before[i]
      ensures BytesAt(buffer[..], s) == BytesAt(before, s)
    {
      if s.Some? { Untouched(before, buffer[..], s, floor); }
    }

    method StoreLocationPath(start: nat, len: nat, ghost floor: nat, ghost pos: nat)
      requires Placed(LOCATION_PATH, floor, pos) && pos < start && start + len <= buffer.Length
      modifies this`locationPath, buffer
      ensures Placed(LOCATION_PATH, floor, start + len)
      ensures View() == old(View()).(locationPath := Merged(old(View()).locationPath, old(buffer[start..start + len]), SLASH))
      ensures forall i :: start + len <= i < buffer.Length ==> buffer[i] == old(buffer[i])
    {
      hide Merged, BytesAt;
      ghost var before := buffer[..];
      var r := MergeMultiOption(locationPath, start, len, SLASH);
      OthersKept(before, LOCATION_PATH, floor, pos);
      locationPath := Some(r);
    }

    method StoreUriPath(start: nat, len: nat, ghost floor: nat, ghost pos: nat)
      requires Placed(URI_PATH, floor, pos) && pos < start && start + len <= buffer.Length
      modifies this`uriPath, buffer
      ensures Placed(URI_PATH, floor, start + len)
      ensures View() == old(View()).(uriPath := Merged(old(View()).uriPath, old(buffer[start..start + len]), SLASH))
      ensures forall i :: start + len <= i < buffer.Length ==> buffer[i] == old(buffer[i])
    {
      hide Merged, BytesAt;
      ghost var before := buffer[..];
      var r := MergeMultiOption(uriPath, start, len, SLASH);
      OthersKept(before, URI_PATH, floor, pos);
      uriPath := Some(r);
    }

    method StoreUriQuery(start: nat, len: nat, ghost floor: nat, ghost pos: nat)
      requires Placed(URI_QUERY, floor, pos) && pos < start && start + len <= buffer.Length
      modifies this`uriQuery, buffer
      ensures Placed(URI_QUERY, floor, start + len)
      ensures View() == old(View()).(uriQuery := Merged(old(View()).uriQuery, old(buffer[start..start + len]), AMPERSAND))
      ensures forall i :: start + len <= i < buffer.Length ==> buffer[i] == old(buffer[i])
    {
      hide Merged, BytesAt;
      ghost var before := buffer[..];
      var r := MergeMultiOption(uriQuery, start, len, AMPERSAND);
      OthersKept(before, URI_QUERY, floor, pos);
      uriQuery := Some(r);
    }

    method StoreLocationQuery(start: nat, len: nat, ghost floor: nat, ghost pos: nat)
      requires Placed(LOCATION_QUERY, floor, pos) && pos < start && start + len <= buffer.Length
      modifies this`locationQuery, buffer
      ensures Placed(LOCATION_QUERY, floor, start + len)
      ensures View() == old(View()).(locationQuery := Merged(old(View()).locationQuery, old(buffer[start..start + len]), AMPERSAND))
      ensures forall i :: start + len <= i < buffer.Length ==> buffer[i] == old(buffer[i])
    {
      hide Merged, BytesAt;
      ghost var before := buffer[..];
      var r := MergeMultiOption(locationQuery, start, len, AMPERSAND);
      OthersKept(before, LOCATION_QUERY, floor, pos);
      locationQuery := Some(r);
    }

    /** An option that is a string: its value is merged into the field, the bytes of the
        other strings and everything behind the option stay as they are. */
    method StoreString(number: nat, start: nat, len: nat, ghost floor: nat, ghost pos: nat)
      requires IsString(number) && Placed(number, floor, pos) && pos < start && start + len <= buffer.Length
      modifies this, buffer
      ensures Placed(number, floor, start + len) && payload == old(payload)
      ensures Stored(View()) == SetOption(old(View()), number, old(buffer[start..start + len]))
      ensures forall i :: start + len <= i < buffer.Length ==> buffer[i] == old(buffer[i])
    {
      hide Merged, BytesAt;
      if number == URI_HOST {
        uriHost := Some(Slice(start, len));
        WholeSlice(buffer[..], start, len);
        assert buffer[..][start..start + len] == buffer[start..start + len];
      } else {
        hide View, Placed;
        if number == LOCATION_PATH {
          StoreLocationPath(start, len, floor, pos);
        } else if number == URI_PATH {
          StoreUriPath(start, len, floor, pos);
        } else if number == URI_QUERY {
          StoreUriQuery(start, len, floor, pos);
        } else {
          StoreLocationQuery(start, len, floor, pos);
        }
      }
    }

    /** coap_parse_int_option. */
    method ParseInt(start: nat, len: nat) returns (value: nat)
      requires start + len <= buffer.Length
      ensures value == IntValue(buffer[start..start + len])
    {
      value := 0;
      var i := 0;
      while i < len
        invariant 0 <= i <= len && value == IntValue(buffer[start..start + i])
      {
        assert buffer[start..start + i + 1][..i] == buffer[start..start + i];
        value := (value * 256 + buffer[start + i]) % WORD;
        i := i + 1;
      }
    }

    /** The first bytes of a value, at most eight. */
    method CopyShort(start: nat, len: nat) returns (value: seq<byte>)
      requires start + len <= buffer.Length
      ensures value == Limited(buffer[start..start + len])
    {
      var n := if len < COAP_ETAG_LEN then len else COAP_ETAG_LEN;
      value := buffer[start..start + n];
    }

    /** An option that is not a string; the result is 0 or an error code. */
    method StoreScalar(number: nat, start: nat, len: nat) returns (code: nat)
      requires !IsString(number) && start + len <= buffer.Length
      modifies this`fields
      ensures match SetOption(old(View()), number, buffer[start..start + len])
              case Rejected(c) => code == c && code != 0
              case Stored(m) => code == 0 && View() == m
    {
      hide IntValue, Limited, BlockOf, Accepted, BytesAt;
      code := 0;
      if number == ETAG || number == TOKEN || number == IF_MATCH {
        var value := CopyShort(start, len);
        if number == ETAG { fields := fields.(etag := Some(value)); }
        else if number == TOKEN { fields := fields.(token := Some(value)); }
        else { fields := fields.(ifMatch := Some(value)); }
      } else if number == ACCEPT {
        AcceptValue(start, len);
      } else if number == IF_NONE_MATCH {
        fields := fields.(ifNoneMatch := true);
      } else if number == PROXY_URI {
        code := PROXYING_NOT_SUPPORTED_5_05;
      } else if number == CONTENT_TYPE || number == MAX_AGE || number == URI_PORT || number == OBSERVE || number == SIZE {
        var value := ParseInt(start, len);
        if number == CONTENT_TYPE { fields := fields.(contentType := Some(value)); }
        else if number == MAX_AGE { fields := fields.(maxAge := Some(value)); }
        else if number == URI_PORT { fields := fields.(uriPort := Some(value % 0x1_0000)); }
        else if number == OBSERVE { fields := fields.(observe := Some(value % 0x1_0000)); }
        else { fields := fields.(size := Some(value)); }
      } else if number == BLOCK2 || number == BLOCK1 {
        var value := ParseInt(start, len);
        if number == BLOCK2 { fields := fields.(block2 := Some(BlockOf(value))); }
        else { fields := fields.(block1 := Some(BlockOf(value))); }
      } else if number % 2 == 1 {
        code := BAD_OPTION_4_02;
      }
    }

    /** One more accepted type, if there is room for it. */
    method AcceptValue(start: nat, len: nat)
      requires start + len <= buffer.Length
      modifies this`fields
      ensures fields == old(fields).(accept := Accepted(old(fields).accept, buffer[start..start + len]))
    {
      var values := if fields.accept.Some? then fields.accept.value else [];
      if |values| < COAP_MAX_ACCEPT_NUM {
        var value := ParseInt(start, len);
        values := values + [value % 0x1_0000];
      }
      fields := fields.(accept := Some(values));
    }

    // -------------------------------------------------------------------------
    // The option loop
    // -------------------------------------------------------------------------

    /** Jump, header and length of the option at `pos`. */
    method ReadNext(pos: nat, current: nat) returns (f: Found)
      requires pos <= buffer.Length
      ensures f == ReadOption(buffer[pos..], current)
    {
      hide ReadExtended;
      ghost var s := buffer[pos..];
      if pos == buffer.Length {
        return Overrun;
      }
      var p, number := pos, current;
      if buffer[p] == TERMINATOR {
        return End;
      } else if buffer[p] == JUMP_ONE {
        number, p := number + 15, p + 1;
      } else if buffer[p] == JUMP_TWO {
        if p + 2 > buffer.Length { return Overrun; }
        number, p := number + (buffer[p + 1] as int + 2) * 8, p + 2;
      } else if buffer[p] == JUMP_THREE {
        if p + 3 > buffer.Length { return Overrun; }
        number, p := number + (Wide(buffer[p + 1], buffer[p + 2]) + 258) * 8, p + 3;
      }
      assert ReadOption(s, current) == ReadHeader(s, p - pos, number);
      f := ReadLength(pos, p, number);
    }

    method ReadLength(pos: nat, at: nat, current: nat) returns (f: Found)
      requires pos <= at <= buffer.Length
      ensures f == ReadHeader(buffer[pos..], at - pos, current)
    {
      ghost var s := buffer[pos..];
      if at == buffer.Length {
        return Overrun;
      }
      var number, len, p := current + buffer[at] / 16, buffer[at] as int % 16, at + 1;
      if len == 15 {
        while p < buffer.Length && buffer[p] == 255
          invariant at < p <= buffer.Length && len >= 0
          invariant ReadExtended(s, len, p - pos, number) == ReadExtended(s, 15, at + 1 - pos, number)
        {
          len := len + 255;
          p := p + 1;
        }
        if p == buffer.Length {
          return Overrun;
        }
        len := len + buffer[p];
        p := p + 1;
      }
      f := if p + len > buffer.Length then Overrun else Entry(number, p - pos, len);
    }

    /** One option is stored: a string in place, anything else as a value. */
    method Store(number: nat, start: nat, len: nat, ghost floor: nat, ghost pos: nat) returns (code: nat)
      requires Placed(number, floor, pos) && pos < start && start + len <= buffer.Length
      modifies this, buffer
      ensures Placed(number, floor, start + len) && payload == old(payload)
      ensures match SetOption(old(View()), number, old(buffer[start..start + len]))
              case Rejected(c) => code == c && code != 0
              case Stored(m) => code == 0 && View() == m
      ensures forall i :: start + len <= i < buffer.Length ==> buffer[i] == old(buffer[i])
    {
      hide View, SetOption;
      if IsString(number) {
        StoreString(number, start, len, floor, pos);
        code := 0;
      } else {
        code := StoreScalar(number, start, len);
        Farther(number, floor, pos, start + len);
      }
    }

    lemma Farther(current: nat, floor: nat, pos: nat, next: nat)
      requires Placed(current, floor, pos) && pos <= next <= buffer.Length
      ensures Placed(current, floor, next)
    {
    }

    /** coap_parse_message: leaves the message that the bytes encode, though strings are
        merged in the same bytes; nothing from the payload on is written but the zero
        behind it. */
    method Parse(length: nat) returns (r: Status)
      requires NoStrings()
      modifies this, buffer
      ensures match CoapMessage.Parse(old(buffer[..]), length)
              case Outside => r == PastBuffer
              case Error(code) => r == Refused(code)
              case Ok(m) =>
                && r == Parsed && payload.start + payload.len < buffer.Length
                && View().(payload := buffer[payload.start..payload.start + payload.len]) == m
                && buffer[payload.start + payload.len] == 0
                && forall i :: payload.start <= i < buffer.Length && i != payload.start + payload.len ==> buffer[i] == old(buffer[i])
    {
      hide ParseOptions;
      if buffer.Length < COAP_HEADER_LEN {
        return PastBuffer;
      }
      if buffer[0] / 64 != 1 {
        return Refused(BAD_REQUEST_4_00);
      }
      var count := buffer[0] as int % 16;
      fields := Empty(buffer[0] as int / 16 % 4, buffer[1], Wide(buffer[2], buffer[3]));
      assert View() == fields;
      ghost var mem := buffer[..];
      var pos;
      r, pos := OptionLoop(count);
      if r != Parsed {
        return;
      }
      var n := PayloadLength(length, pos);
      if pos + n >= buffer.Length {
        return PastBuffer;
      }
      payload := Slice(pos, n);
      TerminatePayload(pos, n);
    }

    /** Zero behind the payload. */
    method TerminatePayload(pos: nat, n: nat)
      requires pos + n < buffer.Length && EndBy(pos)
      modifies buffer
      ensures View() == old(View()) && buffer[pos + n] == 0
      ensures forall i :: pos <= i < buffer.Length && i != pos + n ==> buffer[i] == old(buffer[i])
    {
      hide BytesAt;
      ghost var before := buffer[..];
      buffer[pos + n] := 0;
      NoneAt(before);
      NoneAt(buffer[..]);
      if uriHost.Some? { Untouched(before, buffer[..], uriHost, pos); }
      if locationPath.Some? { Untouched(before, buffer[..], locationPath, pos); }
      if uriPath.Some? { Untouched(before, buffer[..], uriPath, pos); }
      if uriQuery.Some? { Untouched(before, buffer[..], uriQuery, pos); }
      if locationQuery.Some? { Untouched(before, buffer[..], locationQuery, pos); }
    }

    ghost predicate EndsBy(s: Option<Slice>, pos: nat) {
      s.Some? ==> s.value.start + s.value.len <= pos
    }

    /** Every string ends before `pos`. */
    ghost predicate EndBy(pos: nat)
      reads this
    {
      EndsBy(uriHost, pos) && EndsBy(locationPath, pos) && EndsBy(uriPath, pos) && EndsBy(uriQuery, pos) && EndsBy(locationQuery, pos)
    }

    /** One turn of the option loop: `stop` with its reason, or the next option. */
    method NextOption(pos: nat, current: nat, ghost floor: nat)
      returns (stop: bool, r: Status, next: nat, number: nat, ghost nextFloor: nat)
      requires Placed(current, floor, pos)
      modifies this, buffer
      ensures match ReadOption(old(buffer[pos..]), current)
              case Overrun => stop && r == PastBuffer
              case End => stop && r == Parsed && View() == old(View()) && Placed(current, floor, pos) && buffer[..] == old(buffer[..])
              case Entry(n, head, len) =>
                && pos + head + len <= buffer.Length
                && match SetOption(old(View()), n, old(buffer[pos + head..pos + head + len]))
                   case Rejected(code) => stop && r == Refused(code)
                   case Stored(m) =>
                     && !stop && number == n && next == pos + head + len && View() == m
                     && Placed(number, nextFloor, next) && buffer[next..] == old(buffer[next..])
    {
      hide View, ReadOption, SetOption, Placed;
      UnfoldPlaced(current, floor, pos);
      var f := ReadNext(pos, current);
      FoundInBounds(buffer[pos..], current);
      stop, r, next, number, nextFloor := true, Parsed, pos, current, floor;
      match f {
        case Overrun => r := PastBuffer;
        case End =>
        case Entry(n, head, len) =>
          NextNumber(current, floor, pos, n);
          nextFloor := if n == current then floor else pos;
          var code := Store(n, pos + head, len, nextFloor, pos);
          if code != 0 {
            r := Refused(code);
          } else {
            stop, next, number := false, pos + head + len, n;
          }
      }
    }

    lemma UnfoldPlaced(current: nat, floor: nat, pos: nat)
      requires Placed(current, floor, pos)
      ensures floor <= pos <= buffer.Length && EndBy(pos)
    {
    }

    /** The options, from the first byte behind the header. */
    method OptionLoop(count: nat) returns (r: Status, pos: nat)
      requires NoStrings() && buffer.Length >= COAP_HEADER_LEN
      modifies this, buffer
      ensures match ParseOptions(old(buffer[COAP_HEADER_LEN..]), count, count != 15, 0, old(View()))
              case OutOfBytes => r == PastBuffer
              case Failed(code) => r == Refused(code)
              case Done(m, rest) =>
                && r == Parsed && pos <= buffer.Length && View() == m && buffer[pos..] == rest
                && EndBy(pos)
                && buffer[pos..] == old(buffer[pos..])
    {
      hide View, ReadOption, SetOption, ParseOptions, Placed;
      ghost var before, goal := buffer[..], ParseOptions(buffer[COAP_HEADER_LEN..], count, count != 15, 0, View());
      pos := COAP_HEADER_LEN;
      var index, current := 0, 0;
      ghost var floor := COAP_HEADER_LEN;
      StartPlaced();
      UnfoldPlaced(current, floor, pos);
      while index < count || count == 15
        invariant COAP_HEADER_LEN <= pos <= buffer.Length && (count != 15 ==> index <= count)
        invariant Placed(current, floor, pos) && buffer[pos..] == before[pos..]
        invariant goal == ParseOptions(buffer[pos..], Left(count, index), count != 15, current, View())
        decreases buffer.Length - pos
      {
        UnfoldParseOptions(buffer[pos..], Left(count, index), count != 15, current, View());
        ghost var s := buffer[pos..];
        ghost var f := ReadOption(s, current);
        FoundInBounds(s, current);
        if f.Entry? { SuffixSlice(pos, f.head, f.len); }
        var stop, reason, next, number;
        ghost var nextFloor;
        stop, reason, next, number, nextFloor := NextOption(pos, current, floor);
        if stop {
          UnfoldPlacedIf(current, floor, pos);
          return reason, pos;
        }
        pos, current, floor := next, number, nextFloor;
        UnfoldPlaced(current, floor, pos);
        index := index + 1;
      }
      UnfoldParseOptions(buffer[pos..], Left(count, index), count != 15, current, View());
      UnfoldPlaced(current, floor, pos);
      r := Parsed;
    }

    lemma UnfoldPlacedIf(current: nat, floor: nat, pos: nat)
      ensures Placed(current, floor, pos) ==> floor <= pos <= buffer.Length && EndBy(pos)
    {
    }

    lemma SuffixSlice(pos: nat, head: nat, len: nat)
      requires pos + head + len <= buffer.Length
      ensures buffer[pos..][head..head + len] == buffer[pos + head..pos + head + len]
      ensures buffer[pos..][head + len..] == buffer[pos + head + len..]
    {
    }

    lemma StartPlaced()
      requires NoStrings() && buffer.Length >= COAP_HEADER_LEN
      ensures Placed(0, COAP_HEADER_LEN, COAP_HEADER_LEN)
    {
    }
  }

  /** Options that are left to parse, without meaning when they go on to the terminator. */
  function Left(count: nat, index: nat): nat {
    if index < count then count - index else 0
  }

  lemma NoneAt(mem: seq<byte>)
    ensures BytesAt(mem, None) == None
  {
  }

  lemma WholeSlice(mem: seq<byte>, start: nat, len: nat)
    requires start + len <= |mem|
    ensures BytesAt(mem, Some(Slice(start, len))) == Some(mem[start..start + len])
  {
  }

  lemma MergedBytes(before: seq<byte>, after: seq<byte>, dst: nat, n: nat, start: nat, len: nat, separator: byte)
    requires |before| == |after| && dst + n < start && start + len <= |before|
    requires forall i :: dst <= i < dst + n ==> after[i] == before[i]
    requires after[dst + n] == separator
    requires forall i :: dst + n + 1 <= i < dst + n + 1 + len ==> after[i] == before[i - (dst + n + 1) + start]
    ensures after[dst..dst + n + 1 + len] == before[dst..dst + n] + [separator] + before[start..start + len]
  {
  }
}
