/**
 Blockwise rendering of the resource directory: the handler of /.well-known/core writes
 a window of the link-format string into a small buffer, the engine trims what it
 wrote to one block, and a client puts the blocks together again.
 */
module WellKnownCore {
  import opened Wrappers
  import CoapValues

  const REST_MAX_CHUNK_SIZE: nat := 128

  /** `attributes` is empty for a resource without attributes. */
  datatype Resource = Resource(url: string, attributes: string)

  function Attributes(r: Resource): string {
    if r.attributes == "" then "" else ";" + r.attributes
  }

  function Link(r: Resource): string {
    "</" + r.url + ">" + Attributes(r)
  }

  /** The link-format string of all resources. */
  function Full(rs: seq<Resource>): string {
    if rs == [] then ""
    else Full(rs[..|rs| - 1]) + Separator(|rs| - 1) + Link(rs[|rs| - 1])
  }

  function Separator(before: nat): string {
    if before == 0 then "" else ","
  }

  /** Bytes `offset` to `offset + size` of a string, as far as it goes. */
  function Slice<T>(s: seq<T>, offset: nat, size: nat): (r: seq<T>)
    ensures |r| == if |s| <= offset then 0 else if |s| <= offset + size then |s| - offset else size
    ensures forall i :: 0 <= i < |r| ==> r[i] == s[offset + i]
  {
    if |s| <= offset then [] else if |s| <= offset + size then s[offset..] else s[offset..offset + size]
  }

  /** Whether the handler reports the end of the string. */
  predicate ReportsEnd(rs: seq<Resource>, offset: nat, size: nat) {
    |Full(rs)| < offset + size || (|Full(rs)| == offset + size && rs != [] && rs[|rs| - 1].attributes == "")
  }

  // ---------------------------------------------------------------------------
  // The handler
  // ---------------------------------------------------------------------------

  /** The buffer holds the window of the text rendered so far. */
  ghost predicate Window(buffer: array<char>, bufpos: nat, text: string, offset: nat, size: nat)
    reads buffer
  {
    && bufpos <= size < buffer.Length && bufpos == |Slice(text, offset, size)|
    && buffer[..bufpos] == Slice(text, offset, size)
  }

  /** One character, if it falls into the window. */
  method PutChar(buffer: array<char>, strpos: nat, bufpos: nat, c: char, offset: nat, size: nat, ghost text: string)
    returns (newpos: nat)
    requires Window(buffer, bufpos, text, offset, size) && strpos == |text|
    modifies buffer
    ensures Window(buffer, newpos, text + [c], offset, size)
    ensures forall i :: size < i < buffer.Length ==> buffer[i] == old(buffer[i])
  {
    newpos := bufpos;
    if strpos >= offset && bufpos < size {
      buffer[bufpos] := c;
      newpos := bufpos + 1;
    }
    ghost var now := Slice(text + [c], offset, size);
    assert |now| == newpos;
    assert forall i :: 0 <= i < newpos ==> buffer[i] == now[i];
  }

  /** snprintf of "%s": writes what fits and a terminator, and returns the length that
      was asked for. */
  method Print(buffer: array<char>, at: nat, s: string, size: nat) returns (n: nat)
    requires at <= size < buffer.Length
    modifies buffer
    ensures n == |s|
    ensures var k := if |s| <= size - at then |s| else size - at;
            buffer[at..at + k] == s[..k]
    ensures forall i :: 0 <= i < at || size < i < buffer.Length ==> buffer[i] == old(buffer[i])
  {
    var k := if |s| <= size - at then |s| else size - at;
    var i := 0;
    while i < k
      invariant 0 <= i <= k && buffer[at..at + i] == s[..i]
      invariant forall j :: 0 <= j < at || size < j < buffer.Length ==> buffer[j] == old(buffer[j])
    {
      buffer[at + i] := s[i];
      i := i + 1;
    }
    buffer[at + k] := '\0';
    n := |s|;
  }

  /** A url or attribute string, from the first character in the window; `full` stops
      the rendering. */
  method PutString(buffer: array<char>, strpos: nat, bufpos: nat, s: string, offset: nat, size: nat, ghost text: string)
    returns (newpos: nat, full: bool)
    requires 0 < size && Window(buffer, bufpos, text, offset, size) && strpos == |text|
    modifies buffer
    ensures full <==> |text + s| > offset && |text + s| >= offset + size
    ensures full ==> newpos >= size && buffer[..size] == Slice(text + s, offset, size)
    ensures !full ==> Window(buffer, newpos, text + s, offset, size) && newpos < size
    ensures forall i :: size < i < buffer.Length ==> buffer[i] == old(buffer[i])
  {
    hide Slice;
    newpos, full := bufpos, false;
    ghost var now := Slice(text + s, offset, size);
    if strpos + |s| > offset {
      var skip := if offset > strpos then offset - strpos else 0;
      var n := Print(buffer, bufpos, s[skip..], size);
      newpos := bufpos + n;
      full := newpos >= size;
      ghost var k := if newpos <= size then newpos else size;
      assert |now| == k;
      forall i | 0 <= i < k ensures buffer[i] == now[i] {
        SliceExtends(text, s, offset, size, i);
        if i >= bufpos {
          assert buffer[i] == buffer[bufpos..k][i - bufpos];
          assert s[skip..][i - bufpos] == s[skip + (i - bufpos)];
        } else {
          assert buffer[i] == buffer[..bufpos][i];
        }
      }
    }
  }

  /** The window of a longer text: what was there, and then what is added. */
  lemma SliceExtends(text: string, s: string, offset: nat, size: nat, i: nat)
    requires i < |Slice(text + s, offset, size)|
    ensures var old_ := Slice(text, offset, size);
            var skip := if offset > |text| then offset - |text| else 0;
            if i < |old_| then Slice(text + s, offset, size)[i] == old_[i]
            else skip + (i - |old_|) < |s| && Slice(text + s, offset, size)[i] == s[skip + (i - |old_|)]
  {
  }

  /** The text after one more resource. */
  function Extended(text: string, r: Resource): string {
    text + Separator(|text|) + Link(r)
  }

  function UrlPart(text: string, r: Resource): string {
    text + Separator(|text|) + "</" + r.url
  }

  /** Separator, opening and url of a resource. */
  method RenderUrl(buffer: array<char>, r: Resource, strpos0: nat, bufpos0: nat, offset: nat, size: nat, ghost text: string)
    returns (strpos: nat, bufpos: nat, full: bool)
    requires 0 < size && Window(buffer, bufpos0, text, offset, size) && strpos0 == |text|
    modifies buffer
    ensures var now := UrlPart(text, r);
            && (full <==> |now| > offset && |now| >= offset + size)
            && if full then bufpos >= size && buffer[..size] == Slice(now, offset, size)
               else Window(buffer, bufpos, now, offset, size) && strpos == |now|
    ensures strpos > 0
    ensures forall i :: size < i < buffer.Length ==> buffer[i] == old(buffer[i])
  {
    hide Window, Slice;
    strpos, bufpos := strpos0, bufpos0;
    ghost var t := text;
    if strpos > 0 {
      bufpos := PutChar(buffer, strpos, bufpos, ',', offset, size, t);
      strpos := strpos + 1;
      t := t + [','];
    }
    assert t == text + Separator(|text|);
    bufpos := PutChar(buffer, strpos, bufpos, '<', offset, size, t);
    strpos := strpos + 1;
    t := t + ['<'];
    bufpos := PutChar(buffer, strpos, bufpos, '/', offset, size, t);
    strpos := strpos + 1;
    t := t + ['/'];
    assert UrlPart(text, r) == t + r.url;
    bufpos, full := PutString(buffer, strpos, bufpos, r.url, offset, size, t);
    if !full {
      strpos := strpos + |r.url|;
    }
  }

  /** The attributes of a resource, if it has any. */
  method RenderAttributes(buffer: array<char>, r: Resource, strpos0: nat, bufpos0: nat, offset: nat, size: nat, ghost text: string)
    returns (strpos: nat, bufpos: nat, full: bool)
    requires 0 < size && Window(buffer, bufpos0, text, offset, size) && strpos0 == |text|
    modifies buffer
    ensures var now := text + Attributes(r);
            && (full <==> r.attributes != "" && |now| > offset && |now| >= offset + size)
            && if full then bufpos >= size && buffer[..size] == Slice(now, offset, size)
               else Window(buffer, bufpos, now, offset, size) && strpos == |now|
    ensures strpos >= strpos0
    ensures forall i :: size < i < buffer.Length ==> buffer[i] == old(buffer[i])
  {
    hide Window, Slice;
    strpos, bufpos, full := strpos0, bufpos0, false;
    if r.attributes != "" {
      bufpos := PutChar(buffer, strpos, bufpos, ';', offset, size, text);
      strpos := strpos + 1;
      assert (text + [';']) + r.attributes == text + Attributes(r);
      bufpos, full := PutString(buffer, strpos, bufpos, r.attributes, offset, size, text + [';']);
      if !full {
        strpos := strpos + |r.attributes|;
      }
    } else {
      assert text + Attributes(r) == text;
    }
  }

  /** The body of the handler's loop. The rendering stops when the window is full and
      something was left out, or may have been: a url or attribute string that ends
      exactly with the window counts as left out. */
  method RenderResource(buffer: array<char>, r: Resource, strpos0: nat, bufpos0: nat, offset: nat, size: nat, ghost text: string)
    returns (strpos: nat, bufpos: nat, stop: bool)
    requires 0 < size && Window(buffer, bufpos0, text, offset, size) && strpos0 == |text|
    modifies buffer
    ensures var all := Extended(text, r);
            if stop then
              && bufpos >= size && buffer[..size] == Slice(all, offset, size)
              && |all| >= offset + size && (|all| == offset + size ==> r.attributes != "")
            else
              && Window(buffer, bufpos, all, offset, size) && strpos == |all|
              && |all| <= offset + size && (|all| == offset + size ==> r.attributes == "")
    ensures strpos > 0
    ensures forall i :: size < i < buffer.Length ==> buffer[i] == old(buffer[i])
  {
    hide Window;
    ghost var all := Extended(text, r);
    ghost var t := UrlPart(text, r);
    assert all == t + (">" + Attributes(r)) && all == (t + ['>']) + Attributes(r);
    strpos, bufpos, stop := RenderUrl(buffer, r, strpos0, bufpos0, offset, size, text);
    if stop {
      SlicePrefix(t, ">" + Attributes(r), offset, size);
      return;
    }
    bufpos := PutChar(buffer, strpos, bufpos, '>', offset, size, t);
    strpos := strpos + 1;
    strpos, bufpos, stop := RenderAttributes(buffer, r, strpos, bufpos, offset, size, t + ['>']);
    if stop {
      return;
    }
    WindowLength(buffer, bufpos, all, offset, size);
    stop := bufpos >= size && strpos - bufpos > offset;
  }

  lemma WindowLength(buffer: array<char>, bufpos: nat, text: string, offset: nat, size: nat)
    requires Window(buffer, bufpos, text, offset, size)
    ensures bufpos == |Slice(text, offset, size)| && buffer[..bufpos] == Slice(text, offset, size)
    ensures bufpos == size ==> buffer[..size] == Slice(text, offset, size)
  {
  }

  /** A full window does not depend on what follows. */
  lemma SlicePrefix(a: string, b: string, offset: nat, size: nat)
    requires |a| >= offset + size && 0 < size
    ensures Slice(a + b, offset, size) == Slice(a, offset, size)
  {
  }

  /** More resources make a longer string that starts the same way. */
  lemma {:induction false} FullExtends(rs: seq<Resource>, k: nat)
    requires k <= |rs|
    ensures Full(rs[..k]) <= Full(rs) && (k < |rs| ==> |Full(rs[..k])| < |Full(rs)|)
    decreases |rs| - k
  {
    if k == |rs| {
      assert rs[..k] == rs;
    } else {
      FullExtends(rs, k + 1);
      FullStep(rs, k);
    }
  }

  lemma FullStep(rs: seq<Resource>, k: nat)
    requires k < |rs|
    ensures Full(rs[..k + 1]) == Extended(Full(rs[..k]), rs[k])
  {
    assert rs[..k + 1][..k] == rs[..k];
    FullIsEmpty(rs[..k]);
  }

  lemma FullIsEmpty(rs: seq<Resource>)
    ensures |Full(rs)| == 0 <==> rs == []
  {
  }

  /** well_known_core_handler without filtering: the length of the payload it sets,
      the length of the text it went through, and the new offset. */
  method Render(rs: seq<Resource>, buffer: array<char>, size: nat, offset: nat) returns (written: nat, length: nat, next: int)
    requires 0 < size < buffer.Length
    modifies buffer
    ensures var block := Slice(Full(rs), offset, size);
            && |block| == (if written <= size then written else size) && buffer[..|block|] == block
    ensures length > 0 <==> rs != []
    ensures next == if ReportsEnd(rs, offset, size) then -1 else offset + size
    ensures written > size ==> next != -1
    ensures forall i :: size < i < buffer.Length ==> buffer[i] == old(buffer[i])
  {
    hide Full, Extended;
    var bufpos, strpos, more := 0, 0, false;
    var i := 0;
    EmptyWindow(buffer, offset, size);
    while i < |rs|
      invariant 0 <= i <= |rs| && (strpos > 0 <==> i > 0)
      invariant strpos == |Full(rs[..i])| && Window(buffer, bufpos, Full(rs[..i]), offset, size)
      invariant strpos <= offset + size && (strpos == offset + size ==> i > 0 && rs[i - 1].attributes == "")
      invariant forall j :: size < j < buffer.Length ==> buffer[j] == old(buffer[j])
    {
      FullStep(rs, i);
      strpos, bufpos, more := RenderResource(buffer, rs[i], strpos, bufpos, offset, size, Full(rs[..i]));
      if more {
        Stopped(rs, i, offset, size);
        return bufpos, strpos, offset + size;
      }
      i := i + 1;
    }
    assert rs[..i] == rs;
    return bufpos, strpos, -1;
  }

  lemma EmptyWindow(buffer: array<char>, offset: nat, size: nat)
    requires size < buffer.Length
    ensures Full([]) == "" && Window(buffer, 0, "", offset, size)
  {
  }

  /** Stopping at a resource: the window is that of the whole string, and the end is
      not reported. */
  lemma Stopped(rs: seq<Resource>, i: nat, offset: nat, size: nat)
    requires i < |rs| && 0 < size
    requires var all := Extended(Full(rs[..i]), rs[i]);
             |all| >= offset + size && (|all| == offset + size ==> rs[i].attributes != "")
    ensures Slice(Extended(Full(rs[..i]), rs[i]), offset, size) == Slice(Full(rs), offset, size)
    ensures !ReportsEnd(rs, offset, size)
  {
    hide Full, Extended;
    FullStep(rs, i);
    FullExtends(rs, i + 1);
    var all, full := Full(rs[..i + 1]), Full(rs);
    SlicePrefix(all, full[|all|..], offset, size);
    assert full == all + full[|all|..];
  }

  // ---------------------------------------------------------------------------
  // Trimming by the engine
  // ---------------------------------------------------------------------------

  function Min(a: nat, b: nat): nat {
    if a < b then a else b
  }

  const MAX_BLOCK_NUM: nat := 0xF_FFFF

  /** The block that a request asks for. */
  datatype Request = Request(num: nat, size: nat, offset: nat)

  datatype Block2 = Block2(num: nat, more: bool, size: nat)

  /** What is sent for a GET; `inScope` is false for the error answer. */
  datatype Response = Response(payload: string, block2: Option<Block2>, inScope: bool)

  function BlockRequest(num: nat, size: nat): Request {
    Request(num, size, num * size)
  }

  /** coap_set_header_block2. */
  function Label(num: nat, more: bool, size: nat): Option<Block2> {
    if 16 <= size <= 2048 && num <= MAX_BLOCK_NUM then Some(Block2(num, more, size)) else None
  }

  /** coap_receive after a handler has set `payload` and left the offset `next`. Only the
      size of a request is cut to a chunk; its offset stays. */
  function Trim(payload: string, next: int, asked: Option<Request>): Response {
    match asked
    case Some(b) =>
      var size := Min(b.size, REST_MAX_CHUNK_SIZE);
      if next == b.offset then
        if b.offset >= |payload| then Response("BlockOutOfScope", None, false)
        else Response(Slice(payload, b.offset, size), Label(b.num, |payload| - b.offset > size, size), true)
      else Response(Slice(payload, 0, size), Label(b.num, next != -1 || |payload| > size, size), true)
    case None =>
      if next != 0 then
        Response(Slice(payload, 0, REST_MAX_CHUNK_SIZE), Label(0, next != -1, REST_MAX_CHUNK_SIZE), true)
      else Response(payload, None, true)
  }

  /** Requests with an offset that the handler's signed counter holds. */
  predicate ValidRequest(b: Request) {
    16 <= b.size && b.offset < 0x8000_0000
  }

  /** The size that is served. */
  function AskedSize(asked: Option<Request>): nat {
    if asked.Some? then Min(asked.value.size, REST_MAX_CHUNK_SIZE) else REST_MAX_CHUNK_SIZE
  }

  function AskedOffset(asked: Option<Request>): nat {
    if asked.Some? then asked.value.offset else 0
  }

  function AskedNum(asked: Option<Request>): nat {
    if asked.Some? then asked.value.num else 0
  }

  /** The answer to a request for the directory: a slice of the full string, or an
      error behind its end. */
  function Served(rs: seq<Resource>, asked: Option<Request>): Response {
    var size, offset := AskedSize(asked), AskedOffset(asked);
    var block := Slice(Full(rs), offset, size);
    if block == "" && rs != [] then Response("BlockOutOfScope", Label(AskedNum(asked), false, size), false)
    else Response(block, Label(AskedNum(asked), !ReportsEnd(rs, offset, size), size), true)
  }

  /** A request for the directory, through the handler and the trimming. */
  method Serve(rs: seq<Resource>, asked: Option<Request>) returns (r: Response)
    requires asked.Some? ==> ValidRequest(asked.value)
    ensures r == Served(rs, asked)
  {
    hide Full, ReportsEnd, Trim;
    var size, offset := AskedSize(asked), AskedOffset(asked);
    var buffer := new char[REST_MAX_CHUNK_SIZE + 1](_ => '\0');
    var written, length, next := Render(rs, buffer, size, offset);
    ghost var block := Slice(Full(rs), offset, size);
    if written > 0 {
      var payload := SetPayload(buffer[..Min(written, REST_MAX_CHUNK_SIZE)]);
      assert payload[..|block|] == block;
      assert |payload| <= size ==> payload == block;
      r := Trim(payload, next, asked);
      TrimAware(payload, next, asked);
      assert Slice(payload, 0, size) == block;
    } else if length > 0 {
      OutOfScope(rs, offset, size);
      r := Trim("BlockOutOfScope", next, asked).(inScope := false);
      TrimAware("BlockOutOfScope", next, asked);
    } else {
      EmptyDirectory(offset, size);
      r := Trim("", next, asked);
      TrimAware("", next, asked);
    }
  }

  /** coap_set_payload: of a longer payload the first chunk is kept. */
  function SetPayload(payload: string): string {
    Slice(payload, 0, REST_MAX_CHUNK_SIZE)
  }

  /** Trimming what a handler that moves the offset has set. */
  lemma TrimAware(payload: string, next: int, asked: Option<Request>)
    requires asked.Some? ==> ValidRequest(asked.value)
    requires next == -1 || next == AskedOffset(asked) + AskedSize(asked)
    requires |payload| > AskedSize(asked) ==> next != -1 || asked.None?
    ensures var size := AskedSize(asked);
            Trim(payload, next, asked)
            == Response(Slice(payload, 0, size), Label(AskedNum(asked), next != -1, size), true)
  {
  }

  lemma OutOfScope(rs: seq<Resource>, offset: nat, size: nat)
    requires 0 < size && rs != [] && |Slice(Full(rs), offset, size)| == 0
    ensures ReportsEnd(rs, offset, size) && offset > 0
  {
    FullIsEmpty(rs);
  }

  lemma EmptyDirectory(offset: nat, size: nat)
    requires 0 < size
    ensures ReportsEnd([], offset, size) && Slice(Full([]), offset, size) == ""
  {
  }

  // ---------------------------------------------------------------------------
  // Whole transfers
  // ---------------------------------------------------------------------------

  function BlockOf(rs: seq<Resource>, n: nat, size: nat): Response {
    Served(rs, Some(BlockRequest(n, size)))
  }

  /** The payloads of the first `n` blocks. */
  function Transfer(rs: seq<Resource>, n: nat, size: nat): string {
    if n == 0 then "" else Transfer(rs, n - 1, size) + BlockOf(rs, n - 1, size).payload
  }

  lemma {:induction false} TransferPrefix(rs: seq<Resource>, n: nat, size: nat)
    requires 0 < size <= REST_MAX_CHUNK_SIZE && (n > 0 ==> (n - 1) * size < |Full(rs)|)
    ensures Transfer(rs, n, size) == Slice(Full(rs), 0, n * size)
  {
    hide Full, ReportsEnd;
    if n > 0 {
      Times(n - 1, size);
      TransferPrefix(rs, n - 1, size);
      var full, k := Full(rs), (n - 1) * size;
      assert BlockOf(rs, n - 1, size).payload == Slice(full, k, size);
      assert Slice(full, 0, k) + Slice(full, k, size) == Slice(full, 0, k + size);
    }
  }

  /** Blocks larger than a chunk leave gaps. */
  lemma {:induction false} TransferShort(rs: seq<Resource>, n: nat, size: nat)
    requires REST_MAX_CHUNK_SIZE < size && REST_MAX_CHUNK_SIZE < |Full(rs)| && 0 < n && (n - 1) * size < |Full(rs)|
    ensures |Transfer(rs, n, size)| < Min(|Full(rs)|, n * size)
  {
    hide Full, ReportsEnd;
    Times(n - 1, size);
    assert BlockOf(rs, n - 1, size).payload == Slice(Full(rs), (n - 1) * size, REST_MAX_CHUNK_SIZE);
    if n == 1 {
      assert Transfer(rs, 0, size) == "";
    } else {
      Times(n - 2, size);
      TransferShort(rs, n - 1, size);
    }
  }

  lemma Times(n: nat, size: nat)
    ensures (n + 1) * size == n * size + size
    ensures n > 0 ==> n * size == (n - 1) * size + size && n * size >= size
    ensures n * size >= 0
  {
  }

  lemma {:induction false} TimesMonotone(n: nat, m: nat, size: nat)
    requires n < m
    ensures n * size + size <= m * size
    decreases m
  {
    Times(m - 1, size);
    if n + 1 < m {
      TimesMonotone(n, m - 1, size);
    }
  }

  /** A client that asks for block after block of one size gets the whole string exactly
      when the blocks, or the string, are no larger than a chunk. Every block before the
      last says that more follows; the last one does too when the string goes on behind
      what is sent of it, or ends there with an attribute. The next request is answered
      with an error. */
  lemma WholeTransfer(rs: seq<Resource>, blocks: nat, size: nat)
    requires 0 < size && 0 < blocks && (blocks - 1) * size < |Full(rs)| <= blocks * size
    ensures Transfer(rs, blocks, size) == Full(rs) <==> size <= REST_MAX_CHUNK_SIZE || |Full(rs)| <= REST_MAX_CHUNK_SIZE
    ensures var sent := Min(size, REST_MAX_CHUNK_SIZE);
            && (forall n :: 0 <= n < blocks - 1 ==> BlockOf(rs, n, size).block2 == Label(n, true, sent))
            && (forall n :: 0 <= n < blocks ==> BlockOf(rs, n, size).inScope)
            && rs != []
            && BlockOf(rs, blocks - 1, size).block2
               == Label(blocks - 1,
                        |Full(rs)| > (blocks - 1) * size + sent
                        || (|Full(rs)| == (blocks - 1) * size + sent && rs[|rs| - 1].attributes != ""), sent)
            && BlockOf(rs, blocks, size) == Response("BlockOutOfScope", Label(blocks, false, sent), false)
  {
    hide Full, Transfer;
    FullIsEmpty(rs);
    TransferExactly(rs, blocks, size);
    Times(blocks - 1, size);
    forall n | 0 <= n < blocks - 1
      ensures BlockOf(rs, n, size).block2 == Label(n, true, Min(size, REST_MAX_CHUNK_SIZE)) && BlockOf(rs, n, size).inScope
    {
      TimesMonotone(n, blocks - 1, size);
      assert |Slice(Full(rs), n * size, Min(size, REST_MAX_CHUNK_SIZE))| > 0;
    }
    assert |Slice(Full(rs), (blocks - 1) * size, Min(size, REST_MAX_CHUNK_SIZE))| > 0;
    assert |Slice(Full(rs), blocks * size, Min(size, REST_MAX_CHUNK_SIZE))| == 0;
  }

  lemma TransferExactly(rs: seq<Resource>, blocks: nat, size: nat)
    requires 0 < size && 0 < blocks && (blocks - 1) * size < |Full(rs)| <= blocks * size
    ensures Transfer(rs, blocks, size) == Full(rs) <==> size <= REST_MAX_CHUNK_SIZE || |Full(rs)| <= REST_MAX_CHUNK_SIZE
  {
    hide Full, ReportsEnd;
    Times(blocks - 1, size);
    if size <= REST_MAX_CHUNK_SIZE {
      TransferPrefix(rs, blocks, size);
    } else if |Full(rs)| > REST_MAX_CHUNK_SIZE {
      TransferShort(rs, blocks, size);
    } else {
      assert blocks == 1;
      assert Transfer(rs, 0, size) == "";
      assert BlockOf(rs, 0, size).payload == Slice(Full(rs), 0, REST_MAX_CHUNK_SIZE);
    }
  }

  /** A client that goes on with the size of the first answer gets the whole string,
      whatever size it asks for first. */
  lemma AdoptedSize(rs: seq<Resource>, blocks: nat, size: nat)
    requires 0 < size && 0 < blocks
    requires var sent := Min(size, REST_MAX_CHUNK_SIZE); (blocks - 1) * sent < |Full(rs)| <= blocks * sent
    ensures var sent := Min(size, REST_MAX_CHUNK_SIZE);
            && BlockOf(rs, 0, size) == BlockOf(rs, 0, sent)
            && (16 <= size ==> BlockOf(rs, 0, size).block2.Some? && BlockOf(rs, 0, size).block2.value.size == sent)
            && Transfer(rs, blocks, sent) == Full(rs)
  {
    hide Full, ReportsEnd;
    TransferExactly(rs, blocks, Min(size, REST_MAX_CHUNK_SIZE));
  }

  // ---------------------------------------------------------------------------
  // Labels
  // ---------------------------------------------------------------------------

  /** The request of a received Block2 value. */
  function Received(value: nat): Request {
    var b := CoapValues.BlockOf(value);
    Request(b.num, b.size, b.offset)
  }

  /** For every Block2 value that can be received: the answer has a label exactly when the
      number is one of 20 bits; the offset is then the place of the block asked for, and
      the label names the place of the payload exactly when the number is 0 or the block
      is no larger than a chunk. */
  lemma LabelExactly(rs: seq<Resource>, value: nat)
    ensures var q := Received(value);
            var r := Served(rs, Some(q));
            && 16 <= q.size <= 2048
            && (r.block2.Some? <==> q.num <= MAX_BLOCK_NUM)
            && (r.block2.Some? ==>
                  && ValidRequest(q) && q.offset == q.num * q.size && r.block2.value.num == q.num
                  && (r.block2.value.num * r.block2.value.size == q.offset <==> q.num == 0 || q.size <= REST_MAX_CHUNK_SIZE))
            && (r.inScope ==> r.payload == Slice(Full(rs), q.offset, Min(q.size, REST_MAX_CHUNK_SIZE)))
  {
    hide Full, ReportsEnd, CoapValues.PowerOf2;
    ReceivedFields(value);
    var q := Received(value);
    if q.num <= MAX_BLOCK_NUM {
      Scaled(q.num, Min(q.size, REST_MAX_CHUNK_SIZE), q.size);
    }
  }

  /** Sizes are 16 to 2048, and offsets do not wrap for numbers of 20 bits. */
  lemma ReceivedFields(value: nat)
    ensures var q := Received(value);
            && q.num == value / 16 && 16 <= q.size <= 2048 && q.offset == q.num * q.size % 0x1_0000_0000
            && (q.num <= MAX_BLOCK_NUM ==> q.offset == q.num * q.size < 0x8000_0000)
  {
    hide CoapValues.PowerOf2;
    var k := value % 8;
    Powers(k);
    CoapValues.Associate(value / 16, CoapValues.PowerOf2(k));
    if value / 16 <= MAX_BLOCK_NUM {
      Bounded(value / 16, 16 * CoapValues.PowerOf2(k));
    }
  }

  lemma {:induction false} Powers(k: nat)
    requires k < 8
    ensures 1 <= CoapValues.PowerOf2(k) <= 128
    decreases 8 - k
  {
    if k < 7 {
      Powers(k + 1);
    } else {
      assert CoapValues.PowerOf2(7) == 128;
    }
  }

  lemma Bounded(n: nat, size: nat)
    requires n <= MAX_BLOCK_NUM && size <= 2048
    ensures n * size < 0x8000_0000
  {
    TimesAtMost(n, MAX_BLOCK_NUM, size);
    TimesAtMost(size, 2048, MAX_BLOCK_NUM);
  }

  lemma {:induction false} TimesAtMost(a: nat, b: nat, c: nat)
    requires a <= b
    ensures a * c <= b * c
  {
  }

  lemma Scaled(n: nat, small: nat, large: nat)
    requires small <= large
    ensures n * small == n * large <==> n == 0 || small == large
  {
  }

  /** Block 1 of size 256 is answered with bytes 256 to 383, labelled as bytes 128 to 255;
      these are in no block of that size. */
  lemma SecondLargeBlock(rs: seq<Resource>)
    requires |Full(rs)| > 384
    ensures var r := BlockOf(rs, 1, 256);
            && r.payload == Full(rs)[256..384] && r.block2 == Some(Block2(1, true, 128)) && r.inScope
            && BlockOf(rs, 0, 256).payload == Full(rs)[..128]
            && BlockOf(rs, 1, 128).payload == Full(rs)[128..256]
            && BlockOf(rs, 1, 128).block2 == r.block2
  {
    hide Full;
  }

  /** A number of more than 20 bits, with an offset that wraps to 0, is answered with the
      first bytes and no label. */
  lemma WrappedRequest(rs: seq<Resource>)
    requires rs != []
    ensures var q := Received(0x8000_0007);
            q.num == 0x800_0000 && q.offset == 0
            && Served(rs, Some(q)) == Response(Slice(Full(rs), 0, REST_MAX_CHUNK_SIZE), None, true)
  {
    hide Full, ReportsEnd;
    assert CoapValues.PowerOf2(7) == 128;
    FullIsEmpty(rs);
  }

  // ---------------------------------------------------------------------------
  // Resources that do not know about blocks
  // ---------------------------------------------------------------------------

  /** The payloads of the first `n` blocks of a handler that always sets the same
      payload and leaves the offset alone. */
  function UnawareTransfer(payload: string, n: nat, size: nat): string {
    if n == 0 then ""
    else UnawareTransfer(payload, n - 1, size) + UnawareBlock(payload, n - 1, size).payload
  }

  function UnawareBlock(payload: string, n: nat, size: nat): Response {
    Trim(SetPayload(payload), n * size, Some(BlockRequest(n, size)))
  }

  lemma {:induction false} UnawarePrefix(payload: string, n: nat, size: nat)
    requires 0 < size && (n > 0 ==> (n - 1) * size < |SetPayload(payload)|)
    ensures UnawareTransfer(payload, n, size) == Slice(SetPayload(payload), 0, n * size)
  {
    if n > 0 {
      Times(n - 1, size);
      UnawarePrefix(payload, n - 1, size);
      var kept, k := SetPayload(payload), (n - 1) * size;
      assert Slice(kept, k, Min(size, REST_MAX_CHUNK_SIZE)) == Slice(kept, k, size);
      assert Slice(kept, 0, k) + Slice(kept, k, size) == Slice(kept, 0, k + size);
    }
  }

  /** For blocks of any size, the engine cuts such a payload into blocks that give its
      first chunk back, which is the payload exactly when it is no longer than that. Every
      block says exactly whether more follows, under a label that names its place. */
  lemma UnawareWholeTransfer(payload: string, blocks: nat, size: nat, n: nat)
    requires 16 <= size && 0 < blocks && (blocks - 1) * size < |SetPayload(payload)| <= blocks * size
    ensures UnawareTransfer(payload, blocks, size) == SetPayload(payload)
    ensures UnawareTransfer(payload, blocks, size) == payload <==> |payload| <= REST_MAX_CHUNK_SIZE
    ensures var r := UnawareBlock(payload, n, size);
            && r.inScope == (n < blocks)
            && (n < blocks ==> r.block2 == Some(Block2(n, n < blocks - 1, Min(size, REST_MAX_CHUNK_SIZE)))
                               && n * r.block2.value.size == n * size)
  {
    hide SetPayload, UnawareTransfer;
    Kept(payload);
    var kept := SetPayload(payload);
    UnawarePrefix(payload, blocks, size);
    Times(blocks - 1, size);
    FewBlocks(blocks - 1, size);
    Times(n, size);
    if n < blocks - 1 {
      TimesMonotone(n, blocks - 1, size);
    } else if n > blocks {
      TimesMonotone(blocks, n, size);
    }
  }

  lemma Kept(payload: string)
    ensures |SetPayload(payload)| <= REST_MAX_CHUNK_SIZE
    ensures SetPayload(payload) == payload <==> |payload| <= REST_MAX_CHUNK_SIZE
  {
  }

  /** A block within a chunk has a small number, which is 0 if blocks are larger. */
  lemma FewBlocks(n: nat, size: nat)
    requires 16 <= size && n * size < REST_MAX_CHUNK_SIZE
    ensures n < 8 && (size > REST_MAX_CHUNK_SIZE ==> n == 0)
  {
    TimesAtMost(16, size, n);
    Times(n, size);
  }

  // ---------------------------------------------------------------------------
  // Reading the directory
  // ---------------------------------------------------------------------------

  /** Characters up to the first of a kind. */
  function Until(s: string, c: char): (n: nat)
    ensures n <= |s|
  {
    if s == "" || s[0] == c then 0 else 1 + Until(s[1..], c)
  }

  /** The links of a document in link format, for targets without '>' and attributes
      without commas: a target, then, if a semicolon follows, attributes up to the comma. */
  function Links(s: string): seq<Resource>
    decreases |s|
  {
    if |s| < 3 then []
    else
      var n := Until(s[2..], '>');
      var rest := if 2 + n + 1 <= |s| then s[2 + n + 1..] else "";
      var m := Until(rest, ',');
      [Resource(s[2..2 + n], if m > 0 then rest[1..m] else "")] + Links(if m + 1 <= |rest| then rest[m + 1..] else "")
  }

  predicate Clean(r: Resource) { '>' !in r.url && ',' !in r.attributes }

  lemma {:induction false} UntilFound(a: string, c: char, b: string)
    requires c !in a && (b == "" || b[0] == c)
    ensures Until(a + b, c) == |a|
    decreases |a|
  {
    if a == "" {
      assert a + b == b;
    } else {
      UntilFound(a[1..], c, b);
      assert (a + b)[1..] == a[1..] + b;
    }
  }

  lemma TargetRead(r: Resource, more: string)
    requires Clean(r)
    ensures var s := Link(r) + more;
            var n := |r.url|;
            && |s| >= n + 3 && Until(s[2..], '>') == n && s[2..2 + n] == r.url && s[n + 3..] == Attributes(r) + more
  {
    hide Attributes;
    var s := Link(r) + more;
    var rest := Attributes(r) + more;
    assert s == "</" + r.url + ">" + rest;
    assert s[2..] == r.url + (">" + rest);
    UntilFound(r.url, '>', ">" + rest);
  }

  lemma AttributesRead(r: Resource, more: string)
    requires Clean(r) && (more == "" || more[0] == ',')
    ensures var rest := Attributes(r) + more;
            var m := Until(rest, ',');
            && m == |Attributes(r)| && (if m > 0 then rest[1..m] else "") == r.attributes
            && (if m + 1 <= |rest| then rest[m + 1..] else "") == if more == "" then "" else more[1..]
  {
    UntilFound(Attributes(r), ',', more);
  }

  /** One link in front of others. */
  lemma ReadLink(r: Resource, more: string)
    requires Clean(r) && (more == "" || more[0] == ',')
    ensures Links(Link(r) + more) == [r] + Links(if more == "" then "" else more[1..])
  {
    hide Until, Link, Attributes;
    TargetRead(r, more);
    AttributesRead(r, more);
  }

  /** The links as they follow each other. */
  function Joined(rs: seq<Resource>): string {
    if rs == [] then "" else Link(rs[0]) + (if |rs| == 1 then "" else "," + Joined(rs[1..]))
  }

  lemma {:induction false} ReadJoined(rs: seq<Resource>)
    requires forall r <- rs :: Clean(r)
    ensures Links(Joined(rs)) == rs
  {
    hide Links, Link;
    if rs == [] {
      NoLinks();
    } else {
      ReadJoined(rs[1..]);
      ReadLink(rs[0], if |rs| == 1 then "" else "," + Joined(rs[1..]));
      if |rs| == 1 {
        NoLinks();
        assert Link(rs[0]) + "" == Link(rs[0]);
      } else {
        assert ("," + Joined(rs[1..]))[1..] == Joined(rs[1..]);
      }
      assert rs == [rs[0]] + rs[1..];
    }
  }

  lemma NoLinks()
    ensures Links("") == []
  {
  }

  lemma {:induction false} JoinedSnoc(rs: seq<Resource>, r: Resource)
    ensures Joined(rs + [r]) == Joined(rs) + Separator(|rs|) + Link(r)
    decreases |rs|
  {
    hide Link, Joined;
    var all := rs + [r];
    JoinedStep(all);
    if rs == [] {
      JoinedNone();
      assert "" + Separator(0) + Link(r) == Link(r);
    } else {
      var a, rest := Link(rs[0]), Joined(rs[1..]);
      JoinedSnoc(rs[1..], r);
      JoinedStep(rs);
      assert all[1..] == rs[1..] + [r];
      if |rs| == 1 {
        JoinedNone();
        assert rs[1..] == [] && rest + Separator(0) + Link(r) == Link(r);
      } else {
        assert a + ("," + (rest + "," + Link(r))) == (a + ("," + rest)) + "," + Link(r);
      }
    }
  }

  lemma JoinedNone()
    ensures Joined([]) == ""
  {
  }

  lemma JoinedStep(rs: seq<Resource>)
    requires rs != []
    ensures Joined(rs) == if |rs| == 1 then Link(rs[0]) else Link(rs[0]) + ("," + Joined(rs[1..]))
  {
    assert Link(rs[0]) + "" == Link(rs[0]);
  }

  lemma {:induction false} FullIsJoined(rs: seq<Resource>)
    ensures Full(rs) == Joined(rs)
  {
    hide Link;
    if rs != [] {
      var front := rs[..|rs| - 1];
      FullIsJoined(front);
      JoinedSnoc(front, rs[|rs| - 1]);
      assert rs == front + [rs[|rs| - 1]];
    }
  }

  /** The full string is a document in link format (section 2 of RFC 6690) from which a
      reader gets the resources back, each with its attributes and in order. */
  lemma DirectoryReadsBack(rs: seq<Resource>)
    requires forall r <- rs :: Clean(r)
    ensures Links(Full(rs)) == rs
  {
    hide Links, Full, Joined;
    FullIsJoined(rs);
    ReadJoined(rs);
  }

  /** A resource that cuts its payload into blocks itself and sets more than one block is
      cut to a block, and more is announced even if it reports the end. */
  lemma LongBlockAnnouncesMore(payload: string, next: int, b: Request)
    requires next != b.offset && b.size <= REST_MAX_CHUNK_SIZE
    ensures var r := Trim(payload, next, Some(b));
            && r.payload == payload[..Min(b.size, |payload|)]
            && r.block2 == Label(b.num, |payload| > b.size || next != -1, b.size)
  {
  }

  /** Without a Block2 option the first chunk is served. */
  lemma UnaskedIsFirstBlock(rs: seq<Resource>)
    ensures Served(rs, None) == BlockOf(rs, 0, REST_MAX_CHUNK_SIZE)
  {
  }

  /** Without a Block2 option, what the engine keeps of an unaware resource's payload is
      sent whole and without a label. */
  lemma UnawareUnasked(payload: string)
    ensures Trim(SetPayload(payload), 0, None) == Response(payload[..Min(|payload|, REST_MAX_CHUNK_SIZE)], None, true)
  {
  }
}
