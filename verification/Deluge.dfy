/**
 The Deluge dissemination protocol as a state machine: the handlers of one node as
 functions on its state, the network as the set of all messages ever sent, and
 runs in which any message may be delivered to any node any number of times, late
 or never.

 Sets of packets are sets of packet numbers. The CRC is an arbitrary function.
 */
module Deluge {
  import opened Bytes

  type Crc = seq<byte> -> nat

  const S_PKT: nat := 64
  const N_PKT: nat := 4
  const S_PAGE: nat := 256
  const T_LOW: nat := 2
  const T_HIGH: nat := 64
  const CONST_K: nat := 1
  const CONST_LAMBDA: nat := 2
  const CLOCK_SECOND: nat := 128
  const ALL_PACKETS: set<nat> := {0, 1, 2, 3}
  const REQUEST_BITS: set<nat> := {0, 1, 2, 3, 4, 5, 6, 7}

  datatype Mode = MAINTAIN | RX | TX

  datatype Page = Page(packetSet: set<nat>, complete: bool, version: nat, lastRequest: nat, lastData: nat)

  datatype Node = Node(
    version: nat, updateVersion: nat, pages: seq<Page>, currentRxPage: nat, currentTxPage: int,
    nrequests: nat, txSet: set<nat>, currentPage: seq<byte>, file: seq<byte>,
    mode: Mode, rxArmed: bool, txArmed: bool, neighborInconsistency: bool,
    rInterval: nat, recvAdv: nat, broadcastProfile: bool)

  datatype Msg =
    | Summary(version: nat, highest: nat)
    | Request(version: nat, pagenum: nat, requestSet: set<nat>)
    | Packet(version: nat, pagenum: nat, packetnum: nat, crc: nat, payload: seq<byte>)
    | Profile(version: nat, vector: seq<nat>)

  predicate Shaped(n: Node) {
    |n.currentPage| == S_PAGE && |n.file| == |n.pages| * S_PAGE && 0 < |n.pages| && n.currentTxPage < |n.pages|
  }

  // ---------------------------------------------------------------------------
  // Parts of the state
  // ---------------------------------------------------------------------------

  /** Leaving a mode stops its timers. */
  function Transition(n: Node, mode: Mode): Node {
    if mode == n.mode then n
    else n.(mode := mode,
            rxArmed := n.rxArmed && n.mode != RX,
            txArmed := n.txArmed && n.mode != TX)
  }

  /** Number of complete pages before the first incomplete one. */
  function HighestAvailable(pages: seq<Page>): (h: nat)
    ensures h <= |pages| && (forall i :: 0 <= i < h ==> pages[i].complete) && (h < |pages| ==> !pages[h].complete)
  {
    if pages == [] || !pages[0].complete then 0 else 1 + HighestAvailable(pages[1..])
  }

  function FilePage(file: seq<byte>, pagenum: nat): (s: seq<byte>)
    requires (pagenum + 1) * S_PAGE <= |file|
    ensures |s| == S_PAGE
  {
    file[pagenum * S_PAGE..(pagenum + 1) * S_PAGE]
  }

  function Chunk(page: seq<byte>, k: nat): (s: seq<byte>)
    requires |page| == S_PAGE && k < N_PKT
    ensures |s| == S_PKT
  {
    page[k * S_PKT..(k + 1) * S_PKT]
  }

  function SetChunk(page: seq<byte>, k: nat, payload: seq<byte>): (r: seq<byte>)
    requires |page| == S_PAGE && k < N_PKT && |payload| == S_PKT
    ensures |r| == S_PAGE
  {
    page[..k * S_PKT] + payload + page[(k + 1) * S_PKT..]
  }

  function SetFilePage(file: seq<byte>, pagenum: nat, page: seq<byte>): (r: seq<byte>)
    requires |page| == S_PAGE && (pagenum + 1) * S_PAGE <= |file|
    ensures |r| == |file|
  {
    file[..pagenum * S_PAGE] + page + file[(pagenum + 1) * S_PAGE..]
  }

  // ---------------------------------------------------------------------------
  // Handlers
  // ---------------------------------------------------------------------------

  /** The least last_request of the first `k` pages, and the last_data that the
      program keeps beside it: it compares requests where it means data. */
  function OldestTimes(pages: seq<Page>, k: nat, now: nat): (nat, nat)
    requires k <= |pages|
  {
    if k == 0 then (now, now)
    else
      var (request, data) := OldestTimes(pages, k - 1, now);
      var p := pages[k - 1];
      (if p.lastRequest < request then p.lastRequest else request,
       if p.lastRequest < data then p.lastData else data)
  }

  function Elapsed(now: nat, then_: nat): nat {
    (if now >= then_ then now - then_ else 0) / CLOCK_SECOND
  }

  function HandleSummary(n: Node, m: Msg, now: nat): Node
    requires m.Summary?
  {
    var highest := HighestAvailable(n.pages);
    var n1 := if m.version != n.version || m.highest != highest then n.(neighborInconsistency := true)
              else n.(recvAdv := n.recvAdv + 1);
    var n2 := if m.version < n.version then n1.(broadcastProfile := true) else n1;
    if m.version == n.updateVersion && m.highest > highest && m.highest <= |n.pages| then
      var (request, data) := OldestTimes(n.pages, m.highest, now);
      if Elapsed(now, request) <= 2 * n.rInterval || Elapsed(now, data) <= n.rInterval then n2
      else Transition(n2, RX).(rxArmed := true)
    else n2
  }

  function HandleRequest(n: Node, m: Msg, now: nat): Node
    requires m.Request?
  {
    if m.pagenum >= |n.pages| then n
    else
      var n1 := if m.version != n.version then n.(neighborInconsistency := true) else n;
      if m.version == n.version && m.pagenum <= HighestAvailable(n.pages) then
        var n2 := n1.(pages := n.pages[m.pagenum := n.pages[m.pagenum].(lastRequest := now)],
                      txSet := if m.pagenum == n.currentTxPage then n.txSet + m.requestSet else m.requestSet,
                      currentTxPage := m.pagenum);
        Transition(n2, TX).(txArmed := true)
      else n1
  }

  /** Page numbers and packet numbers are those of a valid message. */
  predicate ValidPacket(n: Node, m: Msg) {
    m.Packet? && m.pagenum < |n.pages| && m.packetnum < N_PKT && |m.payload| == S_PKT
  }

  /** The last packet of page `p` has come: the page is written and reception moves on. */
  function FinishPage(n: Node, p: nat): Node
    requires p < |n.pages| && |n.currentPage| == S_PAGE && |n.file| == |n.pages| * S_PAGE
  {
    var n1 := n.(file := SetFilePage(n.file, p, n.currentPage),
                 pages := n.pages[p := n.pages[p].(complete := true)],
                 currentRxPage := n.currentRxPage + 1);
    Transition(if p == |n.pages| - 1 then n1.(version := n.updateVersion) else n1.(rxArmed := true), MAINTAIN)
  }

  function HandlePacket(n: Node, m: Msg, crc: Crc, now: nat): Node
    requires ValidPacket(n, m) && |n.currentPage| == S_PAGE && |n.file| == |n.pages| * S_PAGE
  {
    if m.pagenum != n.currentRxPage then n
    else
      var n1 := if m.version != n.version then n.(neighborInconsistency := true) else n;
      var page := n.pages[m.pagenum];
      if m.version == page.version && !page.complete then
        var n2 := n1.(currentPage := SetChunk(n.currentPage, m.packetnum, m.payload));
        if m.crc != crc(m.payload) then n2
        else
          var page1 := page.(lastData := now, packetSet := page.packetSet + {m.packetnum});
          var n3 := n2.(pages := n.pages[m.pagenum := page1]);
          if page1.packetSet != ALL_PACKETS then n3 else FinishPage(n3, m.pagenum)
      else n1
  }

  function ResetPage(p: Page, version: nat): Page {
    if version > p.version then p.(packetSet := {}, complete := false, version := version) else p
  }

  function ResetPages(pages: seq<Page>, vector: seq<nat>): (r: seq<Page>)
    requires |vector| == |pages|
    ensures |r| == |pages|
  {
    seq(|pages|, i requires 0 <= i < |pages| => ResetPage(pages[i], vector[i]))
  }

  function HandleProfile(n: Node, m: Msg): Node
    requires m.Profile? && |m.vector| == |n.pages|
  {
    if m.version <= n.updateVersion then n
    else
      var pages := ResetPages(n.pages, m.vector);
      var n1 := n.(txSet := {}, pages := pages, currentRxPage := HighestAvailable(pages), updateVersion := m.version);
      Transition(n1, RX).(rxArmed := true)
  }

  // ---------------------------------------------------------------------------
  // Timers
  // ---------------------------------------------------------------------------

  /** What send_request reads of the page table; `behind` is what lies behind the table,
      which it reads when its timer fires after the last page. */
  function RequestedPage(n: Node, behind: Page): Page {
    if n.currentRxPage < |n.pages| then n.pages[n.currentRxPage] else behind
  }

  /** send_request. */
  function SendRequest(n: Node, behind: Page): (Node, set<Msg>) {
    var page := RequestedPage(n, behind);
    var m := Request(page.version, n.currentRxPage, REQUEST_BITS - page.packetSet);
    if n.nrequests + 1 == CONST_LAMBDA
    then (Transition(n.(nrequests := 0, rxArmed := false), MAINTAIN), {m})
    else (n.(nrequests := n.nrequests + 1, rxArmed := true), {m})
  }

  function AdvertiseSummary(n: Node): set<Msg> {
    if n.recvAdv >= CONST_K then {} else {Summary(n.updateVersion, HighestAvailable(n.pages))}
  }

  function SendProfile(n: Node): (Node, set<Msg>) {
    if n.broadcastProfile && n.recvAdv < CONST_K
    then (n.(broadcastProfile := false), {Profile(n.version, Versions(n.pages))})
    else (n, {})
  }

  function Versions(pages: seq<Page>): (r: seq<nat>)
    ensures |r| == |pages|
  {
    seq(|pages|, i requires 0 <= i < |pages| => pages[i].version)
  }

  function PagePacket(n: Node, pagenum: nat, k: nat, crc: Crc): Msg
    requires pagenum < |n.pages| && k < N_PKT && |n.file| == |n.pages| * S_PAGE
  {
    var payload := Chunk(FilePage(n.file, pagenum), k);
    Packet(n.pages[pagenum].version, pagenum, k, crc(payload), payload)
  }

  /** tx_callback: the requested packets of the current page. */
  function TxCallback(n: Node, crc: Crc): (Node, set<Msg>)
    requires Shaped(n)
  {
    if n.currentTxPage >= 0 && n.txSet != {} then
      (Transition(n.(txSet := {}, txArmed := false, currentTxPage := -1), MAINTAIN),
       set k | k in ALL_PACKETS && k in n.txSet :: PagePacket(n, n.currentTxPage, k, crc))
    else (n.(txArmed := false), {})
  }

  /** One turn of the main loop. */
  function NewRound(n: Node): Node {
    n.(rInterval := if n.neighborInconsistency then T_LOW
                    else if 2 * n.rInterval >= T_HIGH then T_HIGH else 2 * n.rInterval,
       neighborInconsistency := false, recvAdv := 0)
  }

  // ---------------------------------------------------------------------------
  // One node, any messages
  // ---------------------------------------------------------------------------

  /** What holds on every node whatever profiles and packets it receives: pages
      below the one being received are complete, complete pages have all their
      packets, the object's version never exceeds the update's, and it equals the
      update's only when every page is complete. */
  ghost predicate NodeInv(n: Node) {
    && Shaped(n) && n.currentRxPage <= |n.pages|
    && (forall i :: 0 <= i < n.currentRxPage ==> n.pages[i].complete)
    && (forall i :: 0 <= i < |n.pages| && n.pages[i].complete ==> n.pages[i].packetSet == ALL_PACKETS)
    && (forall i :: 0 <= i < |n.pages| ==> n.pages[i].packetSet <= ALL_PACKETS)
    && n.version <= n.updateVersion
    && (n.version == n.updateVersion ==> forall i :: 0 <= i < |n.pages| ==> n.pages[i].complete)
  }

  /** The packet belongs to the page being received and is not corrupted. */
  predicate Accepted(n: Node, m: Msg, crc: Crc)
    requires ValidPacket(n, m)
  {
    && m.pagenum == n.currentRxPage && m.version == n.pages[m.pagenum].version && !n.pages[m.pagenum].complete
    && m.crc == crc(m.payload)
  }

  /** A packet that is not accepted changes at most the page buffer. */
  lemma PacketRejected(n: Node, m: Msg, crc: Crc, now: nat)
    requires Shaped(n) && ValidPacket(n, m) && !Accepted(n, m, crc)
    ensures var r := HandlePacket(n, m, crc, now);
            && r.pages == n.pages && r.currentRxPage == n.currentRxPage && r.version == n.version
            && r.updateVersion == n.updateVersion && r.file == n.file && |r.currentPage| == S_PAGE
            && r.txSet == n.txSet && r.currentTxPage == n.currentTxPage
            && (m.crc == crc(m.payload) ==> r.currentPage == n.currentPage && r.rxArmed == n.rxArmed)
  {
    hide SetChunk, SetFilePage, Transition;
  }

  /** An accepted packet is stored; the page is complete when it was the last missing one. */
  lemma PacketAccepted(n: Node, m: Msg, crc: Crc, now: nat)
    requires Shaped(n) && ValidPacket(n, m) && Accepted(n, m, crc)
    ensures var r := HandlePacket(n, m, crc, now);
            var page := n.pages[m.pagenum];
            var full := page.packetSet + {m.packetnum} == ALL_PACKETS;
            && r.currentPage == SetChunk(n.currentPage, m.packetnum, m.payload)
            && r.pages == n.pages[m.pagenum := page.(lastData := now, packetSet := page.packetSet + {m.packetnum}, complete := full)]
            && r.currentRxPage == (if full then n.currentRxPage + 1 else n.currentRxPage)
            && r.version == (if full && m.pagenum == |n.pages| - 1 then n.updateVersion else n.version)
            && r.updateVersion == n.updateVersion && r.txSet == n.txSet && r.currentTxPage == n.currentTxPage
            && r.file == if full then SetFilePage(n.file, m.pagenum, r.currentPage) else n.file
  {
    hide SetChunk, SetFilePage, FinishPage;
    var page := n.pages[m.pagenum];
    var page1 := page.(lastData := now, packetSet := page.packetSet + {m.packetnum});
    var n1 := if m.version != n.version then n.(neighborInconsistency := true) else n;
    var n2 := n1.(currentPage := SetChunk(n.currentPage, m.packetnum, m.payload));
    FinishPageFields(n2.(pages := n.pages[m.pagenum := page1]), m.pagenum);
  }

  lemma FinishPageFields(n: Node, p: nat)
    requires Shaped(n) && p < |n.pages|
    ensures var r := FinishPage(n, p);
            && r.pages == n.pages[p := n.pages[p].(complete := true)] && r.currentPage == n.currentPage
            && r.currentRxPage == n.currentRxPage + 1 && r.file == SetFilePage(n.file, p, n.currentPage)
            && r.version == (if p == |n.pages| - 1 then n.updateVersion else n.version)
            && r.updateVersion == n.updateVersion && r.txSet == n.txSet && r.currentTxPage == n.currentTxPage
  {
    hide SetFilePage;
  }

  lemma PacketKeepsNodeInv(n: Node, m: Msg, crc: Crc, now: nat)
    requires NodeInv(n) && ValidPacket(n, m)
    ensures NodeInv(HandlePacket(n, m, crc, now))
  {
    hide SetChunk, SetFilePage, HandlePacket;
    if Accepted(n, m, crc) {
      PacketAccepted(n, m, crc, now);
      var p := m.pagenum;
      var r := HandlePacket(n, m, crc, now);
      assert forall i :: 0 <= i < |n.pages| && i != p ==> r.pages[i] == n.pages[i];
      assert r.pages[p].packetSet == n.pages[p].packetSet + {m.packetnum} <= ALL_PACKETS;
    } else {
      PacketRejected(n, m, crc, now);
    }
  }

  lemma ProfileKeepsNodeInv(n: Node, m: Msg)
    requires NodeInv(n) && m.Profile? && |m.vector| == |n.pages|
    ensures NodeInv(HandleProfile(n, m))
  {
    hide HighestAvailable, ResetPages;
    if m.version > n.updateVersion {
      var pages := ResetPages(n.pages, m.vector);
      ResetKeepsPages(n.pages, m.vector);
      assert HandleProfile(n, m).pages == pages;
    }
  }

  lemma ResetKeepsPages(pages: seq<Page>, vector: seq<nat>)
    requires |vector| == |pages|
    ensures var r := ResetPages(pages, vector);
            forall i :: 0 <= i < |pages| ==>
              (r[i].packetSet == {} && !r[i].complete)
              || (r[i].packetSet == pages[i].packetSet && r[i].complete == pages[i].complete)
  {
  }

  /** Nothing but packets and profiles changes the fields of the invariant. */
  predicate SameUpdate(n: Node, r: Node) {
    && r.version == n.version && r.updateVersion == n.updateVersion && |r.pages| == |n.pages|
    && r.currentRxPage == n.currentRxPage && r.currentPage == n.currentPage && r.file == n.file
    && (n.currentTxPage < |n.pages| ==> r.currentTxPage < |n.pages|)
    && forall i :: 0 <= i < |n.pages| ==>
         r.pages[i].complete == n.pages[i].complete && r.pages[i].packetSet == n.pages[i].packetSet
         && r.pages[i].version == n.pages[i].version
  }

  lemma SummarySameUpdate(n: Node, m: Msg, now: nat)
    requires m.Summary?
    ensures SameUpdate(n, HandleSummary(n, m, now)) && HandleSummary(n, m, now).txSet == n.txSet
  {
    hide HighestAvailable, OldestTimes;
  }

  lemma RequestSameUpdate(n: Node, m: Msg, now: nat)
    requires m.Request?
    ensures SameUpdate(n, HandleRequest(n, m, now))
    ensures HandleRequest(n, m, now).txSet != n.txSet || HandleRequest(n, m, now).currentTxPage != n.currentTxPage
            ==> m.version == n.version && HandleRequest(n, m, now).currentTxPage == m.pagenum < |n.pages|
    ensures HandleRequest(n, m, now).rxArmed ==> n.rxArmed
  {
    hide HighestAvailable;
  }

  lemma SameUpdateKeepsNodeInv(n: Node, r: Node)
    requires NodeInv(n) && SameUpdate(n, r)
    ensures NodeInv(r)
  {
  }

  lemma RequestTimerSameUpdate(n: Node, behind: Page)
    ensures SameUpdate(n, SendRequest(n, behind).0) && SendRequest(n, behind).0.txSet == n.txSet
  {
  }

  lemma TxTimerSameUpdate(n: Node, crc: Crc)
    requires Shaped(n)
    ensures SameUpdate(n, TxCallback(n, crc).0) && (n.txSet == {} ==> TxCallback(n, crc).0.txSet == {})
    ensures TxCallback(n, crc).0.rxArmed ==> n.rxArmed
  {
    hide PagePacket;
  }

  lemma ProfileTimerSameUpdate(n: Node)
    ensures SameUpdate(n, SendProfile(n).0) && SendProfile(n).0.txSet == n.txSet
    ensures SendProfile(n).0.rxArmed ==> n.rxArmed
  {
  }

  lemma RoundSameUpdate(n: Node)
    ensures SameUpdate(n, NewRound(n)) && NewRound(n).txSet == n.txSet && (NewRound(n).rxArmed ==> n.rxArmed)
  {
  }

  /** The reaction of a node to any message with valid page and packet numbers. */
  predicate ValidFor(n: Node, m: Msg) {
    (m.Packet? ==> ValidPacket(n, m)) && (m.Profile? ==> |m.vector| == |n.pages|)
  }

  function Handle(n: Node, m: Msg, crc: Crc, now: nat): Node
    requires ValidFor(n, m) && Shaped(n)
  {
    match m
    case Summary(_, _) => HandleSummary(n, m, now)
    case Request(_, _, _) => HandleRequest(n, m, now)
    case Packet(_, _, _, _, _) => HandlePacket(n, m, crc, now)
    case Profile(_, _) => HandleProfile(n, m)
  }

  /** A node after a sequence of messages, invalid ones ignored. */
  function HandleAll(n: Node, ms: seq<(Msg, nat)>, crc: Crc): Node
    decreases |ms|
  {
    if ms == [] then n
    else
      var prev := HandleAll(n, ms[..|ms| - 1], crc);
      var (m, now) := ms[|ms| - 1];
      if Shaped(prev) && ValidFor(prev, m) then Handle(prev, m, crc, now) else prev
  }

  lemma HandleKeepsNodeInv(n: Node, m: Msg, crc: Crc, now: nat)
    requires NodeInv(n) && ValidFor(n, m)
    ensures NodeInv(Handle(n, m, crc, now))
  {
    match m
    case Packet(_, _, _, _, _) => PacketKeepsNodeInv(n, m, crc, now);
    case Profile(_, _) => ProfileKeepsNodeInv(n, m);
    case Summary(_, _) =>
      SummarySameUpdate(n, m, now);
      SameUpdateKeepsNodeInv(n, HandleSummary(n, m, now));
    case Request(_, _, _) =>
      RequestSameUpdate(n, m, now);
      SameUpdateKeepsNodeInv(n, HandleRequest(n, m, now));
  }

  lemma {:induction false} MessagesKeepNodeInv(n: Node, ms: seq<(Msg, nat)>, crc: Crc)
    requires NodeInv(n)
    ensures NodeInv(HandleAll(n, ms, crc))
    decreases |ms|
  {
    hide NodeInv, Handle;
    if ms != [] {
      MessagesKeepNodeInv(n, ms[..|ms| - 1], crc);
      var prev := HandleAll(n, ms[..|ms| - 1], crc);
      var (m, now) := ms[|ms| - 1];
      if Shaped(prev) && ValidFor(prev, m) {
        HandleKeepsNodeInv(prev, m, crc, now);
      }
    }
  }

  /** After any messages: the version reaches the update's only with every page
      complete, and no page below the receive position is incomplete. */
  lemma AnyMessages(n: Node, ms: seq<(Msg, nat)>, crc: Crc)
    requires NodeInv(n)
    ensures var r := HandleAll(n, ms, crc);
            && r.version <= r.updateVersion
            && (r.version == r.updateVersion ==> HighestAvailable(r.pages) == |r.pages|)
            && r.currentRxPage <= HighestAvailable(r.pages)
  {
    hide HandleAll;
    MessagesKeepNodeInv(n, ms, crc);
  }

  // ---------------------------------------------------------------------------
  // The network
  // ---------------------------------------------------------------------------

  /** N nodes and every message sent so far. Delivering from this set any number of
      times, in any order or not at all models loss, duplication and reordering. */
  datatype Network = Network(nodes: seq<Node>, sent: set<Msg>)

  /** An update from version `prior` to version `next`, whose file is `source`. */
  datatype Wave = Wave(prior: nat, next: nat, npages: nat, source: seq<byte>)

  ghost predicate ValidWave(w: Wave) {
    w.prior < w.next && 0 < w.npages && |w.source| == w.npages * S_PAGE
  }

  datatype Event =
    | Deliver(to: nat, m: Msg, now: nat)
    | RequestTimer(node: nat, behind: Page) | SummaryTimer(node: nat) | ProfileTimer(node: nat) | TxTimer(node: nat)
    | Round(node: nat)

  function SetNode(s: Network, i: nat, r: (Node, set<Msg>)): Network
    requires i < |s.nodes|
  {
    Network(s.nodes[i := r.0], s.sent + r.1)
  }

  /** One step: the event happens if it is enabled. Request and transmission timers act
      when they are armed. */
  function Step(s: Network, e: Event, crc: Crc): Network {
    match e
    case Deliver(i, m, now) =>
      if Running(s, i) && m in s.sent && ValidFor(s.nodes[i], m)
      then SetNode(s, i, (Handle(s.nodes[i], m, crc, now), {})) else s
    case RequestTimer(i, behind) =>
      if Running(s, i) && s.nodes[i].rxArmed then SetNode(s, i, SendRequest(s.nodes[i], behind)) else s
    case SummaryTimer(i) =>
      if Running(s, i) then SetNode(s, i, (s.nodes[i], AdvertiseSummary(s.nodes[i]))) else s
    case ProfileTimer(i) =>
      if Running(s, i) then SetNode(s, i, SendProfile(s.nodes[i])) else s
    case TxTimer(i) =>
      if Running(s, i) && s.nodes[i].txArmed
      then SetNode(s, i, TxCallback(s.nodes[i], crc)) else s
    case Round(i) =>
      if Running(s, i) then SetNode(s, i, (NewRound(s.nodes[i]), {})) else s
  }

  /** A node of the network, with buffers of the right sizes. */
  predicate Running(s: Network, i: nat) {
    i < |s.nodes| && Shaped(s.nodes[i])
  }

  /** The network after a sequence of events. */
  function Run(s: Network, es: seq<Event>, crc: Crc): Network
    decreases |es|
  {
    if es == [] then s else Step(Run(s, es[..|es| - 1], crc), es[|es| - 1], crc)
  }

  // ---------------------------------------------------------------------------
  // The invariant of an update wave
  // ---------------------------------------------------------------------------

  ghost predicate AllComplete(n: Node, version: nat) {
    forall i :: 0 <= i < |n.pages| ==>
      n.pages[i].complete && n.pages[i].packetSet == ALL_PACKETS && n.pages[i].version == version
  }

  /** A node that has not heard of the update. */
  ghost predicate Outdated(n: Node, w: Wave) {
    && n.version == w.prior && n.updateVersion == w.prior && AllComplete(n, w.prior)
    && Settled(n)
  }

  /** A request timer that is still armed has no page of the object to ask for. */
  predicate Settled(n: Node) {
    n.rxArmed ==> n.currentRxPage >= |n.pages|
  }

  /** Page `i` of the node's file is the source's. */
  ghost predicate HasPage(n: Node, w: Wave, i: nat)
    requires ValidWave(w) && |n.file| == |w.source| && i < w.npages
  {
    FilePage(n.file, i) == FilePage(w.source, i)
  }

  /** Packets received for the current page are the source's. */
  ghost predicate HasPackets(n: Node, w: Wave)
    requires ValidWave(w) && n.currentRxPage < w.npages == |n.pages| && |n.currentPage| == S_PAGE
  {
    forall k :: k in n.pages[n.currentRxPage].packetSet && k < N_PKT ==>
      Chunk(n.currentPage, k) == Chunk(FilePage(w.source, n.currentRxPage), k)
  }

  /** A node that is collecting the update. */
  ghost predicate Updating(n: Node, w: Wave)
    requires ValidWave(w) && Shaped(n) && |n.pages| == w.npages
  {
    && n.version == w.prior && n.updateVersion == w.next && n.txSet == {}
    && n.currentRxPage < w.npages
    && (forall i :: 0 <= i < w.npages ==> n.pages[i].version == w.next && n.pages[i].packetSet <= ALL_PACKETS)
    && (forall i :: 0 <= i < n.currentRxPage ==> n.pages[i].complete && n.pages[i].packetSet == ALL_PACKETS && HasPage(n, w, i))
    && (forall i :: n.currentRxPage <= i < w.npages ==> !n.pages[i].complete)
    && (forall i :: n.currentRxPage < i < w.npages ==> n.pages[i].packetSet == {})
    && n.pages[n.currentRxPage].packetSet != ALL_PACKETS
    && HasPackets(n, w)
  }

  /** A node that has the whole update. */
  ghost predicate Updated(n: Node, w: Wave) {
    n.version == w.next && n.updateVersion == w.next && AllComplete(n, w.next) && n.file == w.source && Settled(n)
  }

  ghost predicate NodeInWave(n: Node, w: Wave)
    requires ValidWave(w)
  {
    && Shaped(n) && |n.pages| == w.npages
    && (Outdated(n, w) || Updating(n, w) || Updated(n, w))
  }

  /** Messages of a wave: packets carry the source's bytes, requests ask for the new
      version, and profiles of the new version list it for every page. */
  ghost predicate MsgInWave(m: Msg, w: Wave, crc: Crc)
    requires ValidWave(w)
  {
    match m
    case Summary(_, _) => true
    case Request(version, pagenum, _) => version != w.prior || pagenum >= w.npages
    case Packet(version, pagenum, packetnum, c, payload) =>
      && pagenum < w.npages && packetnum < N_PKT && |payload| == S_PKT && c == crc(payload)
      && (version <= w.prior || (version == w.next && payload == Chunk(FilePage(w.source, pagenum), packetnum)))
    case Profile(version, vector) =>
      && |vector| == w.npages
      && (version <= w.prior || (version == w.next && forall i :: 0 <= i < |vector| ==> vector[i] == w.next))
  }

  ghost predicate InWave(s: Network, w: Wave, crc: Crc) {
    && ValidWave(w)
    && (forall i :: 0 <= i < |s.nodes| ==> NodeInWave(s.nodes[i], w))
    && (forall m <- s.sent :: MsgInWave(m, w, crc))
  }

  // ---------------------------------------------------------------------------
  // Pages and packets
  // ---------------------------------------------------------------------------

  lemma ChunkOfSetChunk(page: seq<byte>, k: nat, payload: seq<byte>, j: nat)
    requires |page| == S_PAGE && k < N_PKT && j < N_PKT && |payload| == S_PKT
    ensures Chunk(SetChunk(page, k, payload), j) == if j == k then payload else Chunk(page, j)
  {
    var r := SetChunk(page, k, payload);
    assert forall i :: 0 <= i < S_PAGE ==>
      r[i] == if k * S_PKT <= i < (k + 1) * S_PKT then payload[i - k * S_PKT] else page[i];
    if j == k {
      assert r[k * S_PKT..(k + 1) * S_PKT] == payload;
    } else {
      assert r[j * S_PKT..(j + 1) * S_PKT] == page[j * S_PKT..(j + 1) * S_PKT];
    }
  }

  /** Four equal packets make equal pages. */
  lemma PageFromChunks(a: seq<byte>, b: seq<byte>)
    requires |a| == |b| == S_PAGE
    requires forall k :: 0 <= k < N_PKT ==> Chunk(a, k) == Chunk(b, k)
    ensures a == b
  {
    forall i | 0 <= i < S_PAGE ensures a[i] == b[i] {
      var k := i / S_PKT;
      assert Chunk(a, k)[i - k * S_PKT] == Chunk(b, k)[i - k * S_PKT];
    }
  }

  lemma PageOfSetFilePage(file: seq<byte>, p: nat, page: seq<byte>, i: nat)
    requires |page| == S_PAGE && (p + 1) * S_PAGE <= |file| && (i + 1) * S_PAGE <= |file|
    ensures FilePage(SetFilePage(file, p, page), i) == if i == p then page else FilePage(file, i)
  {
    var r := SetFilePage(file, p, page);
    assert r[p * S_PAGE..(p + 1) * S_PAGE] == page;
    if i != p {
      assert r[i * S_PAGE..(i + 1) * S_PAGE] == file[i * S_PAGE..(i + 1) * S_PAGE];
    }
  }

  /** Equal pages make equal files. */
  lemma FileFromPages(a: seq<byte>, b: seq<byte>, npages: nat)
    requires |a| == |b| == npages * S_PAGE
    requires forall i :: 0 <= i < npages ==> (i + 1) * S_PAGE <= |a| && FilePage(a, i) == FilePage(b, i)
    ensures a == b
  {
    forall x | 0 <= x < |a| ensures a[x] == b[x] {
      var i := x / S_PAGE;
      assert FilePage(a, i)[x - i * S_PAGE] == FilePage(b, i)[x - i * S_PAGE];
    }
  }

  // ---------------------------------------------------------------------------
  // Every step keeps the wave
  // ---------------------------------------------------------------------------

  lemma ProfileInWave(n: Node, m: Msg, w: Wave, crc: Crc)
    requires ValidWave(w) && NodeInWave(n, w) && m.Profile? && MsgInWave(m, w, crc)
    ensures NodeInWave(HandleProfile(n, m), w)
  {
    if m.version > n.updateVersion {
      var r := HandleProfile(n, m);
      assert Outdated(n, w);
      assert forall i :: 0 <= i < w.npages ==> r.pages[i] == ResetPage(n.pages[i], w.next);
      assert r.currentRxPage == 0;
      assert Updating(r, w);
    }
  }

  /** An accepted packet of the wave puts the source's bytes in the page buffer. */
  lemma PacketFillsBuffer(n: Node, m: Msg, w: Wave, crc: Crc, k: nat)
    requires ValidWave(w) && Shaped(n) && |n.pages| == w.npages && Updating(n, w)
    requires MsgInWave(m, w, crc) && ValidPacket(n, m) && Accepted(n, m, crc)
    requires k in n.pages[m.pagenum].packetSet + {m.packetnum} && k < N_PKT
    ensures Chunk(SetChunk(n.currentPage, m.packetnum, m.payload), k) == Chunk(FilePage(w.source, m.pagenum), k)
  {
    hide Chunk, SetChunk, FilePage;
    ChunkOfSetChunk(n.currentPage, m.packetnum, m.payload, k);
  }

  lemma FilledBuffer(n: Node, m: Msg, w: Wave, crc: Crc)
    requires ValidWave(w) && Shaped(n) && |n.pages| == w.npages && Updating(n, w)
    requires MsgInWave(m, w, crc) && ValidPacket(n, m) && Accepted(n, m, crc)
    requires n.pages[m.pagenum].packetSet + {m.packetnum} == ALL_PACKETS
    ensures SetChunk(n.currentPage, m.packetnum, m.payload) == FilePage(w.source, m.pagenum)
  {
    hide Chunk, SetChunk, FilePage, Updating, MsgInWave, Accepted;
    var page := SetChunk(n.currentPage, m.packetnum, m.payload);
    forall k | 0 <= k < N_PKT ensures Chunk(page, k) == Chunk(FilePage(w.source, m.pagenum), k) {
      assert k in ALL_PACKETS;
      PacketFillsBuffer(n, m, w, crc, k);
    }
    PageFromChunks(page, FilePage(w.source, m.pagenum));
  }

  /** Not the last packet of the page. */
  lemma PartialPageInWave(n: Node, m: Msg, w: Wave, crc: Crc, now: nat)
    requires ValidWave(w) && Shaped(n) && |n.pages| == w.npages && Updating(n, w)
    requires MsgInWave(m, w, crc) && ValidPacket(n, m) && Accepted(n, m, crc)
    requires n.pages[m.pagenum].packetSet + {m.packetnum} != ALL_PACKETS
    ensures NodeInWave(HandlePacket(n, m, crc, now), w)
  {
    hide Chunk, SetChunk, FilePage, HandlePacket;
    var r := HandlePacket(n, m, crc, now);
    PacketAccepted(n, m, crc, now);
    forall k | k in r.pages[m.pagenum].packetSet && k < N_PKT
      ensures Chunk(r.currentPage, k) == Chunk(FilePage(w.source, m.pagenum), k)
    {
      PacketFillsBuffer(n, m, w, crc, k);
    }
    assert HasPackets(r, w);
    assert Updating(r, w);
  }

  lemma FullPageFile(n: Node, m: Msg, w: Wave, crc: Crc, now: nat, i: nat)
    requires ValidWave(w) && Shaped(n) && |n.pages| == w.npages && Updating(n, w)
    requires MsgInWave(m, w, crc) && ValidPacket(n, m) && Accepted(n, m, crc)
    requires n.pages[m.pagenum].packetSet + {m.packetnum} == ALL_PACKETS && i <= m.pagenum
    ensures var r := HandlePacket(n, m, crc, now);
            |r.file| == |w.source| && HasPage(r, w, i)
  {
    hide SetChunk, FilePage, SetFilePage, HandlePacket;
    PacketAccepted(n, m, crc, now);
    FilledBuffer(n, m, w, crc);
    PageOfSetFilePage(n.file, m.pagenum, FilePage(w.source, m.pagenum), i);
    assert i < m.pagenum ==> HasPage(n, w, i);
  }

  /** The last packet of a page: the page is written, and is the source's. */
  lemma FullPageInWave(n: Node, m: Msg, w: Wave, crc: Crc, now: nat)
    requires ValidWave(w) && Shaped(n) && |n.pages| == w.npages && Updating(n, w)
    requires MsgInWave(m, w, crc) && ValidPacket(n, m) && Accepted(n, m, crc)
    requires n.pages[m.pagenum].packetSet + {m.packetnum} == ALL_PACKETS
    ensures NodeInWave(HandlePacket(n, m, crc, now), w)
  {
    hide Chunk, SetChunk, FilePage, SetFilePage, HandlePacket, HasPage;
    var r := HandlePacket(n, m, crc, now);
    var p := m.pagenum;
    PacketAccepted(n, m, crc, now);
    assert forall i :: 0 <= i < w.npages && i != p ==> r.pages[i] == n.pages[i];
    forall i | 0 <= i <= p ensures |r.file| == |w.source| && HasPage(r, w, i) {
      FullPageFile(n, m, w, crc, now, i);
    }
    if p == w.npages - 1 {
      assert AllComplete(r, w.next);
      CompleteFile(r, w);
    } else {
      assert HasPackets(r, w);
      assert Updating(r, w);
    }
  }

  lemma CompleteFile(r: Node, w: Wave)
    requires ValidWave(w) && |r.file| == |w.source|
    requires forall i :: 0 <= i < w.npages ==> HasPage(r, w, i)
    ensures r.file == w.source
  {
    hide FilePage;
    forall i | 0 <= i < w.npages
      ensures (i + 1) * S_PAGE <= |r.file| && FilePage(r.file, i) == FilePage(w.source, i)
    {
      assert HasPage(r, w, i);
    }
    FileFromPages(r.file, w.source, w.npages);
  }

  lemma PacketInWave(n: Node, m: Msg, w: Wave, crc: Crc, now: nat)
    requires ValidWave(w) && NodeInWave(n, w) && m.Packet? && MsgInWave(m, w, crc) && ValidPacket(n, m)
    ensures NodeInWave(HandlePacket(n, m, crc, now), w)
  {
    hide Chunk, SetChunk, FilePage, SetFilePage, HandlePacket;
    if !Accepted(n, m, crc) {
      PacketRejected(n, m, crc, now);
    } else {
      assert Updating(n, w);
      if n.pages[m.pagenum].packetSet + {m.packetnum} == ALL_PACKETS {
        FullPageInWave(n, m, w, crc, now);
      } else {
        PartialPageInWave(n, m, w, crc, now);
      }
    }
  }

  /** A step that keeps the update's fields, a collecting node's empty set of packets to
      send, and the stopped request timer of the other nodes. */
  lemma SameUpdateInWave(n: Node, r: Node, w: Wave)
    requires ValidWave(w) && NodeInWave(n, w) && SameUpdate(n, r)
    requires Updating(n, w) ==> r.txSet == n.txSet
    requires !Updating(n, w) ==> (r.rxArmed ==> n.rxArmed)
    ensures NodeInWave(r, w)
  {
    hide Chunk, FilePage;
    if Updating(n, w) {
      assert forall i :: 0 <= i < w.npages && HasPage(n, w, i) ==> HasPage(r, w, i);
      assert HasPackets(n, w);
      assert HasPackets(r, w);
    }
  }

  lemma CompleteIgnoresSummary(n: Node, m: Msg, now: nat, w: Wave)
    requires ValidWave(w) && NodeInWave(n, w) && !Updating(n, w) && m.Summary?
    ensures HandleSummary(n, m, now).rxArmed ==> n.rxArmed
  {
    hide OldestTimes, Elapsed;
    assert HighestAvailable(n.pages) == |n.pages|;
  }

  lemma HandleInWave(n: Node, m: Msg, w: Wave, crc: Crc, now: nat)
    requires ValidWave(w) && NodeInWave(n, w) && MsgInWave(m, w, crc) && ValidFor(n, m)
    ensures NodeInWave(Handle(n, m, crc, now), w)
  {
    hide HandleSummary, HandleRequest, HandlePacket, HandleProfile, Chunk, FilePage;
    match m
    case Packet(_, _, _, _, _) => PacketInWave(n, m, w, crc, now);
    case Profile(_, _) => ProfileInWave(n, m, w, crc);
    case Summary(_, _) =>
      SummarySameUpdate(n, m, now);
      if !Updating(n, w) { CompleteIgnoresSummary(n, m, now, w); }
      SameUpdateInWave(n, HandleSummary(n, m, now), w);
    case Request(_, _, _) =>
      RequestSameUpdate(n, m, now);
      SameUpdateInWave(n, HandleRequest(n, m, now), w);
  }

  lemma RequestTimerInWave(n: Node, behind: Page, w: Wave, crc: Crc)
    requires ValidWave(w) && NodeInWave(n, w) && n.rxArmed
    ensures NodeInWave(SendRequest(n, behind).0, w)
    ensures forall m <- SendRequest(n, behind).1 :: MsgInWave(m, w, crc)
  {
    hide Chunk, FilePage;
    RequestTimerSameUpdate(n, behind);
    SameUpdateInWave(n, SendRequest(n, behind).0, w);
  }

  lemma SummaryTimerInWave(n: Node, w: Wave, crc: Crc)
    requires ValidWave(w)
    ensures forall m <- AdvertiseSummary(n) :: MsgInWave(m, w, crc)
  {
  }

  lemma ProfileTimerInWave(n: Node, w: Wave, crc: Crc)
    requires ValidWave(w) && NodeInWave(n, w)
    ensures NodeInWave(SendProfile(n).0, w)
    ensures forall m <- SendProfile(n).1 :: MsgInWave(m, w, crc)
  {
    hide Chunk, FilePage, HasPage;
    ProfileTimerSameUpdate(n);
    SameUpdateInWave(n, SendProfile(n).0, w);
  }

  lemma TxTimerInWave(n: Node, w: Wave, crc: Crc)
    requires ValidWave(w) && NodeInWave(n, w)
    ensures NodeInWave(TxCallback(n, crc).0, w)
    ensures forall m <- TxCallback(n, crc).1 :: MsgInWave(m, w, crc)
  {
    hide Chunk, FilePage, HasPage;
    TxTimerSameUpdate(n, crc);
    SameUpdateInWave(n, TxCallback(n, crc).0, w);
  }

  lemma RoundInWave(n: Node, w: Wave, crc: Crc)
    requires ValidWave(w) && NodeInWave(n, w)
    ensures NodeInWave(NewRound(n), w)
  {
    hide Chunk, FilePage;
    RoundSameUpdate(n);
    SameUpdateInWave(n, NewRound(n), w);
  }

  lemma SetNodeInWave(s: Network, i: nat, r: (Node, set<Msg>), w: Wave, crc: Crc)
    requires InWave(s, w, crc) && i < |s.nodes| && NodeInWave(r.0, w)
    requires forall m <- r.1 :: MsgInWave(m, w, crc)
    ensures InWave(SetNode(s, i, r), w, crc)
  {
    hide NodeInWave, MsgInWave;
  }

  lemma InWaveShaped(s: Network, w: Wave, crc: Crc)
    requires InWave(s, w, crc)
    ensures forall i :: 0 <= i < |s.nodes| ==> Shaped(s.nodes[i]) && NodeInWave(s.nodes[i], w)
  {
    hide MsgInWave, Outdated, Updating, Updated;
  }

  /** Every step of the network keeps the wave. */
  lemma StepInWave(s: Network, e: Event, w: Wave, crc: Crc)
    requires InWave(s, w, crc)
    ensures InWave(Step(s, e, crc), w, crc) && |Step(s, e, crc).nodes| == |s.nodes|
  {
    hide NodeInWave, MsgInWave, Handle, SendRequest, AdvertiseSummary, SendProfile, TxCallback, NewRound, ValidFor;
    InWaveShaped(s, w, crc);
    match e
    case Deliver(i, m, now) =>
      if i < |s.nodes| && m in s.sent && ValidFor(s.nodes[i], m) {
        HandleInWave(s.nodes[i], m, w, crc, now);
        SetNodeInWave(s, i, (Handle(s.nodes[i], m, crc, now), {}), w, crc);
      }
    case RequestTimer(i, behind) =>
      if i < |s.nodes| && s.nodes[i].rxArmed {
        RequestTimerInWave(s.nodes[i], behind, w, crc);
        SetNodeInWave(s, i, SendRequest(s.nodes[i], behind), w, crc);
      }
    case SummaryTimer(i) =>
      if i < |s.nodes| {
        SummaryTimerInWave(s.nodes[i], w, crc);
        SetNodeInWave(s, i, (s.nodes[i], AdvertiseSummary(s.nodes[i])), w, crc);
      }
    case ProfileTimer(i) =>
      if i < |s.nodes| {
        ProfileTimerInWave(s.nodes[i], w, crc);
        SetNodeInWave(s, i, SendProfile(s.nodes[i]), w, crc);
      }
    case TxTimer(i) =>
      if i < |s.nodes| && s.nodes[i].txArmed {
        TxTimerInWave(s.nodes[i], w, crc);
        SetNodeInWave(s, i, TxCallback(s.nodes[i], crc), w, crc);
      }
    case Round(i) =>
      if i < |s.nodes| {
        RoundInWave(s.nodes[i], w, crc);
        SetNodeInWave(s, i, (NewRound(s.nodes[i]), {}), w, crc);
      }
  }

  lemma {:induction false} RunInWave(s: Network, es: seq<Event>, w: Wave, crc: Crc)
    requires InWave(s, w, crc)
    ensures InWave(Run(s, es, crc), w, crc) && |Run(s, es, crc).nodes| == |s.nodes|
    decreases |es|
  {
    hide InWave, Step;
    if es != [] {
      RunInWave(s, es[..|es| - 1], w, crc);
      StepInWave(Run(s, es[..|es| - 1], crc), es[|es| - 1], w, crc);
    }
  }

  /** At the start of a wave some nodes have the update and the others the prior version,
      whatever they are doing. Anything older may be in flight, but no request for the
      prior version of a page of the object. */
  ghost predicate WaveStart(s: Network, w: Wave, crc: Crc) {
    && ValidWave(w)
    && (forall i :: 0 <= i < |s.nodes| ==>
          var n := s.nodes[i]; Shaped(n) && |n.pages| == w.npages && (Outdated(n, w) || Updated(n, w)))
    && (forall m <- s.sent :: MsgInWave(m, w, crc))
  }

  /** The end of one wave is the start of the next, as soon as the requests of the first
      are no longer in flight. */
  lemma NextWave(s: Network, w: Wave, later: Wave, crc: Crc, inFlight: set<Msg>)
    requires InWave(s, w, crc) && forall i :: 0 <= i < |s.nodes| ==> Updated(s.nodes[i], w)
    requires ValidWave(later) && later.prior == w.next && later.npages == w.npages
    requires inFlight <= s.sent && forall m <- inFlight :: m.Request? && m.pagenum < w.npages ==> m.version != w.next
    ensures WaveStart(Network(s.nodes, inFlight), later, crc)
  {
    hide Chunk, FilePage;
    forall i | 0 <= i < |s.nodes|
      ensures var n := s.nodes[i]; Shaped(n) && |n.pages| == later.npages && Outdated(n, later)
    {
      assert NodeInWave(s.nodes[i], w);
    }
    forall m | m in inFlight ensures MsgInWave(m, later, crc) {
      assert MsgInWave(m, w, crc);
    }
  }

  lemma StartInWave(s: Network, w: Wave, crc: Crc)
    requires WaveStart(s, w, crc)
    ensures InWave(s, w, crc)
  {
    hide MsgInWave, Outdated, Updated, Updating;
    forall i | 0 <= i < |s.nodes| ensures NodeInWave(s.nodes[i], w) {
      assert Outdated(s.nodes[i], w) || Updated(s.nodes[i], w);
    }
  }

  lemma NodeHasUpdate(n: Node, w: Wave)
    requires ValidWave(w) && NodeInWave(n, w)
    ensures n.version == w.prior || (n.version == w.next && n.file == w.source)
    ensures n.updateVersion == w.next ==>
              forall i :: 0 <= i < w.npages && n.pages[i].complete ==> FilePage(n.file, i) == FilePage(w.source, i)
  {
    hide FilePage, Chunk;
    if Updating(n, w) {
      forall i | 0 <= i < w.npages && n.pages[i].complete ensures FilePage(n.file, i) == FilePage(w.source, i) {
        assert HasPage(n, w, i);
      }
    }
  }

  /** Whatever is lost, duplicated, reordered or delayed: after any run every node
      with the update's version holds exactly the source file, every complete page
      of a node that knows of the update is the source's, and every packet of the
      update ever sent carries the source's bytes. */
  lemma Dissemination(s: Network, es: seq<Event>, w: Wave, crc: Crc, i: nat)
    requires WaveStart(s, w, crc) && i < |s.nodes|
    ensures var r := Run(s, es, crc);
            |r.nodes| == |s.nodes|
            && var n := r.nodes[i];
            && Shaped(n) && |n.pages| == w.npages
            && (n.version == w.prior || n.version == w.next)
            && (n.version == w.next ==> n.file == w.source)
            && (n.updateVersion == w.next ==>
                  forall p :: 0 <= p < w.npages && n.pages[p].complete ==> FilePage(n.file, p) == FilePage(w.source, p))
            && (forall m <- r.sent :: m.Packet? && m.version == w.next ==>
                  m.pagenum < w.npages && m.packetnum < N_PKT
                  && m.payload == Chunk(FilePage(w.source, m.pagenum), m.packetnum))
  {
    hide FilePage, Chunk, NodeInWave, MsgInWave, Run;
    StartInWave(s, w, crc);
    RunInWave(s, es, w, crc);
    var r := Run(s, es, crc);
    InWaveShaped(r, w, crc);
    NodeShape(r.nodes[i], w);
    NodeHasUpdate(r.nodes[i], w);
    forall m | m in r.sent && m.Packet? && m.version == w.next
      ensures m.pagenum < w.npages && m.packetnum < N_PKT
              && m.payload == Chunk(FilePage(w.source, m.pagenum), m.packetnum)
    {
      PacketOfWave(m, w, crc);
    }
  }

  lemma NodeShape(n: Node, w: Wave)
    requires ValidWave(w) && NodeInWave(n, w)
    ensures Shaped(n) && |n.pages| == w.npages
  {
  }

  lemma PacketOfWave(m: Msg, w: Wave, crc: Crc)
    requires ValidWave(w) && MsgInWave(m, w, crc) && m.Packet? && m.version == w.next
    ensures m.pagenum < w.npages && m.packetnum < N_PKT
            && m.payload == Chunk(FilePage(w.source, m.pagenum), m.packetnum)
  {
  }

  // ---------------------------------------------------------------------------
  // The wave reaches a node that gets every packet
  // ---------------------------------------------------------------------------

  ghost function SourcePacket(w: Wave, crc: Crc, p: nat, k: nat): (m: Msg)
    requires ValidWave(w) && p < w.npages && k < N_PKT
    ensures m.Packet? && MsgInWave(m, w, crc)
  {
    var payload := Chunk(FilePage(w.source, p), k);
    Packet(w.next, p, k, crc(payload), payload)
  }

  /** A node after the first `k` packets of page `p`. */
  ghost function Feed(n: Node, w: Wave, crc: Crc, p: nat, k: nat): (r: Node)
    requires ValidWave(w) && NodeInWave(n, w) && p < w.npages && k <= N_PKT
    ensures NodeInWave(r, w)
  {
    if k == 0 then n
    else
      var prev := Feed(n, w, crc, p, k - 1);
      var m := SourcePacket(w, crc, p, k - 1);
      PacketInWave(prev, m, w, crc, 0);
      HandlePacket(prev, m, crc, 0)
  }

  /** Page `p` is done or its first `k` packets are there. */
  ghost predicate Progress(r: Node, w: Wave, p: nat, k: nat)
    requires ValidWave(w) && NodeInWave(r, w)
  {
    || Updated(r, w)
    || (Updating(r, w) && (r.currentRxPage > p
                           || (r.currentRxPage == p && forall j :: 0 <= j < k ==> j in r.pages[p].packetSet)))
  }

  lemma {:induction false} FeedProgress(n: Node, w: Wave, crc: Crc, p: nat, k: nat)
    requires ValidWave(w) && NodeInWave(n, w) && p < w.npages && k <= N_PKT
    requires Updated(n, w) || (Updating(n, w) && n.currentRxPage >= p)
    ensures Progress(Feed(n, w, crc, p, k), w, p, k)
  {
    hide Chunk, FilePage, SetChunk, SetFilePage, HandlePacket, HasPage, HasPackets;
    if k > 0 {
      FeedProgress(n, w, crc, p, k - 1);
      var prev := Feed(n, w, crc, p, k - 1);
      var m := SourcePacket(w, crc, p, k - 1);
      PacketInWave(prev, m, w, crc, 0);
      PacketProgress(prev, m, w, crc);
    }
  }

  lemma PacketProgress(n: Node, m: Msg, w: Wave, crc: Crc)
    requires ValidWave(w) && NodeInWave(n, w) && MsgInWave(m, w, crc) && m.Packet? && m.version == w.next
    requires Progress(n, w, m.pagenum, m.packetnum) && NodeInWave(HandlePacket(n, m, crc, 0), w)
    ensures Progress(HandlePacket(n, m, crc, 0), w, m.pagenum, m.packetnum + 1)
  {
    hide Chunk, FilePage, SetChunk, SetFilePage, HandlePacket, HasPage, HasPackets;
    if Accepted(n, m, crc) {
      PacketAccepted(n, m, crc, 0);
    } else {
      PacketRejected(n, m, crc, 0);
    }
  }

  /** A node after every packet of pages `p` onwards. */
  ghost function FeedAll(n: Node, w: Wave, crc: Crc, p: nat): (r: Node)
    requires ValidWave(w) && NodeInWave(n, w) && p <= w.npages
    ensures NodeInWave(r, w)
    decreases w.npages - p
  {
    if p == w.npages then n else FeedAll(Feed(n, w, crc, p, N_PKT), w, crc, p + 1)
  }

  /** A node that is collecting the update and is handed every packet of the pages it
      misses, in order, ends with the update installed. */
  lemma {:induction false} EveryPacketUpdates(n: Node, w: Wave, crc: Crc, p: nat)
    requires ValidWave(w) && NodeInWave(n, w) && p <= w.npages
    requires Updated(n, w) || (Updating(n, w) && n.currentRxPage >= p)
    ensures Updated(FeedAll(n, w, crc, p), w)
    decreases w.npages - p
  {
    hide Chunk, FilePage, SetChunk, SetFilePage, HandlePacket, HasPage, HasPackets;
    if p < w.npages {
      FeedProgress(n, w, crc, p, N_PKT);
      var r := Feed(n, w, crc, p, N_PKT);
      if !Updated(r, w) && r.currentRxPage == p {
        AllFour(r.pages[p].packetSet);
      }
      EveryPacketUpdates(r, w, crc, p + 1);
    }
  }

  lemma AllFour(s: set<nat>)
    requires s <= ALL_PACKETS && forall j :: 0 <= j < N_PKT ==> j in s
    ensures s == ALL_PACKETS
  {
  }

  // ---------------------------------------------------------------------------
  // Why old requests are excluded
  // ---------------------------------------------------------------------------

  /** A node that is collecting the update still answers requests for the prior
      version, and labels the packets of the page it has not received yet with the
      update's version: such a packet is right only where its old file happens to
      agree with the source. */
  lemma OldRequestMislabels(n: Node, w: Wave, crc: Crc, k: nat, now: nat)
    requires ValidWave(w) && NodeInWave(n, w) && Updating(n, w) && k < N_PKT
    ensures var p := n.currentRxPage;
            var r := HandleRequest(n, Request(w.prior, p, {k}), now);
            && Shaped(r) && r.txArmed
            && TxCallback(r, crc).1 == {PagePacket(n, p, k, crc)}
            && (MsgInWave(PagePacket(n, p, k, crc), w, crc)
                <==> Chunk(FilePage(n.file, p), k) == Chunk(FilePage(w.source, p), k))
  {
    hide Chunk, FilePage, HasPage, HasPackets;
    var p := n.currentRxPage;
    assert HighestAvailable(n.pages) == p;
    var r := HandleRequest(n, Request(w.prior, p, {k}), now);
    assert r.txSet == {k} && r.currentTxPage == p;
    assert r.pages == n.pages[p := n.pages[p].(lastRequest := now)];
    assert PagePacket(r, p, k, crc) == PagePacket(n, p, k, crc);
  }

  // ---------------------------------------------------------------------------
  // Which updates the dispatcher lets through
  // ---------------------------------------------------------------------------

  /** Bytes of a profile in front of its versions. */
  const PROFILE_HEADER: nat := 4

  /** The length test of command_dispatcher for a profile that was received with `len`
      bytes: it takes the version of the first page for the size of an entry. */
  predicate Fits(vector: seq<nat>, len: nat) {
    len >= PROFILE_HEADER && len >= PROFILE_HEADER + |vector| * (if vector == [] then 0 else vector[0])
  }

  /** The length of a profile as send_profile makes it: one byte for each page. */
  function ProfileLength(vector: seq<nat>): nat {
    PROFILE_HEADER + |vector|
  }

  /** Messages that reach their handler. Those of other kinds always have the length that
      is asked for. */
  predicate Dispatched(m: Msg) {
    m.Profile? ==> Fits(m.vector, ProfileLength(m.vector))
  }

  /** A profile reaches handle_profile exactly when its first page has version 0 or 1. */
  lemma DispatchedExactly(m: Msg)
    requires m.Profile? && m.vector != []
    ensures Dispatched(m) <==> m.vector[0] <= 1
  {
    AtMostItself(|m.vector|, m.vector[0]);
  }

  lemma AtMostItself(n: nat, k: nat)
    requires 0 < n
    ensures n * k <= n <==> k <= 1
  {
    if k >= 2 {
      assert n * k == n * 2 + n * (k - 2) && n * (k - 2) >= 0;
    }
  }

  /** A node learns of an update from a profile exactly when the update is version 1. */
  lemma ProfileHeardExactly(n: Node, m: Msg, w: Wave, crc: Crc)
    requires ValidWave(w) && NodeInWave(n, w) && Outdated(n, w)
    requires MsgInWave(m, w, crc) && m.Profile? && m.version == w.next
    ensures Updating(HandleProfile(n, m), w)
    ensures Dispatched(m) <==> w.next == 1
  {
    hide FilePage, Chunk;
    ProfileInWave(n, m, w, crc);
    DispatchedExactly(m);
  }

  /** Runs of the program deliver only what its dispatcher lets through. */
  predicate OnlyDispatched(es: seq<Event>) {
    forall k :: 0 <= k < |es| && es[k].Deliver? ==> Dispatched(es[k].m)
  }

  /** No message that is let through tells an outdated node of an update above version 1. */
  lemma StaysOutdated(n: Node, m: Msg, w: Wave, crc: Crc, now: nat)
    requires ValidWave(w) && NodeInWave(n, w) && Outdated(n, w) && MsgInWave(m, w, crc) && ValidFor(n, m)
    requires w.next >= 2 && Dispatched(m)
    ensures Outdated(Handle(n, m, crc, now), w) && Handle(n, m, crc, now).file == n.file
  {
    hide FilePage, Chunk, HandleSummary, HandleRequest, HandlePacket;
    HandleInWave(n, m, w, crc, now);
    match m
    case Packet(_, _, _, _, _) => PacketRejected(n, m, crc, now);
    case Profile(_, _) => if m.version == w.next { DispatchedExactly(m); }
    case Summary(_, _) => SummarySameUpdate(n, m, now);
    case Request(_, _, _) => RequestSameUpdate(n, m, now);
  }

  lemma StepStaysOutdated(s: Network, e: Event, w: Wave, crc: Crc, i: nat)
    requires InWave(s, w, crc) && i < |s.nodes| && Outdated(s.nodes[i], w)
    requires w.next >= 2 && (e.Deliver? ==> Dispatched(e.m))
    ensures i < |Step(s, e, crc).nodes|
    ensures Outdated(Step(s, e, crc).nodes[i], w) && Step(s, e, crc).nodes[i].file == s.nodes[i].file
  {
    hide MsgInWave, Handle, HandlePacket, FilePage, Chunk, Dispatched, ValidFor;
    InWaveShaped(s, w, crc);
    StepInWave(s, e, w, crc);
    var n := s.nodes[i];
    match e
    case Deliver(to, m, now) =>
      if to == i && m in s.sent && ValidFor(n, m) { StaysOutdated(n, m, w, crc, now); }
    case RequestTimer(_, behind) => RequestTimerSameUpdate(n, behind);
    case SummaryTimer(_) =>
    case ProfileTimer(_) => ProfileTimerSameUpdate(n);
    case TxTimer(_) => TxTimerSameUpdate(n, crc);
    case Round(_) => RoundSameUpdate(n);
  }

  /** So no update above version 1 spreads: a node that has not got it keeps its version
      and its file in every run. */
  lemma {:induction false} NewerNeverSpreads(s: Network, es: seq<Event>, w: Wave, crc: Crc, i: nat)
    requires WaveStart(s, w, crc) && w.next >= 2 && OnlyDispatched(es)
    requires i < |s.nodes| && Outdated(s.nodes[i], w)
    ensures i < |Run(s, es, crc).nodes|
    ensures Outdated(Run(s, es, crc).nodes[i], w) && Run(s, es, crc).nodes[i].file == s.nodes[i].file
    decreases |es|
  {
    hide Step, Outdated, InWave, WaveStart, Dispatched;
    StartInWave(s, w, crc);
    if es != [] {
      var front := es[..|es| - 1];
      NewerNeverSpreads(s, front, w, crc, i);
      RunInWave(s, front, w, crc);
      StepStaysOutdated(Run(s, front, crc), es[|es| - 1], w, crc, i);
    }
  }
}
