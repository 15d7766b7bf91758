/**
 The Deluge handlers as the program runs them: they update the fields of the object,
 its page table, the buffer of the page being received and the file. Every method
 leaves the state that the corresponding function of module Deluge gives.
 */
module DelugeNode {
  import opened Bytes
  import opened Deluge

  class DelugeNode {
    var version: nat
    var updateVersion: nat
    var pages: array<Page>
    var currentRxPage: nat
    var currentTxPage: int
    var nrequests: nat
    var txSet: set<nat>
    const currentPage: array<byte>
    const file: array<byte>
    var mode: Mode
    var rxArmed: bool
    var txArmed: bool
    var neighborInconsistency: bool
    var rInterval: nat
    var recvAdv: nat
    var broadcastProfile: bool

    function State(): Node
      reads this, pages, currentPage, file
    {
      Node(version, updateVersion, pages[..], currentRxPage, currentTxPage, nrequests, txSet,
           currentPage[..], file[..], mode, rxArmed, txArmed, neighborInconsistency,
           rInterval, recvAdv, broadcastProfile)
    }

    ghost predicate Valid()
      reads this, pages, currentPage, file
    {
      Shaped(State()) && currentPage != file
    }

    /** init_object: the node holds version `v` of the file with content `content`. */
    constructor (content: seq<byte>, npages: nat, v: nat)
      requires 0 < npages && |content| == npages * S_PAGE
      ensures Valid() && NodeInv(State()) && file[..] == content
      ensures version == v && AllComplete(State(), v) && txSet == {} && !rxArmed
    {
      version, updateVersion, currentRxPage, currentTxPage, nrequests, txSet := v, v, 0, 0, 0, {};
      mode, rxArmed, txArmed, neighborInconsistency := MAINTAIN, false, false, false;
      rInterval, recvAdv, broadcastProfile := T_LOW, 0, false;
      pages := new Page[npages](_ => Page(ALL_PACKETS, true, v, 0, 0));
      currentPage := new byte[S_PAGE](_ => 0);
      file := new byte[npages * S_PAGE](i requires 0 <= i < npages * S_PAGE && |content| == npages * S_PAGE => content[i]);
    }

    method ChangeMode(m: Mode)
      requires Valid()
      modifies this`mode, this`rxArmed, this`txArmed
      ensures Valid() && State() == Transition(old(State()), m)
    {
      if m != mode {
        match mode {
          case MAINTAIN =>
          case RX => rxArmed := false;
          case TX => txArmed := false;
        }
        mode := m;
      }
    }

    method WritePage(pagenum: nat)
      requires Valid() && pagenum < pages.Length
      modifies file
      ensures Valid() && file[..] == SetFilePage(old(file[..]), pagenum, currentPage[..])
    {
      var i := 0;
      while i < S_PAGE
        invariant 0 <= i <= S_PAGE
        invariant file[..] == old(file[..pagenum * S_PAGE]) + currentPage[..i] + old(file[pagenum * S_PAGE + i..])
      {
        file[pagenum * S_PAGE + i] := currentPage[i];
        i := i + 1;
      }
      assert currentPage[..S_PAGE] == currentPage[..];
      assert pagenum * S_PAGE + S_PAGE == (pagenum + 1) * S_PAGE;
    }

    method ReadPage(pagenum: nat) returns (buf: array<byte>)
      requires Valid() && pagenum < pages.Length
      ensures fresh(buf) && buf[..] == FilePage(file[..], pagenum)
    {
      buf := new byte[S_PAGE](_ => 0);
      var i := 0;
      while i < S_PAGE
        invariant 0 <= i <= S_PAGE
        invariant buf[..i] == file[pagenum * S_PAGE..pagenum * S_PAGE + i]
      {
        buf[i] := file[pagenum * S_PAGE + i];
        i := i + 1;
      }
      assert buf[..] == buf[..S_PAGE];
    }

    method HighestAvailablePage() returns (i: nat)
      requires Valid()
      ensures i == HighestAvailable(pages[..])
    {
      i := 0;
      while i < pages.Length
        invariant 0 <= i <= pages.Length
        invariant forall j :: 0 <= j < i ==> pages[j].complete
      {
        if !pages[i].complete {
          break;
        }
        i := i + 1;
      }
    }

    method FindOldest(highest: nat, now: nat) returns (request: nat, data: nat)
      requires Valid() && highest <= pages.Length
      ensures (request, data) == OldestTimes(pages[..], highest, now)
    {
      request, data := now, now;
      var i := 0;
      while i < highest
        invariant 0 <= i <= highest
        invariant (request, data) == OldestTimes(pages[..], i, now)
      {
        var p := pages[i];
        if p.lastRequest < request {
          request := p.lastRequest;
        }
        if p.lastRequest < data {
          data := p.lastData;
        }
        i := i + 1;
      }
    }

    method HandleSummaryMsg(m: Msg, now: nat)
      requires Valid() && m.Summary?
      modifies this
      ensures Valid() && pages == old(pages) && State() == HandleSummary(old(State()), m, now)
    {
      hide HighestAvailable, OldestTimes, Elapsed, Transition;
      var highest := HighestAvailablePage();
      if m.version != version || m.highest != highest {
        neighborInconsistency := true;
      } else {
        recvAdv := recvAdv + 1;
      }
      if m.version < version {
        broadcastProfile := true;
      }
      if m.version == updateVersion && m.highest > highest {
        if m.highest > pages.Length {
          return;
        }
        var request, data := FindOldest(m.highest, now);
        if Elapsed(now, request) <= 2 * rInterval || Elapsed(now, data) <= rInterval {
          return;
        }
        ChangeMode(RX);
        if !rxArmed {
          rxArmed := true;
        }
      }
    }

    method HandleRequestMsg(m: Msg, now: nat)
      requires Valid() && m.Request?
      modifies this, pages
      ensures Valid() && pages == old(pages) && State() == HandleRequest(old(State()), m, now)
    {
      hide HighestAvailable, Transition;
      if m.pagenum >= pages.Length {
        return;
      }
      if m.version != version {
        neighborInconsistency := true;
      }
      var highest := HighestAvailablePage();
      if m.version == version && m.pagenum <= highest {
        pages[m.pagenum] := pages[m.pagenum].(lastRequest := now);
        if m.pagenum == currentTxPage {
          txSet := txSet + m.requestSet;
        } else {
          currentTxPage := m.pagenum;
          txSet := m.requestSet;
        }
        ChangeMode(TX);
        txArmed := true;
      }
    }

    /** memcpy of a payload into the page buffer. */
    method CopyPayload(k: nat, payload: seq<byte>)
      requires Valid() && k < N_PKT && |payload| == S_PKT
      modifies currentPage
      ensures Valid() && currentPage[..] == SetChunk(old(currentPage[..]), k, payload)
    {
      var i := 0;
      while i < S_PKT
        invariant 0 <= i <= S_PKT
        invariant currentPage[..] == old(currentPage[..k * S_PKT]) + payload[..i] + old(currentPage[k * S_PKT + i..])
      {
        currentPage[k * S_PKT + i] := payload[i];
        i := i + 1;
      }
    }

    method CompletePage(p: nat)
      requires Valid() && p < pages.Length && p == currentRxPage
      modifies this, pages, file
      ensures Valid() && pages == old(pages) && State() == FinishPage(old(State()), p)
    {
      hide SetFilePage, Transition;
      WritePage(p);
      pages[p] := pages[p].(complete := true);
      currentRxPage := currentRxPage + 1;
      if p == pages.Length - 1 {
        version := updateVersion;
      } else if currentRxPage < pages.Length {
        if !rxArmed {
          rxArmed := true;
        }
      }
      ChangeMode(MAINTAIN);
    }

    method HandlePacketMsg(m: Msg, crc: Crc, now: nat)
      requires Valid() && ValidPacket(State(), m)
      modifies this, pages, currentPage, file
      ensures Valid() && pages == old(pages) && State() == HandlePacket(old(State()), m, crc, now)
    {
      hide SetChunk, SetFilePage, FinishPage, Transition;
      if m.pagenum != currentRxPage {
        return;
      }
      if m.version != version {
        neighborInconsistency := true;
      }
      var p := m.pagenum;
      if m.version == pages[p].version && !pages[p].complete {
        CopyPayload(m.packetnum, m.payload);
        if m.crc != crc(m.payload) {
          return;
        }
        pages[p] := pages[p].(lastData := now, packetSet := pages[p].packetSet + {m.packetnum});
        if pages[p].packetSet == ALL_PACKETS {
          CompletePage(p);
        }
      }
    }

    /** The reallocated page table, with the pages of which the vector has a newer
        version emptied. */
    method ResetNewer(vector: seq<nat>)
      requires Valid() && |vector| == pages.Length
      modifies this`pages
      ensures Valid() && fresh(pages) && State() == old(State()).(pages := ResetPages(old(pages[..]), vector))
    {
      var npages := pages.Length;
      ghost var before := pages[..];
      var p := new Page[npages](_ => Page({}, false, 0, 0, 0));
      var k := 0;
      while k < npages
        invariant 0 <= k <= npages && pages == old(pages) && before == pages[..]
        invariant forall j :: 0 <= j < k ==> p[j] == before[j]
      {
        p[k] := pages[k];
        k := k + 1;
      }
      pages := p;
      var i := 0;
      while i < npages
        invariant 0 <= i <= npages && pages == p
        invariant forall j :: 0 <= j < i ==> p[j] == ResetPage(before[j], vector[j])
        invariant forall j :: i <= j < npages ==> p[j] == before[j]
      {
        if vector[i] > p[i].version {
          p[i] := p[i].(packetSet := {}, complete := false, version := vector[i]);
        }
        i := i + 1;
      }
      assert pages[..] == ResetPages(before, vector);
    }

    method HandleProfileMsg(m: Msg)
      requires Valid() && m.Profile? && |m.vector| == pages.Length
      modifies this
      ensures Valid() && State() == HandleProfile(old(State()), m)
    {
      hide ResetPages, HighestAvailable, Transition;
      if m.version <= updateVersion {
        return;
      }
      txSet := {};
      ResetNewer(m.vector);
      currentRxPage := HighestAvailablePage();
      updateVersion := m.version;
      ChangeMode(RX);
      rxArmed := true;
    }

    /** command_dispatcher, for messages with the lengths with which they are sent. */
    method CommandDispatcher(m: Msg, crc: Crc, now: nat)
      requires Valid() && ValidFor(State(), m)
      modifies this, pages, currentPage, file
      ensures Valid() && State() == if Dispatched(m) then Handle(old(State()), m, crc, now) else old(State())
    {
      hide HandleSummary, HandleRequest, HandlePacket, HandleProfile;
      match m {
        case Summary(_, _) => HandleSummaryMsg(m, now);
        case Request(_, _, _) => HandleRequestMsg(m, now);
        case Packet(_, _, _, _, _) => HandlePacketMsg(m, crc, now);
        case Profile(_, vector) =>
          if Deluge.Fits(vector, ProfileLength(vector)) {
            HandleProfileMsg(m);
          }
      }
    }

    /** send_request; `behind` is what lies behind the page table. */
    method FireRequest(behind: Page) returns (m: Msg)
      requires Valid() && rxArmed
      modifies this
      ensures Valid() && (State(), {m}) == SendRequest(old(State()), behind)
    {
      var page := if currentRxPage < pages.Length then pages[currentRxPage] else behind;
      m := Request(page.version, currentRxPage, REQUEST_BITS - page.packetSet);
      nrequests := nrequests + 1;
      if nrequests == CONST_LAMBDA {
        nrequests := 0;
        rxArmed := false;
        ChangeMode(MAINTAIN);
      } else {
        rxArmed := true;
      }
    }

    method FireSummary() returns (ms: seq<Msg>)
      requires Valid()
      ensures (set m <- ms) == AdvertiseSummary(State())
    {
      if recvAdv >= CONST_K {
        return [];
      }
      var highest := HighestAvailablePage();
      return [Summary(updateVersion, highest)];
    }

    method FireProfile() returns (ms: seq<Msg>)
      requires Valid()
      modifies this
      ensures Valid() && (State(), set m <- ms) == SendProfile(old(State()))
    {
      if broadcastProfile && recvAdv < CONST_K {
        broadcastProfile := false;
        var vector := [];
        var i := 0;
        while i < pages.Length
          invariant 0 <= i <= pages.Length
          invariant vector == Versions(pages[..i])
          invariant !broadcastProfile && State() == old(State()).(broadcastProfile := false)
        {
          vector := vector + [pages[i].version];
          i := i + 1;
        }
        assert pages[..] == pages[..i];
        assert (set m <- [Profile(version, vector)]) == {Profile(version, vector)};
        ms := [Profile(version, vector)];
      } else {
        ms := [];
        assert (set m <- ms) == {};
      }
    }

    /** send_page: the packets of the page that were asked for, in order. */
    method SendPage(pagenum: nat, crc: Crc) returns (ms: seq<Msg>)
      requires Valid() && pagenum < pages.Length
      modifies this`txSet
      ensures Valid() && State() == old(State()).(txSet := {})
      ensures ms == Selected(old(State()), pagenum, N_PKT, crc)
    {
      var buf := ReadPage(pagenum);
      ms := [];
      var k := 0;
      while k < N_PKT
        invariant 0 <= k <= N_PKT && State() == old(State())
        invariant ms == Selected(State(), pagenum, k, crc)
        invariant buf[..] == FilePage(file[..], pagenum)
      {
        if k in txSet {
          var payload := buf[k * S_PKT..(k + 1) * S_PKT];
          assert payload == Chunk(buf[..], k);
          ms := ms + [Packet(pages[pagenum].version, pagenum, k, crc(payload), payload)];
        }
        k := k + 1;
      }
      txSet := {};
    }

    method FireTx(crc: Crc) returns (ms: seq<Msg>)
      requires Valid() && txArmed
      modifies this
      ensures Valid() && (State(), set m <- ms) == TxCallback(old(State()), crc)
    {
      ms := [];
      assert (set m <- ms) == {};
      if currentTxPage >= 0 && txSet != {} {
        SelectedSet(State(), currentTxPage, crc);
        ms := SendPage(currentTxPage, crc);
        currentTxPage := -1;
        txArmed := false;
        ChangeMode(MAINTAIN);
      } else {
        txArmed := false;
      }
    }
  }

  /** The packets among the first `k` of a page that the node was asked for. */
  function Selected(n: Node, pagenum: nat, k: nat, crc: Crc): (ms: seq<Msg>)
    requires pagenum < |n.pages| && |n.file| == |n.pages| * S_PAGE && k <= N_PKT
  {
    if k == 0 then []
    else Selected(n, pagenum, k - 1, crc) + if k - 1 in n.txSet then [PagePacket(n, pagenum, k - 1, crc)] else []
  }

  lemma {:induction false} SelectedPackets(n: Node, pagenum: nat, k: nat, crc: Crc)
    requires pagenum < |n.pages| && |n.file| == |n.pages| * S_PAGE && k <= N_PKT
    ensures forall m :: m in Selected(n, pagenum, k, crc) <==>
                          exists j: nat :: j < k && j in n.txSet && m == PagePacket(n, pagenum, j, crc)
  {
    hide PagePacket;
    if k > 0 {
      SelectedPackets(n, pagenum, k - 1, crc);
      var prev := Selected(n, pagenum, k - 1, crc);
      forall m
        ensures m in Selected(n, pagenum, k, crc)
                <==> m in prev || (k - 1 in n.txSet && m == PagePacket(n, pagenum, k - 1, crc))
      {
      }
    }
  }

  lemma SelectedSet(n: Node, pagenum: nat, crc: Crc)
    requires pagenum < |n.pages| && |n.file| == |n.pages| * S_PAGE
    ensures (set m <- Selected(n, pagenum, N_PKT, crc))
            == set k | k in ALL_PACKETS && k in n.txSet :: PagePacket(n, pagenum, k, crc)
  {
    hide PagePacket, Selected;
    SelectedPackets(n, pagenum, N_PKT, crc);
    var sent := set k | k in ALL_PACKETS && k in n.txSet :: PagePacket(n, pagenum, k, crc);
    forall m ensures m in Selected(n, pagenum, N_PKT, crc) <==> m in sent {
      if m in Selected(n, pagenum, N_PKT, crc) {
        var j: nat :| j < N_PKT && j in n.txSet && m == PagePacket(n, pagenum, j, crc);
        assert j in ALL_PACKETS;
      }
    }
  }
}
