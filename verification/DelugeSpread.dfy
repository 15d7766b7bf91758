/**
 How an update gets from one node to another: a node asks for the packets it lacks, a
 node that has the update answers with them, and from every state of a wave there is a
 run in which a given node gets the whole update.
 */
module DelugeSpread {
  import opened Bytes
  import opened Deluge

  // ---------------------------------------------------------------------------
  // Asking and answering
  // ---------------------------------------------------------------------------

  /** A node asks for the page it is receiving, in the update's version, and among the
      packets of a page for exactly those that it has not got. */
  lemma AsksExactly(n: Node, w: Wave, behind: Page)
    requires ValidWave(w) && NodeInWave(n, w) && Updating(n, w)
    ensures exists m :: SendRequest(n, behind).1 == {m} && m.Request? && m.version == w.next && m.pagenum == n.currentRxPage
                        && forall k :: 0 <= k < N_PKT ==> (k in m.requestSet <==> k !in n.pages[n.currentRxPage].packetSet)
  {
    hide Chunk, FilePage;
    var m := Request(w.next, n.currentRxPage, REQUEST_BITS - n.pages[n.currentRxPage].packetSet);
    assert SendRequest(n, behind).1 == {m};
  }

  /** A node that has the update takes up a request for any page of it, and its timer then
      sends every packet that was asked for, as the source has it. */
  lemma AnswersAll(u: Node, w: Wave, crc: Crc, p: nat, asked: set<nat>, now: nat)
    requires ValidWave(w) && NodeInWave(u, w) && Updated(u, w) && p < w.npages
    ensures var r := HandleRequest(u, Request(w.next, p, asked), now);
            && Shaped(r) && r.txArmed && asked <= r.txSet && r.currentTxPage == p
            && forall k :: k in asked && k < N_PKT ==> SourcePacket(w, crc, p, k) in TxCallback(r, crc).1
  {
    hide Chunk, FilePage;
    AllAvailable(u);
    var r := HandleRequest(u, Request(w.next, p, asked), now);
    RequestSameUpdate(u, Request(w.next, p, asked), now);
    forall k | k in asked && k < N_PKT
      ensures SourcePacket(w, crc, p, k) in TxCallback(r, crc).1
    {
      assert k in r.txSet && k in ALL_PACKETS;
      assert PagePacket(r, p, k, crc) == SourcePacket(w, crc, p, k);
    }
  }

  lemma AllAvailable(u: Node)
    requires forall i :: 0 <= i < |u.pages| ==> u.pages[i].complete
    ensures HighestAvailable(u.pages) == |u.pages|
  {
  }

  predicate Numbers(ks: seq<nat>) {
    forall i :: 0 <= i < |ks| ==> ks[i] < N_PKT
  }

  /** The packets with the given numbers of page `p`, one after the other. */
  ghost function Feeding(n: Node, w: Wave, crc: Crc, p: nat, ks: seq<nat>): (r: Node)
    requires ValidWave(w) && NodeInWave(n, w) && p < w.npages && Numbers(ks)
    ensures NodeInWave(r, w)
    decreases |ks|
  {
    if ks == [] then n
    else
      var prev := Feeding(n, w, crc, p, ks[..|ks| - 1]);
      var m := SourcePacket(w, crc, p, ks[|ks| - 1]);
      PacketInWave(prev, m, w, crc, 0);
      HandlePacket(prev, m, crc, 0)
  }

  /** The page is done, or the packets in `got` are there. */
  ghost predicate Holds(r: Node, w: Wave, p: nat, got: set<nat>)
    requires ValidWave(w) && NodeInWave(r, w)
  {
    Updated(r, w) || (Updating(r, w) && (r.currentRxPage > p || (r.currentRxPage == p && got <= r.pages[p].packetSet)))
  }

  lemma PacketHeld(n: Node, w: Wave, crc: Crc, p: nat, k: nat, got: set<nat>, now: nat)
    requires ValidWave(w) && NodeInWave(n, w) && p < w.npages && k < N_PKT && Holds(n, w, p, got)
    ensures NodeInWave(HandlePacket(n, SourcePacket(w, crc, p, k), crc, now), w)
    ensures Holds(HandlePacket(n, SourcePacket(w, crc, p, k), crc, now), w, p, got + {k})
  {
    hide Chunk, FilePage, SetChunk, SetFilePage, HandlePacket, HasPage, HasPackets;
    var m := SourcePacket(w, crc, p, k);
    PacketInWave(n, m, w, crc, now);
    if Accepted(n, m, crc) {
      PacketAccepted(n, m, crc, now);
    } else {
      PacketRejected(n, m, crc, now);
    }
  }

  /** A page is never left with all of its packets. */
  lemma HoldsAll(r: Node, w: Wave, p: nat, got: set<nat>)
    requires ValidWave(w) && NodeInWave(r, w) && Holds(r, w, p, got) && ALL_PACKETS <= got
    ensures Updated(r, w) || (Updating(r, w) && r.currentRxPage > p)
  {
    hide HasPage, HasPackets;
    if Updating(r, w) {
      Antisymmetric(r.pages[r.currentRxPage].packetSet, ALL_PACKETS);
    }
  }

  lemma Antisymmetric(a: set<nat>, b: set<nat>)
    ensures a <= b && b <= a ==> a == b
  {
  }

  /** One round: the answer to a node's request, delivered in any order and with any
      repetitions, completes the page that it was receiving. */
  lemma {:induction false} RoundCompletesPage(n: Node, w: Wave, crc: Crc, ks: seq<nat>)
    requires ValidWave(w) && NodeInWave(n, w) && Updating(n, w) && Numbers(ks)
    requires forall k :: 0 <= k < N_PKT && k !in n.pages[n.currentRxPage].packetSet ==> k in ks
    ensures var r := Feeding(n, w, crc, n.currentRxPage, ks);
            Updated(r, w) || (Updating(r, w) && r.currentRxPage > n.currentRxPage)
  {
    hide HasPage, HasPackets, FilePage, Chunk, Feeding;
    var p := n.currentRxPage;
    var have := n.pages[p].packetSet;
    FeedingHolds(n, w, crc, ks);
    var got := have + set k <- ks;
    assert ALL_PACKETS <= got by {
      forall k | k in ALL_PACKETS ensures k in got { assert k in have || k in ks; }
    }
    HoldsAll(Feeding(n, w, crc, p, ks), w, p, got);
  }

  lemma {:induction false} FeedingHolds(n: Node, w: Wave, crc: Crc, ks: seq<nat>)
    requires ValidWave(w) && NodeInWave(n, w) && Updating(n, w) && Numbers(ks)
    ensures var p := n.currentRxPage;
            Holds(Feeding(n, w, crc, p, ks), w, p, n.pages[p].packetSet + set k <- ks)
    decreases |ks|
  {
    hide HasPage, HasPackets, FilePage, Chunk, HandlePacket, Updating, Updated;
    PageInWave(n, w);
    var p := n.currentRxPage;
    var have := n.pages[p].packetSet;
    if ks == [] {
      assert have + (set k <- ks) == have;
      HoldsAtFirst(n, w);
    } else {
      var front, k := ks[..|ks| - 1], ks[|ks| - 1];
      FeedingHolds(n, w, crc, front);
      PacketHeld(Feeding(n, w, crc, p, front), w, crc, p, k, have + (set k <- front), 0);
      assert (set k <- ks) == (set k <- front) + {k} by {
        assert ks == front + [k];
      }
      assert have + (set k <- ks) == have + (set k <- front) + {k};
    }
  }

  lemma PageInWave(n: Node, w: Wave)
    requires ValidWave(w) && NodeInWave(n, w) && Updating(n, w)
    ensures n.currentRxPage < w.npages == |n.pages|
  {
  }

  lemma HoldsAtFirst(n: Node, w: Wave)
    requires ValidWave(w) && NodeInWave(n, w) && Updating(n, w)
    ensures n.currentRxPage < |n.pages| && Holds(n, w, n.currentRxPage, n.pages[n.currentRxPage].packetSet)
  {
  }

  // ---------------------------------------------------------------------------
  // Summaries arm the request timer
  // ---------------------------------------------------------------------------

  /** The oldest request time that the program finds is the least of the pages listed. */
  lemma {:induction false} OldestIsLeast(pages: seq<Page>, k: nat, now: nat)
    requires k <= |pages|
    ensures var oldest := OldestTimes(pages, k, now).0;
            && oldest <= now && (forall i :: 0 <= i < k ==> oldest <= pages[i].lastRequest)
            && (oldest == now || exists i :: 0 <= i < k && pages[i].lastRequest == oldest)
    decreases k
  {
    if k > 0 {
      OldestIsLeast(pages, k - 1, now);
    }
  }

  lemma ElapsedMonotone(now: nat, a: nat, b: nat)
    requires a <= b
    ensures Elapsed(now, a) >= Elapsed(now, b) && Elapsed(now, now) == 0
  {
  }

  /** A summary makes a node ask exactly if it is of the version that the node collects,
      lists more complete pages than the node has and no more than the object has, some
      page listed was not asked for lately, and the data that it noted is old enough. */
  lemma SummaryArmsExactly(n: Node, m: Msg, now: nat)
    requires m.Summary? && !n.rxArmed
    ensures HandleSummary(n, m, now).rxArmed <==>
              && m.version == n.updateVersion && HighestAvailable(n.pages) < m.highest <= |n.pages|
              && (exists i :: 0 <= i < m.highest && Elapsed(now, n.pages[i].lastRequest) > 2 * n.rInterval)
              && Elapsed(now, OldestTimes(n.pages, m.highest, now).1) > n.rInterval
  {
    hide HighestAvailable, OldestTimes, Elapsed;
    if m.highest <= |n.pages| {
      OldestIsLeast(n.pages, m.highest, now);
      var oldest := OldestTimes(n.pages, m.highest, now).0;
      ElapsedMonotone(now, oldest, now);
      forall i | 0 <= i < m.highest
        ensures Elapsed(now, n.pages[i].lastRequest) <= Elapsed(now, oldest)
      {
        ElapsedMonotone(now, oldest, n.pages[i].lastRequest);
      }
    }
  }

  /** No page was asked for or received after this time. */
  function Latest(pages: seq<Page>): (t: nat)
    ensures forall i :: 0 <= i < |pages| ==> pages[i].lastRequest <= t && pages[i].lastData <= t
  {
    if pages == [] then 0
    else
      var p, rest := pages[|pages| - 1], Latest(pages[..|pages| - 1]);
      rest + p.lastRequest + p.lastData
  }

  lemma {:induction false} OldestBound(pages: seq<Page>, k: nat, now: nat)
    requires 0 < k <= |pages| && Latest(pages) < now
    ensures OldestTimes(pages, k, now).0 <= Latest(pages) && OldestTimes(pages, k, now).1 <= Latest(pages)
    decreases k
  {
    hide Latest;
    if k > 1 {
      OldestBound(pages, k - 1, now);
    } else {
      assert OldestTimes(pages, 0, now) == (now, now);
    }
  }

  /** A node that is collecting hears sooner or later of one that has the update. */
  lemma SummaryArms(n: Node, w: Wave) returns (now: nat)
    requires ValidWave(w) && NodeInWave(n, w) && Updating(n, w)
    ensures HandleSummary(n, Summary(w.next, w.npages), now).rxArmed
  {
    hide OldestTimes, HighestAvailable, Latest, HasPage, HasPackets;
    now := Latest(n.pages) + (2 * n.rInterval + 1) * CLOCK_SECOND;
    OldestBound(n.pages, w.npages, now);
    assert HighestAvailable(n.pages) == n.currentRxPage;
  }

  // ---------------------------------------------------------------------------
  // In the network
  // ---------------------------------------------------------------------------

  lemma {:induction false} RunConcat(s: Network, a: seq<Event>, b: seq<Event>, crc: Crc)
    ensures Run(s, a + b, crc) == Run(Run(s, a, crc), b, crc)
    decreases |b|
  {
    hide Step;
    if b == [] {
      assert a + b == a;
    } else {
      RunConcat(s, a, b[..|b| - 1], crc);
      assert (a + b)[..|a + b| - 1] == a + b[..|b| - 1];
    }
  }

  lemma RunOne(s: Network, e: Event, crc: Crc)
    ensures Run(s, [e], crc) == Step(s, e, crc)
  {
    hide Step;
    assert [e][..0] == [];
  }

  /** Node `i` is collecting the update, node `j` has it. */
  ghost predicate Pair(s: Network, w: Wave, crc: Crc, i: nat, j: nat) {
    && ValidWave(w) && InWave(s, w, crc) && i < |s.nodes| && j < |s.nodes|
    && NodeInWave(s.nodes[i], w) && Updating(s.nodes[i], w)
    && NodeInWave(s.nodes[j], w) && Updated(s.nodes[j], w)
  }

  /** A node that has the update keeps it in every step. */
  lemma StepKeepsUpdated(s: Network, e: Event, w: Wave, crc: Crc, j: nat)
    requires InWave(s, w, crc) && j < |s.nodes| && Updated(s.nodes[j], w)
    ensures j < |Step(s, e, crc).nodes| && Updated(Step(s, e, crc).nodes[j], w)
  {
    hide MsgInWave, Handle, FilePage, Chunk, ValidFor;
    InWaveShaped(s, w, crc);
    StepInWave(s, e, w, crc);
    InWaveShaped(Step(s, e, crc), w, crc);
    var u := s.nodes[j];
    match e
    case Deliver(to, m, now) => if to == j && m in s.sent && ValidFor(u, m) { HandleKeepsUpdated(u, m, w, crc, now); }
    case RequestTimer(_, behind) => RequestTimerSameUpdate(u, behind);
    case SummaryTimer(_) =>
    case ProfileTimer(_) => ProfileTimerSameUpdate(u);
    case TxTimer(_) => TxTimerSameUpdate(u, crc);
    case Round(_) => RoundSameUpdate(u);
  }

  lemma HandleKeepsUpdated(u: Node, m: Msg, w: Wave, crc: Crc, now: nat)
    requires ValidWave(w) && NodeInWave(u, w) && Updated(u, w) && MsgInWave(m, w, crc) && ValidFor(u, m)
    ensures Updated(Handle(u, m, crc, now), w)
  {
    hide FilePage, Chunk, HandleSummary, HandleRequest, HandlePacket;
    HandleInWave(u, m, w, crc, now);
    match m
    case Packet(_, _, _, _, _) => PacketRejected(u, m, crc, now);
    case Profile(_, _) =>
    case Summary(_, _) => SummarySameUpdate(u, m, now);
    case Request(_, _, _) => RequestSameUpdate(u, m, now);
  }

  /** Messages that have been sent stay available. */
  lemma StepKeepsSent(s: Network, e: Event, crc: Crc)
    ensures s.sent <= Step(s, e, crc).sent
  {
    hide Handle, SendRequest, AdvertiseSummary, SendProfile, TxCallback, NewRound, ValidFor;
  }

  lemma StillUpdating(n: Node, r: Node, w: Wave)
    requires ValidWave(w) && NodeInWave(n, w) && Updating(n, w) && NodeInWave(r, w) && SameUpdate(n, r)
    ensures Updating(r, w) && Same(n, r)
  {
    hide HasPage, HasPackets;
  }

  /** The same page is being received, with the same packets. */
  predicate Same(n: Node, r: Node) {
    && r.currentRxPage == n.currentRxPage && n.currentRxPage < |n.pages| == |r.pages|
    && r.pages[r.currentRxPage].packetSet == n.pages[n.currentRxPage].packetSet
  }

  /** An event that does not concern node `i` but leaves a pair a pair. */
  lemma OtherStep(s: Network, e: Event, w: Wave, crc: Crc, i: nat, j: nat)
    requires Pair(s, w, crc, i, j)
    requires match e
             case Deliver(to, _, _) => to == j
             case RequestTimer(k, _) => k == j
             case SummaryTimer(k) => true
             case ProfileTimer(k) => k == j
             case TxTimer(k) => k == j
             case Round(k) => k == j
    ensures Pair(Step(s, e, crc), w, crc, i, j) && Step(s, e, crc).nodes[i] == s.nodes[i]
  {
    hide MsgInWave, Handle, FilePage, Chunk, ValidFor, Updating, Updated, SendRequest, SendProfile, TxCallback, NewRound, Shaped;
    DifferentNodes(s, w, crc, i, j);
    StepInWave(s, e, w, crc);
    StepKeepsUpdated(s, e, w, crc, j);
    InWaveShaped(Step(s, e, crc), w, crc);
  }

  lemma DifferentNodes(s: Network, w: Wave, crc: Crc, i: nat, j: nat)
    requires Pair(s, w, crc, i, j)
    ensures i != j
  {
  }

  /** Node `j` advertises, and its summary reaches node `i` when that is ready to ask. */
  lemma ArmTimer(s: Network, w: Wave, crc: Crc, i: nat, j: nat) returns (es: seq<Event>, r: Network)
    requires Pair(s, w, crc, i, j)
    ensures r == Run(s, es, crc) && OnlyDispatched(es)
    ensures Pair(r, w, crc, i, j) && r.nodes[i].rxArmed && Same(s.nodes[i], r.nodes[i])
  {
    hide MsgInWave, Handle, FilePage, Chunk, Updating, Updated, Step, NodeInWave, InWave;
    var s1 := Step(s, Round(j), crc);
    OtherStep(s, Round(j), w, crc, i, j);
    var s2 := Step(s1, SummaryTimer(j), crc);
    OtherStep(s1, SummaryTimer(j), w, crc, i, j);
    SummarySent(s, w, crc, i, j);
    var now := SummaryArms(s2.nodes[i], w);
    var e := Deliver(i, Summary(w.next, w.npages), now);
    r := Step(s2, e, crc);
    SummaryHeard(s2, w, crc, i, j, now);
    es := [Round(j), SummaryTimer(j), e];
    RunThree(s, Round(j), SummaryTimer(j), e, crc);
  }

  lemma RunThree(s: Network, a: Event, b: Event, c: Event, crc: Crc)
    ensures Run(s, [a, b, c], crc) == Step(Step(Step(s, a, crc), b, crc), c, crc)
  {
    hide Step;
    RunOne(s, a, crc);
    assert [a, b][..1] == [a] && [a, b, c][..2] == [a, b];
  }

  lemma SummarySent(s: Network, w: Wave, crc: Crc, i: nat, j: nat)
    requires Pair(s, w, crc, i, j)
    ensures Summary(w.next, w.npages) in Step(Step(s, Round(j), crc), SummaryTimer(j), crc).sent
  {
    hide MsgInWave, FilePage, Chunk, HighestAvailable;
    var u := s.nodes[j];
    AllAvailable(u);
    var r := NewRound(u);
    assert AdvertiseSummary(r) == {Summary(w.next, w.npages)};
  }

  lemma SummaryHeard(s: Network, w: Wave, crc: Crc, i: nat, j: nat, now: nat)
    requires Pair(s, w, crc, i, j) && Summary(w.next, w.npages) in s.sent
    requires HandleSummary(s.nodes[i], Summary(w.next, w.npages), now).rxArmed
    ensures var r := Step(s, Deliver(i, Summary(w.next, w.npages), now), crc);
            Pair(r, w, crc, i, j) && r.nodes[i].rxArmed && Same(s.nodes[i], r.nodes[i])
  {
    hide MsgInWave, HandleSummary, FilePage, Chunk, Updating, Updated;
    DifferentNodes(s, w, crc, i, j);
    InWaveShaped(s, w, crc);
    var e := Deliver(i, Summary(w.next, w.npages), now);
    StepInWave(s, e, w, crc);
    InWaveShaped(Step(s, e, crc), w, crc);
    SummarySameUpdate(s.nodes[i], Summary(w.next, w.npages), now);
    StillUpdating(s.nodes[i], Step(s, e, crc).nodes[i], w);
  }

  /** The packets of page `p` that are not in `have` have been sent. */
  ghost predicate Sent(s: Network, w: Wave, crc: Crc, p: nat, have: set<nat>) {
    ValidWave(w) && p < w.npages && forall k :: 0 <= k < N_PKT && k !in have ==> SourcePacket(w, crc, p, k) in s.sent
  }

  /** Node `i` asks, and node `j` answers. */
  lemma AskAndAnswer(s: Network, w: Wave, crc: Crc, i: nat, j: nat) returns (es: seq<Event>, r: Network)
    requires Pair(s, w, crc, i, j) && s.nodes[i].rxArmed
    ensures r == Run(s, es, crc) && OnlyDispatched(es)
    ensures Pair(r, w, crc, i, j) && Same(s.nodes[i], r.nodes[i])
    ensures Sent(r, w, crc, r.nodes[i].currentRxPage, r.nodes[i].pages[r.nodes[i].currentRxPage].packetSet)
  {
    hide MsgInWave, Handle, FilePage, Chunk, Updating, Updated, Step, NodeInWave, InWave, SourcePacket;
    var behind := Page({}, false, 0, 0, 0);
    var e1 := RequestTimer(i, behind);
    var s1 := Step(s, e1, crc);
    var p, asked := RequestSent(s, w, crc, i, j, behind);
    var e2 := Deliver(j, Request(w.next, p, asked), 0);
    var s2 := Step(s1, e2, crc);
    r := Step(s2, TxTimer(j), crc);
    OtherStep(s1, e2, w, crc, i, j);
    OtherStep(s2, TxTimer(j), w, crc, i, j);
    RequestAnswered(s1, w, crc, i, j, p, asked);
    es := [e1, e2, TxTimer(j)];
    RunThree(s, e1, e2, TxTimer(j), crc);
  }

  lemma RequestSent(s: Network, w: Wave, crc: Crc, i: nat, j: nat, behind: Page) returns (p: nat, asked: set<nat>)
    requires Pair(s, w, crc, i, j) && s.nodes[i].rxArmed
    ensures var r := Step(s, RequestTimer(i, behind), crc);
            && Pair(r, w, crc, i, j) && Same(s.nodes[i], r.nodes[i]) && Request(w.next, p, asked) in r.sent
            && p == r.nodes[i].currentRxPage && p < w.npages
            && forall k :: 0 <= k < N_PKT ==> (k in asked <==> k !in r.nodes[i].pages[p].packetSet)
  {
    hide MsgInWave, FilePage, Chunk, Updating, Updated, SendRequest;
    DifferentNodes(s, w, crc, i, j);
    InWaveShaped(s, w, crc);
    var n, e := s.nodes[i], RequestTimer(i, behind);
    AsksExactly(n, w, behind);
    PageInWave(n, w);
    StepInWave(s, e, w, crc);
    InWaveShaped(Step(s, e, crc), w, crc);
    RequestTimerSameUpdate(n, behind);
    StillUpdating(n, Step(s, e, crc).nodes[i], w);
    var m :| SendRequest(n, behind).1 == {m} && m.Request? && m.version == w.next && m.pagenum == n.currentRxPage
             && forall k :: 0 <= k < N_PKT ==> (k in m.requestSet <==> k !in n.pages[n.currentRxPage].packetSet);
    p, asked := m.pagenum, m.requestSet;
    assert m == Request(w.next, p, asked);
  }

  lemma RequestAnswered(s: Network, w: Wave, crc: Crc, i: nat, j: nat, p: nat, asked: set<nat>)
    requires Pair(s, w, crc, i, j) && Request(w.next, p, asked) in s.sent && p < w.npages
    ensures var r := Step(Step(s, Deliver(j, Request(w.next, p, asked), 0), crc), TxTimer(j), crc);
            forall k :: k in asked && k < N_PKT ==> SourcePacket(w, crc, p, k) in r.sent
  {
    hide MsgInWave, FilePage, Chunk, Updating, HandleRequest, TxCallback, SourcePacket;
    InWaveShaped(s, w, crc);
    AnswersAll(s.nodes[j], w, crc, p, asked, 0);
  }

  // ---------------------------------------------------------------------------
  // A page, an update, every node
  // ---------------------------------------------------------------------------

  /** A page is done or the packets in `got` are there. */
  ghost predicate Half(s: Network, w: Wave, crc: Crc, i: nat, j: nat, p: nat, got: set<nat>) {
    && ValidWave(w) && InWave(s, w, crc) && i < |s.nodes| && j < |s.nodes|
    && NodeInWave(s.nodes[i], w) && Holds(s.nodes[i], w, p, got) && Updated(s.nodes[j], w)
  }

  lemma DeliverPacket(s: Network, w: Wave, crc: Crc, i: nat, j: nat, p: nat, got: set<nat>, k: nat)
    requires Half(s, w, crc, i, j, p, got) && p < w.npages && k < N_PKT && SourcePacket(w, crc, p, k) in s.sent
    ensures Half(Step(s, Deliver(i, SourcePacket(w, crc, p, k), 0), crc), w, crc, i, j, p, got + {k})
  {
    hide MsgInWave, FilePage, Chunk, HandlePacket, Updating, Updated, Holds;
    var e := Deliver(i, SourcePacket(w, crc, p, k), 0);
    InWaveShaped(s, w, crc);
    PacketHeld(s.nodes[i], w, crc, p, k, got, 0);
    StepInWave(s, e, w, crc);
    InWaveShaped(Step(s, e, crc), w, crc);
    StepKeepsUpdated(s, e, w, crc, j);
  }

  function First(k: nat): (r: set<nat>)
    ensures k == N_PKT ==> ALL_PACKETS <= r
  {
    if k == 0 then {} else First(k - 1) + {k - 1}
  }

  /** The packets of a page are delivered. */
  lemma {:induction false} DeliverAll(s: Network, w: Wave, crc: Crc, i: nat, j: nat, p: nat, have: set<nat>, k: nat)
      returns (es: seq<Event>, r: Network)
    requires Half(s, w, crc, i, j, p, have) && Sent(s, w, crc, p, have) && k <= N_PKT
    ensures r == Run(s, es, crc) && OnlyDispatched(es)
    ensures Half(r, w, crc, i, j, p, have + First(k)) && Sent(r, w, crc, p, have)
    decreases k
  {
    hide Half, Step, SourcePacket;
    if k == 0 {
      es, r := [], s;
      assert have + First(0) == have;
    } else {
      es, r := DeliverAll(s, w, crc, i, j, p, have, k - 1);
      var got := have + First(k - 1);
      assert got + {k - 1} == have + First(k);
      if k - 1 in have {
        assert got == got + {k - 1};
      } else {
        var e := Deliver(i, SourcePacket(w, crc, p, k - 1), 0);
        DeliverPacket(r, w, crc, i, j, p, got, k - 1);
        StepKeepsSent(r, e, crc);
        RunConcat(s, es, [e], crc);
        RunOne(r, e, crc);
        es, r := es + [e], Step(r, e, crc);
      }
    }
  }

  /** How much node `i` still lacks. */
  ghost function Lacks(s: Network, w: Wave, i: nat): nat {
    if i < |s.nodes| && s.nodes[i].currentRxPage < w.npages then w.npages - s.nodes[i].currentRxPage else 0
  }

  /** One page gets from node `j` to node `i`. */
  lemma NextPage(s: Network, w: Wave, crc: Crc, i: nat, j: nat) returns (es: seq<Event>, r: Network)
    requires Pair(s, w, crc, i, j)
    ensures r == Run(s, es, crc) && OnlyDispatched(es)
    ensures InWave(r, w, crc) && i < |r.nodes| && j < |r.nodes| && Updated(r.nodes[j], w)
    ensures Updated(r.nodes[i], w) || (Pair(r, w, crc, i, j) && Lacks(r, w, i) < Lacks(s, w, i))
  {
    hide Run, Half, Sent, Holds, Updating, Updated, NodeInWave, InWave;
    var es1, s1 := ArmTimer(s, w, crc, i, j);
    var es2, s2 := AskAndAnswer(s1, w, crc, i, j);
    var n := s2.nodes[i];
    var p := n.currentRxPage;
    var have := n.pages[p].packetSet;
    PageInWave(n, w);
    HalfAtFirst(s2, w, crc, i, j);
    var es3;
    es3, r := DeliverAll(s2, w, crc, i, j, p, have, N_PKT);
    PageDone(r, w, crc, i, j, p, have + First(N_PKT));
    es := es1 + es2 + es3;
    RunConcat(s, es1, es2, crc);
    RunConcat(s, es1 + es2, es3, crc);
  }

  lemma HalfAtFirst(s: Network, w: Wave, crc: Crc, i: nat, j: nat)
    requires Pair(s, w, crc, i, j)
    ensures var n := s.nodes[i];
            n.currentRxPage < |n.pages| && Half(s, w, crc, i, j, n.currentRxPage, n.pages[n.currentRxPage].packetSet)
  {
    hide InWave, NodeInWave, Updating, Updated;
    HoldsAtFirst(s.nodes[i], w);
  }

  lemma PageDone(s: Network, w: Wave, crc: Crc, i: nat, j: nat, p: nat, got: set<nat>)
    requires Half(s, w, crc, i, j, p, got) && ALL_PACKETS <= got
    ensures InWave(s, w, crc) && i < |s.nodes| && j < |s.nodes| && Updated(s.nodes[j], w)
    ensures Updated(s.nodes[i], w) || (Pair(s, w, crc, i, j) && s.nodes[i].currentRxPage > p)
  {
    hide InWave, Updating, Updated;
    HoldsAll(s.nodes[i], w, p, got);
    InWaveShaped(s, w, crc);
  }

  /** A node that is collecting the update can get all of it from one that has it. */
  lemma {:induction false} CatchesUp(s: Network, w: Wave, crc: Crc, i: nat, j: nat) returns (es: seq<Event>, r: Network)
    requires Pair(s, w, crc, i, j)
    ensures r == Run(s, es, crc) && OnlyDispatched(es)
    ensures InWave(r, w, crc) && i < |r.nodes| && j < |r.nodes| && Updated(r.nodes[j], w) && Updated(r.nodes[i], w)
    decreases Lacks(s, w, i)
  {
    hide Run, Pair, Updated, InWave;
    es, r := NextPage(s, w, crc, i, j);
    if !Updated(r.nodes[i], w) {
      var es2, r2 := CatchesUp(r, w, crc, i, j);
      RunConcat(s, es, es2, crc);
      es, r := es + es2, r2;
    }
  }

  /** Node `i` has the prior version, node `j` the update. */
  ghost predicate Apart(s: Network, w: Wave, crc: Crc, i: nat, j: nat) {
    && ValidWave(w) && InWave(s, w, crc) && i < |s.nodes| && j < |s.nodes|
    && NodeInWave(s.nodes[i], w) && Outdated(s.nodes[i], w)
    && NodeInWave(s.nodes[j], w) && Updated(s.nodes[j], w)
  }

  /** A step in which node `i` receives nothing. */
  lemma ApartStep(s: Network, e: Event, w: Wave, crc: Crc, i: nat, j: nat)
    requires Apart(s, w, crc, i, j) && !(e.Deliver? && e.to == i)
    ensures Apart(Step(s, e, crc), w, crc, i, j)
  {
    hide MsgInWave, Handle, FilePage, Chunk, ValidFor;
    InWaveShaped(s, w, crc);
    StepInWave(s, e, w, crc);
    StepKeepsUpdated(s, e, w, crc, j);
    InWaveShaped(Step(s, e, crc), w, crc);
    var n := s.nodes[i];
    match e
    case Deliver(_, _, _) =>
    case RequestTimer(_, behind) => RequestTimerSameUpdate(n, behind);
    case SummaryTimer(_) =>
    case ProfileTimer(_) => ProfileTimerSameUpdate(n);
    case TxTimer(_) => TxTimerSameUpdate(n, crc);
    case Round(_) => RoundSameUpdate(n);
  }

  /** Node `i` advertises what it has. */
  lemma OldSummarySent(s: Network, w: Wave, crc: Crc, i: nat, j: nat)
    requires Apart(s, w, crc, i, j)
    ensures Summary(w.prior, w.npages) in Step(Step(s, Round(i), crc), SummaryTimer(i), crc).sent
  {
    hide MsgInWave, FilePage, Chunk, HighestAvailable;
    var n := s.nodes[i];
    AllAvailable(n);
    assert AdvertiseSummary(NewRound(n)) == {Summary(w.prior, w.npages)};
  }

  /** Node `j` hears of it and sends a profile of the update. */
  lemma ProfileSent(s: Network, w: Wave, crc: Crc, i: nat, j: nat)
    requires Apart(s, w, crc, i, j) && Summary(w.prior, w.npages) in s.sent
    ensures var r := Step(Step(Step(s, Deliver(j, Summary(w.prior, w.npages), 0), crc), Round(j), crc), ProfileTimer(j), crc);
            exists m <- r.sent :: m.Profile? && m.version == w.next && MsgInWave(m, w, crc)
  {
    hide MsgInWave, FilePage, Chunk, HighestAvailable, OldestTimes, Shaped;
    InWaveShaped(s, w, crc);
    var e := Deliver(j, Summary(w.prior, w.npages), 0);
    var s1 := Step(s, e, crc);
    ApartStep(s, e, w, crc, i, j);
    InWaveShaped(s1, w, crc);
    var s2 := Step(s1, Round(j), crc);
    ApartStep(s1, Round(j), w, crc, i, j);
    InWaveShaped(s2, w, crc);
    ApartStep(s2, ProfileTimer(j), w, crc, i, j);
    var u := s2.nodes[j];
    assert u.broadcastProfile && u.recvAdv == 0;
    var m := Profile(w.next, Versions(u.pages));
    assert SendProfile(u).1 == {m};
    assert m in Step(s2, ProfileTimer(j), crc).sent;
  }

  /** A node that has the prior version can learn of the update from one that has it; the
      profile passes the dispatcher if the update is version 1. */
  lemma Learns(s: Network, w: Wave, crc: Crc, i: nat, j: nat) returns (es: seq<Event>, r: Network)
    requires Apart(s, w, crc, i, j)
    ensures r == Run(s, es, crc) && (w.next == 1 ==> OnlyDispatched(es)) && Pair(r, w, crc, i, j)
  {
    hide Run, Step, MsgInWave, Updating, Updated, Outdated, NodeInWave, InWave, Dispatched, ValidWave;
    var e3 := Deliver(j, Summary(w.prior, w.npages), 0);
    var s1 := Step(s, Round(i), crc);
    var s2 := Step(s1, SummaryTimer(i), crc);
    var s3 := Step(s2, e3, crc);
    var s4 := Step(s3, Round(j), crc);
    var s5 := Step(s4, ProfileTimer(j), crc);
    NodesApart(s, w, crc, i, j);
    ApartStep(s, Round(i), w, crc, i, j);
    ApartStep(s1, SummaryTimer(i), w, crc, i, j);
    ApartStep(s2, e3, w, crc, i, j);
    ApartStep(s3, Round(j), w, crc, i, j);
    ApartStep(s4, ProfileTimer(j), w, crc, i, j);
    OldSummarySent(s, w, crc, i, j);
    ProfileSent(s2, w, crc, i, j);
    var m :| m in s5.sent && m.Profile? && m.version == w.next && MsgInWave(m, w, crc);
    var e6 := Deliver(i, m, 0);
    ProfileHeard(s5, w, crc, i, j, m);
    r := Step(s5, e6, crc);
    es := [Round(i), SummaryTimer(i), e3] + [Round(j), ProfileTimer(j), e6];
    RunThree(s, Round(i), SummaryTimer(i), e3, crc);
    RunThree(s3, Round(j), ProfileTimer(j), e6, crc);
    RunConcat(s, [Round(i), SummaryTimer(i), e3], [Round(j), ProfileTimer(j), e6], crc);
    SummaryDispatched(e3.m);
  }

  lemma SummaryDispatched(m: Msg)
    requires m.Summary?
    ensures Dispatched(m)
  {
  }

  lemma NodesApart(s: Network, w: Wave, crc: Crc, i: nat, j: nat)
    requires Apart(s, w, crc, i, j)
    ensures i != j
  {
  }

  lemma ProfileHeard(s: Network, w: Wave, crc: Crc, i: nat, j: nat, m: Msg)
    requires Apart(s, w, crc, i, j) && m in s.sent && MsgInWave(m, w, crc) && m.Profile? && m.version == w.next
    ensures Pair(Step(s, Deliver(i, m, 0), crc), w, crc, i, j) && (w.next == 1 ==> Dispatched(m))
  {
    hide FilePage, Chunk, HandleProfile, Dispatched, HasPage, HasPackets;
    NodesApart(s, w, crc, i, j);
    InWaveShaped(s, w, crc);
    var e := Deliver(i, m, 0);
    ProfileHeardExactly(s.nodes[i], m, w, crc);
    StepInWave(s, e, w, crc);
    InWaveShaped(Step(s, e, crc), w, crc);
  }

  /** Whatever the state of a wave, a node of it can get the update from any node that has
      it; through the dispatcher if it has heard of the update, or that is version 1. */
  lemma Spreads(s: Network, w: Wave, crc: Crc, i: nat, j: nat) returns (es: seq<Event>, r: Network)
    requires InWave(s, w, crc) && i < |s.nodes| && j < |s.nodes| && Updated(s.nodes[j], w)
    ensures r == Run(s, es, crc) && InWave(r, w, crc) && |r.nodes| == |s.nodes| && Updated(r.nodes[i], w)
    ensures w.next == 1 || !Outdated(s.nodes[i], w) ==> OnlyDispatched(es)
  {
    hide Run, MsgInWave, Updating, Updated, Outdated;
    InWaveShaped(s, w, crc);
    var s1, es1 := s, [];
    if Updated(s.nodes[i], w) {
      es, r := [], s;
      RunNone(s, crc);
      return;
    }
    if Outdated(s.nodes[i], w) {
      es1, s1 := Learns(s, w, crc, i, j);
    } else {
      RunNone(s, crc);
    }
    var es2;
    es2, r := CatchesUp(s1, w, crc, i, j);
    es := es1 + es2;
    RunConcat(s, es1, es2, crc);
    RunInWave(s, es, w, crc);
  }

  lemma RunNone(s: Network, crc: Crc)
    ensures Run(s, [], crc) == s
  {
  }

  /** An outdated node can get an update through the dispatcher exactly if it is version 1. */
  lemma SpreadsExactly(s: Network, w: Wave, crc: Crc, i: nat, j: nat)
    requires WaveStart(s, w, crc) && i < |s.nodes| && j < |s.nodes| && Outdated(s.nodes[i], w) && Updated(s.nodes[j], w)
    ensures (exists es :: OnlyDispatched(es) && i < |Run(s, es, crc).nodes| && Updated(Run(s, es, crc).nodes[i], w))
            <==> w.next == 1
  {
    hide Run, InWave, MsgInWave, OnlyDispatched;
    StartInWave(s, w, crc);
    if w.next == 1 {
      var es, r := Spreads(s, w, crc, i, j);
      assert OnlyDispatched(es) && Updated(Run(s, es, crc).nodes[i], w);
    } else {
      forall es | OnlyDispatched(es)
        ensures i < |Run(s, es, crc).nodes| && !Updated(Run(s, es, crc).nodes[i], w)
      {
        NewerNeverSpreads(s, es, w, crc, i);
      }
    }
  }

  /** From every start of a wave in which some node has the update there is a run after
      which every node has it. */
  lemma {:induction false} EveryNodeUpdated(s: Network, w: Wave, crc: Crc, j: nat, k: nat) returns (es: seq<Event>, r: Network)
    requires InWave(s, w, crc) && j < |s.nodes| && Updated(s.nodes[j], w) && k <= |s.nodes|
    ensures r == Run(s, es, crc) && InWave(r, w, crc) && |r.nodes| == |s.nodes| && Updated(r.nodes[j], w)
    ensures forall i :: 0 <= i < k ==> Updated(r.nodes[i], w)
    ensures w.next == 1 ==> OnlyDispatched(es)
    decreases k
  {
    hide Run, InWave, Updated, Outdated, OnlyDispatched;
    if k == 0 {
      RunNone(s, crc);
      NoEvents();
      es, r := [], s;
    } else {
      var es1, s1 := EveryNodeUpdated(s, w, crc, j, k - 1);
      var es2;
      es2, r := Spreads(s1, w, crc, k - 1, j);
      es := es1 + es2;
      RunConcat(s, es1, es2, crc);
      DispatchedConcat(es1, es2);
      RunKeepsUpdated(s1, es2, w, crc, j);
      forall i | 0 <= i < k - 1 ensures Updated(r.nodes[i], w) {
        RunKeepsUpdated(s1, es2, w, crc, i);
      }
    }
  }

  lemma NoEvents()
    ensures OnlyDispatched([])
  {
  }

  lemma DispatchedConcat(a: seq<Event>, b: seq<Event>)
    ensures OnlyDispatched(a) && OnlyDispatched(b) ==> OnlyDispatched(a + b)
  {
  }

  /** Who has the update keeps it in every run. */
  lemma {:induction false} RunKeepsUpdated(s: Network, es: seq<Event>, w: Wave, crc: Crc, j: nat)
    requires InWave(s, w, crc) && j < |s.nodes| && Updated(s.nodes[j], w)
    ensures j < |Run(s, es, crc).nodes| && Updated(Run(s, es, crc).nodes[j], w)
    decreases |es|
  {
    hide InWave, Updated, Step;
    if es != [] {
      var front := es[..|es| - 1];
      RunKeepsUpdated(s, front, w, crc, j);
      RunInWave(s, front, w, crc);
      StepKeepsUpdated(Run(s, front, crc), es[|es| - 1], w, crc, j);
    }
  }
}
