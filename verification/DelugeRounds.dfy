/**
 How often a Deluge node talks: the length of its rounds, when it keeps its summary to
 itself, how often it asks, and which of its timers run in which mode.
 */
module DelugeRounds {
  import opened Bytes
  import opened Deluge

  // ---------------------------------------------------------------------------
  // Rounds
  // ---------------------------------------------------------------------------

  /** A node after a number of rounds in which it hears nothing. */
  function Rounds(n: Node, k: nat): Node {
    if k == 0 then n else NewRound(Rounds(n, k - 1))
  }

  /** Rounds double from two seconds to 64 while nothing new is heard. */
  function RoundLength(k: nat): nat {
    if k >= 5 then 64 else if k == 0 then 2 else 2 * RoundLength(k - 1)
  }

  lemma {:induction false} QuietRounds(n: Node, k: nat)
    requires !n.neighborInconsistency && n.rInterval == 2
    ensures Rounds(n, k).rInterval == RoundLength(k) && !Rounds(n, k).neighborInconsistency
  {
    if k > 0 {
      QuietRounds(n, k - 1);
      RoundLengths();
    }
  }

  lemma RoundLengths()
    ensures RoundLength(0) == 2 && RoundLength(1) == 4 && RoundLength(2) == 8 && RoundLength(3) == 16 && RoundLength(4) == 32
  {
  }

  /** An inconsistency makes the rounds start again at two seconds, whatever they were. */
  lemma RoundsStartAgain(n: Node, k: nat)
    requires n.neighborInconsistency
    ensures Rounds(n, k + 1).rInterval == RoundLength(k)
  {
    var first := NewRound(n);
    QuietRounds(first, k);
    RoundsShift(n, k);
  }

  lemma {:induction false} RoundsShift(n: Node, k: nat)
    ensures Rounds(n, k + 1) == Rounds(NewRound(n), k)
  {
    if k > 0 {
      RoundsShift(n, k - 1);
    }
  }

  // ---------------------------------------------------------------------------
  // Summaries
  // ---------------------------------------------------------------------------

  /** The summary says what the node would say. */
  predicate Consistent(n: Node, m: Msg) {
    m.Summary? && m.version == n.version && m.highest == HighestAvailable(n.pages)
  }

  /** A summary that agrees with the node is counted, any other is an inconsistency, and
      one of an older version makes the node send a profile. */
  lemma SummaryCounts(n: Node, m: Msg, now: nat)
    requires m.Summary?
    ensures var r := HandleSummary(n, m, now);
            && r.recvAdv == n.recvAdv + (if Consistent(n, m) then 1 else 0)
            && (r.neighborInconsistency <==> n.neighborInconsistency || !Consistent(n, m))
            && (r.broadcastProfile <==> n.broadcastProfile || m.version < n.version)
            && r.rInterval == n.rInterval
  {
    hide HighestAvailable, OldestTimes, Elapsed;
  }

  /** The node after hearing summaries, in the same round. */
  function Hears(n: Node, ms: seq<(Msg, nat)>): Node
    requires forall i :: 0 <= i < |ms| ==> ms[i].0.Summary?
    decreases |ms|
  {
    if ms == [] then n else HandleSummary(Hears(n, ms[..|ms| - 1]), ms[|ms| - 1].0, ms[|ms| - 1].1)
  }

  lemma {:induction false} HearsEffect(n: Node, ms: seq<(Msg, nat)>)
    requires forall i :: 0 <= i < |ms| ==> ms[i].0.Summary?
    ensures SameUpdate(n, Hears(n, ms)) && HighestAvailable(Hears(n, ms).pages) == HighestAvailable(n.pages)
    ensures Hears(n, ms).recvAdv == n.recvAdv <==> forall i :: 0 <= i < |ms| ==> !Consistent(n, ms[i].0)
    ensures Hears(n, ms).recvAdv >= n.recvAdv
    ensures Hears(n, ms).neighborInconsistency
            <==> n.neighborInconsistency || exists i :: 0 <= i < |ms| && !Consistent(n, ms[i].0)
    decreases |ms|
  {
    hide HandleSummary, HighestAvailable;
    if ms != [] {
      var front := ms[..|ms| - 1];
      var (m, now) := ms[|ms| - 1];
      HearsEffect(n, front);
      var prev := Hears(n, front);
      SummarySameUpdate(prev, m, now);
      SameHighest(prev.pages, HandleSummary(prev, m, now).pages);
      SummaryCounts(prev, m, now);
      assert Consistent(prev, m) <==> Consistent(n, m);
    }
  }

  lemma {:induction false} SameHighest(a: seq<Page>, b: seq<Page>)
    requires |a| == |b| && forall i :: 0 <= i < |a| ==> a[i].complete == b[i].complete
    ensures HighestAvailable(a) == HighestAvailable(b)
    decreases |a|
  {
    if a != [] {
      SameHighest(a[1..], b[1..]);
    }
  }

  /** In a round a node advertises exactly if it has heard no summary that agrees with its
      own, and the next round is short exactly if it has heard one that does not. */
  lemma AdvertisesExactly(n: Node, ms: seq<(Msg, nat)>)
    requires forall i :: 0 <= i < |ms| ==> ms[i].0.Summary?
    ensures var r := Hears(NewRound(n), ms);
            && (AdvertiseSummary(r) == {} <==> exists i :: 0 <= i < |ms| && Consistent(n, ms[i].0))
            && (AdvertiseSummary(r) != {} ==> AdvertiseSummary(r) == {Summary(n.updateVersion, HighestAvailable(n.pages))})
            && (SendProfile(r).1 != {} ==> AdvertiseSummary(r) != {} && r.broadcastProfile)
            && ((exists i :: 0 <= i < |ms| && !Consistent(n, ms[i].0)) ==> NewRound(r).rInterval == 2)
  {
    hide HighestAvailable, Hears;
    HearsEffect(NewRound(n), ms);
    assert forall i :: 0 <= i < |ms| ==> (Consistent(NewRound(n), ms[i].0) <==> Consistent(n, ms[i].0));
  }

  // ---------------------------------------------------------------------------
  // Requests
  // ---------------------------------------------------------------------------

  /** A request is taken up exactly if it is for the node's own version and for a page up
      to the first incomplete one; then its page is noted as asked for now, and its
      packets are added to those of the same page or replace those of another. Otherwise
      at most the inconsistency is noted that its version is another one. */
  lemma RequestExactly(n: Node, m: Msg, now: nat)
    requires m.Request? && Shaped(n)
    ensures var r := HandleRequest(n, m, now);
            if m.pagenum < |n.pages| && m.version == n.version && m.pagenum <= HighestAvailable(n.pages) then
              && r.currentTxPage == m.pagenum && r.mode == TX && r.txArmed
              && r.txSet == (if n.currentTxPage == m.pagenum then n.txSet else {}) + m.requestSet
              && r.pages == n.pages[m.pagenum := n.pages[m.pagenum].(lastRequest := now)]
              && r.neighborInconsistency == n.neighborInconsistency
            else r == n.(neighborInconsistency := n.neighborInconsistency || (m.pagenum < |n.pages| && m.version != n.version))
  {
    hide HighestAvailable;
    assert {} + m.requestSet == m.requestSet;
  }

  /** A node that hears no answer asks twice and then gives up until it hears of newer
      pages again. */
  lemma AsksTwice(n: Node, behind: Page)
    requires n.mode == RX && n.nrequests == 0
    ensures var once := SendRequest(n, behind).0;
            var twice := SendRequest(once, behind).0;
            && once.rxArmed && once.mode == RX
            && !twice.rxArmed && twice.mode == MAINTAIN && twice.nrequests == 0
            && SendRequest(once, behind).1 == SendRequest(n, behind).1
  {
  }

  /** The last packet of a page stops the request timer of a node that was in RX: it is set
      for the next page and then stopped with the change of mode. */
  lemma PageStopsAsking(n: Node, m: Msg, crc: Crc, now: nat)
    requires Shaped(n) && ValidPacket(n, m) && Accepted(n, m, crc)
    requires n.pages[m.pagenum].packetSet + {m.packetnum} == ALL_PACKETS
    ensures var r := HandlePacket(n, m, crc, now);
            && r.mode == MAINTAIN && (n.mode == RX ==> !r.rxArmed) && (n.mode == TX ==> !r.txArmed)
            && (n.mode != RX && m.pagenum < |n.pages| - 1 ==> r.rxArmed)
  {
    hide SetChunk, SetFilePage;
  }

  // ---------------------------------------------------------------------------
  // Profiles
  // ---------------------------------------------------------------------------

  /** A profile of a newer version empties exactly the pages of which it lists a newer
      version, keeps the others as they are, and makes the node ask from the first
      incomplete page on; one that is not newer changes nothing. */
  lemma ProfileExactly(n: Node, m: Msg)
    requires m.Profile? && |m.vector| == |n.pages|
    ensures var r := HandleProfile(n, m);
            if m.version <= n.updateVersion then r == n
            else
              && r.updateVersion == m.version && r.version == n.version && r.mode == RX && r.rxArmed && r.txSet == {}
              && |r.pages| == |n.pages| && r.currentRxPage == HighestAvailable(r.pages)
              && forall i :: 0 <= i < |n.pages| ==>
                   if m.vector[i] > n.pages[i].version
                   then r.pages[i].packetSet == {} && !r.pages[i].complete && r.pages[i].version == m.vector[i]
                   else r.pages[i] == n.pages[i]
  {
    hide HighestAvailable;
  }

  // ---------------------------------------------------------------------------
  // Modes
  // ---------------------------------------------------------------------------

  /** The transmission timer runs in TX only. */
  predicate TimerInMode(n: Node) {
    n.txArmed ==> n.mode == TX
  }

  lemma HandleKeepsTimer(n: Node, m: Msg, crc: Crc, now: nat)
    requires TimerInMode(n) && ValidFor(n, m) && Shaped(n)
    ensures TimerInMode(Handle(n, m, crc, now))
  {
    hide HandleSummary, HandleRequest, HandlePacket, HandleProfile, TimerInMode;
    match m
    case Summary(_, _) => SummaryKeepsTimer(n, m, now);
    case Request(_, _, _) => RequestKeepsTimer(n, m, now);
    case Packet(_, _, _, _, _) => PacketKeepsTimer(n, m, crc, now);
    case Profile(_, _) => ProfileKeepsTimer(n, m);
  }

  lemma SummaryKeepsTimer(n: Node, m: Msg, now: nat)
    requires TimerInMode(n) && m.Summary?
    ensures TimerInMode(HandleSummary(n, m, now))
  {
    hide HighestAvailable, OldestTimes, Elapsed;
  }

  lemma RequestKeepsTimer(n: Node, m: Msg, now: nat)
    requires TimerInMode(n) && m.Request?
    ensures TimerInMode(HandleRequest(n, m, now))
  {
    hide HighestAvailable;
  }

  lemma PacketKeepsTimer(n: Node, m: Msg, crc: Crc, now: nat)
    requires TimerInMode(n) && ValidPacket(n, m) && Shaped(n)
    ensures TimerInMode(HandlePacket(n, m, crc, now))
  {
    hide SetChunk, SetFilePage;
  }

  lemma ProfileKeepsTimer(n: Node, m: Msg)
    requires TimerInMode(n) && m.Profile? && |m.vector| == |n.pages|
    ensures TimerInMode(HandleProfile(n, m))
  {
    hide HighestAvailable, ResetPages;
  }

  /** In every run, of nodes in whatever states otherwise. */
  lemma {:induction false} RunKeepsTimers(s: Network, es: seq<Event>, crc: Crc)
    requires forall i :: 0 <= i < |s.nodes| ==> TimerInMode(s.nodes[i])
    ensures forall i :: 0 <= i < |Run(s, es, crc).nodes| ==> TimerInMode(Run(s, es, crc).nodes[i])
    decreases |es|
  {
    hide Step;
    if es != [] {
      RunKeepsTimers(s, es[..|es| - 1], crc);
      StepKeepsTimers(Run(s, es[..|es| - 1], crc), es[|es| - 1], crc);
    }
  }

  lemma StepKeepsTimers(s: Network, e: Event, crc: Crc)
    requires forall i :: 0 <= i < |s.nodes| ==> TimerInMode(s.nodes[i])
    ensures forall i :: 0 <= i < |Step(s, e, crc).nodes| ==> TimerInMode(Step(s, e, crc).nodes[i])
  {
    hide Handle, AdvertiseSummary, PagePacket, ValidFor;
    match e
    case Deliver(i, m, now) =>
      if Running(s, i) && ValidFor(s.nodes[i], m) { HandleKeepsTimer(s.nodes[i], m, crc, now); }
    case _ =>
  }

  // ---------------------------------------------------------------------------
  // Times
  // ---------------------------------------------------------------------------

  /** Times are compared in whole seconds. */
  lemma ElapsedSeconds(then_: nat, seconds: nat, ticks: nat)
    requires ticks < 128
    ensures Elapsed(then_ + 128 * seconds + ticks, then_) == seconds
  {
  }

  /** What the program notes of a page's data depends on when the page was asked for: of
      one page it is the time of its data, or now if it is being asked for now. */
  lemma NotedData(p: Page, now: nat)
    ensures OldestTimes([p], 1, now).1 == if p.lastRequest < now then p.lastData else now
  {
    assert OldestTimes([p], 0, now) == (now, now);
  }

  /** So the oldest data is missed: of two pages, with data from 50 and 5, the first asked
      for at 10 and the second at 60, it notes 50. */
  lemma OldestDataMissed()
    ensures OldestTimes([Page({}, true, 0, 10, 50), Page({}, true, 0, 60, 5)], 2, 100).1 == 50
  {
    var pages := [Page({}, true, 0, 10, 50), Page({}, true, 0, 60, 5)];
    assert OldestTimes(pages, 0, 100) == (100, 100);
    assert OldestTimes(pages, 1, 100) == (10, 50);
  }

  // ---------------------------------------------------------------------------
  // Once only
  // ---------------------------------------------------------------------------

  /** A profile says which version the node has, and of which version each page is; it is
      sent once. */
  lemma ProfileOnce(n: Node)
    ensures var (r, ms) := SendProfile(n);
            && (ms != {} <==> n.broadcastProfile && n.recvAdv == 0)
            && SendProfile(r).1 == {}
            && forall m <- ms :: m.Profile? && m.version == n.version && |m.vector| == |n.pages|
                                 && forall i :: 0 <= i < |n.pages| ==> m.vector[i] == n.pages[i].version
  {
  }

  /** A request is answered once: afterwards nothing is left to send, of no page. */
  lemma AnswersOnce(n: Node, crc: Crc, again: Crc)
    requires Shaped(n)
    ensures var (r, ms) := TxCallback(n, crc);
            && !r.txArmed && Shaped(r) && TxCallback(r, again).1 == {}
            && (ms != {} ==> r.txSet == {} && r.currentTxPage == -1)
  {
    hide PagePacket;
  }

  // ---------------------------------------------------------------------------
  // Corrupted packets
  // ---------------------------------------------------------------------------

  /** A corrupted packet of the page being received is not counted, but its bytes replace
      those of the packet with its number: one that had arrived intact stays counted and is
      lost exactly if the bytes differ. */
  lemma CorruptedOverwrites(n: Node, m: Msg, crc: Crc, now: nat, k: nat)
    requires Shaped(n) && ValidPacket(n, m) && m.crc != crc(m.payload) && k < N_PKT
    requires m.pagenum == n.currentRxPage && m.version == n.pages[m.pagenum].version && !n.pages[m.pagenum].complete
    ensures var r := HandlePacket(n, m, crc, now);
            && r.pages == n.pages && r.currentRxPage == n.currentRxPage && r.file == n.file
            && Chunk(r.currentPage, k) == if k == m.packetnum then m.payload else Chunk(n.currentPage, k)
  {
    hide SetChunk, Chunk, SetFilePage;
    ChunkOfSetChunk(n.currentPage, m.packetnum, m.payload, k);
  }
}
