/** Many callers, one bounded channel, one actor, and packets arriving throughout on many
    CPUs: every interleaving of configuration and traffic on one router. Each access to a
    shared cell is a step of its own. */
module Controller {
  import opened Wrappers
  import opened Words
  import opened MapCells
  import opened Frames
  import opened BpfActor

  const CAPACITY: nat := 8

  /** A packet the XDP program is at work on: the local cell as it read it, and how many
      messages had been handled by then. */
  datatype Flight = Flight(at: nat, local: u64, frame: seq<u8>)

  /** A packet it has done with: how many messages had been handled when the local cell was
      read, how many when the gateway cell was, the frame, and what became of it. */
  datatype Traffic = Traffic(at: nat, upto: nat, frame: seq<u8>, outcome: Outcome)

  datatype System = System(
    issued: set<nat>,        // callers that have made their call
    waiting: map<nat, Message>,  // callers still waiting for room
    queue: seq<Call>,        // accepted, not yet received by the actor
    held: Option<Call>,      // received, not yet handled
    cells: Cells,
    accepted: seq<Call>,     // everything that ever entered the channel, in order
    handled: seq<Call>,
    busy: map<nat, Flight>,  // CPUs running the XDP program
    log: seq<Traffic>)

  const START: System := System({}, map[], [], None, INITIAL, [], [], map[], [])

  /** One atomic step. A step that is not possible leaves the system as it is. */
  datatype Event =
    | Invoke(call: Call)    // a caller starts `sender.send(..)`
    | Accept(id: nat)       // there is room: that caller's send completes
    | Receive               // the actor's `recv` returns
    | Handle                // `handle_message` runs
    | Begin(cpu: nat, frame: seq<u8>)  // a packet arrives and is classified
    | End(cpu: nat)         // it is rewritten if need be, and leaves

  function Next(s: System, e: Event): System {
    match e
    case Invoke(call) =>
      if call.id !in s.issued
      then s.(issued := s.issued + {call.id}, waiting := s.waiting[call.id := call.message])
      else s
    case Accept(id) =>
      if id in s.waiting && |s.queue| < CAPACITY
      then
        var call := Call(id, s.waiting[id]);
        s.(waiting := s.waiting - {id}, queue := s.queue + [call], accepted := s.accepted + [call])
      else s
    case Receive =>
      if s.held.None? && s.queue != [] then s.(held := Some(s.queue[0]), queue := s.queue[1..]) else s
    case Handle =>
      if s.held.Some?
      then s.(held := None, cells := Apply(s.cells, s.held.value.message), handled := s.handled + [s.held.value])
      else s
    case Begin(cpu, frame) =>
      if cpu in s.busy then s else s.(busy := s.busy[cpu := Flight(|s.handled|, s.cells.local, frame)])
    case End(cpu) =>
      if cpu in s.busy
      then
        var p := s.busy[cpu];
        s.(busy := s.busy - {cpu},
           log := s.log + [Traffic(p.at, |s.handled|, p.frame,
                                   ProcessBetween(Cells(p.local, 0, 0), s.cells, p.frame))])
      else s
  }

  function Run(es: seq<Event>): System {
    if es == [] then START else Next(Run(es[..|es| - 1]), es[|es| - 1])
  }

  // -------------------------------------------------- What every step keeps

  function Held(s: System): seq<Call> {
    if s.held.Some? then [s.held.value] else []
  }

  /** The outcome called for when `early` had been handled at the reading of the local cell and
      `late` at that of the gateway cell: the pair of the last local-net message in the one
      and the last gateway address in the other decide, nothing else. */
  function Expected(early: seq<Call>, late: seq<Call>, frame: seq<u8>): Outcome {
    var (net, mask) := LatestLocal(early);
    ProcessBetween(Cells(Pack(net, mask), 0, 0), Cells(0, 0, LatestGateway(late)), frame)
  }

  ghost predicate Channelled(s: System) {
    && |s.queue| <= CAPACITY
    && s.accepted == s.handled + Held(s) + s.queue
    && s.cells == ApplyAll(INITIAL, s.handled)
    && s.waiting.Keys <= s.issued
    && (forall c :: c in s.accepted ==> c.id in s.issued)
  }

  ghost predicate Flying(s: System) {
    forall cpu :: cpu in s.busy ==>
      && s.busy[cpu].at <= |s.handled|
      && s.busy[cpu].local == ApplyAll(INITIAL, s.handled[..s.busy[cpu].at]).local
  }

  predicate LogOrder(s: System) {
    && (forall k :: 0 <= k < |s.log| ==> s.log[k].at <= s.log[k].upto <= |s.handled|)
    && (forall j, k :: 0 <= j < k < |s.log| ==> s.log[j].upto <= s.log[k].upto)
  }

  ghost predicate Logged(s: System) {
    && LogOrder(s)
    && (forall k :: 0 <= k < |s.log| ==>
          s.log[k].outcome == Expected(s.handled[..s.log[k].at], s.handled[..s.log[k].upto], s.log[k].frame))
  }

  /** Only the unpacked local pair and the gateway address matter to a packet. */
  lemma {:induction false} ProcessByMeaning(c: Cells, d: Cells, late: Cells, late': Cells, frame: seq<u8>)
    requires NetOf(c.local) == NetOf(d.local) && MaskOf(c.local) == MaskOf(d.local)
    requires late.gateway == late'.gateway
    ensures ProcessBetween(c, late, frame) == ProcessBetween(d, late', frame)
  {
  }

  lemma {:induction false} OutcomeExpected(early: seq<Call>, late: seq<Call>, frame: seq<u8>)
    ensures ProcessBetween(Cells(ApplyAll(INITIAL, early).local, 0, 0), ApplyAll(INITIAL, late), frame)
         == Expected(early, late, frame)
  {
    var (net, mask) := LatestLocal(early);
    CellsHoldLatest(early);
    CellsHoldLatest(late);
    UnpackPack(net, mask);
    ProcessByMeaning(Cells(ApplyAll(INITIAL, early).local, 0, 0), Cells(Pack(net, mask), 0, 0),
      ApplyAll(INITIAL, late), Cells(0, 0, LatestGateway(late)), frame);
  }

  lemma {:induction false} NextChannelled(s: System, e: Event)
    requires Channelled(s)
    ensures Channelled(Next(s, e))
  {
    match e
    case Invoke(call) =>
    case Accept(id) =>
      if id in s.waiting && |s.queue| < CAPACITY {
        AcceptChannelled(s, id);
      }
    case Receive =>
      if s.held.None? && s.queue != [] {
        ReceiveChannelled(s);
      }
    case Handle =>
      if s.held.Some? {
        HandleChannelled(s);
      }
    case Begin(cpu, frame) =>
    case End(cpu) =>
  }

  lemma {:induction false} AcceptChannelled(s: System, id: nat)
    requires Channelled(s) && id in s.waiting && |s.queue| < CAPACITY
    ensures Channelled(Next(s, Accept(id)))
  {
    Regroup(s.handled + Held(s), s.queue, [Call(id, s.waiting[id])]);
  }

  lemma {:induction false} ReceiveChannelled(s: System)
    requires Channelled(s) && s.held.None? && s.queue != []
    ensures Channelled(Next(s, Receive))
  {
    assert s.handled + [] == s.handled;
    assert s.queue == [s.queue[0]] + s.queue[1..];
    Regroup(s.handled, [s.queue[0]], s.queue[1..]);
  }

  lemma {:induction false} HandleChannelled(s: System)
    requires Channelled(s) && s.held.Some?
    ensures Channelled(Next(s, Handle))
  {
    var handled := s.handled + [s.held.value];
    assert handled + [] == handled;
    assert handled[..|s.handled|] == s.handled;
  }

  lemma {:induction false} PrefixKept<T>(s: seq<T>, t: seq<T>, n: nat)
    requires s <= t && n <= |s|
    ensures t[..n] == s[..n]
  {
  }

  lemma {:induction false} NextFlying(s: System, e: Event)
    requires Flying(s) && s.cells == ApplyAll(INITIAL, s.handled)
    ensures Flying(Next(s, e))
  {
    var t := Next(s, e);
    assert s.handled[..|s.handled|] == s.handled;
    if e.Handle? && s.held.Some? {
      forall cpu | cpu in t.busy
        ensures t.handled[..t.busy[cpu].at] == s.handled[..t.busy[cpu].at]
      {
        PrefixKept(s.handled, t.handled, t.busy[cpu].at);
      }
    }
  }

  lemma {:induction false} NextLogged(s: System, e: Event)
    requires Logged(s) && Flying(s) && s.cells == ApplyAll(INITIAL, s.handled)
    ensures Logged(Next(s, e))
  {
    if e.End? && e.cpu in s.busy {
      var p := s.busy[e.cpu];
      OutcomeExpected(s.handled[..p.at], s.handled, p.frame);
      assert s.handled[..|s.handled|] == s.handled;
      LogAppend(s, Next(s, e), Next(s, e).log[|s.log|]);
    } else if e.Handle? && s.held.Some? {
      HistoryAppend(s, Next(s, e));
    }
  }

  lemma {:induction false} LogAppend(s: System, t: System, entry: Traffic)
    requires Logged(s) && t.handled == s.handled && t.log == s.log + [entry]
    requires entry.at <= entry.upto == |s.handled|
    requires entry.outcome == Expected(s.handled[..entry.at], s.handled[..entry.upto], entry.frame)
    ensures Logged(t)
  {
  }

  lemma {:induction false} HistoryAppend(s: System, t: System)
    requires Logged(s) && t.log == s.log && s.handled <= t.handled
    ensures Logged(t)
  {
    forall k | 0 <= k < |t.log|
      ensures t.handled[..t.log[k].at] == s.handled[..t.log[k].at]
      ensures t.handled[..t.log[k].upto] == s.handled[..t.log[k].upto]
    {
      PrefixKept(s.handled, t.handled, t.log[k].at);
      PrefixKept(s.handled, t.handled, t.log[k].upto);
    }
  }

  lemma {:induction false} RunChannelled(es: seq<Event>)
    ensures Channelled(Run(es))
  {
    if es != [] {
      RunChannelled(es[..|es| - 1]);
      NextChannelled(Run(es[..|es| - 1]), es[|es| - 1]);
    }
  }

  lemma {:induction false} RunLogged(es: seq<Event>)
    ensures Logged(Run(es)) && Flying(Run(es))
  {
    if es != [] {
      RunLogged(es[..|es| - 1]);
      RunChannelled(es[..|es| - 1]);
      NextFlying(Run(es[..|es| - 1]), es[|es| - 1]);
      NextLogged(Run(es[..|es| - 1]), es[|es| - 1]);
    }
  }

  // -------------------------------------------------- Guarantees over every run

  /** In every reachable state the cells are the fold of a prefix of the accepted messages,
      at most nine accepted messages short of all of them. */
  lemma {:induction false} CellsFoldAcceptedPrefix(es: seq<Event>)
    ensures var s := Run(es);
      && s.handled <= s.accepted
      && s.cells == ApplyAll(INITIAL, s.handled)
      && |s.queue| <= 8 && |s.accepted| - |s.handled| <= 9
  {
    RunChannelled(es);
  }

  function FloodCall(n: nat): Call {
    Call(n, SetGatewayMacAddress(1))
  }

  function Flood(n: nat): seq<Event> {
    if n == 0 then [] else Flood(n - 1) + [Invoke(FloodCall(n)), Accept(n)]
  }

  ghost predicate Flooded(s: System, n: nat) {
    && |s.queue| == |s.accepted| == n
    && s.handled == [] && s.held.None? && s.cells == INITIAL
    && (forall id :: id in s.issued ==> id <= n)
  }

  lemma {:induction false} FloodFills(n: nat)
    requires n <= CAPACITY
    ensures Flooded(Run(Flood(n)), n)
  {
    if n > 0 {
      FloodFills(n - 1);
      RunTwo(Flood(n - 1), Invoke(FloodCall(n)), Accept(n));
    }
  }

  lemma {:induction false} RunTwo(es: seq<Event>, e1: Event, e2: Event)
    ensures Run(es + [e1, e2]) == Next(Next(Run(es), e1), e2)
  {
    var fs := es + [e1, e2];
    assert fs[..|fs| - 1] == es + [e1];
    assert (es + [e1])[..|es|] == es;
  }

  /** With the channel full the actor receives one message, and a ninth gets in. */
  lemma {:induction false} FullChannelTakesOneMore(s: System)
    requires Flooded(s, CAPACITY)
    ensures var t := Next(Next(Next(s, Invoke(FloodCall(CAPACITY + 1))), Receive), Accept(CAPACITY + 1));
      |t.accepted| == CAPACITY + 1 && t.handled == [] && t.cells == INITIAL
  {
  }

  /** The bound is met: nine callers can have been told their setting was accepted while
      every cell still holds its initial value. */
  lemma {:induction false} NineCanBeUnapplied()
    ensures exists es :: |Run(es).accepted| == 9 && Run(es).handled == [] && Run(es).cells == INITIAL
  {
    var es := Flood(CAPACITY);
    var call := FloodCall(CAPACITY + 1);
    FloodFills(CAPACITY);
    FullChannelTakesOneMore(Run(es));
    RunOne(es, Invoke(call));
    RunTwo(es + [Invoke(call)], Receive, Accept(CAPACITY + 1));
    assert |Run(es + [Invoke(call)] + [Receive, Accept(CAPACITY + 1)]).accepted| == CAPACITY + 1;
  }

  lemma {:induction false} RunOne(es: seq<Event>, e: Event)
    ensures Run(es + [e]) == Next(Run(es), e)
  {
  }

  function Rounds(n: nat): seq<Event> {
    if n == 0 then [] else Rounds(n - 1) + [Receive, Handle]
  }

  function AfterRounds(s: System, n: nat): System {
    if n == 0 then s else Next(Next(AfterRounds(s, n - 1), Receive), Handle)
  }

  lemma {:induction false} RunRounds(es: seq<Event>, n: nat)
    ensures Run(es + Rounds(n)) == AfterRounds(Run(es), n)
  {
    if n == 0 {
      assert es + [] == es;
    } else {
      RunRounds(es, n - 1);
      RunTwo(es + Rounds(n - 1), Receive, Handle);
      RoundsSnoc(es, n);
    }
  }

  lemma {:induction false} RoundsSnoc(es: seq<Event>, n: nat)
    requires n > 0
    ensures es + Rounds(n) == es + Rounds(n - 1) + [Receive, Handle]
  {
  }

  /** Each round of receiving and handling applies one more of the accepted messages. */
  lemma {:induction false} RoundsHandle(s: System, n: nat)
    requires Channelled(s)
    ensures var t := AfterRounds(s, n);
      Channelled(t) && t.accepted == s.accepted && |t.handled| == Min(|s.handled| + n, |s.accepted|)
  {
    if n > 0 {
      RoundsHandle(s, n - 1);
      RoundHandlesOne(AfterRounds(s, n - 1));
    }
  }

  lemma {:induction false} RoundHandlesOne(s: System)
    requires Channelled(s)
    ensures var t := Next(Next(s, Receive), Handle);
      Channelled(t) && t.accepted == s.accepted && |t.handled| == Min(|s.handled| + 1, |s.accepted|)
  {
    var r := Next(s, Receive);
    NextChannelled(s, Receive);
    NextChannelled(r, Handle);
    assert r.accepted == s.accepted && r.handled == s.handled;
    assert r.held.None? ==> s.queue == [];
    AcceptedLength(r);
  }

  lemma {:induction false} AcceptedLength(s: System)
    requires Channelled(s)
    ensures |s.accepted| == |s.handled| + (if s.held.Some? then 1 else 0) + |s.queue|
  {
  }

  /** No accepted setting is lost: nine rounds of the actor, from any reachable state, apply
      everything accepted so far. */
  lemma {:induction false} NineRoundsApplyAccepted(es: seq<Event>)
    ensures var t := Run(es + Rounds(9));
      t.handled == Run(es).accepted && t.cells == ApplyAll(INITIAL, Run(es).accepted)
  {
    RunChannelled(es);
    RoundsHandle(Run(es), CAPACITY + 1);
    RunRounds(es, CAPACITY + 1);
  }

  lemma {:induction false} HistoryGrows(es: seq<Event>, n: nat)
    requires n <= |es|
    ensures Run(es[..n]).accepted <= Run(es).accepted
    ensures Run(es[..n]).handled <= Run(es).handled
    ensures Run(es[..n]).log <= Run(es).log
    decreases |es|
  {
    if n == |es| {
      assert es[..n] == es;
    } else {
      var init := es[..|es| - 1];
      HistoryGrows(init, n);
      assert init[..n] == es[..n];
      NextGrows(Run(init), es[|es| - 1]);
    }
  }

  lemma {:induction false} NextGrows(s: System, e: Event)
    ensures s.accepted <= Next(s, e).accepted
    ensures s.handled <= Next(s, e).handled
    ensures s.log <= Next(s, e).log
  {
  }

  /** A statistics reply is a barrier: once it is back, everything accepted before the request
      was made has been handled and is in the cells. (Any handled call is such a barrier; a
      statistics request is the one whose caller is told that it was handled.) */
  lemma {:induction false} StatsReplyIsBarrier(es: seq<Event>, n: nat, stats: Call)
    requires n <= |es|
    requires stats.id !in Run(es[..n]).issued      // the request was made later than n,
    requires stats in Run(es).handled              // and has been answered
    ensures Run(es[..n]).accepted <= Run(es).handled
    ensures Run(es).cells == ApplyAll(INITIAL, Run(es).handled)
  {
    var s, t := Run(es[..n]), Run(es);
    RunChannelled(es[..n]);
    RunChannelled(es);
    HistoryGrows(es, n);
    assert stats !in s.accepted;
    NewcomerLater(s.accepted, t.handled, t.accepted, stats);
  }

  lemma {:induction false} NewcomerLater(before: seq<Call>, handled: seq<Call>, accepted: seq<Call>, call: Call)
    requires before <= accepted && handled <= accepted
    requires call in handled && call !in before
    ensures before <= handled
  {
  }

  /** Every packet of every run was judged by the pair of one whole local-net message, the
      last handled before its local cell was read, or by (0, 0); never by parts of two. If
      that lets it through, it was addressed to the last gateway handled before its gateway
      cell was read, which may be later. Nothing else it met on the way matters: not other
      packets, not the backend messages. */
  lemma {:induction false} PacketsJudgedByWholeMessages(es: seq<Event>, k: nat)
    requires k < |Run(es).log|
    ensures var s := Run(es);
      var t := s.log[k];
      t.at <= t.upto <= |s.handled| &&
      var (net, mask) := LatestLocal(s.handled[..t.at]);
      && (t.outcome.action == Tx ==>
            |t.frame| >= 46 && t.outcome.frame == Forwarded(t.frame, LatestGateway(s.handled[..t.upto])))
      && (t.outcome.action != Tx ==> t.outcome.frame == t.frame)
      && (|t.frame| >= 46 && t.frame[12..14] == [0x08, 0x00] && t.frame[23] == UDP ==>
            (t.outcome.action == Tx <==>
              (!IsLinkLocalIp(SourceIp(t.frame)) && !Matches(net, mask, SourceIp(t.frame)))))
  {
    RunLogged(es);
    var s := Run(es);
    var (net, mask) := LatestLocal(s.handled[..s.log[k].at]);
    UnpackPack(net, mask);
  }

  /** A packet is judged by all the messages handled when it arrives and addressed by all those
      handled when it leaves, whatever happens in between. */
  lemma {:induction false} PacketJudgedOnArrival(es: seq<Event>, cpu: nat, frame: seq<u8>, fs: seq<Event>)
    requires cpu !in Run(es).busy && End(cpu) !in fs
    ensures var mid := es + [Begin(cpu, frame)] + fs;
      Run(mid + [End(cpu)]).log == Run(mid).log +
        [Traffic(|Run(es).handled|, |Run(mid).handled|, frame, Expected(Run(es).handled, Run(mid).handled, frame))]
  {
    var mid := es + [Begin(cpu, frame)] + fs;
    RunOne(es, Begin(cpu, frame));
    StaysBusy(es + [Begin(cpu, frame)], cpu, fs);
    RunChannelled(es);
    RunChannelled(mid);
    RunOne(mid, End(cpu));
    OutcomeExpected(Run(es).handled, Run(mid).handled, frame);
  }

  lemma {:induction false} StaysBusy(es: seq<Event>, cpu: nat, fs: seq<Event>)
    requires cpu in Run(es).busy && End(cpu) !in fs
    ensures cpu in Run(es + fs).busy && Run(es + fs).busy[cpu] == Run(es).busy[cpu]
    decreases |fs|
  {
    if fs == [] {
      assert es + fs == es;
    } else {
      var last := |fs| - 1;
      StaysBusy(es, cpu, fs[..last]);
      Regroup(es, fs[..last], [fs[last]]);
      assert fs == fs[..last] + [fs[last]];
      RunOne(es + fs[..last], fs[last]);
      NextStaysBusy(Run(es + fs[..last]), cpu, fs[last]);
    }
  }

  lemma {:induction false} NextStaysBusy(s: System, cpu: nat, e: Event)
    requires cpu in s.busy && e != End(cpu)
    ensures cpu in Next(s, e).busy && Next(s, e).busy[cpu] == s.busy[cpu]
  {
  }

  // -------------------------------------------------- Packets overtaken by a reconfiguration

  /** One history accounts for a packet: what became of it is what would have, had the cells
      stayed as they were after the first k messages. */
  ghost predicate ExplainedBy(s: System, t: Traffic, k: nat)
    requires k <= |s.handled|
  {
    t.outcome == Expected(s.handled[..k], s.handled[..k], t.frame)
  }

  /** That is so exactly if those messages call for the verdict reached and, if it was to send,
      for the gateway octets it was sent to. */
  lemma {:induction false} ExplainedIff(es: seq<Event>, i: nat, k: nat)
    requires i < |Run(es).log| && k <= |Run(es).handled|
    ensures var s := Run(es);
      var t := s.log[i];
      var (net, mask) := LatestLocal(s.handled[..k]);
      t.upto <= |s.handled| &&
      (ExplainedBy(s, t, k) <==>
         && Classify(Cells(Pack(net, mask), 0, 0), t.frame) == t.outcome.action
         && (t.outcome.action == Tx ==>
               MacBytes(LatestGateway(s.handled[..k])) == MacBytes(LatestGateway(s.handled[..t.upto]))))
  {
    RunLogged(es);
    var s := Run(es);
    var t := s.log[i];
    if t.outcome.action == Tx {
      ForwardedApart(t.frame, LatestGateway(s.handled[..k]), LatestGateway(s.handled[..t.upto]));
    }
  }

  lemma {:induction false} ForwardedApart(f: seq<u8>, mac1: u64, mac2: u64)
    requires |f| >= 46
    ensures Forwarded(f, mac1) == Forwarded(f, mac2) <==> MacBytes(mac1) == MacBytes(mac2)
  {
    ForwardedFields(f, mac1);
    ForwardedFields(f, mac2);
  }

  /** In particular if no gateway message, or no local-net message, was handled between the
      two reads: the history at the first read, or at the second, accounts for the packet. */
  lemma {:induction false} ExplainedUnlessOvertaken(es: seq<Event>, i: nat)
    requires i < |Run(es).log|
    ensures var s := Run(es);
      var t := s.log[i];
      t.at <= t.upto <= |s.handled| &&
      var between := s.handled[t.at..t.upto];
      && ((forall c :: c in between ==> !c.message.SetGatewayMacAddress?) ==> ExplainedBy(s, t, t.at))
      && ((forall c :: c in between ==> !c.message.SetLocalNetAndMask?) ==> ExplainedBy(s, t, t.upto))
  {
    RunLogged(es);
    var s := Run(es);
    var t := s.log[i];
    assert s.handled[..t.upto] == s.handled[..t.at] + s.handled[t.at..t.upto];
    LatestUnchanged(s.handled[..t.at], s.handled[t.at..t.upto]);
  }

  lemma {:induction false} LatestUnchanged(calls: seq<Call>, more: seq<Call>)
    ensures (forall c :: c in more ==> !c.message.SetGatewayMacAddress?) ==>
      LatestGateway(calls + more) == LatestGateway(calls)
    ensures (forall c :: c in more ==> !c.message.SetLocalNetAndMask?) ==>
      LatestLocal(calls + more) == LatestLocal(calls)
    decreases |more|
  {
    if more == [] {
      assert calls + more == calls;
    } else {
      var last := |more| - 1;
      assert (calls + more)[..|calls + more| - 1] == calls + more[..last];
      assert more[last] in more;
      LatestUnchanged(calls, more[..last]);
    }
  }

  /** The events by which a call is made, accepted and handled when no other is under way. */
  function Served(call: Call): seq<Event> {
    [Invoke(call), Accept(call.id)] + [Receive, Handle]
  }

  ghost predicate Idle(s: System) {
    s.queue == [] && s.held.None?
  }

  lemma {:induction false} RunServed(es: seq<Event>, call: Call)
    requires Idle(Run(es)) && call.id !in Run(es).issued
    ensures var s, t := Run(es), Run(es + Served(call));
      && Idle(t) && t.handled == s.handled + [call] && t.issued == s.issued + {call.id}
      && t.busy == s.busy && t.log == s.log
  {
    RunTwo(es, Invoke(call), Accept(call.id));
    RunTwo(es + [Invoke(call), Accept(call.id)], Receive, Handle);
    Regroup(es, [Invoke(call), Accept(call.id)], [Receive, Handle]);
    assert [call][0] == call && [call][1..] == [];
  }

  /** The router configured for the net 10.0.2.0/24, then reconfigured for 10.0.0.0/8 and
      another gateway, as two invocations of the tool do. */
  function Reconfiguration(i: nat): Call
    requires i < 4
  {
    Call(i, match i
      case 0 => SetLocalNetAndMask(0x0a00_0200, 0xffff_ff00)
      case 1 => SetGatewayMacAddress(1)
      case 2 => SetLocalNetAndMask(0x0a00_0000, 0xff00_0000)
      case _ => SetGatewayMacAddress(2))
  }

  /** Two of these calls, one after the other. */
  function Reconfigured(es: seq<Event>, i: nat): seq<Event>
    requires i <= 2
  {
    es + Served(Reconfiguration(i)) + Served(Reconfiguration(i + 1))
  }

  /** A packet judged after the first invocation and sent after the second. */
  function Overtaken(frame: seq<u8>): seq<Event> {
    Reconfigured(Reconfigured([], 0) + [Begin(0, frame)], 2) + [End(0)]
  }

  function History(n: nat): (calls: seq<Call>)
    requires n <= 4
    ensures |calls| == n
  {
    seq(n, i requires 0 <= i < n => Reconfiguration(i))
  }

  lemma {:induction false} RunReconfigured(es: seq<Event>, i: nat)
    requires i <= 2 && Idle(Run(es)) && Run(es).handled == History(i)
    requires forall id :: id in Run(es).issued ==> id < i
    ensures var s, t := Run(es), Run(Reconfigured(es, i));
      && Idle(t) && t.handled == History(i + 2) && t.busy == s.busy && t.log == s.log
      && forall id :: id in t.issued ==> id < i + 2
  {
    RunServedTwo(es, Reconfiguration(i), Reconfiguration(i + 1));
    HistoryStep(i);
  }

  lemma {:induction false} RunServedTwo(es: seq<Event>, c: Call, d: Call)
    requires Idle(Run(es)) && c.id !in Run(es).issued && d.id !in Run(es).issued && c.id != d.id
    ensures var s, t := Run(es), Run(es + Served(c) + Served(d));
      && Idle(t) && t.handled == s.handled + [c] + [d] && t.issued == s.issued + {c.id} + {d.id}
      && t.busy == s.busy && t.log == s.log
  {
    RunServed(es, c);
    RunServed(es + Served(c), d);
  }

  lemma {:induction false} HistoryStep(i: nat)
    requires i <= 2
    ensures History(i) + [Reconfiguration(i)] + [Reconfiguration(i + 1)] == History(i + 2)
  {
  }

  lemma {:induction false} OvertakenRun(frame: seq<u8>)
    ensures Run(Overtaken(frame)).handled == History(4)
    ensures Run(Overtaken(frame)).log == [Traffic(2, 4, frame, Expected(History(2), History(4), frame))]
  {
    var es := Reconfigured([], 0);
    RunReconfigured([], 0);
    BeginAndEnd(es, frame);
  }

  lemma {:induction false} BeginAndEnd(es: seq<Event>, frame: seq<u8>)
    requires Idle(Run(es)) && Run(es).handled == History(2) && Run(es).busy == map[] && Run(es).log == []
    requires forall id :: id in Run(es).issued ==> id < 2
    ensures var t := Run(Reconfigured(es + [Begin(0, frame)], 2) + [End(0)]);
      t.handled == History(4) && t.log == [Traffic(2, 4, frame, Expected(History(2), History(4), frame))]
  {
    var flying := es + [Begin(0, frame)];
    RunOne(es, Begin(0, frame));
    RunReconfigured(flying, 2);
    RunOne(Reconfigured(flying, 2), End(0));
    RunChannelled(es);
    RunChannelled(Reconfigured(flying, 2));
    EndLogs(Run(Reconfigured(flying, 2)), History(2), frame);
  }

  lemma {:induction false} EndLogs(s: System, early: seq<Call>, frame: seq<u8>)
    requires s.busy == map[0 := Flight(|early|, ApplyAll(INITIAL, early).local, frame)]
    requires s.cells == ApplyAll(INITIAL, s.handled)
    ensures Next(s, End(0)) == s.(busy := map[],
      log := s.log + [Traffic(|early|, |s.handled|, frame, Expected(early, s.handled, frame))])
  {
    OutcomeExpected(early, s.handled, frame);
  }

  lemma {:induction false} HistoryMeans(n: nat)
    requires n <= 4
    ensures LatestLocal(History(n)) ==
      (if n == 0 then (0, 0) else if n <= 2 then (0x0a00_0200, 0xffff_ff00) else (0x0a00_0000, 0xff00_0000))
    ensures LatestGateway(History(n)) == (if n < 2 then 0 else if n < 4 then 1 else 2)
  {
    if n > 0 {
      assert History(n)[..n - 1] == History(n - 1);
      HistoryMeans(n - 1);
    }
  }

  /** With those four messages, only between the first and the third is a source in 10.0.0.0/8
      but not in 10.0.2.0/24 forwarded. */
  lemma {:induction false} HistoryForwards(n: nat, ip: u32)
    requires n <= 4
    requires 0x0a00_0000 <= ip < 0x0b00_0000 && !(0x0a00_0200 <= ip < 0x0a00_0300)
    ensures var (net, mask) := LatestLocal(History(n));
      Forwards(Cells(Pack(net, mask), 0, 0), ip) <==> 1 <= n <= 2
  {
    var (net, mask) := LatestLocal(History(n));
    HistoryMeans(n);
    UnpackPack(net, mask);
    LinkLocalIsRange(ip);
    if n == 0 {
      AndZero(ip);
    } else {
      TwoNets(ip);
    }
  }

  lemma {:induction false} TwoNets(ip: u32)
    ensures Matches(0x0a00_0200, 0xffff_ff00, ip) <==> 0x0a00_0200 <= ip < 0x0a00_0300
    ensures Matches(0x0a00_0000, 0xff00_0000, ip) <==> 0x0a00_0000 <= ip < 0x0b00_0000
  {
    Powers();
    assert Pow2(8) == 0x100;
    PrefixTestIsRange(0x0a00_0200, 24, ip);
    PrefixTestIsRange(0x0a00_0000, 8, ip);
  }

  /** A packet from such a source, overtaken by the reconfiguration, is judged by the old local
      net and sent to the new gateway; no one history accounts for it. */
  lemma {:induction false} ReconfigurationTearsPackets(f: seq<u8>)
    requires |f| >= 46 && f[12..14] == [0x08, 0x00] && f[23] == UDP
    requires 0x0a00_0000 <= SourceIp(f) < 0x0b00_0000 && !(0x0a00_0200 <= SourceIp(f) < 0x0a00_0300)
    ensures var s := Run(Overtaken(f));
      && s.log == [Traffic(2, 4, f, Outcome(Tx, Forwarded(f, 2)))]
      && forall k :: 0 <= k <= |s.handled| ==> !ExplainedBy(s, s.log[0], k)
  {
    OvertakenRun(f);
    TornOutcome(f);
    Unexplained(Run(Overtaken(f)), f);
  }

  lemma {:induction false} TornOutcome(f: seq<u8>)
    requires |f| >= 46 && f[12..14] == [0x08, 0x00] && f[23] == UDP
    requires 0x0a00_0000 <= SourceIp(f) < 0x0b00_0000 && !(0x0a00_0200 <= SourceIp(f) < 0x0a00_0300)
    ensures Expected(History(2), History(4), f) == Outcome(Tx, Forwarded(f, 2))
  {
    HistoryForwards(2, SourceIp(f));
    HistoryMeans(4);
  }

  lemma {:induction false} Unexplained(s: System, f: seq<u8>)
    requires |f| >= 46 && f[12..14] == [0x08, 0x00] && f[23] == UDP
    requires 0x0a00_0000 <= SourceIp(f) < 0x0b00_0000 && !(0x0a00_0200 <= SourceIp(f) < 0x0a00_0300)
    requires s.handled == History(4) && s.log == [Traffic(2, 4, f, Outcome(Tx, Forwarded(f, 2)))]
    ensures forall k :: 0 <= k <= |s.handled| ==> !ExplainedBy(s, s.log[0], k)
  {
    forall k | 0 <= k <= |s.handled|
      ensures !ExplainedBy(s, s.log[0], k)
    {
      TornBy(f, k);
      assert s.handled[..k] == History(k);
    }
  }

  lemma {:induction false} TornBy(f: seq<u8>, k: nat)
    requires |f| >= 46 && f[12..14] == [0x08, 0x00] && f[23] == UDP && k <= 4
    requires 0x0a00_0000 <= SourceIp(f) < 0x0b00_0000 && !(0x0a00_0200 <= SourceIp(f) < 0x0a00_0300)
    ensures Expected(History(k), History(k), f) != Outcome(Tx, Forwarded(f, 2))
  {
    HistoryForwards(k, SourceIp(f));
    if Expected(History(k), History(k), f).action == Tx {
      HistoryMeans(k);
      OtherGateway(f, LatestGateway(History(k)), 2);
    }
  }

  lemma {:induction false} OtherGateway(f: seq<u8>, mac1: u64, mac2: u64)
    requires |f| >= 46 && mac1 < mac2 < 0x100
    ensures Forwarded(f, mac1) != Forwarded(f, mac2)
  {
    ForwardedApart(f, mac1, mac2);
    LastMacByte(mac1);
    LastMacByte(mac2);
  }

  lemma {:induction false} LastMacByte(mac: u64)
    ensures MacBytes(mac)[5] == mac % 0x1_0000_0000 % 0x100
  {
  }

  ghost predicate LocalNetUnset(calls: seq<Call>) {
    forall c :: c in calls ==> !c.message.SetLocalNetAndMask?
  }

  lemma {:induction false} UnsetIsZero(calls: seq<Call>)
    requires LocalNetUnset(calls)
    ensures LatestLocal(calls) == (0, 0)
  {
    if calls != [] {
      assert calls[|calls| - 1] in calls;
      UnsetIsZero(calls[..|calls| - 1]);
    }
  }

  /** Until a local-net message is handled the router is inert: whatever other messages and
      packets came, no frame was altered or sent whose local cell was read before. */
  lemma {:induction false} InertUntilLocalNetSet(es: seq<Event>, k: nat)
    requires k < |Run(es).log|
    requires Run(es).log[k].at <= |Run(es).handled| && LocalNetUnset(Run(es).handled[..Run(es).log[k].at])
    ensures var t := Run(es).log[k]; t.outcome.action != Tx && t.outcome.frame == t.frame
  {
    RunLogged(es);
    var t := Run(es).log[k];
    UnsetIsZero(Run(es).handled[..t.at]);
    ZeroPack();
    if |t.frame| >= 34 {
      ZeroCellForwardsNothing(Cells(Pack(0, 0), 0, 0), SourceIp(t.frame));
    }
  }

  // -------------------------------------------------- The backend cell is never read

  /** A message with the contents hidden if it is a backend message. */
  function BlindMessage(m: Message): Message {
    if m.SetBackendNetAndMask? then SetBackendNetAndMask(0, 0) else m
  }

  function Blind(c: Call): Call {
    Call(c.id, BlindMessage(c.message))
  }

  function BlindCalls(cs: seq<Call>): (bs: seq<Call>)
    ensures |bs| == |cs|
  {
    seq(|cs|, i requires 0 <= i < |cs| => Blind(cs[i]))
  }

  function BlindEvent(e: Event): Event {
    if e.Invoke? then Invoke(Blind(e.call)) else e
  }

  function BlindEvents(es: seq<Event>): (bs: seq<Event>)
    ensures |bs| == |es|
  {
    seq(|es|, i requires 0 <= i < |es| => BlindEvent(es[i]))
  }

  /** The system as seen without the contents of backend messages. */
  function BlindSystem(s: System): System {
    s.(waiting := map id | id in s.waiting :: BlindMessage(s.waiting[id]),
       queue := BlindCalls(s.queue),
       held := if s.held.Some? then Some(Blind(s.held.value)) else None,
       cells := s.cells.(backend := 0),
       accepted := BlindCalls(s.accepted),
       handled := BlindCalls(s.handled))
  }

  lemma {:induction false} BlindAppend(cs: seq<Call>, c: Call)
    ensures BlindCalls(cs + [c]) == BlindCalls(cs) + [Blind(c)]
  {
  }

  lemma {:induction false} NextBlind(s: System, e: Event)
    ensures Next(BlindSystem(s), BlindEvent(e)) == BlindSystem(Next(s, e))
  {
    match e
    case Invoke(call) =>
      assert Next(BlindSystem(s), BlindEvent(e)).waiting == BlindSystem(Next(s, e)).waiting;
    case Accept(id) =>
      if id in s.waiting && |s.queue| < CAPACITY {
        AcceptBlind(s, id);
      }
    case Receive =>
      if s.queue != [] {
        assert BlindCalls(s.queue)[1..] == BlindCalls(s.queue[1..]);
      }
    case Handle =>
      if s.held.Some? {
        HandleBlind(s);
      }
    case Begin(cpu, frame) =>
    case End(cpu) =>
      if cpu in s.busy {
        var early := Cells(s.busy[cpu].local, 0, 0);
        ProcessByMeaning(early, early, s.cells, s.cells.(backend := 0), s.busy[cpu].frame);
      }
  }

  lemma {:induction false} AcceptBlind(s: System, id: nat)
    requires id in s.waiting && |s.queue| < CAPACITY
    ensures Next(BlindSystem(s), Accept(id)) == BlindSystem(Next(s, Accept(id)))
  {
    BlindAppend(s.queue, Call(id, s.waiting[id]));
    BlindAppend(s.accepted, Call(id, s.waiting[id]));
    assert Next(BlindSystem(s), Accept(id)).waiting == BlindSystem(Next(s, Accept(id))).waiting;
  }

  lemma {:induction false} HandleBlind(s: System)
    requires s.held.Some?
    ensures Next(BlindSystem(s), Handle) == BlindSystem(Next(s, Handle))
  {
    ZeroPack();
    BlindAppend(s.handled, s.held.value);
  }

  lemma {:induction false} ZeroPack()
    ensures Pack(0, 0) == 0
  {
  }

  lemma {:induction false} RunBlind(es: seq<Event>)
    ensures Run(BlindEvents(es)) == BlindSystem(Run(es))
  {
    if es != [] {
      var n := |es| - 1;
      RunBlind(es[..n]);
      NextBlind(Run(es[..n]), es[n]);
      assert BlindEvents(es)[..n] == BlindEvents(es[..n]);
    } else {
      assert BlindCalls([]) == [];
    }
  }

  /** Runs that differ only in what their backend messages say treat every packet alike. */
  lemma {:induction false} BackendContentsNeverMatter(es: seq<Event>, fs: seq<Event>)
    requires BlindEvents(es) == BlindEvents(fs)
    ensures Run(es).log == Run(fs).log
  {
    RunBlind(es);
    RunBlind(fs);
  }
}
