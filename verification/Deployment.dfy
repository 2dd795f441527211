/** From what the operator types to what happens to bytes on the wire. */
module Deployment {
  import opened Wrappers
  import opened Words
  import opened MapCells
  import opened Frames
  import opened BpfActor
  import opened Controller
  import opened RouterTool
  import Relay

  /** The call that sent the message m, the i-th accepted, had returned after n events, a
      statistics query made after that has been answered, and nothing accepted after that call
      overrides it. Whatever was set before does not matter. */
  ghost predicate InForce(es: seq<Event>, n: nat, i: nat, stats: Call, m: Message) {
    && n <= |es| && i < |Run(es[..n]).accepted| && Run(es[..n]).accepted[i].message == m
    && stats.id !in Run(es[..n]).issued && stats in Run(es).handled
    && forall j :: i < j < |Run(es).accepted| ==> !Overrides(Run(es).accepted[j].message, m)
  }

  lemma {:induction false} SettingHolds(es: seq<Event>, n: nat, i: nat, stats: Call, m: Message)
    requires InForce(es, n, i, stats, m)
    ensures Holds(Run(es).cells, m)
  {
    var t := Run(es);
    StatsReplyIsBarrier(es, n, stats);
    CellsFoldAcceptedPrefix(es);
    assert t.handled[i] == Run(es[..n]).accepted[i];
    forall j | i < j < |t.handled|
      ensures !Overrides(t.handled[j].message, m)
    {
      assert t.handled[j] == t.accepted[j];
    }
    UnoverriddenHolds(t.handled, i);
  }

  lemma {:induction false} FreshId(ids: set<nat>) returns (id: nat)
    ensures id !in ids
  {
    id := 0;
    var below := ids;
    while id in ids
      invariant below <= ids && forall k :: k in ids && k >= id ==> k in below
      decreases |below|
    {
      below := below - {id};
      id := id + 1;
    }
  }

  lemma {:induction false} AcceptCall(es: seq<Event>, call: Call)
    requires call.id !in Run(es).issued && |Run(es).queue| < CAPACITY
    ensures var s, t := Run(es), Run(es + [Invoke(call)] + [Accept(call.id)]);
      && t.accepted == s.accepted + [call] && t.queue == s.queue + [call]
  {
    RunOne(es, Invoke(call));
    RunOne(es + [Invoke(call)], Accept(call.id));
  }

  lemma {:induction false} RoundsAcceptNothing(es: seq<Event>)
    ensures var t := Run(es + Rounds(9));
      t.accepted == t.handled == Run(es).accepted && t.queue == []
  {
    NineRoundsApplyAccepted(es);
    RunChannelled(es);
    RunChannelled(es + Rounds(9));
    RunRounds(es, 9);
    RoundsHandle(Run(es), 9);
  }

  /** From every reachable state any setting can be brought into force. */
  lemma {:induction false} SettingsCanTakeForce(es: seq<Event>, m: Message)
    ensures exists fs, n, i, stats :: es <= fs && InForce(fs, n, i, stats, m)
  {
    var given := GiveSetting(es, m);
    var fs, stats := AnswerStats(given, |Run(es).accepted|, m);
  }

  lemma {:induction false} GiveSetting(es: seq<Event>, m: Message) returns (given: seq<Event>)
    ensures es <= given && |Run(given).queue| < CAPACITY
    ensures |Run(given).accepted| == |Run(es).accepted| + 1
    ensures Run(given).accepted[|Run(es).accepted|].message == m
  {
    var drained := es + Rounds(9);
    RoundsAcceptNothing(es);
    var id := FreshId(Run(drained).issued);
    AcceptCall(drained, Call(id, m));
    given := drained + [Invoke(Call(id, m))] + [Accept(id)];
  }

  lemma {:induction false} AnswerStats(given: seq<Event>, i: nat, m: Message) returns (fs: seq<Event>, stats: Call)
    requires |Run(given).queue| < CAPACITY
    requires |Run(given).accepted| == i + 1 && Run(given).accepted[i].message == m
    ensures given <= fs && InForce(fs, |given|, i, stats, m)
  {
    var id := FreshId(Run(given).issued);
    stats := Call(id, GetStats);
    AcceptCall(given, stats);
    var asked := given + [Invoke(stats)] + [Accept(id)];
    fs := asked + Rounds(9);
    RoundsAcceptNothing(asked);
    assert fs[..|given|] == given;
    assert Run(fs).accepted == Run(given).accepted + [stats];
  }

  // -------------------------------------------------- What the command does

  /** All texts of the command ask for something. */
  ghost predicate Accepted(profile: Profile, opt: Opt) {
    exists local, backend, mac :: Asked(profile, opt, local, backend, mac)
  }

  /** The request that a local net written on the command line calls for. */
  function LocalSetting(octets: seq<u8>, p: u32): Message
    requires |octets| == 4
  {
    SetLocalNetAndMask(Be32(octets), PrefixMask(EffectiveLength(p)))
  }

  function GatewaySetting(mac: seq<u8>): Message
    requires |mac| == 6
  {
    SetGatewayMacAddress(BeValueOf(mac))
  }

  /** What is written on the command line is requested. */
  ghost predicate Sends(profile: Profile, opt: Opt, m: Message) {
    Requests(profile, opt).Ok? && m in Requests(profile, opt).value
  }

  lemma {:induction false} WrittenIsSent(profile: Profile, opt: Opt)
    requires Accepted(profile, opt) && !opt.stats
    ensures forall octets, p :: NetText(opt.localNet, octets, p) ==> Sends(profile, opt, LocalSetting(octets, p))
    ensures forall mac :: MacText(opt.gatewayMac, mac) ==> Sends(profile, opt, GatewaySetting(mac))
  {
    var local, backend, gateway :| Asked(profile, opt, local, backend, gateway);
    AskedIsRequested(profile, opt, local, backend, gateway);
    forall octets, p | NetText(opt.localNet, octets, p)
      ensures Sends(profile, opt, LocalSetting(octets, p))
    {
      NetAskedMeaning(profile, opt.localNet, local);
      NetTextRead(profile, opt.localNet, octets, p);
    }
    forall mac | MacText(opt.gatewayMac, mac)
      ensures Sends(profile, opt, GatewaySetting(mac))
    {
      MacTextRead(opt.gatewayMac, mac);
      MacTextRead(opt.gatewayMac, gateway);
    }
  }

  /** The operator writes a local net on the command line. The tool sends the setting that calls
      for, and once it is in force then, whatever is set while it is under way, a UDP frame is
      forwarded exactly when its source is neither link-local nor in the range written; a
      network written with host bits set keeps nothing local. */
  lemma {:induction false} TypedNetworkInForce(
      profile: Profile, opt: Opt, octets: seq<u8>, p: u32, es: seq<Event>, n: nat, i: nat, stats: Call,
      late: Cells, f: seq<u8>)
    requires Accepted(profile, opt) && !opt.stats && NetText(opt.localNet, octets, p)
    requires InForce(es, n, i, stats, LocalSetting(octets, p))
    requires |f| >= 46 && f[12..14] == [0x08, 0x00] && f[23] == UDP
    ensures Sends(profile, opt, LocalSetting(octets, p))
    ensures ProcessBetween(Run(es).cells, late, f).action ==
      if KeptByNet(Be32(octets), EffectiveLength(p), SourceIp(f)) then Pass else Tx
  {
    WrittenIsSent(profile, opt);
    SettingHolds(es, n, i, stats, LocalSetting(octets, p));
    CellsKeep(Run(es).cells, Be32(octets), EffectiveLength(p), SourceIp(f));
  }

  /** Link-local, or in the range of a network that has no host bits. */
  predicate KeptByNet(net: u32, length: nat, src: u32)
    requires 1 <= length <= 32
  {
    var size := Pow2(32 - length);
    0xa9fe_0000 <= src < 0xa9ff_0000 || (net % size == 0 && net <= src < net + size)
  }

  lemma {:induction false} CellsKeep(cells: Cells, net: u32, length: nat, src: u32)
    requires 1 <= length <= 32 && NetOf(cells.local) == net && MaskOf(cells.local) == PrefixMask(length)
    ensures Forwards(cells, src) <==> !KeptByNet(net, length, src)
  {
    PrefixTestIsRange(net, length, src);
    LinkLocalIsRange(src);
  }

  /** Likewise for the gateway, however the frame was judged: the octets written are, octet for
      octet, the destination of every forwarded frame, and the address the frame came to is
      its source. */
  lemma {:induction false} TypedGatewayInForce(
      profile: Profile, opt: Opt, mac: seq<u8>, es: seq<Event>, n: nat, i: nat, stats: Call, early: Cells,
      f: seq<u8>)
    requires Accepted(profile, opt) && !opt.stats && MacText(opt.gatewayMac, mac)
    requires InForce(es, n, i, stats, GatewaySetting(mac))
    requires ProcessBetween(early, Run(es).cells, f).action == Tx
    ensures Sends(profile, opt, GatewaySetting(mac))
    ensures var g := ProcessBetween(early, Run(es).cells, f).frame;
      |g| == |f| >= 46 && g[..6] == mac && g[6..12] == f[..6]
  {
    WrittenIsSent(profile, opt);
    SettingHolds(es, n, i, stats, GatewaySetting(mac));
    MacBytesOfValue(mac);
    ForwardedFields(f, Run(es).cells.gateway);
  }

  // -------------------------------------------------- A whole deployment

  /** What happened at one router's controller, and the setting in force there. */
  datatype Box = Box(es: seq<Event>, n: nat, i: nat, stats: Call)

  /** Every router runs with the cells its own controller wrote, the setting m in force. */
  ghost predicate Commanded(w: Relay.World, rs: seq<Relay.Event>, boxes: map<u32, Box>, m: Message) {
    var cells := Relay.Run(w, rs).cells;
    && boxes.Keys == w.routers == cells.Keys
    && forall r :: r in boxes ==>
         && cells[r] == Run(boxes[r].es).cells
         && InForce(boxes[r].es, boxes[r].n, boxes[r].i, boxes[r].stats, m)
  }

  /** Routers booted with nothing, commanded in whatever order with whatever came before: once
      the command naming their common subnet is in force at each, and as long as cells are
      only written that hold it, every request that names a server, made in whatever state
      the network is, can be carried to its reply, and nothing else but requests that name
      neither a server nor a client is dropped. */
  lemma {:induction false} CommandedRelayAnswers(
      profile: Profile, opt: Opt, octets: seq<u8>, p: u32, w: Relay.World, rs: seq<Relay.Event>,
      boxes: map<u32, Box>, fs: seq<Relay.Event>, q: Relay.Request)
    requires Accepted(profile, opt) && !opt.stats && NetText(opt.localNet, octets, p)
    requires Relay.RoutersOn(w, Be32(octets), EffectiveLength(p))
    requires Commanded(w, rs, boxes, LocalSetting(octets, p))
    requires forall e :: e in fs && e.Configure? ==> Holds(e.to, LocalSetting(octets, p))
    requires Relay.Possible(w, q) && q.server in w.servers
    ensures Sends(profile, opt, LocalSetting(octets, p))
    ensures DropsOnlyStrays(w, Relay.Run(w, rs).dropped, Relay.Run(w, rs + fs).dropped)
    ensures Answerable(w, rs + fs, q)
  {
    WrittenIsSent(profile, opt);
    SettingAnswers(w, LocalSetting(octets, p), EffectiveLength(p), rs, boxes, fs, q);
  }

  /** Whatever happened at the controllers and in the network before, every router can be
      brought to run with the setting in force. */
  lemma {:induction false} CommandCanTakeForce(
      w: Relay.World, rs: seq<Relay.Event>, histories: map<u32, seq<Event>>, m: Message)
    requires histories.Keys == w.routers
    ensures exists boxes: map<u32, Box>, fs ::
      && Commanded(w, rs + fs, boxes, m)
      && (forall r :: r in boxes ==> r in histories && histories[r] <= boxes[r].es)
      && Relay.Run(w, rs + fs) == Relay.Run(w, rs).(cells := Relay.Run(w, rs + fs).cells)
  {
    var boxes := map r | r in histories :: BoxWithForce(histories[r], m);
    var fs := BoxesTakenUp(w, rs, boxes, m);
  }

  lemma {:induction false} BoxesTakenUp(w: Relay.World, rs: seq<Relay.Event>, boxes: map<u32, Box>, m: Message)
    returns (fs: seq<Relay.Event>)
    requires boxes.Keys == w.routers
    requires forall r :: r in boxes ==> InForce(boxes[r].es, boxes[r].n, boxes[r].i, boxes[r].stats, m)
    ensures Commanded(w, rs + fs, boxes, m)
    ensures Relay.Run(w, rs + fs) == Relay.Run(w, rs).(cells := Relay.Run(w, rs + fs).cells)
  {
    var cells := map r | r in boxes :: Run(boxes[r].es).cells;
    Relay.AnyConfigurationReachable(w, rs, cells);
    fs :| Relay.Run(w, rs + fs) == Relay.Run(w, rs).(cells := cells);
  }

  /** From boot, some run brings the setting that a written subnet calls for into force at every
      router of that subnet, and goes on to carry a request to its reply, which is all that is
      ever received. */
  lemma {:induction false} CommandedDeploymentWorks(
      profile: Profile, opt: Opt, octets: seq<u8>, p: u32, w: Relay.World, q: Relay.Request)
    requires Accepted(profile, opt) && !opt.stats && NetText(opt.localNet, octets, p)
    requires Relay.RoutersOn(w, Be32(octets), EffectiveLength(p))
    requires Relay.Possible(w, q) && q.server in w.servers
    ensures Sends(profile, opt, LocalSetting(octets, p))
    ensures exists boxes, rs, fs :: Commanded(w, rs, boxes, LocalSetting(octets, p)) && OnlyAnswered(w, rs + fs, q)
  {
    WrittenIsSent(profile, opt);
    var boxes, rs, fs := SettingWorks(w, LocalSetting(octets, p), EffectiveLength(p), q);
  }

  lemma {:induction false} SettingWorks(w: Relay.World, m: Message, length: nat, q: Relay.Request)
    returns (boxes: map<u32, Box>, rs: seq<Relay.Event>, fs: seq<Relay.Event>)
    requires 1 <= length <= 32 && m.SetLocalNetAndMask? && m.mask == PrefixMask(length)
    requires Relay.RoutersOn(w, m.net, length) && Relay.Possible(w, q) && q.server in w.servers
    ensures Commanded(w, rs, boxes, m) && OnlyAnswered(w, rs + fs, q)
  {
    boxes, rs := CommandedFromBoot(w, m);
    SettingAnswers(w, m, length, rs, boxes, [], q);
    assert rs + [] == rs;
    fs := AnsweredAlone(w, rs, q);
  }

  /** One request was made, and its reply is all any client received. */
  ghost predicate OnlyAnswered(w: Relay.World, rs: seq<Relay.Event>, q: Relay.Request) {
    Relay.Run(w, rs).sent == [q] && Relay.Run(w, rs).received == [Relay.ReplyPacket(q)]
  }

  lemma {:induction false} CommandedFromBoot(w: Relay.World, m: Message)
    returns (boxes: map<u32, Box>, rs: seq<Relay.Event>)
    ensures Commanded(w, rs, boxes, m)
    ensures Relay.Run(w, rs).sent == [] && Relay.Run(w, rs).received == []
  {
    CommandCanTakeForce(w, [], map r | r in w.routers :: [], m);
    var fs;
    boxes, fs :| Commanded(w, [] + fs, boxes, m)
      && Relay.Run(w, [] + fs) == Relay.Run(w, []).(cells := Relay.Run(w, [] + fs).cells);
    rs := [] + fs;
  }

  lemma {:induction false} AnsweredAlone(w: Relay.World, rs: seq<Relay.Event>, q: Relay.Request)
    returns (fs: seq<Relay.Event>)
    requires Answerable(w, rs, q) && Relay.Run(w, rs).sent == [] && Relay.Run(w, rs).received == []
    ensures OnlyAnswered(w, rs + fs, q)
  {
    var deliveries := Relay.Deliveries(|Relay.Run(w, rs).inflight|, Relay.LegCount(w, q));
    fs := [Relay.Send(q)] + deliveries;
    Regroup(rs, [Relay.Send(q)], deliveries);
  }

  ghost function BoxWithForce(es: seq<Event>, m: Message): (b: Box)
    ensures es <= b.es && InForce(b.es, b.n, b.i, b.stats, m)
  {
    SettingsCanTakeForce(es, m);
    var fs, n, i, stats :| es <= fs && InForce(fs, n, i, stats, m);
    Box(fs, n, i, stats)
  }

  lemma {:induction false} SettingAnswers(
      w: Relay.World, m: Message, length: nat, rs: seq<Relay.Event>, boxes: map<u32, Box>,
      fs: seq<Relay.Event>, q: Relay.Request)
    requires 1 <= length <= 32 && m.SetLocalNetAndMask? && m.mask == PrefixMask(length)
    requires Relay.RoutersOn(w, m.net, length) && Commanded(w, rs, boxes, m)
    requires forall e :: e in fs && e.Configure? ==> Holds(e.to, m)
    requires Relay.Possible(w, q) && q.server in w.servers
    ensures DropsOnlyStrays(w, Relay.Run(w, rs).dropped, Relay.Run(w, rs + fs).dropped)
    ensures Answerable(w, rs + fs, q)
  {
    assert w.routers != {};
    StaysConfigured(w, m, length, rs, boxes, fs);
    ConfiguredAnswers(w, rs + fs, q);
  }

  lemma {:induction false} StaysConfigured(
      w: Relay.World, m: Message, length: nat, rs: seq<Relay.Event>, boxes: map<u32, Box>,
      fs: seq<Relay.Event>)
    requires 1 <= length <= 32 && m.SetLocalNetAndMask? && m.mask == PrefixMask(length)
    requires Relay.RoutersOn(w, m.net, length) && Commanded(w, rs, boxes, m) && w.routers != {}
    requires forall e :: e in fs && e.Configure? ==> Holds(e.to, m)
    ensures Relay.Disjoint(w) && Relay.Configured(w, Relay.Run(w, rs + fs).cells)
    ensures DropsOnlyStrays(w, Relay.Run(w, rs).dropped, Relay.Run(w, rs + fs).dropped)
  {
    CommandedIsConfigured(w, m, length, rs, boxes);
    HoldingSeparates(w, fs, m, length);
    Relay.NothingDroppedOnceConfigured(w, rs, fs);
  }

  /** Four deliveries carry the request, newly made, to its reply and disturb nothing else. */
  ghost predicate Answerable(w: Relay.World, es: seq<Relay.Event>, q: Relay.Request) {
    var n := Relay.Run(w, es);
    && Relay.LegCount(w, q) == 4
    && Relay.Run(w, es + [Relay.Send(q)] + Relay.Deliveries(|n.inflight|, Relay.LegCount(w, q))) ==
         n.(sent := n.sent + [q], received := n.received + [Relay.ReplyPacket(q)],
            deliveries := n.deliveries + 4)
  }

  /** What was dropped since belongs to requests that name neither a server nor a client. */
  ghost predicate DropsOnlyStrays(w: Relay.World, before: seq<Relay.Packet>, after: seq<Relay.Packet>) {
    && before <= after
    && forall i :: |before| <= i < |after| ==> Relay.Origin(w, after[i]).server !in w.servers + w.clients
  }

  lemma {:induction false} ConfiguredAnswers(w: Relay.World, es: seq<Relay.Event>, q: Relay.Request)
    requires Relay.Disjoint(w) && Relay.Possible(w, q) && q.server in w.servers
    requires Relay.Configured(w, Relay.Run(w, es).cells)
    ensures Answerable(w, es, q)
  {
    Relay.RequestsCanComplete(w, es, q);
    Relay.WayToServer(w, Relay.Run(w, es).cells, q);
  }

  lemma {:induction false} HoldingSeparates(w: Relay.World, fs: seq<Relay.Event>, m: Message, length: nat)
    requires 1 <= length <= 32 && m.SetLocalNetAndMask? && m.mask == PrefixMask(length)
    requires Relay.RoutersOn(w, m.net, length)
    requires forall e :: e in fs && e.Configure? ==> Holds(e.to, m)
    ensures forall e :: e in fs && e.Configure? ==> Relay.Separates(w, e.to)
  {
    forall e | e in fs && e.Configure?
      ensures Relay.Separates(w, e.to)
    {
      Relay.OneRouterSubnetSeparates(w, m.net, length, e.to);
    }
  }

  lemma {:induction false} CommandedIsConfigured(
      w: Relay.World, m: Message, length: nat, rs: seq<Relay.Event>, boxes: map<u32, Box>)
    requires 1 <= length <= 32 && m.SetLocalNetAndMask? && m.mask == PrefixMask(length)
    requires Relay.RoutersOn(w, m.net, length) && Commanded(w, rs, boxes, m)
    ensures Relay.Configured(w, Relay.Run(w, rs).cells)
    ensures w.routers != {} ==> Relay.Disjoint(w)
  {
    forall r | r in boxes
      ensures Relay.Disjoint(w) && Relay.Separates(w, Run(boxes[r].es).cells)
    {
      var b := boxes[r];
      SettingHolds(b.es, b.n, b.i, b.stats, m);
      Relay.OneRouterSubnetSeparates(w, m.net, length, Run(b.es).cells);
    }
  }

  /** The documented deployment: a router at 10.0.2.10, clients in 10.0.1.0/24 and servers in
      10.0.3.0/24. */
  ghost predicate Documented(w: Relay.World) {
    && w.routers == {0x0a00_020a}
    && (forall c :: c in w.clients ==> 0x0a00_0100 <= c < 0x0a00_0200)
    && (forall s :: s in w.servers ==> 0x0a00_0300 <= s < 0x0a00_0400)
  }

  /** The documented command. */
  function DocumentedCommand(): Opt {
    Opt(false, "10.0.2.0/24", "10.0.3.0/24", "00:11:22:33:44:55")
  }

  /** It does what it is documented for: the tool sends the local net, some run from boot
      brings it into force at the router, and then a client's request to a server can be
      carried to its reply. */
  lemma {:induction false} DocumentedDeploymentWorks(profile: Profile, opt: Opt, w: Relay.World, q: Relay.Request)
    requires Documented(w) && opt == DocumentedCommand() && Relay.Possible(w, q) && q.server in w.servers
    ensures exists octets, p, boxes, rs, fs ::
      && NetText(opt.localNet, octets, p) && Sends(profile, opt, LocalSetting(octets, p))
      && Commanded(w, rs, boxes, LocalSetting(octets, p)) && OnlyAnswered(w, rs + fs, q)
  {
    DocumentedCommandAccepted(profile, opt);
    DocumentedTexts(opt);
    var octets, p := DocumentedSubnet(w, opt.localNet);
    CommandedDeploymentWorks(profile, opt, octets, p, w, q);
  }

  lemma {:induction false} DocumentedCommandAccepted(profile: Profile, opt: Opt)
    requires opt == DocumentedCommand()
    ensures Accepted(profile, opt)
  {
    DocumentedTexts(opt);
    var mac := DocumentedMacRead(opt.gatewayMac);
    var local := DocumentedNetAsked(profile, opt.localNet, 2);
    var backend := DocumentedNetAsked(profile, opt.backendNet, 3);
    assert Asked(profile, opt, local, backend, mac);
  }

  lemma {:induction false} DocumentedTexts(opt: Opt)
    requires opt == DocumentedCommand()
    ensures opt.localNet == "10.0." + Digits(2) + ".0/24" && opt.backendNet == "10.0." + Digits(3) + ".0/24"
  {
    assert Digits(2) == "2" && Digits(3) == "3";
  }

  lemma {:induction false} DocumentedNetAsked(profile: Profile, text: string, d: u8)
    returns (net: Option<(u32, u32)>)
    requires text == "10.0." + Digits(d) + ".0/24" && d < 10
    ensures NetAsked(profile, text, net)
  {
    var octets: seq<u8>, p: u32 := [10, 0, d, 0], 24;
    DocumentedNetWritten(text, octets, p, d);
    net := Some((Be32(octets), PrefixMask(EffectiveLength(p))));
  }

  lemma {:induction false} DocumentedSubnet(w: Relay.World, text: string) returns (octets: seq<u8>, p: u32)
    requires Documented(w) && text == "10.0." + Digits(2) + ".0/24"
    ensures NetText(text, octets, p)
    ensures Relay.RoutersOn(w, Be32(octets), EffectiveLength(p))
  {
    octets, p := [10, 0, 2, 0], 24;
    DocumentedNetWritten(text, octets, p, 2);
    SubnetSeparates(w, octets, p);
  }

  lemma {:induction false} SubnetSeparates(w: Relay.World, octets: seq<u8>, p: u32)
    requires octets == [10, 0, 2, 0] && p == 24
    requires forall r :: r in w.routers ==> 0x0a00_0200 <= r < 0x0a00_0300
    requires forall c :: c in w.clients ==> 0x0a00_0100 <= c < 0x0a00_0200
    requires forall s :: s in w.servers ==> 0x0a00_0300 <= s < 0x0a00_0400
    ensures Relay.RoutersOn(w, Be32(octets), EffectiveLength(p))
  {
    assert Pow2(8) == 0x100;
  }

  /** The documented options name the subnets they are meant to. */
  lemma {:induction false} DocumentedNetWritten(text: string, octets: seq<u8>, p: u32, d: u8)
    requires d < 10 && text == "10.0." + Digits(d) + ".0/24" && octets == [10, 0, d, 0] && p == 24
    ensures NetText(text, octets, p)
  {
    DocumentedNetText(d);
    NetRoundTrip(Dev, octets, p);
  }

  lemma {:induction false} DocumentedNetRead(profile: Profile, text: string, octets: seq<u8>, p: u32, d: u8)
    requires d < 10 && text == "10.0." + Digits(d) + ".0/24" && octets == [10, 0, d, 0] && p == 24
    ensures ParseIpMask(profile, text) == Ok((0x0a00_0000 + 0x100 * d, 0xffff_ff00))
  {
    DocumentedNetWritten(text, octets, p, d);
    TextGivesNet(profile, text, octets, p);
    Mask24(p);
  }

  lemma {:induction false} TextGivesNet(profile: Profile, text: string, octets: seq<u8>, p: u32)
    requires NetText(text, octets, p) && 1 <= p <= 32
    ensures ParseIpMask(profile, text) == Ok((Be32(octets), PrefixMask(p)))
  {
    NetTextRead(profile, text, octets, p);
    MaskOfAnyLength(profile, p);
  }

  lemma {:induction false} Mask24(length: nat)
    requires length == 24
    ensures PrefixMask(length) == 0xffff_ff00
  {
    assert Pow2(8) == 0x100;
  }

  lemma {:induction false} DocumentedNetText(d: u8)
    requires d < 10
    ensures FormatNet([10, 0, d, 0], 24) == "10.0." + Digits(d) + ".0/24"
  {
    assert Digits(10) == "10" && Digits(0) == "0" && Digits(24) == "24";
    assert DecimalOctets([10, 0, d, 0]) == ["10", "0", Digits(d), "0"];
    JoinFour("10", "0", Digits(d), "0", '.');
  }

  lemma {:induction false} DocumentedMacRead(text: string) returns (octets: seq<u8>)
    requires text == "00:11:22:33:44:55"
    ensures MacText(text, octets)
  {
    octets := seq(6, i requires 0 <= i < 6 => 0x11 * i);
    var parts := DoubledDigits();
    JoinDoubled(parts);
    forall i | 0 <= i < 6
      ensures NumberText(parts[i], Hexadecimal, octets[i])
    {
      DoubledDigit(parts[i], i);
    }
  }

  /** "00", "11" and so on to "55". */
  function DoubledDigits(): (parts: seq<string>)
    ensures |parts| == 6
  {
    seq(6, i requires 0 <= i < 6 => [DigitChar(i), DigitChar(i)])
  }

  lemma {:induction false} JoinDoubled(parts: seq<string>)
    requires parts == DoubledDigits()
    ensures Join(parts, ':') == "00:11:22:33:44:55"
  {
    assert parts == ["00", "11", "22", "33", "44", "55"];
    JoinSix("00", "11", "22", "33", "44", "55", ':');
  }

  lemma {:induction false} DoubledDigit(part: string, d: nat)
    requires d < 6 && part == [DigitChar(d), DigitChar(d)]
    ensures NumberText(part, Hexadecimal, 0x11 * d)
  {
    assert part == HexOctet(0x11 * d);
    HexOctetRead(0x11 * d);
    NumberTextMeaning(part, Hexadecimal, 0x100, 0x11 * d);
  }

  lemma {:induction false} JoinSix(a: string, b: string, c: string, d: string, e: string, f: string, sep: char)
    ensures Join([a, b, c, d, e, f], sep) ==
      a + [sep] + (b + [sep] + (c + [sep] + (d + [sep] + (e + [sep] + f))))
  {
    assert [a, b, c, d, e, f][1..] == [b, c, d, e, f] && [b, c, d, e, f][1..] == [c, d, e, f];
    JoinFour(c, d, e, f, sep);
    assert Join([b, c, d, e, f], sep) == b + [sep] + Join([c, d, e, f], sep);
  }

  lemma {:induction false} JoinFour(a: string, b: string, c: string, d: string, sep: char)
    ensures Join([a, b, c, d], sep) == a + [sep] + (b + [sep] + (c + [sep] + d))
  {
    assert [a, b, c, d][1..] == [b, c, d] && [b, c, d][1..] == [c, d] && [c, d][1..] == [d];
    assert Join([c, d], sep) == c + [sep] + d;
    assert Join([b, c, d], sep) == b + [sep] + (c + [sep] + d);
  }
}
