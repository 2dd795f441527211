/** The stateless relay protocol: clients, routers and echo servers exchanging datagrams
    through a network that delays, reorders, loses and duplicates them, while the routers,
    booted with nothing configured, are reconfigured at any moment to anything. */
module Relay {
  import opened Wrappers
  import opened Words
  import opened MapCells
  import opened Frames

  const SERVICE_PORT: u16 := 8888
  const BUFFER: nat := 1024

  /** A UDP datagram with the addresses it travels between. */
  datatype Packet = Packet(src: u32, sport: u16, dst: u32, dport: u16, payload: seq<u8>)

  function Truncated(bs: seq<u8>, n: nat): seq<u8> {
    bs[..Min(|bs|, n)]
  }

  // -------------------------------------------------- What hosts do

  function EncodedAddress(p: Packet): u32
    requires |p.payload| >= 4
  {
    Be32(p.payload[..4])
  }

  /** The router's rewrite. */
  function Rotate(p: Packet): Packet
    requires |p.payload| >= 4
  {
    Packet(p.dst, p.sport, EncodedAddress(p), p.dport, ToBeBytes32(p.src) + p.payload[4..])
  }

  /** What a router sends on receiving a packet. */
  function RouterSends(cells: Cells, p: Packet): seq<Packet> {
    if Forwards(cells, p.src) && |p.payload| >= 4 then [Rotate(p)] else []
  }

  /** The echo server's reply: what its buffer took of the datagram, back where it came from. */
  function Echo(p: Packet): Packet {
    Packet(p.dst, p.dport, p.src, p.sport, Truncated(p.payload, BUFFER))
  }

  /** The datagram a frame carries. */
  function View(f: seq<u8>): Packet
    requires IsDatagram(f)
  {
    Packet(SourceIp(f), Be16(f[34..36]), DestinationIp(f), Be16(f[36..38]), f[42..34 + UdpLength(f)])
  }

  /** On frames, the program is the router of this protocol, whatever is written to its cells
      while it runs. */
  lemma {:induction false} ProgramIsRouter(cells: Cells, later: Cells, f: seq<u8>)
    requires IsDatagram(f) && UdpLength(f) >= 12 && f[12..14] == [0x08, 0x00]
    ensures var o := ProcessBetween(cells, later, f);
      && IsDatagram(o.frame)
      && RouterSends(cells, View(f)) == if o.action == Tx then [View(o.frame)] else []
  {
    if Classify(cells, f) == Tx {
      ForwardedView(f, later.gateway);
    }
  }

  lemma {:induction false} ForwardedView(f: seq<u8>, gateway: u64)
    requires IsDatagram(f) && UdpLength(f) >= 12
    ensures IsDatagram(Forwarded(f, gateway))
    ensures View(Forwarded(f, gateway)) == Rotate(View(f))
  {
    var g := Forwarded(f, gateway);
    ForwardedIsDatagram(f, gateway);
    ForwardedFields(f, gateway);
    ViewFields(f);
    ViewFields(g);
    BytesOfBe32(f[26..30]);
    var end := 34 + UdpLength(f);
    assert g[46..end] == g[46..][..end - 46] == f[46..][..end - 46] == f[46..end];
  }

  lemma {:induction false} ViewFields(f: seq<u8>)
    requires IsDatagram(f) && UdpLength(f) >= 12
    ensures var p := View(f);
      && p.sport == Be16(f[34..42][..2]) && p.dport == Be16(f[34..42][2..4])
      && p.payload == f[42..46] + f[46..34 + UdpLength(f)]
      && p.payload[..4] == f[42..46] && p.payload[4..] == f[46..34 + UdpLength(f)]
  {
    assert f[34..42][..2] == f[34..36] && f[34..42][2..4] == f[36..38];
  }

  /** Router, echo, router is an echo by the router's own address: three addresses, two ports
      and the payload all come out as if the router had answered. */
  lemma {:induction false} RouterEchoRouterIsEcho(p: Packet)
    requires |p.payload| >= 4
    ensures |Echo(Rotate(p)).payload| >= 4
    ensures Rotate(Echo(Rotate(p))) == Echo(p)
  {
    var q := Rotate(p);
    BeOfBytes32(p.src);
    BytesOfBe32(p.payload[..4]);
    assert q.payload[..4] == ToBeBytes32(p.src) && q.payload[4..] == p.payload[4..];
    EchoedPayload(q);
    EchoedPayload(p);
    assert Echo(p).payload == Echo(p).payload[..4] + Echo(p).payload[4..];
  }

  lemma {:induction false} EchoedPayload(p: Packet)
    requires |p.payload| >= 4
    ensures var e := Echo(p).payload;
      |e| >= 4 && e[..4] == p.payload[..4] && e[4..] == Truncated(p.payload[4..], BUFFER - 4)
  {
  }

  /** What comes back from one router and the server it names. */
  function RoundTrip(cells: Cells, p: Packet): seq<Packet> {
    var out := RouterSends(cells, p);
    if out == [] then [] else RouterSends(cells, Echo(out[0]))
  }

  /** A request is answered exactly when neither the client nor the server it names is in the
      router's local net or link-local. */
  lemma {:induction false} AnsweredIffBothEndsForwarded(cells: Cells, p: Packet)
    requires |p.payload| >= 4
    ensures RoundTrip(cells, p) ==
      if Forwards(cells, p.src) && Forwards(cells, EncodedAddress(p)) then [Echo(p)] else []
  {
    RouterEchoRouterIsEcho(p);
  }

  // -------------------------------------------------- The network

  /** Who is where. */
  datatype World = World(clients: set<u32>, servers: set<u32>, routers: set<u32>)

  /** No address is two kinds of host. */
  predicate Disjoint(w: World) {
    w.clients !! w.servers && w.clients !! w.routers && w.servers !! w.routers
  }

  /** A configuration to which clients and servers are foreign and all routers local. */
  ghost predicate Separates(w: World, cells: Cells) {
    && (forall a :: a in w.clients || a in w.servers ==> Forwards(cells, a))
    && (forall r :: r in w.routers ==> !Forwards(cells, r))
  }

  /** Every router has such a configuration. */
  ghost predicate Configured(w: World, cells: map<u32, Cells>) {
    cells.Keys == w.routers && forall r :: r in cells ==> Separates(w, cells[r])
  }

  /** The routers on one subnet, clients and servers on others, none of them link-local. */
  ghost predicate RoutersOn(w: World, net: u32, length: nat)
    requires 1 <= length <= 32
  {
    && net % Pow2(32 - length) == 0
    && (forall r :: r in w.routers ==> net <= r < net + Pow2(32 - length))
    && (forall a :: a in w.clients || a in w.servers ==>
          !(net <= a < net + Pow2(32 - length)) && !(0xa9fe_0000 <= a < 0xa9ff_0000))
    && w.clients !! w.servers
  }

  /** That subnet, given to a router as its local net, separates the world. */
  lemma {:induction false} OneRouterSubnetSeparates(w: World, net: u32, length: nat, cells: Cells)
    requires 1 <= length <= 32 && RoutersOn(w, net, length)
    requires NetOf(cells.local) == net && MaskOf(cells.local) == PrefixMask(length)
    ensures Disjoint(w) && Separates(w, cells)
  {
    LinkLocalAndRange(net, length);
  }

  lemma {:induction false} LinkLocalAndRange(net: u32, length: nat)
    requires 1 <= length <= 32 && net % Pow2(32 - length) == 0
    ensures forall a: u32 :: IsLinkLocalIp(a) <==> 0xa9fe_0000 <= a < 0xa9ff_0000
    ensures forall a: u32 :: Matches(net, PrefixMask(length), a) <==> net <= a < net + Pow2(32 - length)
  {
    forall a: u32
      ensures IsLinkLocalIp(a) <==> 0xa9fe_0000 <= a < 0xa9ff_0000
      ensures Matches(net, PrefixMask(length), a) <==> net <= a < net + Pow2(32 - length)
    {
      LinkLocalIsRange(a);
      PrefixTestIsRange(net, length, a);
    }
  }

  /** A client socket asking, through a router, for some bytes to be echoed. The client may
      name any address as server. */
  datatype Request = Request(client: u32, cport: u16, router: u32, server: u32, rest: seq<u8>)

  predicate Possible(w: World, q: Request) {
    q.client in w.clients && q.router in w.routers
  }

  function RequestPacket(q: Request): Packet {
    Packet(q.client, q.cport, q.router, SERVICE_PORT, ToBeBytes32(q.server) + q.rest)
  }

  /** The request as its router passes it to the server. */
  function PassedOn(q: Request): Packet {
    Packet(q.router, q.cport, q.server, SERVICE_PORT, ToBeBytes32(q.client) + q.rest)
  }

  function EchoedBack(q: Request): Packet {
    Packet(q.server, SERVICE_PORT, q.router, q.cport, Truncated(ToBeBytes32(q.client) + q.rest, BUFFER))
  }

  /** The reply the client should see: from its router, its own payload as far as the server's
      buffer reaches. */
  function ReplyPacket(q: Request): Packet {
    Packet(q.router, SERVICE_PORT, q.client, q.cport, Truncated(ToBeBytes32(q.server) + q.rest, BUFFER))
  }

  /** The packet is the reply to the request: back at the socket it was made from, from port
      8888 of the router asked, with the server named and the data sent, all of it up to 1024
      bytes in all and the first 1024 bytes beyond. */
  predicate TrueReply(q: Request, p: Packet) {
    && p.src == q.router && p.sport == 8888 && p.dst == q.client && p.dport == q.cport
    && |p.payload| == Min(4 + |q.rest|, 1024)
    && p.payload <= ToBeBytes32(q.server) + q.rest
  }

  lemma {:induction false} ReplyIsTrue(q: Request)
    ensures TrueReply(q, ReplyPacket(q))
    ensures |q.rest| <= 1020 ==> ReplyPacket(q).payload == ToBeBytes32(q.server) + q.rest
  {
  }

  /** What comes back if the server named is a second router, and it forwards the first. */
  function Bounced(q: Request): Packet {
    Packet(q.server, q.cport, q.client, SERVICE_PORT, ToBeBytes32(q.router) + q.rest)
  }

  /** How many legs a request has: to its router, on to the address it names, and, if that is
      a server, back by the router, if it is a router, straight back. */
  function LegCount(w: World, q: Request): nat {
    if q.server in w.servers then 4 else if q.server in w.routers then 3 else 2
  }

  /** The packet on the i-th leg of a request. */
  function Leg(w: World, q: Request, i: nat): Packet
    requires 1 <= i <= LegCount(w, q)
  {
    if i == 1 then RequestPacket(q)
    else if i == 2 then PassedOn(q)
    else if i == 4 then ReplyPacket(q)
    else if q.server in w.servers then EchoedBack(q)
    else Bounced(q)
  }

  datatype Net = Net(
    cells: map<u32, Cells>,  // each router's present configuration
    inflight: seq<Packet>,   // in no particular order: any of them may be next
    sent: seq<Request>,      // requests clients made
    received: seq<Packet>,   // what reached clients
    dropped: seq<Packet>,    // what reached a host that did nothing with it
    lost: seq<Packet>,
    copied: seq<Packet>,     // duplicates the network made
    deliveries: nat)

  /** Every router just booted, its cells zero. */
  function Quiet(w: World): Net {
    Net(map r | r in w.routers :: INITIAL, [], [], [], [], [], [], 0)
  }

  datatype Event =
    | Configure(r: u32, to: Cells)
    | Send(q: Request)
    | Deliver(i: nat)
    | Lose(i: nat)
    | Copy(i: nat)

  function HostSends(w: World, cells: map<u32, Cells>, p: Packet): seq<Packet> {
    if p.dst in cells then RouterSends(cells[p.dst], p)
    else if p.dst in w.servers && p.dport == SERVICE_PORT then [Echo(p)]
    else []
  }

  function Without<T>(s: seq<T>, i: nat): seq<T>
    requires i < |s|
  {
    s[..i] + s[i + 1..]
  }

  /** One event. Routers may be reconfigured at any moment, between the legs of a request too,
      rightly or wrongly. */
  function Next(w: World, n: Net, e: Event): Net {
    match e
    case Configure(r, to) =>
      if r in w.routers then n.(cells := n.cells[r := to]) else n
    case Send(q) =>
      if Possible(w, q) then n.(inflight := n.inflight + [RequestPacket(q)], sent := n.sent + [q]) else n
    case Deliver(i) =>
      if i >= |n.inflight| then n
      else
        var p := n.inflight[i];
        var others := Without(n.inflight, i);
        if p.dst in w.clients then
          n.(inflight := others, received := n.received + [p], deliveries := n.deliveries + 1)
        else
          var out := HostSends(w, n.cells, p);
          n.(inflight := others + out, deliveries := n.deliveries + 1,
             dropped := if out == [] then n.dropped + [p] else n.dropped)
    case Lose(i) =>
      if i >= |n.inflight| then n
      else n.(inflight := Without(n.inflight, i), lost := n.lost + [n.inflight[i]])
    case Copy(i) =>
      if i >= |n.inflight| then n
      else n.(inflight := n.inflight + [n.inflight[i]], copied := n.copied + [n.inflight[i]])
  }

  function Run(w: World, es: seq<Event>): Net {
    if es == [] then Quiet(w) else Next(w, Run(w, es[..|es| - 1]), es[|es| - 1])
  }

  /** The events that give routers these cells. */
  lemma {:induction false} RoutersCanBeConfigured(w: World, es: seq<Event>, cells: map<u32, Cells>)
    returns (fs: seq<Event>)
    requires cells.Keys <= w.routers
    ensures forall e :: e in fs ==> e.Configure? && e.r in cells && e.to == cells[e.r]
    ensures Run(w, es + fs) == Run(w, es).(cells := Run(w, es).cells + cells)
    decreases |cells|
  {
    if cells == map[] {
      fs := [];
      assert es + [] == es;
      assert Run(w, es).cells + cells == Run(w, es).cells;
    } else {
      var r :| r in cells;
      var rest := cells - {r};
      var gs := RoutersCanBeConfigured(w, es, rest);
      fs := gs + [Configure(r, cells[r])];
      ConfigureLast(w, es, gs, cells, r);
    }
  }

  lemma {:induction false} ConfigureLast(w: World, es: seq<Event>, gs: seq<Event>, cells: map<u32, Cells>, r: u32)
    requires r in cells && r in w.routers
    requires Run(w, es + gs) == Run(w, es).(cells := Run(w, es).cells + (cells - {r}))
    ensures Run(w, es + (gs + [Configure(r, cells[r])])) == Run(w, es).(cells := Run(w, es).cells + cells)
  {
    Regroup(es, gs, [Configure(r, cells[r])]);
    RunStep(w, es + gs, Configure(r, cells[r]));
    MergeLast(Run(w, es).cells, cells, r);
  }

  lemma {:induction false} MergeLast(former: map<u32, Cells>, cells: map<u32, Cells>, r: u32)
    requires r in cells
    ensures (former + (cells - {r}))[r := cells[r]] == former + cells
  {
  }

  lemma {:induction false} RunCellsKeys(w: World, es: seq<Event>)
    ensures Run(w, es).cells.Keys == w.routers
  {
    if es != [] {
      RunCellsKeys(w, es[..|es| - 1]);
    }
  }

  /** Whatever happened before, the routers can be given any cells at all, and nothing else
      changes. */
  lemma {:induction false} AnyConfigurationReachable(w: World, es: seq<Event>, cells: map<u32, Cells>)
    requires cells.Keys == w.routers
    ensures exists fs :: Run(w, es + fs) == Run(w, es).(cells := cells)
  {
    RunCellsKeys(w, es);
    var fs := RoutersCanBeConfigured(w, es, cells);
    assert Run(w, es).cells + cells == cells;
  }

  // -------------------------------------------------- Whose packet is it?

  function AddressWord(p: Packet): u32 {
    if |p.payload| >= 4 then EncodedAddress(p) else 0
  }

  /** Legs still to travel, the present one included, read off the packet alone. */
  function Legs(w: World, p: Packet): nat {
    var a := AddressWord(p);
    if p.src in w.clients then (if a in w.servers then 4 else if a in w.routers then 3 else 2)
    else if p.src in w.servers then 2
    else if a in w.clients then (if p.dst in w.servers then 3 else if p.dst in w.routers then 2 else 1)
    else 1
  }

  function Trimmed(q: Request): Request {
    q.(rest := Truncated(q.rest, BUFFER - 4))
  }

  /** The request a packet belongs to, read off the packet alone, whichever leg it is on; its
      data only as far as an echo preserves them. */
  function Origin(w: World, p: Packet): Request {
    var a := AddressWord(p);
    var rest := if |p.payload| >= 4 then Truncated(p.payload[4..], BUFFER - 4) else [];
    if p.src in w.clients then Request(p.src, p.sport, p.dst, a, rest)
    else if p.src in w.servers then Request(a, p.dport, p.dst, p.src, rest)
    else if a in w.clients then Request(a, p.sport, p.src, p.dst, rest)
    else if a in w.servers then Request(p.dst, p.dport, p.src, a, rest)
    else Request(p.dst, p.sport, a, p.src, rest)
  }

  lemma {:induction false} AddressWordOf(p: Packet, a: u32, rest: seq<u8>)
    requires p.payload == ToBeBytes32(a) + rest
    ensures AddressWord(p) == a && p.payload[..4] == ToBeBytes32(a) && p.payload[4..] == rest
  {
    BeOfBytes32(a);
    assert p.payload[..4] == ToBeBytes32(a);
  }

  lemma {:induction false} TruncatedWord(a: u32, rest: seq<u8>)
    ensures Truncated(ToBeBytes32(a) + rest, BUFFER) == ToBeBytes32(a) + Truncated(rest, BUFFER - 4)
    ensures Truncated(Truncated(rest, BUFFER - 4), BUFFER - 4) == Truncated(rest, BUFFER - 4)
  {
  }

  /** The address word and the data on each leg. */
  lemma {:induction false} LegPayload(w: World, q: Request, i: nat)
    requires 1 <= i <= LegCount(w, q)
    ensures var p := Leg(w, q, i);
      && |p.payload| >= 4
      && AddressWord(p) == (if i == 1 || i == 4 then q.server
                            else if i == 2 || q.server in w.servers then q.client else q.router)
      && p.payload[4..] == (if i <= 2 || q.server !in w.servers then q.rest
                            else Truncated(q.rest, BUFFER - 4))
  {
    var p := Leg(w, q, i);
    var a := if i == 1 || i == 4 then q.server
             else if i == 2 || q.server in w.servers then q.client else q.router;
    TruncatedWord(a, q.rest);
    AddressWordOf(p, a, p.payload[4..]);
  }

  /** Every packet of a request tells whose it is and how far it has to go. */
  lemma {:induction false} OriginOfLeg(w: World, q: Request, i: nat)
    requires Disjoint(w) && Possible(w, q) && 1 <= i <= LegCount(w, q)
    ensures Origin(w, Leg(w, q, i)) == Trimmed(q)
    ensures Legs(w, Leg(w, q, i)) == LegCount(w, q) + 1 - i
  {
    LegPayload(w, q, i);
    TruncatedWord(q.client, q.rest);
  }

  /** A rotated packet is the next leg. */
  lemma {:induction false} RotatedLeg(w: World, q: Request, i: nat)
    requires Disjoint(w) && 1 <= i < LegCount(w, q)
    requires i == 2 ==> q.server !in w.servers
    ensures |Leg(w, q, i).payload| >= 4 && Rotate(Leg(w, q, i)) == Leg(w, q, i + 1)
  {
    LegPayload(w, q, i);
    TruncatedWord(q.server, q.rest);
  }

  /** The router whose cells decide whether the i-th leg is followed by another, the address
      they must forward, or None if an echo server decides. */
  function Gate(w: World, q: Request, i: nat): Option<(u32, u32)>
    requires 1 <= i < LegCount(w, q)
  {
    if i == 1 then Some((q.router, q.client))
    else if i == 3 then Some((q.router, q.server))
    else if q.server in w.servers then None
    else Some((q.server, q.router))
  }

  predicate Passes(w: World, cells: map<u32, Cells>, q: Request, i: nat)
    requires 1 <= i < LegCount(w, q)
  {
    var gate := Gate(w, q, i);
    gate.Some? ==> gate.value.0 in cells && Forwards(cells[gate.value.0], gate.value.1)
  }

  /** On every leg but the last a packet comes to a host that either sends exactly one packet
      on, that of the next leg, or drops it; and only a router drops, exactly when it is
      configured not to forward where the packet comes from. */
  lemma {:induction false} HostSendsNextLeg(w: World, cells: map<u32, Cells>, q: Request, i: nat)
    requires Disjoint(w) && cells.Keys == w.routers && Possible(w, q) && 1 <= i < LegCount(w, q)
    ensures Leg(w, q, i).dst !in w.clients
    ensures HostSends(w, cells, Leg(w, q, i)) ==
      if Passes(w, cells, q, i) then [Leg(w, q, i + 1)] else []
  {
    if i != 2 || q.server !in w.servers {
      RotatedLeg(w, q, i);
    }
  }

  /** The last leg ends at a client, or nowhere if the address named is nobody's. */
  lemma {:induction false} LastLegEnds(w: World, cells: map<u32, Cells>, q: Request)
    requires Disjoint(w) && cells.Keys == w.routers && Possible(w, q)
    ensures var p := Leg(w, q, LegCount(w, q));
      && (p.dst in w.clients <==> q.server in w.servers + w.routers + w.clients)
      && (p.dst !in w.clients ==> HostSends(w, cells, p) == [])
  {
  }

  // -------------------------------------------------- Conservation

  /** How many of these packets belong to the request k. */
  function Count(w: World, ps: seq<Packet>, k: Request): nat {
    if ps == [] then 0
    else Count(w, ps[..|ps| - 1], k) + (if Origin(w, ps[|ps| - 1]) == k then 1 else 0)
  }

  /** How many times the request k was made, data beyond the echo buffer disregarded. */
  function AskedCount(qs: seq<Request>, k: Request): nat {
    if qs == [] then 0
    else AskedCount(qs[..|qs| - 1], k) + (if Trimmed(qs[|qs| - 1]) == k then 1 else 0)
  }

  function TotalLegs(w: World, ps: seq<Packet>): nat {
    if ps == [] then 0 else TotalLegs(w, ps[..|ps| - 1]) + Legs(w, ps[|ps| - 1])
  }

  lemma {:induction false} CountAdd(w: World, ps: seq<Packet>, p: Packet, k: Request)
    ensures Count(w, ps + [p], k) == Count(w, ps, k) + (if Origin(w, p) == k then 1 else 0)
    ensures TotalLegs(w, ps + [p]) == TotalLegs(w, ps) + Legs(w, p)
  {
    assert (ps + [p])[..|ps|] == ps;
  }

  lemma {:induction false} AskedAdd(w: World, qs: seq<Request>, q: Request, k: Request)
    ensures AskedCount(qs + [q], k) == AskedCount(qs, k) + (if Trimmed(q) == k then 1 else 0)
    ensures AskedLegs(w, qs + [q]) == AskedLegs(w, qs) + LegCount(w, q)
  {
    assert (qs + [q])[..|qs|] == qs;
  }

  lemma {:induction false} CountWithout(w: World, ps: seq<Packet>, i: nat, k: Request)
    requires i < |ps|
    ensures Count(w, ps, k) == Count(w, Without(ps, i), k) + (if Origin(w, ps[i]) == k then 1 else 0)
    ensures TotalLegs(w, ps) == TotalLegs(w, Without(ps, i)) + Legs(w, ps[i])
  {
    var last := |ps| - 1;
    if i == last {
      assert Without(ps, i) == ps[..last];
    } else {
      CountWithout(w, ps[..last], i, k);
      CountAdd(w, Without(ps[..last], i), ps[last], k);
      WithoutLast(ps, i);
    }
  }

  lemma {:induction false} WithoutLast<T>(ps: seq<T>, i: nat)
    requires i < |ps| - 1
    ensures Without(ps, i) == Without(ps[..|ps| - 1], i) + [ps[|ps| - 1]]
  {
  }

  function AskedLegs(w: World, qs: seq<Request>): nat {
    if qs == [] then 0 else AskedLegs(w, qs[..|qs| - 1]) + LegCount(w, qs[|qs| - 1])
  }

  /** The packet is on some leg of a request that was made. */
  ghost predicate OnCourse(w: World, qs: seq<Request>, p: Packet) {
    exists q, i :: q in qs && Possible(w, q) && 1 <= i <= LegCount(w, q) && p == Leg(w, q, i)
  }

  /** The packet has come to a client on the last leg of a request that was made. */
  ghost predicate Arrived(w: World, qs: seq<Request>, p: Packet) {
    && p.dst in w.clients
    && exists q :: q in qs && Possible(w, q) && p == Leg(w, q, LegCount(w, q))
  }

  ghost predicate AllOnCourse(w: World, n: Net) {
    && n.cells.Keys == w.routers
    && (forall p :: p in n.inflight ==> OnCourse(w, n.sent, p))
    && (forall p :: p in n.received ==> Arrived(w, n.sent, p))
  }

  /** Of the request k there are in flight, received, dropped and lost as many packets as were
      asked and duplicated. */
  ghost predicate PacketsConserved(w: World, n: Net, k: Request) {
    Count(w, n.inflight, k) + Count(w, n.received, k) + Count(w, n.dropped, k) + Count(w, n.lost, k)
      == AskedCount(n.sent, k) + Count(w, n.copied, k)
  }

  /** Legs travelled, to travel, and cut short by a loss or a drop are those of each request
      and of duplicates. The leg that ends in a drop was travelled. */
  ghost predicate LegsConserved(w: World, n: Net) {
    n.deliveries + TotalLegs(w, n.inflight) + TotalLegs(w, n.lost) + TotalLegs(w, n.dropped) - |n.dropped|
      == AskedLegs(w, n.sent) + TotalLegs(w, n.copied)
  }

  ghost predicate Conserved(w: World, n: Net) {
    AllOnCourse(w, n) && (forall k :: PacketsConserved(w, n, k)) && LegsConserved(w, n)
  }

  lemma {:induction false} InflightWithout(ps: seq<Packet>, i: nat)
    requires i < |ps|
    ensures forall p :: p in Without(ps, i) ==> p in ps
  {
  }

  /** What a delivery does: it hands the packet to a client on its last leg, or to a host that
      sends the next leg or nothing. */
  lemma {:induction false} DeliverLeg(w: World, n: Net, k: nat, q: Request, i: nat) returns (out: seq<Packet>)
    requires Disjoint(w) && n.cells.Keys == w.routers && k < |n.inflight|
    requires Possible(w, q) && 1 <= i <= LegCount(w, q) && n.inflight[k] == Leg(w, q, i)
    ensures n.inflight[k].dst in w.clients ==>
      && i == LegCount(w, q)
      && Next(w, n, Deliver(k)) ==
           n.(inflight := Without(n.inflight, k), received := n.received + [n.inflight[k]],
              deliveries := n.deliveries + 1)
    ensures n.inflight[k].dst !in w.clients ==>
      && (out == [] || (i < LegCount(w, q) && out == [Leg(w, q, i + 1)]))
      && (out != [] <==> i < LegCount(w, q) && Passes(w, n.cells, q, i))
      && Next(w, n, Deliver(k)) ==
           n.(inflight := Without(n.inflight, k) + out, deliveries := n.deliveries + 1,
              dropped := if out == [] then n.dropped + [n.inflight[k]] else n.dropped)
  {
    out := HostSends(w, n.cells, n.inflight[k]);
    if i < LegCount(w, q) {
      HostSendsNextLeg(w, n.cells, q, i);
    } else {
      LastLegEnds(w, n.cells, q);
    }
  }

  lemma {:induction false} StillOnCourse(w: World, qs: seq<Request>, q: Request, ps: seq<Packet>)
    ensures (forall p :: p in ps ==> OnCourse(w, qs, p)) ==> forall p :: p in ps ==> OnCourse(w, qs + [q], p)
    ensures (forall p :: p in ps ==> Arrived(w, qs, p)) ==> forall p :: p in ps ==> Arrived(w, qs + [q], p)
  {
    assert forall r :: r in qs ==> r in qs + [q];
  }

  lemma {:induction false} SendOnCourse(w: World, n: Net, q: Request)
    requires AllOnCourse(w, n) && Possible(w, q)
    ensures AllOnCourse(w, Next(w, n, Send(q)))
  {
    StillOnCourse(w, n.sent, q, n.inflight);
    StillOnCourse(w, n.sent, q, n.received);
    assert q in n.sent + [q] && RequestPacket(q) == Leg(w, q, 1);
    assert OnCourse(w, n.sent + [q], RequestPacket(q));
  }

  lemma {:induction false} DeliverOnCourse(w: World, n: Net, k: nat)
    requires Disjoint(w) && AllOnCourse(w, n) && k < |n.inflight|
    ensures AllOnCourse(w, Next(w, n, Deliver(k)))
  {
    InflightWithout(n.inflight, k);
    assert OnCourse(w, n.sent, n.inflight[k]);
    var q, i :| q in n.sent && Possible(w, q) && 1 <= i <= LegCount(w, q) && n.inflight[k] == Leg(w, q, i);
    var out := DeliverLeg(w, n, k, q, i);
    if n.inflight[k].dst in w.clients {
      assert Arrived(w, n.sent, n.inflight[k]);
    } else if out != [] {
      assert OnCourse(w, n.sent, out[0]);
    }
  }

  lemma {:induction false} NextOnCourse(w: World, n: Net, e: Event)
    requires Disjoint(w) && AllOnCourse(w, n)
    ensures AllOnCourse(w, Next(w, n, e))
  {
    if e.Configure? {
    } else if e.Send? {
      if Possible(w, e.q) {
        SendOnCourse(w, n, e.q);
      }
    } else if e.i < |n.inflight| {
      InflightWithout(n.inflight, e.i);
      if e.Deliver? {
        DeliverOnCourse(w, n, e.i);
      }
    }
  }

  lemma {:induction false} NextConserves(w: World, n: Net, e: Event, k: Request)
    requires Disjoint(w) && AllOnCourse(w, n)
    requires PacketsConserved(w, n, k) && LegsConserved(w, n)
    ensures PacketsConserved(w, Next(w, n, e), k) && LegsConserved(w, Next(w, n, e))
  {
    if e.Configure? {
    } else if e.Send? {
      if Possible(w, e.q) {
        OriginOfLeg(w, e.q, 1);
        AskedAdd(w, n.sent, e.q, k);
        CountAdd(w, n.inflight, RequestPacket(e.q), k);
      }
    } else if e.i < |n.inflight| {
      var p := n.inflight[e.i];
      CountWithout(w, n.inflight, e.i, k);
      if e.Deliver? {
        assert OnCourse(w, n.sent, p);
        DeliverConserves(w, n, e.i, k);
      } else if e.Lose? {
        CountAdd(w, n.lost, p, k);
      } else {
        CountAdd(w, n.copied, p, k);
        CountAdd(w, n.inflight, p, k);
      }
    }
  }

  lemma {:induction false} DeliverConserves(w: World, n: Net, j: nat, k: Request)
    requires Disjoint(w) && n.cells.Keys == w.routers && PacketsConserved(w, n, k) && LegsConserved(w, n)
    requires j < |n.inflight| && OnCourse(w, n.sent, n.inflight[j])
    ensures PacketsConserved(w, Next(w, n, Deliver(j)), k) && LegsConserved(w, Next(w, n, Deliver(j)))
  {
    var p := n.inflight[j];
    var q, i :| q in n.sent && Possible(w, q) && 1 <= i <= LegCount(w, q) && p == Leg(w, q, i);
    var out := DeliverLeg(w, n, j, q, i);
    CountWithout(w, n.inflight, j, k);
    OriginOfLeg(w, q, i);
    if p.dst in w.clients {
      CountAdd(w, n.received, p, k);
    } else if out == [] {
      assert Without(n.inflight, j) + out == Without(n.inflight, j);
      CountAdd(w, n.dropped, p, k);
    } else {
      OriginOfLeg(w, q, i + 1);
      CountAdd(w, Without(n.inflight, j), out[0], k);
    }
  }

  /** Conservation holds throughout every run from boot, however the routers are configured
      before, between and after the legs of a request, and whatever the requests name. */
  lemma {:induction false} EveryRunConserves(w: World, es: seq<Event>)
    requires Disjoint(w)
    ensures Conserved(w, Run(w, es))
  {
    if es != [] {
      var n := Run(w, es[..|es| - 1]);
      EveryRunConserves(w, es[..|es| - 1]);
      NextOnCourse(w, n, es[|es| - 1]);
      forall k
        ensures PacketsConserved(w, Run(w, es), k) && LegsConserved(w, Run(w, es))
      {
        NextConserves(w, n, es[|es| - 1], k);
      }
      var any: Request := Request(0, 0, 0, 0, []);
      assert PacketsConserved(w, Run(w, es), any);
    }
  }

  // -------------------------------------------------- Guarantees over every run

  /** Whatever is delayed, reordered, lost, duplicated or reconfigured, everything a client
      receives comes of a request that was made. If that named a server, it is the reply to
      the client's own request, at the socket it was made from: from the router it asked,
      carrying the server it named and the bytes it sent. A client named as server receives
      the request; and a second router named as server bounces the request in its own name. */
  lemma {:induction false} EveryReplyAnswersItsRequest(w: World, es: seq<Event>, p: Packet)
    requires Disjoint(w) && p in Run(w, es).received
    ensures p.dst in w.clients
    ensures exists q ::
      && q in Run(w, es).sent && Possible(w, q)
      && (|| (q.server in w.servers && p == ReplyPacket(q) && TrueReply(q, p))
          || (q.server in w.clients && p == PassedOn(q))
          || (q.server in w.routers && p == Bounced(q)))
    ensures p.src in w.routers
  {
    EveryRunConserves(w, es);
    var q :| q in Run(w, es).sent && Possible(w, q) && p == Leg(w, q, LegCount(w, q));
    LastLegEnds(w, Run(w, es).cells, q);
    ReplyIsTrue(q);
  }

  /** A client can tell which it is by the address word: one that names a server says that this
      is a true reply. */
  lemma {:induction false} ServerWordMeansReply(w: World, es: seq<Event>, p: Packet)
    requires Disjoint(w) && p in Run(w, es).received
    ensures AddressWord(p) in w.servers <==>
      exists q :: q in Run(w, es).sent && Possible(w, q) && q.server in w.servers && p == ReplyPacket(q)
  {
    EveryRunConserves(w, es);
    var q :| q in Run(w, es).sent && Possible(w, q) && p == Leg(w, q, LegCount(w, q));
    LegPayload(w, q, LegCount(w, q));
    forall q' | Possible(w, q') && q'.server in w.servers && p == ReplyPacket(q')
      ensures AddressWord(p) in w.servers
    {
      LegPayload(w, q', 4);
    }
  }

  /** Unless the network duplicates, no request is answered more often than it was made. */
  lemma {:induction false} AtMostOneReplyPerRequest(w: World, es: seq<Event>, k: Request)
    requires Disjoint(w) && Run(w, es).copied == []
    ensures Count(w, Run(w, es).received, k) <= AskedCount(Run(w, es).sent, k)
  {
    EveryRunConserves(w, es);
    assert PacketsConserved(w, Run(w, es), k);
  }

  lemma {:induction false} LegsBounds(w: World, ps: seq<Packet>)
    ensures |ps| <= TotalLegs(w, ps) <= 4 * |ps|
  {
    if ps != [] {
      LegsBounds(w, ps[..|ps| - 1]);
    }
  }

  lemma {:induction false} AskedLegsBound(w: World, qs: seq<Request>)
    ensures AskedLegs(w, qs) <= 4 * |qs|
  {
    if qs != [] {
      AskedLegsBound(w, qs[..|qs| - 1]);
    }
  }

  /** No packet goes round in a loop: a run has at most four deliveries for each request made
      and each duplicate, however long it is, however the routers are configured and whatever
      addresses, routers included, the requests name. */
  lemma {:induction false} NoLoops(w: World, es: seq<Event>)
    requires Disjoint(w)
    ensures var n := Run(w, es);
      n.deliveries <= AskedLegs(w, n.sent) + 4 * |n.copied| <= 4 * |n.sent| + 4 * |n.copied|
  {
    EveryRunConserves(w, es);
    LegsBounds(w, Run(w, es).copied);
    LegsBounds(w, Run(w, es).dropped);
    AskedLegsBound(w, Run(w, es).sent);
  }

  /** From the moment the configuration of every router separates, and as long as it does,
      nothing is dropped, not even what was under way before, except requests that name
      neither a server nor a client. */
  lemma {:induction false} NothingDroppedOnceConfigured(w: World, es: seq<Event>, fs: seq<Event>)
    requires Disjoint(w) && Configured(w, Run(w, es).cells)
    requires forall e :: e in fs && e.Configure? ==> Separates(w, e.to)
    ensures Configured(w, Run(w, es + fs).cells)
    ensures var before, after := Run(w, es).dropped, Run(w, es + fs).dropped;
      && before <= after
      && forall i :: |before| <= i < |after| ==> Origin(w, after[i]).server !in w.servers + w.clients
    decreases |fs|
  {
    if fs == [] {
      assert es + fs == es;
    } else {
      var last := |fs| - 1;
      assert fs[last] in fs;
      NothingDroppedOnceConfigured(w, es, fs[..last]);
      Regroup(es, fs[..last], [fs[last]]);
      assert fs == fs[..last] + [fs[last]];
      RunStep(w, es + fs[..last], fs[last]);
      EveryRunConserves(w, es + fs[..last]);
      NextDropsNothing(w, Run(w, es + fs[..last]), fs[last]);
    }
  }

  lemma {:induction false} NextDropsNothing(w: World, n: Net, e: Event)
    requires Disjoint(w) && AllOnCourse(w, n) && Configured(w, n.cells)
    requires e.Configure? ==> Separates(w, e.to)
    ensures Configured(w, Next(w, n, e).cells)
    ensures || Next(w, n, e).dropped == n.dropped
            || exists p :: Next(w, n, e).dropped == n.dropped + [p] && Origin(w, p).server !in w.servers + w.clients
  {
    if e.Deliver? && e.i < |n.inflight| {
      var p := n.inflight[e.i];
      assert OnCourse(w, n.sent, p);
      var q, i :| q in n.sent && Possible(w, q) && 1 <= i <= LegCount(w, q) && p == Leg(w, q, i);
      OriginOfLeg(w, q, i);
      DeliverDropsNothing(w, n, e.i, q, i);
    }
  }

  lemma {:induction false} DeliverDropsNothing(w: World, n: Net, k: nat, q: Request, i: nat)
    requires Disjoint(w) && Configured(w, n.cells) && k < |n.inflight|
    requires Possible(w, q) && 1 <= i <= LegCount(w, q) && n.inflight[k] == Leg(w, q, i)
    ensures Next(w, n, Deliver(k)).cells == n.cells
    ensures || Next(w, n, Deliver(k)).dropped == n.dropped
            || (q.server !in w.servers + w.clients && Next(w, n, Deliver(k)).dropped == n.dropped + [n.inflight[k]])
  {
    var out := DeliverLeg(w, n, k, q, i);
    if q.server in w.servers + w.clients {
      if i < LegCount(w, q) {
        SeparatingPasses(w, n.cells, q, i);
      } else {
        LastLegEnds(w, n.cells, q);
      }
    }
  }

  lemma {:induction false} SeparatingPasses(w: World, cells: map<u32, Cells>, q: Request, i: nat)
    requires Disjoint(w) && Configured(w, cells) && Possible(w, q)
    requires 1 <= i < LegCount(w, q) && q.server in w.servers + w.clients
    ensures Passes(w, cells, q, i)
  {
  }

  lemma {:induction false} RunStep(w: World, es: seq<Event>, e: Event)
    ensures Run(w, es + [e]) == Next(w, Run(w, es), e)
  {
  }

  function Deliveries(i: nat, count: nat): seq<Event> {
    if count == 0 then [] else [Deliver(i)] + Deliveries(i, count - 1)
  }

  function Delivered(w: World, n: Net, i: nat, count: nat): Net
    decreases count
  {
    if count == 0 then n else Delivered(w, Next(w, n, Deliver(i)), i, count - 1)
  }

  lemma {:induction false} RunDeliveries(w: World, es: seq<Event>, i: nat, count: nat)
    ensures Run(w, es + Deliveries(i, count)) == Delivered(w, Run(w, es), i, count)
    decreases count
  {
    if count == 0 {
      assert es + [] == es;
    } else {
      RunStep(w, es, Deliver(i));
      RunDeliveries(w, es + [Deliver(i)], i, count - 1);
      Regroup(es, [Deliver(i)], Deliveries(i, count - 1));
    }
  }

  lemma {:induction false} DeliveredStep(w: World, n: Net, i: nat, count: nat, n': Net)
    requires count > 0 && Next(w, n, Deliver(i)) == n'
    ensures Delivered(w, n, i, count) == Delivered(w, n', i, count - 1)
  {
  }

  lemma {:induction false} NothingLeft(w: World, n: Net, i: nat, count: nat)
    requires i == |n.inflight|
    ensures Delivered(w, n, i, count) == n
    decreases count
  {
    if count > 0 {
      NothingLeft(w, n, i, count - 1);
    }
  }

  /** The routers on a request's way forward it, from the i-th leg on. */
  predicate WayOpen(w: World, cells: map<u32, Cells>, q: Request, i: nat)
    requires 1 <= i <= LegCount(w, q)
  {
    forall j | i <= j < LegCount(w, q) :: Passes(w, cells, q, j)
  }

  /** For a request that names a server: its router forwards both its ends. */
  lemma {:induction false} WayToServer(w: World, cells: map<u32, Cells>, q: Request)
    requires cells.Keys == w.routers && Possible(w, q) && q.server in w.servers
    ensures WayOpen(w, cells, q, 1) <==>
      Forwards(cells[q.router], q.client) && Forwards(cells[q.router], q.server)
  {
    if WayOpen(w, cells, q, 1) {
      assert Passes(w, cells, q, 1) && Passes(w, cells, q, 3);
    }
  }

  /** The state m is n with the packet on the i-th leg of q carried to its end and nothing else
      disturbed, if the routers on its way forward it; if not, no client got anything. */
  ghost predicate CarriedIfOpen(w: World, n: Net, m: Net, base: seq<Packet>, q: Request, i: nat)
    requires 1 <= i <= LegCount(w, q)
  {
    var last := Leg(w, q, LegCount(w, q));
    if WayOpen(w, n.cells, q, i) && last.dst in w.clients
    then m == n.(inflight := base, received := n.received + [last],
                 deliveries := n.deliveries + LegCount(w, q) + 1 - i)
    else m.received == n.received
  }

  /** From any state of any run a new request can be carried to its end, disturbing nothing
      else, if the routers on its way forward it; if not, no client gets anything. One that
      names a server can be carried to its reply, in four deliveries. */
  lemma {:induction false} RequestsCanComplete(w: World, es: seq<Event>, q: Request)
    requires Disjoint(w) && Possible(w, q)
    ensures var n := Run(w, es);
      var m := Run(w, es + [Send(q)] + Deliveries(|n.inflight|, LegCount(w, q)));
      if WayOpen(w, n.cells, q, 1) && q.server in w.servers + w.routers + w.clients
      then m == n.(sent := n.sent + [q], received := n.received + [Leg(w, q, LegCount(w, q))],
                   deliveries := n.deliveries + LegCount(w, q))
      else m.received == n.received
    ensures q.server in w.servers ==> LegCount(w, q) == 4 && Leg(w, q, LegCount(w, q)) == ReplyPacket(q)
  {
    var n := Run(w, es);
    EveryRunConserves(w, es);
    RunStep(w, es, Send(q));
    RunDeliveries(w, es + [Send(q)], |n.inflight|, LegCount(w, q));
    RequestTravels(w, Run(w, es + [Send(q)]), n.inflight, q, 1, LegCount(w, q));
    LastLegEnds(w, n.cells, q);
  }

  /** A lost request stays unanswered. */
  lemma {:induction false} LossesGoUnanswered(w: World, es: seq<Event>, q: Request)
    requires Possible(w, q)
    ensures var n := Run(w, es);
      Run(w, es + [Send(q)] + [Lose(|n.inflight|)]) == n.(sent := n.sent + [q], lost := n.lost + [RequestPacket(q)])
  {
    var n := Run(w, es);
    RunStep(w, es, Send(q));
    RunStep(w, es + [Send(q)], Lose(|n.inflight|));
    WithoutEntered(n.inflight, RequestPacket(q));
  }

  /** A duplicated one can be answered twice: without duplication is a condition that the bound
      on replies needs. */
  lemma {:induction false} DuplicatesCanBeAnswered(w: World, es: seq<Event>, q: Request)
    requires Disjoint(w) && Possible(w, q) && q.server in w.servers && WayOpen(w, Run(w, es).cells, q, 1)
    ensures var n := Run(w, es);
      var k := |n.inflight|;
      var copied := es + [Send(q)] + [Copy(k)];
      Run(w, copied + Deliveries(k + 1, LegCount(w, q)) + Deliveries(k, LegCount(w, q))) ==
        n.(sent := n.sent + [q], copied := n.copied + [RequestPacket(q)],
           received := n.received + [ReplyPacket(q)] + [ReplyPacket(q)],
           deliveries := n.deliveries + LegCount(w, q) + LegCount(w, q))
  {
    var n := Run(w, es);
    var k := |n.inflight|;
    var p := RequestPacket(q);
    var copied := es + [Send(q)] + [Copy(k)];
    EveryRunConserves(w, es);
    RunStep(w, es, Send(q));
    RunStep(w, es + [Send(q)], Copy(k));
    EntersAndTravels(w, copied, n.inflight + [p], q);
    EntersAndTravels(w, copied + Deliveries(k + 1, LegCount(w, q)), n.inflight, q);
  }

  /** The request that entered the network last, carried to its reply. */
  lemma {:induction false} EntersAndTravels(w: World, es: seq<Event>, base: seq<Packet>, q: Request)
    requires Disjoint(w) && Possible(w, q) && q.server in w.servers && WayOpen(w, Run(w, es).cells, q, 1)
    requires Run(w, es).cells.Keys == w.routers && Run(w, es).inflight == base + [RequestPacket(q)]
    ensures var n := Run(w, es);
      Run(w, es + Deliveries(|base|, LegCount(w, q))) ==
        n.(inflight := base, received := n.received + [ReplyPacket(q)], deliveries := n.deliveries + LegCount(w, q))
  {
    RunDeliveries(w, es, |base|, LegCount(w, q));
    RequestTravels(w, Run(w, es), base, q, 1, LegCount(w, q));
    LastLegEnds(w, Run(w, es).cells, q);
  }

  /** Servers answer at port 8888 and nowhere else. */
  lemma {:induction false} OtherPortsSilent(w: World, cells: map<u32, Cells>, p: Packet)
    requires Disjoint(w) && cells.Keys == w.routers && p.dst in w.servers
    ensures HostSends(w, cells, p) == if p.dport == 8888 then [Echo(p)] else []
  {
  }

  /** The network n' is n after the packet on the i-th leg of q, the last that entered it, was
      delivered: the next leg takes its place, or nothing. */
  ghost predicate Stepped(w: World, n: Net, n': Net, base: seq<Packet>, q: Request, i: nat)
    requires 1 <= i <= LegCount(w, q)
  {
    if i < LegCount(w, q) && Passes(w, n.cells, q, i)
    then n' == n.(inflight := base + [Leg(w, q, i + 1)], deliveries := n.deliveries + 1)
    else && n'.inflight == base
         && if i == LegCount(w, q) && Leg(w, q, i).dst in w.clients
            then n' == n.(inflight := base, received := n.received + [Leg(w, q, i)], deliveries := n.deliveries + 1)
            else n'.received == n.received
  }

  /** The packet that entered the network last is on the i-th leg of q. */
  ghost predicate Underway(w: World, n: Net, base: seq<Packet>, q: Request, i: nat) {
    n.cells.Keys == w.routers && 1 <= i <= LegCount(w, q) && n.inflight == base + [Leg(w, q, i)]
  }

  lemma {:induction false} RequestTravels(w: World, n: Net, base: seq<Packet>, q: Request, i: nat, count: nat)
    requires Disjoint(w) && Possible(w, q)
    requires Underway(w, n, base, q, i) && i + count == LegCount(w, q) + 1
    ensures CarriedIfOpen(w, n, Delivered(w, n, |base|, count), base, q, i)
    decreases count, 1
  {
    var n', m := DeliverEntered(w, n, base, q, i, count);
    if Underway(w, n', base, q, i + 1) {
      TravelsOn(w, n, n', m, base, q, i, count - 1);
    } else {
      CarriedNoFurther(w, n, n', base, q, i);
    }
  }

  lemma {:induction false} TravelsOn(
      w: World, n: Net, n': Net, m: Net, base: seq<Packet>, q: Request, i: nat, count: nat)
    requires Disjoint(w) && Possible(w, q)
    requires 1 <= i < LegCount(w, q) && Passes(w, n.cells, q, i) && Stepped(w, n, n', base, q, i)
    requires Underway(w, n', base, q, i + 1) && i + count == LegCount(w, q)
    requires m == Delivered(w, n', |base|, count)
    ensures CarriedIfOpen(w, n, m, base, q, i)
    decreases count, 2
  {
    RequestTravels(w, n', base, q, i + 1, count);
    CarriedFurther(w, n, n', m, base, q, i);
  }

  lemma {:induction false} CarriedFurther(
      w: World, n: Net, n': Net, m: Net, base: seq<Packet>, q: Request, i: nat)
    requires 1 <= i < LegCount(w, q) && Passes(w, n.cells, q, i)
    requires Stepped(w, n, n', base, q, i) && CarriedIfOpen(w, n', m, base, q, i + 1)
    ensures CarriedIfOpen(w, n, m, base, q, i)
  {
    WayOpenStep(w, n.cells, q, i);
  }

  lemma {:induction false} CarriedNoFurther(w: World, n: Net, n': Net, base: seq<Packet>, q: Request, i: nat)
    requires 1 <= i <= LegCount(w, q) && (i < LegCount(w, q) ==> !Passes(w, n.cells, q, i))
    requires Stepped(w, n, n', base, q, i)
    ensures CarriedIfOpen(w, n, n', base, q, i)
  {
    if i < LegCount(w, q) {
      WayOpenStep(w, n.cells, q, i);
    }
  }

  lemma {:induction false} WayOpenStep(w: World, cells: map<u32, Cells>, q: Request, i: nat)
    requires 1 <= i < LegCount(w, q)
    ensures WayOpen(w, cells, q, i) <==> Passes(w, cells, q, i) && WayOpen(w, cells, q, i + 1)
  {
  }

  lemma {:induction false} DeliverEntered(w: World, n: Net, base: seq<Packet>, q: Request, i: nat, count: nat)
    returns (n': Net, m: Net)
    requires Disjoint(w) && Possible(w, q) && Underway(w, n, base, q, i) && count > 0
    ensures m == Delivered(w, n, |base|, count) == Delivered(w, n', |base|, count - 1)
    ensures Stepped(w, n, n', base, q, i)
    ensures Underway(w, n', base, q, i + 1) <==> i < LegCount(w, q) && Passes(w, n.cells, q, i)
    ensures Underway(w, n', base, q, i + 1) || m == n'
  {
    var out := DeliverLeg(w, n, |base|, q, i);
    n' := Next(w, n, Deliver(|base|));
    m := Delivered(w, n, |base|, count);
    WithoutEntered(base, Leg(w, q, i));
    DeliveredStep(w, n, |base|, count, n');
    assert base + [] == base;
    if i < LegCount(w, q) && Passes(w, n.cells, q, i) {
      HostSendsNextLeg(w, n.cells, q, i);
    } else {
      assert n'.inflight == base;
      NothingLeft(w, n', |base|, count - 1);
    }
  }

  lemma {:induction false} WithoutEntered(base: seq<Packet>, p: Packet)
    ensures Without(base + [p], |base|) == base
  {
  }
}
