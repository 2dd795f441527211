/** The actor that owns the controller's side of the configuration cells. */
module BpfActor {
  import opened Words
  import opened MapCells

  datatype Message =
    | GetStats
    | SetLocalNetAndMask(net: u32, mask: u32)
    | SetBackendNetAndMask(net: u32, mask: u32)
    | SetGatewayMacAddress(mac: u64)

  /** A message and the caller waiting for its completion. */
  datatype Call = Call(id: nat, message: Message)

  /** What handling a message does to the cells. */
  function Apply(cells: Cells, m: Message): Cells {
    match m
    case GetStats => cells
    case SetLocalNetAndMask(net, mask) => cells.(local := Pack(net, mask))
    case SetBackendNetAndMask(net, mask) => cells.(backend := Pack(net, mask))
    case SetGatewayMacAddress(mac) => cells.(gateway := mac)
  }

  function ApplyAll(cells: Cells, calls: seq<Call>): Cells {
    if calls == [] then cells
    else Apply(ApplyAll(cells, calls[..|calls| - 1]), calls[|calls| - 1].message)
  }

  // -------------------------------------------------- The meaning of a history

  /** The net and mask of the last local-net message, or zeros before the first. */
  function LatestLocal(calls: seq<Call>): (u32, u32) {
    if calls == [] then (0, 0)
    else match calls[|calls| - 1].message
      case SetLocalNetAndMask(net, mask) => (net, mask)
      case _ => LatestLocal(calls[..|calls| - 1])
  }

  function LatestBackend(calls: seq<Call>): (u32, u32) {
    if calls == [] then (0, 0)
    else match calls[|calls| - 1].message
      case SetBackendNetAndMask(net, mask) => (net, mask)
      case _ => LatestBackend(calls[..|calls| - 1])
  }

  function LatestGateway(calls: seq<Call>): u64 {
    if calls == [] then 0
    else match calls[|calls| - 1].message
      case SetGatewayMacAddress(mac) => mac
      case _ => LatestGateway(calls[..|calls| - 1])
  }

  /** Unpacking the cells yields, whole, what the last message of each kind carried. */
  lemma {:induction false} CellsHoldLatest(calls: seq<Call>)
    ensures var c := ApplyAll(INITIAL, calls);
      && (NetOf(c.local), MaskOf(c.local)) == LatestLocal(calls)
      && (NetOf(c.backend), MaskOf(c.backend)) == LatestBackend(calls)
      && c.gateway == LatestGateway(calls)
  {
    if calls == [] {
      Powers();
      AndLowMask(0, 32);
    } else {
      CellsHoldLatest(calls[..|calls| - 1]);
      match calls[|calls| - 1].message
      case SetLocalNetAndMask(net, mask) => UnpackPack(net, mask);
      case SetBackendNetAndMask(net, mask) => UnpackPack(net, mask);
      case _ =>
    }
  }

  /** The cells say what the message said. */
  predicate Holds(cells: Cells, m: Message) {
    match m
    case GetStats => true
    case SetLocalNetAndMask(net, mask) => NetOf(cells.local) == net && MaskOf(cells.local) == mask
    case SetBackendNetAndMask(net, mask) => NetOf(cells.backend) == net && MaskOf(cells.backend) == mask
    case SetGatewayMacAddress(mac) => cells.gateway == mac
  }

  /** A message that sets the same cell to something else. */
  predicate Overrides(later: Message, m: Message) {
    && later != m
    && (|| (later.SetLocalNetAndMask? && m.SetLocalNetAndMask?)
        || (later.SetBackendNetAndMask? && m.SetBackendNetAndMask?)
        || (later.SetGatewayMacAddress? && m.SetGatewayMacAddress?))
  }

  /** Whatever came before it, a message that nothing later overrides holds. */
  lemma {:induction false} UnoverriddenHolds(calls: seq<Call>, i: nat)
    requires i < |calls|
    requires forall j :: i < j < |calls| ==> !Overrides(calls[j].message, calls[i].message)
    ensures Holds(ApplyAll(INITIAL, calls), calls[i].message)
  {
    var last := |calls| - 1;
    match calls[last].message {
      case SetLocalNetAndMask(net, mask) => UnpackPack(net, mask);
      case SetBackendNetAndMask(net, mask) => UnpackPack(net, mask);
      case _ =>
    }
    if i < last {
      UnoverriddenHolds(calls[..last], i);
    }
  }

  // -------------------------------------------------- The actor object

  class BpfActor {
    const configs: ConfigMaps
    var answered: seq<nat>  // callers sent their statistics, in order

    constructor (configs: ConfigMaps)
      ensures this.configs == configs && answered == []
    {
      this.configs := configs;
      answered := [];
    }

    method HandleMessage(call: Call)
      modifies this, configs
      ensures configs.Contents() == Apply(old(configs.Contents()), call.message)
      ensures answered == if call.message.GetStats? then old(answered) + [call.id] else old(answered)
    {
      match call.message
      case GetStats =>
        answered := answered + [call.id];
      case SetLocalNetAndMask(net, mask) =>
        SetLocalNetMask(net, mask);
      case SetBackendNetAndMask(net, mask) =>
        SetBackendNetMask(net, mask);
      case SetGatewayMacAddress(mac) =>
        SetGatewayMacAddress(mac);
    }

    method SetLocalNetMask(net: u32, mask: u32)
      modifies configs
      ensures configs.Contents() == old(configs.Contents()).(local := configs.localNetAndMask)
      ensures NetOf(configs.localNetAndMask) == net && MaskOf(configs.localNetAndMask) == mask
      ensures configs.localNetAndMask == Pack(net, mask)
    {
      UnpackPack(net, mask);
      configs.localNetAndMask := Pack(net, mask);
    }

    method SetBackendNetMask(net: u32, mask: u32)
      modifies configs
      ensures configs.Contents() == old(configs.Contents()).(backend := configs.backendNetAndMask)
      ensures NetOf(configs.backendNetAndMask) == net && MaskOf(configs.backendNetAndMask) == mask
      ensures configs.backendNetAndMask == Pack(net, mask)
    {
      UnpackPack(net, mask);
      configs.backendNetAndMask := Pack(net, mask);
    }

    method SetGatewayMacAddress(mac: u64)
      modifies configs
      ensures configs.Contents() == old(configs.Contents()).(gateway := mac)
    {
      configs.gatewayMacAddress := mac;
    }

    /** Drain the channel until every sender is gone. */
    method RunActor(channel: seq<Call>)
      modifies this, configs
      ensures configs.Contents() == ApplyAll(old(configs.Contents()), channel)
      ensures answered == old(answered) + StatsCallers(channel)
    {
      var i := 0;
      assert channel[..0] == [];
      while i < |channel|
        invariant 0 <= i <= |channel|
        invariant configs.Contents() == ApplyAll(old(configs.Contents()), channel[..i])
        invariant answered == old(answered) + StatsCallers(channel[..i])
      {
        assert channel[..i + 1][..i] == channel[..i];
        HandleMessage(channel[i]);
        i := i + 1;
      }
      assert channel[..|channel|] == channel;
    }
  }

  function StatsCallers(calls: seq<Call>): seq<nat> {
    if calls == [] then []
    else
      var last := calls[|calls| - 1];
      StatsCallers(calls[..|calls| - 1]) + (if last.message.GetStats? then [last.id] else [])
  }
}
