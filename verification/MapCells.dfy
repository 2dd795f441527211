/** The three 64-bit configuration cells shared by the controller and the XDP program,
    and the per-packet questions the program answers from them. */
module MapCells {
  import opened Words

  /** A missing entry reads as zero, which is also every cell's initial value. */
  datatype Cells = Cells(local: u64, backend: u64, gateway: u64)

  const INITIAL: Cells := Cells(0, 0, 0)

  lemma {:induction false} Powers()
    ensures Pow2(16) == 0x1_0000 && Pow2(24) == 0x100_0000 && Pow2(32) == 0x1_0000_0000
  {
    assert Pow2(8) == 0x100;
  }

  /** `((net as u64) << 32) | (mask as u64)` */
  function Pack(net: u32, mask: u32): u64 {
    Powers();
    OrVacant(net, 32, mask);
    BitOr(Shl(net, 32), mask)
  }

  /** `(cell >> 32) as u32` */
  function NetOf(cell: u64): u32 {
    Powers();
    Shr(cell, 32)
  }

  /** `(cell & 0xffffffff) as u32` */
  function MaskOf(cell: u64): u32 {
    Powers();
    AndLowMask(cell, 32);
    BitAnd(cell, 0xffff_ffff)
  }

  /** What the controller packs is what the program unpacks. */
  lemma {:induction false} UnpackPack(net: u32, mask: u32)
    ensures NetOf(Pack(net, mask)) == net && MaskOf(Pack(net, mask)) == mask
  {
    Powers();
    OrVacant(net, 32, mask);
    AndLowMask(Pack(net, mask), 32);
  }

  predicate Matches(net: u32, mask: u32, ip: u32) {
    BitAnd(ip, mask) == net
  }

  predicate IsLinkLocalIp(ip: u32) {
    Powers();
    Matches(Shl(169, 24) + Shl(254, 16), 0xffff_0000, ip)
  }

  predicate IsFromLocalNetwork(cells: Cells, ip: u32) {
    Matches(NetOf(cells.local), MaskOf(cells.local), ip)
  }

  /** Sources whose packets the router rewrites rather than passing up. */
  predicate Forwards(cells: Cells, ip: u32) {
    !IsLinkLocalIp(ip) && !IsFromLocalNetwork(cells, ip)
  }

  /** The mask of a prefix length from 1 to 32, as arithmetic. */
  function PrefixMask(p: nat): u32
    requires 1 <= p <= 32
  {
    Powers();
    Pow2Monotone(32 - p, 31);
    0x1_0000_0000 - Pow2(32 - p)
  }

  /** A prefix mask makes the test an address range, provided the net has no host bits;
      a net with host bits matches nothing. */
  lemma {:induction false} PrefixTestIsRange(net: u32, p: nat, ip: u32)
    requires 1 <= p <= 32
    ensures net % Pow2(32 - p) == 0 ==>
      (Matches(net, PrefixMask(p), ip) <==> net <= ip < net + Pow2(32 - p))
    ensures net % Pow2(32 - p) != 0 ==> !Matches(net, PrefixMask(p), ip)
  {
    MaskClears(p, ip, 32);
    BlockIsRange(net, Pow2(32 - p), ip);
  }

  lemma {:induction false} MaskClears(p: nat, ip: u32, width: nat)
    requires 1 <= p <= width == 32
    ensures BitAnd(ip, PrefixMask(p)) == ip - ip % Pow2(32 - p)
  {
    Powers();
    assert PrefixMask(p) == Pow2(width) - Pow2(width - p);
    AndPrefixMask(ip, width - p, width);
  }

  lemma {:induction false} BlockIsRange(net: nat, h: nat, ip: nat)
    requires h > 0
    ensures net % h == 0 ==> (ip - ip % h == net <==> net <= ip < net + h)
    ensures net % h != 0 ==> ip - ip % h != net
  {
    var q, r, n := ip / h, ip % h, net / h;
    assert ip == h * q + r && net == h * n + net % h;
    DivModUnique(ip - r, h, q, 0);
    if net % h == 0 && net <= ip < net + h {
      DivModUnique(ip, h, n, ip - net);
    }
  }

  /** Link-local is 169.254.0.0/16 (RFC 3927 section 2.1). */
  lemma {:induction false} LinkLocalIsRange(ip: u32)
    ensures IsLinkLocalIp(ip) <==> 0xa9fe_0000 <= ip < 0xa9ff_0000
  {
    Powers();
    PrefixTestIsRange(0xa9fe_0000, 16, ip);
  }

  /** With the local cell never written every source is local, so nothing is forwarded. */
  lemma {:induction false} ZeroCellForwardsNothing(cells: Cells, ip: u32)
    requires cells.local == 0
    ensures !Forwards(cells, ip)
  {
    Powers();
    AndZero(ip);
  }

  function ToBeBytes64(x: u64): (b: seq<u8>)
    ensures |b| == 8
  {
    ToBeBytes32(x / 0x1_0000_0000) + ToBeBytes32(x % 0x1_0000_0000)
  }

  /** The gateway cell's big-endian bytes less the first two. */
  function MacBytes(mac: u64): (b: seq<u8>)
    ensures |b| == 6
  {
    ToBeBytes64(mac)[2..]
  }

  /** The map array entries, written by the controller and read by the program. */
  class ConfigMaps {
    var localNetAndMask: u64
    var backendNetAndMask: u64
    var gatewayMacAddress: u64

    constructor ()
      ensures Contents() == INITIAL
    {
      localNetAndMask, backendNetAndMask, gatewayMacAddress := 0, 0, 0;
    }

    function Contents(): Cells
      reads this
    {
      Cells(localNetAndMask, backendNetAndMask, gatewayMacAddress)
    }
  }
}
