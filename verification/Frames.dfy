/** What the router does to an Ethernet frame, as a function on byte strings, and what
    that does to the checksums a receiver will test.

    Layout of an untagged IPv4/UDP frame without IP options: destination MAC 0, source
    MAC 6, EtherType 12, IPv4 header 14 (protocol 23, checksum 24, source 26, destination
    30), UDP header 34 (length 38, checksum 40), payload 42. */
module Frames {
  import opened Words
  import opened OnesComplement
  import opened MapCells

  /** The XDP verdicts the program returns. */
  datatype Action = Aborted | Pass | Tx

  datatype Outcome = Outcome(action: Action, frame: seq<u8>)

  const UDP: u8 := 17

  function SourceIp(f: seq<u8>): u32
    requires |f| >= 34
  {
    Be32(f[26..30])
  }

  function DestinationIp(f: seq<u8>): u32
    requires |f| >= 34
  {
    Be32(f[30..34])
  }

  function IpHeader(f: seq<u8>): (h: seq<u8>)
    requires |f| >= 34
    ensures |h| == 20
  {
    f[14..34]
  }

  /** The header without its checksum word. */
  function OtherWords(header: seq<u8>): (bs: seq<u8>)
    requires |header| == 20
    ensures |bs| == 18
  {
    header[..10] + header[12..]
  }

  function IpChecksumField(f: seq<u8>): u16
    requires |f| >= 34
  {
    Be16(f[24..26])
  }

  /** The checksum is the one the program would compute, over the first twenty header bytes. */
  predicate HasComputedIpChecksum(f: seq<u8>)
    requires |f| >= 34
  {
    IpChecksumField(f) == Checksum(OtherWords(IpHeader(f)))
  }

  // -------------------------------------------------- The rewrite

  function Classify(cells: Cells, f: seq<u8>): Action {
    if |f| < 14 then Aborted
    else if f[12..14] != [0x08, 0x00] then Pass
    else if |f| < 34 then Aborted
    else if f[23] != UDP then Pass
    else if !Forwards(cells, SourceIp(f)) then Pass
    else if |f| < 46 then Aborted
    else Tx
  }

  /** The transmitted frame: addressed to the gateway from the interface it came in on, the
      three addresses rotated, a recomputed IP checksum, every other byte as it was. */
  function Forwarded(f: seq<u8>, gateway: u64): (g: seq<u8>)
    requires |f| >= 46
    ensures |g| == |f|
  {
    MacBytes(gateway) + f[..6] + f[12..24]
    + ToBeBytes16(Checksum(f[14..24] + f[30..34] + f[42..46]))
    + f[30..34] + f[42..46] + f[34..42] + f[26..30] + f[46..]
  }

  /** What becomes of a frame, its verdict reached when the cells are `early`, its rewrite done
      when they have become `late`: the program reads the local cell before the gateway cell,
      and the controller may write in between. */
  function ProcessBetween(early: Cells, late: Cells, f: seq<u8>): Outcome {
    var action := Classify(early, f);
    Outcome(action, if action.Tx? then Forwarded(f, late.gateway) else f)
  }

  /** The same with the cells left alone meanwhile. */
  function Process(cells: Cells, f: seq<u8>): Outcome {
    ProcessBetween(cells, cells, f)
  }

  /** Untagged IPv4, by EtherType. */
  predicate CarriesIpv4(f: seq<u8>) {
    |f| >= 14 && f[12] == 0x08 && f[13] == 0x00
  }

  /** What becomes of any byte string whatever, byte by byte. It is sent on if and only if it is
      IPv4 and UDP from a source that is to be forwarded, and reaches to the end of the first
      payload word; the program gives up if and only if it needs to look beyond the end; all
      else passes. Only a frame sent on is altered, and of it no byte but the two MACs, the IP
      checksum, the two IP addresses and the first payload word. */
  lemma {:induction false} FateOfFrame(early: Cells, late: Cells, f: seq<u8>)
    ensures var o := ProcessBetween(early, late, f);
      && (o.action == Tx <==>
            CarriesIpv4(f) && |f| >= 46 && f[23] == 17 && Forwards(early, Be32(f[26..30])))
      && (o.action == Aborted <==>
            || |f| < 14
            || (CarriesIpv4(f) && |f| < 34)
            || (CarriesIpv4(f) && |f| < 46 && f[23] == 17 && Forwards(early, Be32(f[26..30]))))
      && (o.action == Pass <==>
            || (|f| >= 14 && !CarriesIpv4(f))
            || (|f| >= 34 && (f[23] != 17 || !Forwards(early, Be32(f[26..30])))))
      && (o.action != Tx ==> o.frame == f)
      && (o.action == Tx ==>
            && |o.frame| == |f|
            && (forall i :: 0 <= i < 6 ==> o.frame[i] == MacBytes(late.gateway)[i])
            && (forall i :: 6 <= i < 12 ==> o.frame[i] == f[i - 6])
            && (forall i :: 26 <= i < 30 ==> o.frame[i] == f[i + 4])
            && (forall i :: 30 <= i < 34 ==> o.frame[i] == f[i + 12])
            && (forall i :: 42 <= i < 46 ==> o.frame[i] == f[i - 16])
            && (forall i :: 12 <= i < 24 || 34 <= i < 42 || 46 <= i < |f| ==> o.frame[i] == f[i]))
  {
    assert |f| >= 14 ==> (f[12..14] == [0x08, 0x00] <==> CarriesIpv4(f));
    if Classify(early, f) == Tx {
      ForwardedBytes(f, late.gateway);
    }
  }

  lemma {:induction false} ForwardedBytes(f: seq<u8>, gateway: u64)
    requires |f| >= 46
    ensures var g := Forwarded(f, gateway);
      && (forall i :: 0 <= i < 6 ==> g[i] == MacBytes(gateway)[i])
      && (forall i :: 6 <= i < 12 ==> g[i] == f[i - 6])
      && (forall i :: 26 <= i < 30 ==> g[i] == f[i + 4])
      && (forall i :: 30 <= i < 34 ==> g[i] == f[i + 12])
      && (forall i :: 42 <= i < 46 ==> g[i] == f[i - 16])
      && (forall i :: 12 <= i < 24 || 34 <= i < 42 || 46 <= i < |f| ==> g[i] == f[i])
  {
  }

  lemma {:induction false} ForwardedFields(f: seq<u8>, gateway: u64)
    requires |f| >= 46
    ensures var g := Forwarded(f, gateway);
      && g[..6] == MacBytes(gateway) && g[6..12] == f[..6] && g[12..24] == f[12..24]
      && g[14..24] == f[14..24]
      && g[24..26] == ToBeBytes16(Checksum(f[14..24] + f[30..34] + f[42..46]))
      && g[26..30] == f[30..34] && g[30..34] == f[42..46] && g[34..42] == f[34..42]
      && g[42..46] == f[26..30] && g[46..] == f[46..]
  {
  }

  /** A forwarded frame met again is forwarded again exactly when the address it came to is
      not itself local: with the router inside its local net no frame is forwarded twice. */
  lemma {:induction false} SecondPass(cells: Cells, f: seq<u8>)
    requires Classify(cells, f) == Tx
    ensures var g := Process(cells, f).frame;
      Process(cells, g) ==
        if Forwards(cells, DestinationIp(f)) then Outcome(Tx, Forwarded(g, cells.gateway))
        else Outcome(Pass, g)
  {
    SecondLook(f, Forwarded(f, cells.gateway), cells.gateway);
  }

  lemma {:induction false} SecondLook(f: seq<u8>, g: seq<u8>, gateway: u64)
    requires |f| >= 46 && g == Forwarded(f, gateway)
    ensures g[12..14] == f[12..14] && g[23] == f[23] && SourceIp(g) == DestinationIp(f)
  {
    ForwardedFields(f, gateway);
    assert g[12..24][..2] == g[12..14] && f[12..24][..2] == f[12..14];
    assert g[23] == g[12..24][11] == f[12..24][11] == f[23];
  }

  // -------------------------------------------------- The IPv4 header checksum

  lemma {:induction false} HeaderParts(f: seq<u8>)
    requires |f| >= 34
    ensures OtherWords(IpHeader(f)) == f[14..24] + f[26..30] + f[30..34]
    ensures IpHeader(f) == f[14..24] + f[24..26] + (f[26..30] + f[30..34])
  {
  }

  /** The length of the header in bytes, by its IHL field. */
  function HeaderLength(f: seq<u8>): nat
    requires |f| >= 34
  {
    4 * (f[14] % 16)
  }

  /** The receiver's test of the header, options included: it is all there and adds up. */
  predicate HeaderAccepts(f: seq<u8>)
    requires |f| >= 34
  {
    20 <= HeaderLength(f) <= |f| - 14 && Verifies(f[14..14 + HeaderLength(f)])
  }

  /** What goes out after the first twenty header bytes. */
  function OutgoingRest(f: seq<u8>): (bs: seq<u8>)
    requires |f| >= 46
    ensures |bs| == |f| - 34
  {
    f[34..42] + f[26..30] + f[46..]
  }

  /** Whatever the incoming checksum was, the outgoing one is computed over twenty bytes. So a
      receiver accepts the outgoing header exactly when the options that go out add up to zero
      in one's complement: always without options, however broken the header came in. */
  lemma {:induction false} ForwardedHeaderVerifies(f: seq<u8>, gateway: u64)
    requires |f| >= 46
    ensures HasComputedIpChecksum(Forwarded(f, gateway))
    ensures HeaderAccepts(Forwarded(f, gateway))
       <==> && 20 <= HeaderLength(f) <= |f| - 14
            && ByteSum(OutgoingRest(f)[..HeaderLength(f) - 20]) % 0xffff == 0
    ensures HeaderLength(f) == 20 ==> HeaderAccepts(Forwarded(f, gateway))
  {
    var g := Forwarded(f, gateway);
    TwentyBytesVerify(f, gateway);
    assert g[14] == g[12..24][2] && f[14] == f[12..24][2] by {
      ForwardedFields(f, gateway);
    }
    if 20 <= HeaderLength(f) <= |f| - 14 {
      var options := OutgoingRest(f)[..HeaderLength(f) - 20];
      assert g[14..14 + HeaderLength(f)] == IpHeader(g) + options;
      VerifiesAppended(IpHeader(g), options);
      assert HeaderLength(f) == 20 ==> options == [];
    }
  }

  lemma {:induction false} VerifiesAppended(header: seq<u8>, options: seq<u8>)
    requires |header| % 2 == 0 && Verifies(header)
    ensures Verifies(header + options) <==> ByteSum(options) % 0xffff == 0
  {
    ByteSumAppend(header, options);
    AllOnesIff(WordsOf(header));
    AllOnesIff(WordsOf(header + options));
    ModShift(ByteSum(header), ByteSum(options));
  }

  lemma {:induction false} TwentyBytesVerify(f: seq<u8>, gateway: u64)
    requires |f| >= 46
    ensures Verifies(IpHeader(Forwarded(f, gateway)))
    ensures HasComputedIpChecksum(Forwarded(f, gateway))
    ensures Forwarded(f, gateway)[34..] == OutgoingRest(f)
  {
    var g := Forwarded(f, gateway);
    ForwardedFields(f, gateway);
    HeaderParts(g);
    var front, back := f[14..24], f[30..34] + f[42..46];
    assert front + back == f[14..24] + f[30..34] + f[42..46];
    ChecksumVerifies(front, back);
    assert g[34..] == g[34..42] + g[42..46] + g[46..];
  }

  /** A configuration that forwards 10.0.1.2: the local net is 10.0.2.0/24. */
  function SomeCells(): Cells {
    Cells(Pack(0x0a00_0200, 0xffff_ff00), 0, 1)
  }

  lemma {:induction false} SomeCellsForward()
    ensures Forwards(SomeCells(), 0x0a00_0102)
  {
    Powers();
    UnpackPack(0x0a00_0200, 0xffff_ff00);
    LinkLocalIsRange(0x0a00_0102);
    assert Pow2(8) == 0x100;
    PrefixTestIsRange(0x0a00_0200, 24, 0x0a00_0102);
  }

  /** A frame from 10.0.1.2 to 10.0.2.10 with a good header of 24 bytes, its last four options
      that do nothing, carrying any UDP datagram. */
  function OptionsFrame(udp: seq<u8>): (f: seq<u8>)
    requires |udp| >= 8
    ensures |f| == 38 + |udp|
  {
    var head, back := [0x46, 0, 0, 36, 0, 0, 0, 0, 64, UDP], [10, 0, 1, 2, 10, 0, 2, 10, 1, 1, 1, 1];
    [0, 0, 0, 0, 0, 0, 0, 0, 0, 0, 0, 0, 0x08, 0] + (head + ToBeBytes16(Checksum(head + back)) + back) + udp
  }

  lemma {:induction false} OptionsFrameFields(udp: seq<u8>)
    requires |udp| >= 8
    ensures var f := OptionsFrame(udp);
      && f[12..14] == [0x08, 0] && f[14] == 0x46 && f[23] == UDP && f[26..30] == [10, 0, 1, 2]
      && Verifies(f[14..38]) && f[34..38] == [1, 1, 1, 1]
  {
    var f := OptionsFrame(udp);
    var head, back: seq<u8> := [0x46, 0, 0, 36, 0, 0, 0, 0, 64, UDP], [10, 0, 1, 2, 10, 0, 2, 10, 1, 1, 1, 1];
    var header := head + ToBeBytes16(Checksum(head + back)) + back;
    ChecksumVerifies(head, back);
    assert f[14..38] == header;
    assert f[14] == header[0] && f[23] == header[9];
    assert f[26..30] == header[12..16] && header[12..16] == [10, 0, 1, 2];
    assert f[34..38] == header[20..] && header[20..] == [1, 1, 1, 1];
  }

  /** With options a good header can go out broken, whatever follows it. */
  lemma {:induction false} OptionsBreakHeader(udp: seq<u8>)
    requires |udp| >= 8
    ensures var f := OptionsFrame(udp);
      var o := Process(SomeCells(), f);
      HeaderAccepts(f) && o.action == Tx && !HeaderAccepts(o.frame)
  {
    OptionsFrameFields(udp);
    SomeCellsForward();
    BrokenByOptions(OptionsFrame(udp), SomeCells());
  }

  lemma {:induction false} BrokenByOptions(f: seq<u8>, cells: Cells)
    requires |f| >= 46 && f[12..14] == [0x08, 0] && f[14] == 0x46 && f[23] == UDP
    requires Verifies(f[14..38]) && f[34..38] == [1, 1, 1, 1] && Forwards(cells, SourceIp(f))
    ensures var o := Process(cells, f);
      HeaderAccepts(f) && o.action == Tx && !HeaderAccepts(o.frame)
  {
    NoOpsBreak(f, cells.gateway);
  }

  lemma {:induction false} NoOpsBreak(f: seq<u8>, gateway: u64)
    requires |f| >= 46 && HeaderLength(f) == 24 && f[34..38] == [1, 1, 1, 1]
    ensures !HeaderAccepts(Forwarded(f, gateway))
  {
    ForwardedHeaderVerifies(f, gateway);
    assert OutgoingRest(f)[..4] == f[34..42][..4] == f[34..38];
    ByteSumOfFour(f[34..38]);
  }

  function Upper(b: seq<u8>): u16
    requires |b| == 4
  {
    Be16(b[..2])
  }

  function Lower(b: seq<u8>): u16
    requires |b| == 4
  {
    Be16(b[2..])
  }

  lemma {:induction false} ByteSumOfFour(b: seq<u8>)
    requires |b| == 4
    ensures ByteSum(b) == Upper(b) + Lower(b)
  {
    assert WordsOf(b) == [Upper(b), Lower(b)] by {
      assert b[2..][..2] == b[2..] && b[2..][2..] == [];
    }
    SumOfTwo(Upper(b), Lower(b));
  }

  /** The two words of a four-byte field changing together. */
  function FieldPatches(was: seq<u8>, now: seq<u8>): (ps: seq<Patch>)
    requires |was| == 4 && |now| == 4
    ensures |ps| == 2
  {
    [Patch(Upper(was), Upper(now)), Patch(Lower(was), Lower(now))]
  }

  /** The header words that change: destination first, then source. */
  function IpPatches(f: seq<u8>): seq<Patch>
    requires |f| >= 46
  {
    FieldPatches(f[30..34], f[42..46]) + FieldPatches(f[26..30], f[30..34])
  }

  lemma {:induction false} DeltaOfField(was: seq<u8>, now: seq<u8>, ps: seq<Patch>)
    requires |was| == 4 && |now| == 4
    ensures Delta(FieldPatches(was, now) + ps) == ByteSum(now) - ByteSum(was) + Delta(ps)
  {
    var qs := FieldPatches(was, now) + ps;
    assert qs[1..][1..] == ps;
    ByteSumOfFour(was);
    ByteSumOfFour(now);
  }

  lemma {:induction false} HeaderSum(front: seq<u8>, x: seq<u8>, y: seq<u8>)
    requires |front| == 10 && |x| == 4 && |y| == 4
    ensures ByteSum(front + x + y) == ByteSum(front) + ByteSum(x) + ByteSum(y)
    ensures front[9] > 0 ==> ByteSum(front) > 0
  {
    ByteSumAppend(front + x, y);
    ByteSumAppend(front, x);
    ByteSumAppend(front[..8], front[8..]);
    assert front == front[..8] + front[8..];
    assert front[8..][..2] == front[8..] && front[8..][2..] == [];
    assert WordsOf(front[8..]) == [Be16(front[8..])];
    SumOfTwo(Be16(front[8..]), 0);
  }

  /** For a UDP packet that came with the computed checksum, recomputing is the same as
      patching the four address words by equation 3 of RFC 1624. */
  lemma {:induction false} RecomputedIsEq3Patched(f: seq<u8>, gateway: u64)
    requires |f| >= 46 && f[23] == UDP && HasComputedIpChecksum(f)
    ensures IpChecksumField(Forwarded(f, gateway)) == FoldEq3(IpChecksumField(f), IpPatches(f))
  {
    var front, src, dst, word := f[14..24], f[26..30], f[30..34], f[42..46];
    ForwardedFields(f, gateway);
    HeaderParts(f);
    HeaderSum(front, src, dst);
    HeaderSum(front, dst, word);
    assert front[9] == UDP;
    DeltaOfField(dst, word, FieldPatches(src, dst));
    DeltaOfField(src, dst, []);
    assert FieldPatches(src, dst) + [] == FieldPatches(src, dst);
    OcSumIsCanon(WordsOf(front + src + dst));
    OcSumIsCanon(WordsOf(front + dst + word));
    Eq3MatchesRecompute(ByteSum(front + src + dst), IpPatches(f));
  }

  /** Three rotations are the identity on everything after the Ethernet header, exactly for
      the frames that came with the computed IP checksum. */
  lemma {:induction false} ThriceForwardedRestores(f: seq<u8>, mac1: u64, mac2: u64, mac3: u64)
    requires |f| >= 46
    ensures Forwarded(Forwarded(Forwarded(f, mac1), mac2), mac3)[14..] == f[14..]
       <==> HasComputedIpChecksum(f)
  {
    var k := Forwarded(Forwarded(Forwarded(f, mac1), mac2), mac3);
    ThriceForwardedFields(f, mac1, mac2, mac3);
    TailsAgreeIffChecksumsDo(f, k);
  }

  lemma {:induction false} ThriceForwardedFields(f: seq<u8>, mac1: u64, mac2: u64, mac3: u64)
    requires |f| >= 46
    ensures var k := Forwarded(Forwarded(Forwarded(f, mac1), mac2), mac3);
      && k[14..24] == f[14..24] && k[24..26] == ToBeBytes16(Checksum(OtherWords(IpHeader(f))))
      && k[26..30] == f[26..30] && k[30..34] == f[30..34] && k[34..42] == f[34..42]
      && k[42..46] == f[42..46] && k[46..] == f[46..]
  {
    var g := Forwarded(f, mac1);
    var h := Forwarded(g, mac2);
    ForwardedFields(f, mac1);
    ForwardedFields(g, mac2);
    ForwardedFields(h, mac3);
    HeaderParts(f);
  }

  lemma {:induction false} TailsAgreeIffChecksumsDo(f: seq<u8>, k: seq<u8>)
    requires |f| >= 46 && |k| == |f|
    requires k[14..24] == f[14..24] && k[26..30] == f[26..30] && k[30..34] == f[30..34]
    requires k[34..42] == f[34..42] && k[42..46] == f[42..46] && k[46..] == f[46..]
    ensures k[14..] == f[14..] <==> IpChecksumField(k) == IpChecksumField(f)
  {
  }

  // -------------------------------------------------- The UDP checksum

  function UdpLength(f: seq<u8>): u16
    requires |f| >= 42
  {
    Be16(f[38..40])
  }

  function UdpChecksumField(f: seq<u8>): u16
    requires |f| >= 42
  {
    Be16(f[40..42])
  }

  /** A whole UDP datagram in one frame: no IP options, not a fragment, no part missing. */
  predicate IsDatagram(f: seq<u8>) {
    && |f| >= 46
    && f[14] % 16 == 5
    && f[23] == UDP
    && Be16(f[20..22]) % 0x4000 == 0
    && UdpLength(f) >= 8
    && 34 + UdpLength(f) <= |f|
  }

  /** Pseudo-header, UDP header and data: what the UDP checksum covers (RFC 768). */
  function UdpCovered(f: seq<u8>): seq<u8>
    requires IsDatagram(f)
  {
    f[26..30] + f[30..34] + [0, f[23]] + f[38..40] + f[34..34 + UdpLength(f)]
  }

  /** The receiver's verdict; a zero field means the sender computed no checksum. */
  predicate UdpAccepts(f: seq<u8>)
    requires IsDatagram(f)
  {
    UdpChecksumField(f) == 0 || Verifies(UdpCovered(f))
  }

  /** The covered words that change, in the order the program patches them. */
  function UdpPatches(f: seq<u8>): seq<Patch>
    requires |f| >= 46
  {
    FieldPatches(f[30..34], f[42..46]) + FieldPatches(f[26..30], f[30..34])
    + FieldPatches(f[42..46], f[26..30])
  }

  /** The six patches only move words round, so they leave any checksum field as it was and
      their separate departures from RFC 1624 add up to nothing. Equation 3 in their place
      would give the same field, save that it would turn 0xffff into "no checksum". */
  lemma {:induction false} SixPatchesAreIdentity(f: seq<u8>, csum: u16)
    requires |f| >= 46
    ensures FoldUpdates(csum, UdpPatches(f)) == csum
    ensures TotalWrap(csum, UdpPatches(f)) == 0
    ensures FoldEq3(csum, UdpPatches(f)) == if csum == 0xffff then 0 else csum
  {
    SixPatchesRearrange(f);
    RearrangementIsIdentity(csum, UdpPatches(f));
    RearrangementByEq3(csum, UdpPatches(f));
  }

  lemma {:induction false} SixPatchesRearrange(f: seq<u8>)
    requires |f| >= 46
    ensures multiset(Olds(UdpPatches(f))) == multiset(News(UdpPatches(f)))
  {
    var ps := UdpPatches(f);
    var src, dst, word := f[26..30], f[30..34], f[42..46];
    var s: seq<u16> := [Upper(src), Lower(src)];
    var d: seq<u16> := [Upper(dst), Lower(dst)];
    var w: seq<u16> := [Upper(word), Lower(word)];
    assert Olds(ps) == d + s + w;
    assert News(ps) == w + d + s;
  }

  /** The part of a four-byte field lying beyond its first n bytes, at its place in the words. */
  function Beyond(b: seq<u8>, n: nat): nat
    requires |b| == 4 && n <= 4
  {
    ByteSum(seq(n, i => 0) + b[n..])
  }

  lemma {:induction false} SumWithin(b: seq<u8>, n: nat)
    requires |b| == 4 && n <= 4
    ensures ByteSum(b) == ByteSum(b[..n]) + Beyond(b, n)
  {
    var z: seq<u8> := seq(n, i => 0);
    SumOfUpToFour(b[..n]);
    SumOfUpToFour(b);
    SumOfUpToFour(z + b[n..]);
  }

  lemma {:induction false} SumOfUpToFour(b: seq<u8>)
    requires |b| <= 4
    ensures ByteSum(b) ==
      (if |b| > 0 then b[0] as int * 0x100 else 0) + (if |b| > 1 then b[1] as int else 0)
      + (if |b| > 2 then b[2] as int * 0x100 else 0) + (if |b| > 3 then b[3] as int else 0)
  {
    if |b| == 4 {
      ByteSumOfFour(b);
    } else if |b| == 3 {
      assert WordsOf(b[2..]) == [Be16(b[2..] + [0])];
      assert WordsOf(b) == [Be16(b[..2]), Be16(b[2..] + [0])];
      SumOfTwo(Be16(b[..2]), Be16(b[2..] + [0]));
    } else if |b| == 2 {
      assert b[2..] == [];
      assert WordsOf(b) == [Be16(b[..2])];
      SumOfTwo(Be16(b[..2]), 0);
    } else if |b| == 1 {
      assert WordsOf(b) == [Be16(b + [0])];
      SumOfTwo(Be16(b + [0]), 0);
    }
  }

  /** The covered sum, field by field. */
  lemma {:induction false} CoveredSum(f: seq<u8>)
    requires IsDatagram(f)
    ensures var n := Min(UdpLength(f) - 8, 4);
      ByteSum(UdpCovered(f)) ==
        ByteSum(f[26..30]) + ByteSum(f[30..34]) + ByteSum([0, f[23]] + f[38..40])
        + ByteSum(f[34..42]) + ByteSum(f[42..42 + n]) + ByteSum(f[42 + n..34 + UdpLength(f)])
  {
    var end := 34 + UdpLength(f);
    var n := Min(UdpLength(f) - 8, 4);
    var mid := [0, f[23]] + f[38..40];
    assert f[34..end] == f[34..42] + f[42..end];
    assert UdpCovered(f) == f[26..30] + (f[30..34] + (mid + (f[34..42] + f[42..end])));
    SumOfFive(f[26..30], f[30..34], mid, f[34..42], f[42..end]);
    assert f[42..end] == f[42..42 + n] + f[42 + n..end];
    if n < 4 {
      assert f[42 + n..end] == [];
      assert f[42..end] == f[42..42 + n];
    } else {
      ByteSumAppend(f[42..46], f[46..end]);
    }
  }

  lemma {:induction false} SumOfFive(a: seq<u8>, b: seq<u8>, c: seq<u8>, d: seq<u8>, e: seq<u8>)
    requires |a| % 2 == 0 && |b| % 2 == 0 && |c| % 2 == 0 && |d| % 2 == 0
    ensures ByteSum(a + (b + (c + (d + e)))) == ByteSum(a) + ByteSum(b) + ByteSum(c) + ByteSum(d) + ByteSum(e)
  {
    ByteSumAppend(a, b + (c + (d + e)));
    ByteSumAppend(b, c + (d + e));
    ByteSumAppend(c, d + e);
    ByteSumAppend(d, e);
  }

  lemma {:induction false} CoveredSumPositive(f: seq<u8>)
    requires IsDatagram(f)
    ensures ByteSum(UdpCovered(f)) > 0
  {
    CoveredSum(f);
    SumOfUpToFour([0, f[23]] + f[38..40]);
  }

  lemma {:induction false} ForwardedIsDatagram(f: seq<u8>, gateway: u64)
    requires IsDatagram(f)
    ensures IsDatagram(Forwarded(f, gateway))
    ensures UdpLength(Forwarded(f, gateway)) == UdpLength(f)
    ensures UdpChecksumField(Forwarded(f, gateway)) == UdpChecksumField(f)
    ensures Forwarded(f, gateway)[38..40] == f[38..40] && Forwarded(f, gateway)[23] == f[23]
  {
    var g := Forwarded(f, gateway);
    ForwardedFields(f, gateway);
    assert forall i :: 14 <= i < 24 ==> g[i] == g[12..24][i - 12] == f[12..24][i - 12] == f[i];
    assert g[20..22] == f[20..22];
    assert forall i :: 34 <= i < 42 ==> g[i] == g[34..42][i - 34] == f[34..42][i - 34] == f[i];
    assert g[38..40] == f[38..40] && g[40..42] == f[40..42];
  }

  /** The covered sum changes only by what of the rotated payload word the datagram leaves out. */
  lemma {:induction false} CoveredSumChange(f: seq<u8>, gateway: u64)
    requires IsDatagram(f)
    ensures IsDatagram(Forwarded(f, gateway))
    ensures var n := Min(UdpLength(f) - 8, 4);
      ByteSum(UdpCovered(Forwarded(f, gateway)))
        == ByteSum(UdpCovered(f)) + Beyond(f[42..46], n) - Beyond(f[26..30], n)
  {
    var n := Min(UdpLength(f) - 8, 4);
    CoveredSum(f);
    ForwardedCoveredSum(f, gateway);
    SumWithin(f[42..46], n);
    SumWithin(f[26..30], n);
  }

  lemma {:induction false} ForwardedCoveredSum(f: seq<u8>, gateway: u64)
    requires IsDatagram(f)
    ensures IsDatagram(Forwarded(f, gateway))
    ensures var n := Min(UdpLength(f) - 8, 4);
      && f[42..42 + n] == f[42..46][..n]
      && ByteSum(UdpCovered(Forwarded(f, gateway))) ==
        ByteSum(f[30..34]) + ByteSum(f[42..46]) + ByteSum([0, f[23]] + f[38..40])
        + ByteSum(f[34..42]) + ByteSum(f[26..30][..n]) + ByteSum(f[42 + n..34 + UdpLength(f)])
  {
    ForwardedIsDatagram(f, gateway);
    CoveredParts(f, gateway, Min(UdpLength(f) - 8, 4));
    CoveredSum(Forwarded(f, gateway));
  }

  lemma {:induction false} CoveredParts(f: seq<u8>, gateway: u64, n: nat)
    requires IsDatagram(f) && n == Min(UdpLength(f) - 8, 4)
    ensures var g := Forwarded(f, gateway);
      var end := 34 + UdpLength(f);
      && g[26..30] == f[30..34] && g[30..34] == f[42..46] && g[34..42] == f[34..42]
      && g[42..42 + n] == f[26..30][..n] && g[42 + n..end] == f[42 + n..end]
      && g[23] == f[23] && g[38..40] == f[38..40]
      && f[42..46][..n] == f[42..42 + n]
  {
    var g := Forwarded(f, gateway);
    var end := 34 + UdpLength(f);
    ForwardedFields(f, gateway);
    assert g[42..46][..n] == g[42..42 + n];
    ForwardedIsDatagram(f, gateway);
    if n == 4 {
      assert g[46..end] == g[46..][..end - 46];
      assert f[46..end] == f[46..][..end - 46];
    }
  }

  /** For a datagram that holds the whole address word, of any length, even or odd: the
      covered sum and the field are unchanged, so the receiver's verdict is the sender's. */
  lemma {:induction false} UdpVerdictPreserved(f: seq<u8>, gateway: u64)
    requires IsDatagram(f) && UdpLength(f) >= 12
    ensures IsDatagram(Forwarded(f, gateway))
    ensures ByteSum(UdpCovered(Forwarded(f, gateway))) == ByteSum(UdpCovered(f))
    ensures UdpChecksumField(Forwarded(f, gateway)) == UdpChecksumField(f)
    ensures UdpAccepts(Forwarded(f, gateway)) <==> UdpAccepts(f)
  {
    CoveredSumChange(f, gateway);
    ForwardedIsDatagram(f, gateway);
    assert seq(4, i => 0) + f[42..46][4..] == seq(4, i => 0) + f[26..30][4..];
    AllOnesIff(WordsOf(UdpCovered(f)));
    AllOnesIff(WordsOf(UdpCovered(Forwarded(f, gateway))));
  }

  /** A datagram too short for the address word makes the program read and write the padding
      after it. The receiver then accepts it exactly when the covered sum, corrected for what
      source address and padding hold beyond the datagram's end, is zero in one's complement.
      So a good one stays good exactly when these agree there. */
  lemma {:induction false} ShortDatagramAccepted(f: seq<u8>, gateway: u64)
    requires IsDatagram(f) && UdpLength(f) < 12 && UdpChecksumField(f) != 0
    ensures IsDatagram(Forwarded(f, gateway))
    ensures var n := UdpLength(f) - 8;
      && (UdpAccepts(Forwarded(f, gateway))
          <==> SameOc(ByteSum(UdpCovered(f)) + Beyond(f[42..46], n), Beyond(f[26..30], n)))
      && (UdpAccepts(f) ==>
            (UdpAccepts(Forwarded(f, gateway)) <==> SameOc(Beyond(f[42..46], n), Beyond(f[26..30], n))))
  {
    var n := UdpLength(f) - 8;
    ForwardedIsDatagram(f, gateway);
    CoveredSumChange(f, gateway);
    CoveredSumPositive(Forwarded(f, gateway));
    SumsAccepted(UdpCovered(f), UdpCovered(Forwarded(f, gateway)), Beyond(f[42..46], n), Beyond(f[26..30], n));
  }

  lemma {:induction false} SumsAccepted(xs: seq<u8>, ys: seq<u8>, more: nat, less: nat)
    requires ByteSum(ys) == ByteSum(xs) + more - less && ByteSum(ys) > 0
    ensures Verifies(ys) <==> SameOc(ByteSum(xs) + more, less)
    ensures Verifies(xs) ==> (Verifies(ys) <==> SameOc(more, less))
  {
    AllOnesIff(WordsOf(ys));
    if Verifies(xs) {
      VerifiesAfterChange(xs, ys, more - less);
    }
  }

  /** A datagram of the given length from 10.0.1.2 to 10.0.2.10, its header good, followed by
      padding that ends in a one. */
  function ShortFrame(length: nat): (f: seq<u8>)
    requires 8 <= length < 12
    ensures |f| == 46
  {
    var head, back := [0x45, 0, 0, 20 + length, 0, 0, 0, 0, 64, UDP], [10, 0, 1, 2, 10, 0, 2, 10];
    [0, 0, 0, 0, 0, 0, 0, 0, 0, 0, 0, 0, 0x08, 0] + (head + ToBeBytes16(Checksum(head + back)) + back)
    + ([0, 0, 0, 0, 0, length] + ToBeBytes16(0xffff - 0x170c - UDP - 2 * length)) + [0, 0, 0, 1]
  }

  lemma {:induction false} ShortFrameHeader(length: nat)
    requires 8 <= length < 12
    ensures var f := ShortFrame(length);
      && f[12..14] == [0x08, 0] && f[14] == 0x45 && f[20..22] == [0, 0] && f[23] == UDP
      && f[26..30] == [10, 0, 1, 2] && f[30..34] == [10, 0, 2, 10]
      && Verifies(f[14..34])
  {
    var f := ShortFrame(length);
    var head, back: seq<u8> := [0x45, 0, 0, 20 + length, 0, 0, 0, 0, 64, UDP], [10, 0, 1, 2, 10, 0, 2, 10];
    var header := head + ToBeBytes16(Checksum(head + back)) + back;
    ChecksumVerifies(head, back);
    assert f[14..34] == header;
    assert f[14] == header[0] && f[23] == header[9];
    assert f[20..22] == header[6..8] && header[6..8] == [0, 0];
    assert f[26..30] == header[12..16] && header[12..16] == [10, 0, 1, 2];
    assert f[30..34] == header[16..] && header[16..] == [10, 0, 2, 10];
  }

  lemma {:induction false} ShortFrameFields(length: nat)
    requires 8 <= length < 12
    ensures var f := ShortFrame(length);
      && IsDatagram(f) && UdpLength(f) == length
      && f[42..46] == [0, 0, 0, 1] && f[38..40] == [0, length]
      && f[34..42] == [0, 0, 0, 0] + f[38..42]
      && f[38..42] == [0, length] + ToBeBytes16(0xffff - 0x170c - UDP - 2 * length)
      && f[40..42] == ToBeBytes16(0xffff - 0x170c - UDP - 2 * length)
      && f[42..34 + length] == [0, 0, 0, 1][..length - 8]
  {
    var f := ShortFrame(length);
    var c := ToBeBytes16(0xffff - 0x170c - UDP - 2 * length);
    var udp: seq<u8> := [0, 0, 0, 0, 0, length] + c;
    ShortFrameHeader(length);
    assert f[34..42] == udp;
    assert f[42..46] == [0, 0, 0, 1];
    assert f[38..42] == udp[4..] && udp[4..] == [0, length] + c;
    assert f[38..40] == f[38..42][..2] && f[40..42] == f[38..42][2..];
    assert udp == [0, 0, 0, 0] + udp[4..];
    assert f[42..34 + length] == f[42..46][..length - 8];
  }

  lemma {:induction false} ShortFrameAccepted(length: nat)
    requires 8 <= length < 12
    ensures IsDatagram(ShortFrame(length)) && UdpChecksumField(ShortFrame(length)) != 0
    ensures UdpAccepts(ShortFrame(length))
  {
    ShortFrameHeader(length);
    ShortFrameFields(length);
    UdpHeaderSum(ShortFrame(length)[38..42], length);
    ShortFrameSum(ShortFrame(length), length);
    AllOnesIff(WordsOf(UdpCovered(ShortFrame(length))));
  }

  lemma {:induction false} ShortFrameSum(f: seq<u8>, length: nat)
    requires IsDatagram(f) && UdpLength(f) == length < 12
    requires f[26..30] == [10, 0, 1, 2] && f[30..34] == [10, 0, 2, 10] && f[38..40] == [0, length]
    requires f[42..34 + length] == [0, 0, 0, 1][..length - 8]
    ensures ByteSum(UdpCovered(f)) == 0x170c + UDP + length + ByteSum(f[34..42])
  {
    CoveredSum(f);
    SumOfUpToFour([10, 0, 1, 2]);
    SumOfUpToFour([10, 0, 2, 10]);
    SumOfUpToFour([0, UDP] + [0, length]);
    SumOfUpToFour([0, 0, 0, 1][..length - 8]);
    assert f[42..42 + (length - 8)] == f[42..34 + length];
    assert f[42 + (length - 8)..34 + length] == [];
  }

  lemma {:induction false} UdpHeaderSum(b: seq<u8>, length: nat)
    requires 8 <= length < 12 && b == [0, length] + ToBeBytes16(0xffff - 0x170c - UDP - 2 * length)
    ensures ByteSum([0, 0, 0, 0] + b) == 0xffff - 0x170c - UDP - length
  {
    ByteSumAppend([0, 0, 0, 0], b);
    SumOfUpToFour([0, 0, 0, 0]);
    SumOfUpToFour(b);
  }

  /** A good datagram too short for the address word: the program forwards it, and its
      checksum is broken. */
  lemma {:induction false} ShortFrameBroken(length: nat)
    requires 8 <= length < 12
    ensures var f := ShortFrame(length);
      var o := Process(SomeCells(), f);
      && IsDatagram(f) && UdpLength(f) == length && HeaderAccepts(f) && UdpAccepts(f)
      && o.action == Tx && IsDatagram(o.frame) && !UdpAccepts(o.frame)
  {
    ShortFrameHeader(length);
    ShortFrameFields(length);
    ShortFrameAccepted(length);
    SomeCellsForward();
    BrokenByPadding(ShortFrame(length), SomeCells().gateway);
  }

  lemma {:induction false} BrokenByPadding(f: seq<u8>, gateway: u64)
    requires IsDatagram(f) && UdpLength(f) < 12 && UdpChecksumField(f) != 0 && UdpAccepts(f)
    requires f[26..30] == [10, 0, 1, 2] && f[42..46] == [0, 0, 0, 1]
    ensures IsDatagram(Forwarded(f, gateway)) && !UdpAccepts(Forwarded(f, gateway))
  {
    var n := UdpLength(f) - 8;
    ShortDatagramAccepted(f, gateway);
    SumOfUpToFour(seq(n, i => 0) + [10, 0, 1, 2][n..]);
    SumOfUpToFour(seq(n, i => 0) + [0, 0, 0, 1][n..]);
  }

  /** A good datagram that these cells have forwarded, and whose checksum that breaks. */
  ghost predicate Breaks(cells: Cells, f: seq<u8>) {
    && IsDatagram(f) && HeaderAccepts(f) && UdpAccepts(f)
    && Process(cells, f).action == Tx
    && !(IsDatagram(Process(cells, f).frame) && UdpAccepts(Process(cells, f).frame))
  }

  /** Twelve is the exact bound: forwarding keeps the receiver's verdict on every datagram of
      a given UDP length if and only if that length covers the address word; and below it
      there are good datagrams that the program does forward and break. */
  lemma {:induction false} VerdictsPreservedIffLengthCoversAddress(length: nat)
    requires length >= 8
    ensures (forall f, gateway: u64 | IsDatagram(f) && UdpLength(f) == length ::
              && IsDatagram(Forwarded(f, gateway))
              && (UdpAccepts(Forwarded(f, gateway)) <==> UdpAccepts(f)))
       <==> length >= 12
    ensures (exists cells, f :: Breaks(cells, f) && UdpLength(f) == length) <==> length < 12
  {
    if length >= 12 {
      forall f, gateway: u64 | IsDatagram(f) && UdpLength(f) == length
        ensures IsDatagram(Forwarded(f, gateway)) && (UdpAccepts(Forwarded(f, gateway)) <==> UdpAccepts(f))
      {
        UdpVerdictPreserved(f, gateway);
      }
    } else {
      ShortFrameBroken(length);
      assert Breaks(SomeCells(), ShortFrame(length));
    }
  }
}
