/** The XDP program as it runs: one byte buffer rewritten in place through views of it, on a
    host of either byte order. Its contract is the byte-string function
    `Frames.ProcessBetween`, which mentions no byte order. */
module XdpProgram {
  import opened Wrappers
  import opened Words
  import opened OnesComplement
  import opened MapCells
  import opened Frames

  const ETH_LEN: nat := 14
  const IPV4_LEN: nat := 20
  const UDP_LEN: nat := 8

  /** Where a view of the given size starts, if all of it lies within the packet; the only
      error there is. */
  function PtrAtMut(frame: array<u8>, offset: nat, size: nat): Result<nat> {
    if offset + size > frame.Length then Err else Ok(offset)
  }

  /** The byte string with the bytes from `at` on replaced. */
  ghost function Splice(f: seq<u8>, at: nat, bytes: seq<u8>): (g: seq<u8>)
    requires at + |bytes| <= |f|
    ensures |g| == |f|
  {
    f[..at] + bytes + f[at + |bytes|..]
  }

  method Write(frame: array<u8>, at: nat, bytes: seq<u8>)
    requires at + |bytes| <= frame.Length
    modifies frame
    ensures frame[..] == Splice(old(frame[..]), at, bytes)
  {
    for i := 0 to |bytes|
      invariant forall j :: 0 <= j < i ==> frame[at + j] == bytes[j]
      invariant forall j :: 0 <= j < at || at + i <= j < frame.Length ==> frame[j] == old(frame[j])
    {
      frame[at + i] := bytes[i];
    }
    assert frame[at..at + |bytes|] == bytes;
  }

  /** The program reads the maps twice: `maps` is what it finds when it classifies the frame,
      `later` what it finds when it rewrites it, the same unless the controller writes in
      between. */
  method UdpRouter(maps: ConfigMaps, later: ConfigMaps, e: Endian, frame: array<u8>) returns (action: Action)
    modifies frame
    ensures Outcome(action, frame[..]) == ProcessBetween(maps.Contents(), later.Contents(), old(frame[..]))
    ensures var f := old(frame[..]);
      && (action == Tx <==>
            CarriesIpv4(f) && |f| >= 46 && f[23] == 17 && Forwards(maps.Contents(), Be32(f[26..30])))
      && (action == Aborted <==>
            || |f| < 14
            || (CarriesIpv4(f) && |f| < 34)
            || (CarriesIpv4(f) && |f| < 46 && f[23] == 17 && Forwards(maps.Contents(), Be32(f[26..30]))))
      && (action != Tx ==> frame[..] == f)
  {
    FateOfFrame(maps.Contents(), later.Contents(), frame[..]);
    var r := TryUdpRouter(maps, later, e, frame);
    match r
    case Ok(a) => action := a;
    case Err => action := Aborted;
  }

  method TryUdpRouter(maps: ConfigMaps, later: ConfigMaps, e: Endian, frame: array<u8>)
    returns (r: Result<Action>)
    modifies frame
    ensures Outcome(if r.Ok? then r.value else Aborted, frame[..])
         == ProcessBetween(maps.Contents(), later.Contents(), old(frame[..]))
  {
    ghost var f := frame[..];
    var ethhdr :- PtrAtMut(frame, 0, ETH_LEN);
    assert frame[12..14] == f[12..14];
    EtherTypeRead(e, frame[ethhdr + 12..ethhdr + 14]);
    if Load16(e, frame[ethhdr + 12..ethhdr + 14]) != ToBe16(e, 0x0800) {
      return Ok(Pass);
    }
    var ipv4hdr :- PtrAtMut(frame, ETH_LEN, IPV4_LEN);
    if frame[ipv4hdr + 9] != UDP {
      return Ok(Pass);
    }
    assert frame[26..30] == f[26..30];
    NetworkRead(e, frame[ipv4hdr + 12..ipv4hdr + 16]);
    var sourceIp := FromBe32(e, Load32(e, frame[ipv4hdr + 12..ipv4hdr + 16]));
    if IsLinkLocalIp(sourceIp) || IsFromLocalNetwork(maps.Contents(), sourceIp) {
      return Ok(Pass);
    }
    r := TryForwardPacket(later, e, frame);
  }

  lemma {:induction false} EtherTypeRead(e: Endian, b: seq<u8>)
    requires |b| == 2
    ensures Load16(e, b) == ToBe16(e, 0x0800) <==> b == [0x08, 0x00]
  {
  }

  /** All or nothing: either some view does not fit and no byte changes, or the frame becomes
      the forwarded one. */
  method TryForwardPacket(maps: ConfigMaps, e: Endian, frame: array<u8>) returns (r: Result<Action>)
    modifies frame
    ensures r == if frame.Length < 46 then Err else Ok(Tx)
    ensures frame[..] ==
      if frame.Length < 46 then old(frame[..])
      else Forwarded(old(frame[..]), maps.Contents().gateway)
  {
    ghost var f := frame[..];
    var ethhdr :- PtrAtMut(frame, 0, ETH_LEN);
    var ipv4hdr :- PtrAtMut(frame, ETH_LEN, IPV4_LEN);
    var udphdr :- PtrAtMut(frame, ETH_LEN + IPV4_LEN, UDP_LEN);
    var payload :- PtrAtMut(frame, ETH_LEN + IPV4_LEN + UDP_LEN, 4);
    var csum := RotateAddresses(e, frame, ipv4hdr, udphdr, payload);
    RewriteMacAddresses(maps, frame, ethhdr);
    FixChecksums(e, frame, ipv4hdr, udphdr, csum);
    SplicesAreForwarded(f, maps.Contents().gateway, csum);
    r := Ok(Tx);
  }

  method RewriteMacAddresses(maps: ConfigMaps, frame: array<u8>, ethhdr: nat)
    requires frame.Length >= 12 && ethhdr == 0
    modifies frame
    ensures frame[..] == Readdressed(old(frame[..]), maps.gatewayMacAddress)
  {
    Write(frame, ethhdr + 6, frame[ethhdr..ethhdr + 6]);
    assert GetGatewayMacAddress(maps) == MacBytes(maps.gatewayMacAddress);
    Write(frame, ethhdr, GetGatewayMacAddress(maps));
  }

  method FixChecksums(e: Endian, frame: array<u8>, ipv4hdr: nat, udphdr: nat, csum: u16)
    requires frame.Length >= 42 && ipv4hdr == 14 && udphdr == 34
    modifies frame
    ensures frame[..] == Checksummed(old(frame[..]), csum)
  {
    var ipCsum := CalculateIpChecksum(e, frame[ipv4hdr..ipv4hdr + 20]);
    NetworkWrite(e, Checksum(OtherWords(frame[ipv4hdr..ipv4hdr + 20])), [0, 0, 0, 0]);
    NetworkWrite(e, csum, [0, 0, 0, 0]);
    Write(frame, ipv4hdr + 10, Store16(e, ipCsum));
    Write(frame, udphdr + 6, Store16(e, ToBe16(e, csum)));
  }

  /** The frame with its three addresses rotated. */
  ghost function Rotated(f: seq<u8>): (g: seq<u8>)
    requires |f| >= 46
    ensures |g| == |f|
  {
    Splice(Splice(Splice(f, 30, f[42..46]), 26, f[30..34]), 42, f[26..30])
  }

  /** Rotate the addresses, patching the UDP checksum word by word. What comes out is the
      checksum that came in. */
  method RotateAddresses(e: Endian, frame: array<u8>, ipv4hdr: nat, udphdr: nat, payload: nat)
    returns (csum: u16)
    requires frame.Length >= 46 && ipv4hdr == 14 && udphdr == 34 && payload == 42
    modifies frame
    ensures frame[..] == Rotated(old(frame[..]))
    ensures csum == UdpChecksumField(old(frame[..]))
  {
    ghost var f := frame[..];
    var routerIpBe := Load32(e, frame[ipv4hdr + 16..ipv4hdr + 20]);
    var sourceIpBe := Load32(e, frame[ipv4hdr + 12..ipv4hdr + 16]);
    var targetIpBe := Load32(e, frame[payload..payload + 4]);
    csum := FromBe16(e, Load16(e, frame[udphdr + 6..udphdr + 8]));
    NetworkRead(e, f[40..42]);
    RotationReads(f);
    csum := ReplaceField(e, frame, ipv4hdr + 16, f[30..34], targetIpBe, f[42..46], csum);
    csum := ReplaceField(e, frame, ipv4hdr + 12, f[26..30], routerIpBe, f[30..34], csum);
    csum := ReplaceField(e, frame, payload, f[42..46], sourceIpBe, f[26..30], csum);
    SixUpdatesAsChain(f, UdpChecksumField(f), csum);
  }

  /** Each field is read before it is overwritten. */
  lemma {:induction false} RotationReads(f: seq<u8>)
    requires |f| >= 46
    ensures Splice(f, 30, f[42..46])[26..30] == f[26..30]
    ensures Splice(Splice(f, 30, f[42..46]), 26, f[30..34])[42..46] == f[42..46]
  {
  }

  function GetGatewayMacAddress(maps: ConfigMaps): (b: seq<u8>)
    reads maps
    ensures |b| == 6
  {
    var mac := ToBeBytes64(maps.gatewayMacAddress);
    [mac[2], mac[3], mac[4], mac[5], mac[6], mac[7]]
  }

  /** Overwrite the four-byte field at `at` with the word `nowBe` and patch the checksum for
      its two halves. The ghost byte strings say what the field held and what it gets. */
  method ReplaceField(e: Endian, frame: array<u8>, at: nat, ghost was: seq<u8>,
                      nowBe: u32, ghost now: seq<u8>, csum: u16)
    returns (patched: u16)
    requires at + 4 <= frame.Length && |was| == 4 && |now| == 4
    requires frame[..][at..at + 4] == was && nowBe == Load32(e, now)
    modifies frame
    ensures frame[..] == Splice(old(frame[..]), at, now)
    ensures patched == UpdateUdpChecksum(UpdateUdpChecksum(csum, Upper(was), Upper(now)), Lower(was), Lower(now))
  {
    NetworkRead(e, was);
    NetworkRead(e, now);
    BytesOfBe32(was);
    BytesOfBe32(now);
    NetworkWrite(e, 0, now);
    assert frame[at..at + 4] == frame[..][at..at + 4];
    var oldBytes := ToBeBytes32(FromBe32(e, Load32(e, frame[at..at + 4])));
    var newBytes := ToBeBytes32(FromBe32(e, nowBe));
    Write(frame, at, Store32(e, nowBe));
    patched := UpdateUdpChecksum(csum, Be16(oldBytes[..2]), Be16(newBytes[..2]));
    patched := UpdateUdpChecksum(patched, Be16(oldBytes[2..]), Be16(newBytes[2..]));
  }

  lemma {:induction false} FoldField(csum: u16, was: seq<u8>, now: seq<u8>, ps: seq<Patch>)
    requires |was| == 4 && |now| == 4
    ensures FoldUpdates(csum, FieldPatches(was, now) + ps) ==
      FoldUpdates(UpdateUdpChecksum(UpdateUdpChecksum(csum, Upper(was), Upper(now)), Lower(was), Lower(now)), ps)
  {
  }

  /** The six updates are the chain of `Frames.UdpPatches`, hence the identity. */
  lemma {:induction false} SixUpdatesAsChain(f: seq<u8>, before: u16, after: u16)
    requires |f| >= 46
    requires var src, dst, word := f[26..30], f[30..34], f[42..46];
      var c2 := UpdateUdpChecksum(UpdateUdpChecksum(before, Upper(dst), Upper(word)), Lower(dst), Lower(word));
      var c4 := UpdateUdpChecksum(UpdateUdpChecksum(c2, Upper(src), Upper(dst)), Lower(src), Lower(dst));
      after == UpdateUdpChecksum(UpdateUdpChecksum(c4, Upper(word), Upper(src)), Lower(word), Lower(src))
    ensures after == before
  {
    var src, dst, word := f[26..30], f[30..34], f[42..46];
    var c2 := UpdateUdpChecksum(UpdateUdpChecksum(before, Upper(dst), Upper(word)), Lower(dst), Lower(word));
    var c4 := UpdateUdpChecksum(UpdateUdpChecksum(c2, Upper(src), Upper(dst)), Lower(src), Lower(dst));
    var p3 := FieldPatches(word, src);
    var p2 := FieldPatches(src, dst) + p3;
    assert UdpPatches(f) == FieldPatches(dst, word) + p2;
    FoldField(before, dst, word, p2);
    FoldField(c2, src, dst, p3);
    FoldField(c4, word, src, []);
    assert p3 + [] == p3;
    SixPatchesAreIdentity(f, before);
  }

  /** `calculate_ip_checksum`: add the ten words in 32 bits, take the checksum word back out,
      fold twice. The result is the end-around-carry checksum of the other nine words; the
      types of the accumulator show that nothing overflows or underflows. */
  method CalculateIpChecksum(e: Endian, header: seq<u8>) returns (checksumBe: u16)
    requires |header| == 20
    ensures checksumBe == ToBe16(e, Checksum(OtherWords(header)))
  {
    var checksum: u32 := 0;
    for i := 0 to 10
      invariant checksum == ByteSum(header[..2 * i])
      invariant checksum <= 0xffff * i
    {
      AddWord(header, i);
      checksum := checksum + Be16([header[2 * i], header[2 * i + 1]]);
    }
    SumWithoutChecksum(header);
    checksum := checksum - Be16([header[10], header[11]]);

    FoldsGiveSum(checksum, OtherWords(header));
    checksum := BitAnd(checksum, 0xffff) + Shr(checksum, 16);
    checksum := BitAnd(checksum, 0xffff) + Shr(checksum, 16);
    checksumBe := ToBe16(e, Not16(checksum));
  }

  lemma {:induction false} FoldsGiveSum(total: u32, bs: seq<u8>)
    requires total == ByteSum(bs)
    ensures var once := BitAnd(total, 0xffff) + Shr(total, 16);
      once <= 0x1_fffe && BitAnd(once, 0xffff) + Shr(once, 16) == OcSum(WordsOf(bs))
  {
    TwoFoldsSuffice(total);
    OcSumIsCanon(WordsOf(bs));
    Halves(total);
    Halves(FoldOnce(total));
  }

  lemma {:induction false} Halves(x: u32)
    ensures BitAnd(x, 0xffff) + Shr(x, 16) == FoldOnce(x)
  {
    Powers();
    AndLowMask(x, 16);
  }

  lemma {:induction false} AddWord(header: seq<u8>, i: nat)
    requires 2 * i + 1 < |header|
    ensures ByteSum(header[..2 * (i + 1)]) == ByteSum(header[..2 * i]) + Be16([header[2 * i], header[2 * i + 1]])
  {
    var w := [header[2 * i], header[2 * i + 1]];
    assert header[..2 * (i + 1)] == header[..2 * i] + w;
    ByteSumAppend(header[..2 * i], w);
    SumOfUpToFour(w);
  }

  lemma {:induction false} SumWithoutChecksum(header: seq<u8>)
    requires |header| == 20
    ensures ByteSum(header[..20]) == ByteSum(OtherWords(header)) + Be16([header[10], header[11]])
  {
    AddWord(header, 5);
    assert header[..20] == header[..12] + header[12..];
    ByteSumAppend(header[..12], header[12..]);
    ByteSumAppend(header[..10], header[12..]);
  }

  /** The frame with its MAC addresses rewritten. */
  ghost function Readdressed(f: seq<u8>, gateway: u64): (g: seq<u8>)
    requires |f| >= 12
    ensures |g| == |f|
  {
    Splice(Splice(f, 6, f[..6]), 0, MacBytes(gateway))
  }

  /** The frame with its IP checksum recomputed and its UDP checksum written back. */
  ghost function Checksummed(f: seq<u8>, csum: u16): (g: seq<u8>)
    requires |f| >= 42
    ensures |g| == |f|
  {
    Splice(Splice(f, 24, ToBeBytes16(Checksum(OtherWords(f[14..34])))), 40, ToBeBytes16(csum))
  }

  /** A frame put together from its fields: two MACs, EtherType, ten header bytes, IP checksum,
      two addresses, six UDP header bytes, UDP checksum, and everything after. */
  ghost function Assembled(mac1: seq<u8>, mac2: seq<u8>, etherType: seq<u8>, head: seq<u8>, ipCsum: seq<u8>,
                           src: seq<u8>, dst: seq<u8>, udp: seq<u8>, udpCsum: seq<u8>, rest: seq<u8>): seq<u8>
  {
    mac1 + mac2 + (etherType + head + ipCsum + src + dst + udp + udpCsum + rest)
  }

  lemma {:induction false} AssembledChecksums(
      mac1: seq<u8>, mac2: seq<u8>, etherType: seq<u8>, head: seq<u8>, ipCsum: seq<u8>, src: seq<u8>,
      dst: seq<u8>, udp: seq<u8>, udpCsum: seq<u8>, rest: seq<u8>, csum: u16)
    requires |mac1| == |mac2| == 6 && |etherType| == |ipCsum| == |udpCsum| == 2
    requires |head| == 10 && |src| == |dst| == 4 && |udp| == 6
    ensures var g := Assembled(mac1, mac2, etherType, head, ipCsum, src, dst, udp, udpCsum, rest);
      Checksummed(g, csum) == Assembled(mac1, mac2, etherType, head,
        ToBeBytes16(Checksum(head + src + dst)), src, dst, udp, ToBeBytes16(csum), rest)
  {
    var g := Assembled(mac1, mac2, etherType, head, ipCsum, src, dst, udp, udpCsum, rest);
    var c, k := ToBeBytes16(Checksum(head + src + dst)), ToBeBytes16(csum);
    assert OtherWords(g[14..34]) == head + src + dst by {
      assert g[14..34] == head + ipCsum + src + dst;
    }
    assert Splice(g, 24, c) == Assembled(mac1, mac2, etherType, head, c, src, dst, udp, udpCsum, rest);
    assert Splice(Splice(g, 24, c), 40, k) == Assembled(mac1, mac2, etherType, head, c, src, dst, udp, k, rest);
  }

  /** The seven overwrites, one after another, are the forwarded frame. */
  lemma {:induction false} SplicesAreForwarded(f: seq<u8>, gateway: u64, csum: u16)
    requires |f| >= 46 && csum == UdpChecksumField(f)
    ensures Checksummed(Readdressed(Rotated(f), gateway), csum) == Forwarded(f, gateway)
  {
    ReaddressedParts(f, gateway);
    AssembledChecksums(MacBytes(gateway), f[..6], f[12..14], f[14..24], f[24..26],
      f[30..34], f[42..46], f[34..40], f[40..42], f[26..30] + f[46..], csum);
    assert ToBeBytes16(csum) == f[40..42];
    ForwardedParts(f, gateway);
  }

  lemma {:induction false} ReaddressedParts(f: seq<u8>, gateway: u64)
    requires |f| >= 46
    ensures Readdressed(Rotated(f), gateway) == Assembled(MacBytes(gateway), f[..6], f[12..14], f[14..24],
      f[24..26], f[30..34], f[42..46], f[34..40], f[40..42], f[26..30] + f[46..])
  {
    RotatedParts(f);
    ReaddressedHead(f[..6], f[6..12], Rotated(f)[12..], gateway);
  }

  lemma {:induction false} ReaddressedHead(mac1: seq<u8>, mac2: seq<u8>, rest: seq<u8>, gateway: u64)
    requires |mac1| == |mac2| == 6
    ensures Readdressed(mac1 + mac2 + rest, gateway) == MacBytes(gateway) + mac1 + rest
  {
    var f := mac1 + mac2 + rest;
    assert f[..6] == mac1;
    assert Splice(f, 6, mac1) == mac1 + mac1 + rest;
  }

  lemma {:induction false} RotatedParts(f: seq<u8>)
    requires |f| >= 46
    ensures Rotated(f) == f[..6] + f[6..12] + Rotated(f)[12..]
    ensures Rotated(f)[12..] == f[12..14] + f[14..24] + f[24..26] + f[30..34] + f[42..46]
                                + f[34..40] + f[40..42] + (f[26..30] + f[46..])
  {
    RotatedWhole(f[..26], f[26..30], f[30..34], f[34..42], f[42..46], f[46..]);
    assert f == f[..26] + f[26..30] + f[30..34] + f[34..42] + f[42..46] + f[46..];
    assert f[..26] == f[..12] + (f[12..14] + f[14..24] + f[24..26]);
    assert f[34..42] == f[34..40] + f[40..42];
  }

  lemma {:induction false} RotatedWhole(
      front: seq<u8>, src: seq<u8>, dst: seq<u8>, udp: seq<u8>, word: seq<u8>, rest: seq<u8>)
    requires |front| == 26 && |src| == |dst| == |word| == 4 && |udp| == 8
    ensures var f := front + src + dst + udp + word + rest;
      && f[26..30] == src && f[30..34] == dst && f[42..46] == word
      && Rotated(f) == front + dst + word + udp + src + rest
  {
    var f := front + src + dst + udp + word + rest;
    assert Splice(f, 30, word) == front + src + word + udp + word + rest;
    assert Splice(Splice(f, 30, word), 26, dst) == front + dst + word + udp + word + rest;
  }

  lemma {:induction false} ForwardedParts(f: seq<u8>, gateway: u64)
    requires |f| >= 46
    ensures Forwarded(f, gateway) == Assembled(MacBytes(gateway), f[..6], f[12..14], f[14..24],
      ToBeBytes16(Checksum(f[14..24] + f[30..34] + f[42..46])), f[30..34], f[42..46],
      f[34..40], f[40..42], f[26..30] + f[46..])
  {
    assert f[12..24] == f[12..14] + f[14..24];
    assert f[34..42] == f[34..40] + f[40..42];
  }
}
