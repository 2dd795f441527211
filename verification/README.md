# Verification of the stateless UDP router

A Dafny 4.11 model of the router, with proofs. The router is an XDP program that rewrites
UDP packets in place so that a client, a backend server and the router can talk without the
router keeping a session table; a controller and a command line tool configure it.

`dafny verify dfyconfig.toml` checks everything. No proof relies on automatic induction, which
every lemma switches off.

## What is modelled

- `Wrappers` — results and optional values.
- `Words` — fixed-width words as bounded integers, bitwise AND and OR defined digit by digit,
  native loads and stores of big- and little-endian hosts.
- `OnesComplement` — the Internet checksum (RFC 1071), equation 3 in section 3 of RFC 1624,
  and the two's-complement update the program uses instead.
- `MapCells` — the three 64-bit configuration cells and the local and link-local tests.
- `Frames` — the verdict and the rewrite as a function `Process` on byte strings, and what
  the rewrite does to the two checksums.
- `XdpProgram` — the program itself: imperative, one byte array overwritten through views,
  six checksum patches, an accumulating loop, on a host of either byte order. It reads the
  local cell first and the gateway cell later; its contract is `Frames.ProcessBetween`, in
  which the two reads may find different contents and no byte order occurs, so the bytes on
  the wire cannot depend on the host.
- `BpfActor`, `Controller` — the actor that writes the cells, and every interleaving of
  callers, the channel of capacity eight, the actor, and packets arriving, being classified
  and being rewritten on any number of CPUs.
- `RouterTool` — the tool: text to messages, in a development or a release build.
- `EchoServer`, `Relay` — the echo server's buffer, and the protocol between any number of
  clients, routers and echo servers over a network that reorders, loses and duplicates. The
  routers boot with nothing configured and are reconfigured at any moment to anything, and
  clients may name any address as the server, a client's or a router's too. What clients
  receive, that packets are conserved and that none loops needs no more than that no address
  is two kinds of host; that nothing is dropped and that requests are answered needs the
  right configuration, and says which.
- `Deployment` — from what the operator types to what happens to frames and to requests,
  whatever was set before.

A run is any sequence of events; an event that is not possible changes nothing, so theorems
about all sequences are theorems about all runs and all interleavings.

## Findings

- The helper that patches the UDP checksum cites RFC 1624 but is not its equation 3: modulo
  65535 it is off by its net wrap, so it agrees there exactly when the two wrapping
  operations cancel. The values are equal if and only if now <= csum + was < now + 65535; at
  csum + was = now + 65535 the helper gives 0xffff and equation 3 gives 0, the other zero.
- The six patches together are right because the rewrite is a rotation: the misses add up to
  zero and the field comes out as it went in. Equation 3, word by word, would have given the
  same field except for 0xffff, which it would turn into 0, "no checksum".
- The rewrite preserves the receiver's verdict on every datagram of a given UDP length if and
  only if the length is at least 12. A shorter datagram in a padded frame is rewritten too,
  the padding being taken for the address word; the code does not look at the UDP length.
- The IPv4 checksum is recomputed, over twenty bytes whatever the header length, rather than
  patched. A header without options goes out good even if it came in broken. With options the
  outgoing header is good if and only if the outgoing option bytes add up to zero in one's
  complement, so a good one can go out broken. For UDP packets that came with the computed
  checksum of the twenty bytes, recomputing and patching by equation 3 agree.
- Prefix length 0 does not mean "every address": it panics in a development build and gives
  the mask of a single host in a release build. Lengths above 32 wrap round in a release build.
- The tool tests whether the gateway address was given as empty after it has parsed it, and
  the parse panics on the empty text. (An absent option is refused before that.)
- A configuration call returns when its message is queued. Nine can have returned with none
  applied; a statistics reply is the barrier that tells an earlier one is in force.
- The program reads the local net and the gateway address at different moments. A packet
  overtaken by a reconfiguration can be judged by the old local net and sent to the new
  gateway, as under no configuration that was ever in force. It is accounted for by one
  history of messages exactly when that history calls for the verdict and the gateway octets
  seen, in particular when no local-net or no gateway message was handled in between.
- The payload word is taken for the server's address whatever it is. A client named there
  receives the request itself. A router named there, if it forwards the first, sends the
  request straight back to the client in its own name. Neither loops, and a client can tell
  a true reply by the address word in it.
- The backend network is documented as deciding which packets come from servers. No packet
  is ever compared with it.

## Model

| member | source | states |
|---|---|---|
| Words.NativeOrders | udp-router-ebpf/src/main.rs:98-98 | big- and little-endian hosts load and store words in opposite byte orders |
| Words.NetworkRead | udp-router-ebpf/src/main.rs:98-98 | a native load followed by the conversion from network order reads the big-endian value on either host |
| Words.NetworkWrite | udp-router-ebpf/src/main.rs:208-211 | conversion to network order followed by a native store writes big-endian bytes on either host, and a word moved unconverted keeps its bytes |
| OnesComplement.OcSumIsCanon | udp-router-ebpf/src/main.rs:223-236 | word-by-word end-around-carry addition is the true sum reduced modulo 65535, with zero only for zero |
| OnesComplement.TwoFoldsSuffice | udp-router-ebpf/src/main.rs:231-233 | for every 32-bit total two folds give the end-around-carry sum, in 16 bits |
| OnesComplement.ChecksumVerifies | udp-router-ebpf/src/main.rs:223-236 | data with its computed checksum put in place always passes the receiver's all-ones test |
| OnesComplement.UpdateMissesEq3ByNetWrap | udp-router-ebpf/src/main.rs:238-243 | one update differs from equation 3 of RFC 1624 by its net wrap k in {-1, 0, 1} modulo 65535, and agrees modulo 65535 if and only if now <= csum + was <= now + 65535; the values are equal if and only if now <= csum + was < now + 65535, and at equality on the right they are the two zeros |
| OnesComplement.UpdateCanMissEq3 | udp-router-ebpf/src/main.rs:238-243 | a concrete update on which the helper and the RFC disagree |
| OnesComplement.ChainsAgreeIffTotalsAgree | udp-router-ebpf/src/main.rs:163-192 | two chains of updates give the same field if and only if their total changes agree modulo 65536, whatever their order and length |
| OnesComplement.RearrangementIsIdentity | udp-router-ebpf/src/main.rs:163-192 | when the new words are a permutation of the old ones the chain is the identity and its wraps cancel |
| OnesComplement.RearrangementByEq3 | udp-router-ebpf/src/main.rs:163-192 | the same chain of equation 3 is the identity too, except that it turns the field 0xffff into 0 |
| OnesComplement.ChainMissesEq3ByTotalWrap | udp-router-ebpf/src/main.rs:150-193 | modulo 65535 a chain differs from the same chain of equation 3 by the sum of its wraps |
| OnesComplement.Eq3MatchesRecompute | udp-router-ebpf/src/main.rs:223-236 | patching the checksum of a nonzero sum by equation 3 equals recomputing it if and only if the new sum is nonzero |
| MapCells.UnpackPack | udp-router/src/bpf_actor.rs:162-165 | unpacking a packed net and mask gives both back |
| MapCells.PrefixTestIsRange | udp-router-ebpf/src/main.rs:114-120 | under a prefix mask the test accepts exactly the addresses from net to net + 2^(32-p), and nothing if net has host bits |
| MapCells.LinkLocalIsRange | udp-router-ebpf/src/main.rs:107-112 | the link-local test is 169.254.0.0/16 |
| MapCells.ZeroCellForwardsNothing | udp-router-ebpf/src/main.rs:114-120 | with the local cell zero every source counts as local |
| Frames.FateOfFrame | udp-router-ebpf/src/main.rs:85-214 | of every byte string: it is sent if and only if it is IPv4 (EtherType 0x0800) and UDP (protocol 17), from a source to be forwarded, and 46 bytes or more; the program aborts if and only if a view it needs is missing; other EtherTypes, protocols and sources pass; only a sent frame is altered, and of it only the MACs, IP checksum, IP addresses and first payload word, each to the bytes given |
| Frames.SecondPass | udp-router-ebpf/src/main.rs:98-104 | a forwarded frame met again is forwarded again if and only if the address it had come to is not itself local |
| Frames.ForwardedHeaderVerifies | udp-router-ebpf/src/main.rs:208-209 | a receiver accepts the outgoing IPv4 header, of the length its IHL field gives, if and only if it is all there and the outgoing bytes beyond the twentieth add up to zero in one's complement; always when there are none, even if the incoming header was broken |
| Frames.OptionsBreakHeader | udp-router-ebpf/src/main.rs:208-236 | a frame with a good 24-byte header that the program forwards with a broken one |
| Frames.RecomputedIsEq3Patched | udp-router-ebpf/src/main.rs:152-209 | for a UDP packet whose checksum was the computed one of its first twenty header bytes, recomputing equals patching the four address words by equation 3 |
| Frames.ThriceForwardedRestores | udp-router-ebpf/src/main.rs:139-211 | three forwardings restore every byte after the Ethernet header if and only if the IP checksum was the computed one of the first twenty header bytes |
| Frames.SixPatchesAreIdentity | udp-router-ebpf/src/main.rs:150-193 | the six patches leave any UDP checksum field as it was and their wraps sum to zero; six patches by equation 3 would turn 0xffff into 0 and leave any other field |
| Frames.CoveredSumChange | udp-router-ebpf/src/main.rs:149-210 | the sum the UDP checksum covers changes only by the part of the rotated payload word that lies beyond the datagram |
| Frames.UdpVerdictPreserved | udp-router-ebpf/src/main.rs:149-210 | for every datagram of UDP length 12 or more, even or odd, covered sum and field are unchanged and the receiver accepts the outgoing datagram if and only if it would have accepted the incoming one |
| Frames.ShortDatagramAccepted | udp-router-ebpf/src/main.rs:142-188 | a datagram shorter than that with a checksum goes out acceptable if and only if the covered sum, corrected for what padding and source address hold beyond its end, is zero in one's complement; a good one stays good if and only if the two agree there |
| Frames.VerdictsPreservedIffLengthCoversAddress | udp-router-ebpf/src/main.rs:142-188 | verdicts are preserved on all datagrams of a UDP length if and only if it is at least 12; below, some good datagram with a good header is forwarded by some configuration and broken |
| XdpProgram.UdpRouter | udp-router-ebpf/src/main.rs:78-83 | verdict and final bytes are those of the byte-string function for every frame, byte order, and contents of the cells at either read; the verdict is the one the bytes at the EtherType, protocol and source offsets and the length call for; passed and aborted frames keep every byte |
| XdpProgram.TryUdpRouter | udp-router-ebpf/src/main.rs:85-105 | classification: length, EtherType, protocol, link-local, local, in that order, with the outcome that Frames.FateOfFrame spells out |
| XdpProgram.TryForwardPacket | udp-router-ebpf/src/main.rs:130-214 | all or nothing: too short and no byte changes, or exactly the forwarded frame |
| XdpProgram.RotateAddresses | udp-router-ebpf/src/main.rs:139-193 | the rotation in place, the patched checksum equal to the one read |
| XdpProgram.CalculateIpChecksum | udp-router-ebpf/src/main.rs:222-236 | the loop, subtraction and two folds compute the end-around-carry checksum of the nine other words, without overflow or underflow |
| XdpProgram.RewriteMacAddresses | udp-router-ebpf/src/main.rs:199-220 | the old destination MAC becomes the source, the six low bytes of the gateway cell the destination, nothing else changes |
| XdpProgram.FixChecksums | udp-router-ebpf/src/main.rs:208-211 | the computed IP checksum and the patched UDP checksum go out in network order, nothing else changes |
| BpfActor.CellsHoldLatest | udp-router/src/bpf_actor.rs:162-179 | after any history, each unpacked cell holds whole what the last message of its kind carried |
| BpfActor.UnoverriddenHolds | udp-router/src/bpf_actor.rs:162-179 | a message that nothing handled after it overrides is what the cells say, whatever was handled before it |
| BpfActor.BpfActor.HandleMessage | udp-router/src/bpf_actor.rs:131-146 | the new cells and replies, as the message calls for |
| BpfActor.BpfActor.SetLocalNetMask | udp-router/src/bpf_actor.rs:162-167 | the local cell unpacks to the net and mask given, the other cells are untouched |
| BpfActor.BpfActor.SetBackendNetMask | udp-router/src/bpf_actor.rs:169-174 | the backend cell unpacks to the net and mask given, the other cells are untouched |
| BpfActor.BpfActor.SetGatewayMacAddress | udp-router/src/bpf_actor.rs:176-179 | the gateway cell holds the address given, the other cells are untouched |
| BpfActor.BpfActor.RunActor | udp-router/src/bpf_actor.rs:239-242 | draining the channel folds its messages into the cells in order and answers every statistics request in order |
| Controller.CellsFoldAcceptedPrefix | udp-router/src/bpf_actor.rs:22-49 | in every reachable state the cells are the fold of a prefix of the accepted messages, eight at most are queued, and at most nine accepted ones are not yet applied |
| Controller.NineCanBeUnapplied | udp-router/src/bpf_actor.rs:23-48 | some run has nine messages accepted and none handled, the cells still initial |
| Controller.NineRoundsApplyAccepted | udp-router/src/bpf_actor.rs:239-242 | from every reachable state nine actor rounds apply everything accepted |
| Controller.StatsReplyIsBarrier | udp-router/src/bpf_actor.rs:28-49 | an answered statistics request implies that everything accepted before it was made has been handled, in order, and is in the cells |
| Controller.PacketsJudgedByWholeMessages | udp-router-ebpf/src/main.rs:98-120 | in every run each packet is judged by the pair of one whole local-net message, the last handled when its local cell was read, or by (0, 0); sent, it becomes the forwarded frame for the last gateway address handled when its gateway cell was read, no earlier; otherwise it is unchanged |
| Controller.PacketJudgedOnArrival | udp-router-ebpf/src/main.rs:98-220 | a packet is judged by all messages handled when it arrives and addressed by all those handled when it leaves, whatever happens in between |
| Controller.ExplainedIff | udp-router-ebpf/src/main.rs:98-220 | what became of a packet is what one history of messages calls for if and only if that history calls for the verdict reached and, if sent, for the gateway octets it was sent to |
| Controller.ExplainedUnlessOvertaken | udp-router-ebpf/src/main.rs:98-220 | with no gateway message handled between the two reads the history at the first accounts for the packet, with no local-net message the history at the second |
| Controller.ReconfigurationTearsPackets | udp-router-ebpf/src/main.rs:114-220 | a run of two reconfigurations in which a packet from any source in the second net but not the first is forwarded as no history of messages calls for |
| Controller.InertUntilLocalNetSet | udp-router-ebpf/src/main.rs:50-60 | in every run no frame is altered or sent whose local cell was read before a local-net message was handled |
| Controller.BackendContentsNeverMatter | udp-router-ebpf/src/main.rs:85-128 | two runs that differ only in what their backend messages say treat every packet alike |
| RouterTool.NumberTextMeaning | udp-router-tool/src/main.rs:119-132 | a number is read from exactly the texts that write it: an optional plus sign and one or more characters of the decimal or hexadecimal alphabet, in either case, with that place value, below the bound |
| RouterTool.MacTextMeaning | udp-router-tool/src/main.rs:124-137 | octets are read from exactly the texts that write them: six hexadecimal numbers below 256 with colons between |
| RouterTool.ParseMacAddress | udp-router-tool/src/main.rs:124-137 | succeeds exactly on texts that write six octets, with a value below 2^48 whose bytes are those octets in order |
| RouterTool.MacRoundTrip | udp-router-tool/src/main.rs:124-137 | the usual notation of an address is read as that address |
| RouterTool.NumberRoundTrip | udp-router-tool/src/main.rs:119-132 | a written number is read back, or refused exactly when out of range |
| RouterTool.MaskIntendedIffLengthPositive | udp-router-tool/src/main.rs:119-119 | of lengths 0 to 32 the shift gives the intended mask if and only if the length is positive, in either profile |
| RouterTool.LongPrefixes | udp-router-tool/src/main.rs:119-119 | lengths above 32 panic in a development build and wrap round in a release build |
| RouterTool.NetTextMeaning | udp-router-tool/src/main.rs:108-122 | the texts accepted are the empty one, read as (0, 0xffffffff), and exactly those of a dotted address in its one notation, a slash and a number, in a development build from 1 to 32; read are that address and the mask of so many leading ones, the number wrapped round beyond 32 and at 0 |
| RouterTool.NetRoundTrip | udp-router-tool/src/main.rs:108-122 | a dotted address and length in the usual notation are read as that address and the mask of that many leading ones |
| RouterTool.CommandMeaning | udp-router-tool/src/main.rs:36-103 | an invocation succeeds if and only if each network text is empty or writes an admissible network and the gateway text writes six octets; it then makes exactly the one query, or the local net written, the backend net written and the octets written, in that order, each network only if given |
| EchoServer.EchoServer.RecvFrom | udp-router-server/src/main.rs:10-14 | the datagram, cut to the buffer, replaces the buffer's front and nothing else |
| EchoServer.EchoServer.Serve | udp-router-server/src/main.rs:12-17 | every reply is the echo of its own datagram, free of stale buffer bytes |
| Relay.ProgramIsRouter | udp-router-ebpf/src/main.rs:85-214 | on frames the program sends what the protocol's router sends, whatever is written to its cells meanwhile |
| Relay.RouterEchoRouterIsEcho | README.md:3-10 | router, echo, router acts on addresses, ports and payload as an echo by the router's own address |
| Relay.AnsweredIffBothEndsForwarded | udp-router-ebpf/src/main.rs:34-48 | a request is answered if and only if neither the client nor the named server is local or link-local |
| Relay.OneRouterSubnetSeparates | udp-router-ebpf/src/main.rs:34-48 | with routers on one subnet and clients and servers on others, cells that hold that subnet as local net forward all clients and servers and no router |
| Relay.AnyConfigurationReachable | udp-router/src/bpf_actor.rs:162-179 | from every reachable state the routers can be given any cells at all, nothing else changing |
| Relay.OriginOfLeg | README.md:3-10 | on every leg a packet tells by itself which request it belongs to and how many legs it has to go |
| Relay.HostSendsNextLeg | udp-router-ebpf/src/main.rs:139-188 | on every leg but the last the host reached sends exactly the packet of the next leg, or drops it; only a router drops, exactly when its cells do not forward the source |
| Relay.EveryRunConserves | udp-router-ebpf/src/main.rs:139-188 | in every run from boot, under any reconfigurations, right or wrong, in flight, received, dropped and lost packets are, request by request, those asked for and those duplicated; so are the legs travelled |
| Relay.ReplyIsTrue | udp-router-server/src/main.rs:7-16 | the reply packet comes from port 8888 of the router asked to the socket asked from, with the address word and all the data up to 1024 bytes together, the first 1024 bytes beyond |
| Relay.EveryReplyAnswersItsRequest | README.md:3-10 | in every run from boot, under any reconfigurations and requests naming any address, everything a client receives is the reply to a request of its own, at its own socket, from the router it asked, with the payload it sent, whole up to 1024 bytes; or, if the request named a client or a second router, that request passed on or bounced |
| Relay.ServerWordMeansReply | README.md:3-10 | what a client receives is a true reply if and only if its address word names a server |
| Relay.AtMostOneReplyPerRequest | README.md:3-10 | in every run without duplication, under any reconfigurations, no request is answered more often than it was made |
| Relay.DuplicatesCanBeAnswered | README.md:3-10 | that condition is needed: from every reachable state in which its way is open a request once duplicated can be answered twice |
| Relay.LossesGoUnanswered | README.md:3-10 | a request lost leaves everything else as it was |
| Relay.OtherPortsSilent | udp-router-server/src/main.rs:7-16 | a server answers what comes to port 8888 and nothing else |
| Relay.NoLoops | udp-router-ebpf/src/main.rs:98-104 | in every run, under any reconfigurations and whatever addresses requests name, there are at most four deliveries for each request and each duplicate |
| Relay.NothingDroppedOnceConfigured | udp-router-ebpf/src/main.rs:34-48 | from the moment every router's cells forward clients and servers and no router, and while they do, no host drops a packet, those already under way included, unless its request names neither a server nor a client |
| Relay.RequestsCanComplete | README.md:3-10 | from every reachable state as many deliveries as it has legs carry a new request to its end, and change nothing else, if the routers on its way forward it; otherwise they carry nothing to a client |
| Relay.WayToServer | udp-router-ebpf/src/main.rs:98-104 | for a request that names a server that is so if and only if its router forwards both the client and the server |
| Deployment.SettingsCanTakeForce | udp-router/src/bpf_actor.rs:22-49 | from every reachable state of a controller any setting can be brought into force: accepted, not overridden since, and followed by an answered statistics query |
| Deployment.WrittenIsSent | udp-router-tool/src/main.rs:44-103 | the network and the octets written on an accepted command line that is not a query are among the requests made |
| Deployment.TypedNetworkInForce | udp-router-tool/src/main.rs:108-122 | the setting that the network written calls for is sent, and once it is in force, whatever was set before it, a UDP frame is forwarded if and only if its source is outside the range written and not link-local |
| Deployment.TypedGatewayInForce | udp-router-tool/src/main.rs:124-137 | the setting that the octets written call for is sent, and once it is in force, whatever was set before it, every forwarded frame is addressed to those octets, from the address it came to |
| Deployment.CommandedRelayAnswers | udp-router-ebpf/src/main.rs:34-48 | the setting that a command writing the routers' subnet calls for is sent; once it is in force at every router's controller, and while only cells are written that hold it, every request that names a server can be carried to its reply from any state the network has reached, and only requests that name neither a server nor a client are dropped |
| Deployment.CommandCanTakeForce | udp-router/src/bpf_actor.rs:22-49 | whatever happened at the controllers and in the network before, every router can be brought to run with a setting in force, nothing in the network changing |
| Deployment.CommandedDeploymentWorks | udp-router-ebpf/src/main.rs:34-48 | from boot some run brings the setting for a written subnet into force at all its routers and carries a request to its reply, all that any client receives |
| Deployment.DocumentedDeploymentWorks | README.md:76-100 | the documented command is accepted and sends its local net, and from boot some run with it in force at the documented router ends in a client of 10.0.1.0/24 receiving the reply of the server in 10.0.3.0/24 it asked |

## Left out

- The packet counters and the sums over CPUs: the program never increments them, so a statistics request is only a request and a reply.
- The comparison of a source with the backend network: it has no caller.
- IP options, fragments and datagrams cut off by the frame: the UDP theorems require their absence, as the code checks none of it. For the IPv4 header `Frames` says what happens with options.
- In `Relay`, datagrams a receiver would discard for a bad checksum, and datagrams shorter than an address word in padded frames; `Frames` covers both. Clients there always send the address word, as the protocol demands.
- Direct pings from client to server, and latency measurement.
- Dead actors and failing map writes: the model's actor lives and its writes succeed, each as one atomic 64-bit store.
- VLAN tags and EtherType values outside the enumeration in `network_types`.
- Loading and attaching the program, sockets, RPC transport, logging, deployment scripts.
