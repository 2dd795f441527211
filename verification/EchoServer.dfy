/** The echo server: one buffer, overwritten by every datagram. */
module EchoServer {
  import opened Words
  import opened Relay

  class EchoServer {
    const buf: array<u8>

    constructor ()
      ensures fresh(buf) && buf.Length == BUFFER
    {
      buf := new u8[BUFFER](i => 0);
    }

    /** `recv_from`: the datagram lands at the front of the buffer, what does not fit is cut
        off and the rest of the buffer keeps its stale bytes. */
    method RecvFrom(datagram: seq<u8>) returns (len: nat)
      requires buf.Length == BUFFER
      modifies buf
      ensures len == Min(|datagram|, 1024)
      ensures buf[..len] == datagram[..len] && buf[len..] == old(buf[len..])
    {
      len := Min(|datagram|, buf.Length);
      for i := 0 to len
        invariant forall j :: 0 <= j < i ==> buf[j] == datagram[j]
        invariant forall j :: i <= j < buf.Length ==> buf[j] == old(buf[j])
      {
        buf[i] := datagram[i];
      }
    }

    /** Receive and answer in a loop. Each answer is the echo of its own datagram, free of
        whatever earlier, longer ones left in the buffer. */
    method Serve(incoming: seq<Packet>) returns (replies: seq<Packet>)
      requires buf.Length == BUFFER
      modifies buf
      ensures |replies| == |incoming|
      ensures forall i :: 0 <= i < |incoming| ==> replies[i] == Echo(incoming[i])
      ensures forall i :: 0 <= i < |incoming| ==>
        && |replies[i].payload| == Min(|incoming[i].payload|, 1024)
        && replies[i].payload <= incoming[i].payload
        && replies[i].dst == incoming[i].src && replies[i].dport == incoming[i].sport
        && replies[i].src == incoming[i].dst && replies[i].sport == incoming[i].dport
    {
      replies := [];
      for i := 0 to |incoming|
        invariant |replies| == i
        invariant forall j :: 0 <= j < i ==> replies[j] == Echo(incoming[j])
      {
        var p := incoming[i];
        var len := RecvFrom(p.payload);
        replies := replies + [Packet(p.dst, p.dport, p.src, p.sport, buf[..len])];
      }
    }
  }
}
