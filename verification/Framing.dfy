/** Stream framing: a run of packets arriving over TCP in any segments is read back packet by packet. */
module Framing {
  import opened Base
  import opened RemainingLength
  import opened PacketIO
  import opened PacketReader
  import opened IPStackModel
  import opened SessionLog
  import opened ClientModel

  /** A packet with the shortest length field that fits a buffer. */
  ghost predicate Minimal(p: Bytes, size: nat) {
    exists h: byte, body: Bytes :: IsPacket(p, h, body, size)
  }

  ghost predicate IsPacket(p: Bytes, h: byte, body: Bytes, size: nat) {
    && |body| <= MAX_REMAINING_LENGTH
    && p == [h] + Encoded(|body|) + body && |p| <= size
  }

  /** What the network still holds begins with the packets. */
  ghost predicate Ahead(stream: Bytes, packets: seq<Bytes>) {
    exists rest: Bytes :: stream == Flatten(packets) + rest
  }

  /** The first packet is read whole, and the others are ahead of what is left. */
  lemma FirstPacket(stream: Bytes, packets: seq<Bytes>, size: nat)
    requires packets != [] && Minimal(packets[0], size) && Ahead(stream, packets)
    ensures var o := ReadOne(stream, size);
            && o == Outcome(TypeOf(packets[0][0]), packets[0], |packets[0]|)
            && |packets[0]| <= |stream| && Ahead(stream[|packets[0]|..], packets[1..])
  {
    var h: byte, body: Bytes :| IsPacket(packets[0], h, body, size);
    var rest: Bytes :| stream == Flatten(packets) + rest;
    var p, more := packets[0], Flatten(packets[1..]) + rest;
    assert stream == p + more;
    ReadOneWhole(h, body, more, size);
    assert p[0] == h;
    assert stream[|p|..] == Flatten(packets[1..]) + rest;
  }

  /** The arrivals of the packets, as they are logged. */
  function Arrivals(packets: seq<Bytes>): Log {
    if packets == [] then [] else [Got(packets[0])] + Arrivals(packets[1..])
  }

  /** One readPacket with the packets ahead takes the first of them, if nothing gets in its way. */
  method ReadFirst(client: Client, ghost packets: seq<Bytes>)
    requires client.Separate() && client.net.Valid() && packets != [] && Minimal(packets[0], client.size)
    modifies client.net, client.net.buffer, client.readbuf, client`log
    ensures client.net.Valid() && old(client.net.lost) <= client.net.lost
    ensures old(client.net.starved) <= client.net.starved
    ensures client.net.lost == old(client.net.lost) && client.net.starved == old(client.net.starved)
            && Ahead(old(client.net.Incoming()), packets) ==>
              && client.log == old(client.log) + [Got(packets[0])]
              && |packets[0]| <= |old(client.net.Incoming())|
              && client.net.Incoming() == old(client.net.Incoming())[|packets[0]|..]
              && Ahead(client.net.Incoming(), packets[1..])
  {
    hide ReadOne, Flatten, Minimal, Ahead;
    ghost var stream := client.net.Incoming();
    if Ahead(stream, packets) {
      FirstPacket(stream, packets, client.size);
    }
    ghost var complete, short;
    var rc;
    rc, complete, short := client.ReadPacket();
  }

  /**
   Repeated readPacket: unless a byte is dropped or a read times out on the way, the packets come in order, each
   exactly as sent, and nothing of what follows them is consumed.
   */
  method ReadSequence(client: Client, packets: seq<Bytes>)
    requires client.Separate() && client.net.Valid()
    requires forall k :: 0 <= k < |packets| ==> Minimal(packets[k], client.size)
    requires Ahead(client.net.Incoming(), packets)
    modifies client.net, client.net.buffer, client.readbuf, client`log
    ensures client.net.Valid()
    ensures client.net.lost == old(client.net.lost) && client.net.starved == old(client.net.starved) ==>
              && client.log == old(client.log) + Arrivals(packets)
              && |Flatten(packets)| <= |old(client.net.Incoming())|
              && client.net.Incoming() == old(client.net.Incoming())[|Flatten(packets)|..]
  {
    hide Flatten, Minimal, Ahead, Arrivals, Ring, Advance, Wrap32;
    ghost var stream, lost0, starved0 := client.net.Incoming(), client.net.lost, client.net.starved;
    ghost var taken: nat := 0;
    assert packets[0..] == packets && stream[0..] == stream;
    for i := 0 to |packets|
      invariant client.net.Valid() && lost0 <= client.net.lost && starved0 <= client.net.starved
      invariant client.net.lost == lost0 && client.net.starved == starved0 ==>
                  && Ahead(client.net.Incoming(), packets[i..])
                  && client.log + Arrivals(packets[i..]) == old(client.log) + Arrivals(packets)
                  && taken + |Flatten(packets[i..])| == |Flatten(packets)|
                  && taken <= |stream| && client.net.Incoming() == stream[taken..]
    {
      ghost var left := packets[i..];
      OneFewer(client.log, left);
      ReadFirst(client, left);
      assert left[1..] == packets[i + 1..];
      if client.net.lost == lost0 && client.net.starved == starved0 {
        Onwards(stream, taken, |packets[i]|);
        taken := taken + |packets[i]|;
      }
    }
    NoneLeft(client.log);
    assert packets[|packets|..] == [];
  }

  lemma Onwards(stream: Bytes, taken: nat, n: nat)
    requires taken <= |stream| && n <= |stream[taken..]|
    ensures taken + n <= |stream| && stream[taken..][n..] == stream[taken + n..]
  {
  }

  lemma OneFewer(log: Log, packets: seq<Bytes>)
    requires packets != []
    ensures |Flatten(packets)| == |packets[0]| + |Flatten(packets[1..])|
    ensures log + Arrivals(packets) == log + [Got(packets[0])] + Arrivals(packets[1..])
  {
  }

  lemma NoneLeft(log: Log)
    ensures Flatten([]) == [] && log + Arrivals([]) == log
  {
  }
}
