/**
 The pieces put together: a message sent by one client, relayed by the
 server, and received by another client.
 */
module Scenarios {
  import opened Wrappers
  import opened Codec
  import opened Framing
  import opened Relay
  import opened Inbox

  /** The recv outcomes of a peer that reads frame `w` as a 4-byte prefix and then its whole payload, then sees a close. */
  function ReadWhole(w: seq<Byte>): seq<Recv>
    requires |w| >= PrefixSize
  {
    [Data(w[..PrefixSize]), Data(w[PrefixSize..])]
  }

  /** A frame written by SendMessage or Broadcast, read whole, yields exactly the encoded message. */
  lemma FramesOfOuterFrame(buf: seq<Byte>)
    requires 0 < |buf| < TWO32
    ensures Frames(ReadWhole(OuterFrame(buf))) == [Inbound(|buf|, buf)]
  {
    var w := OuterFrame(buf);
    var seg := Segment(buf, [buf]);
    assert Concat([buf]) == buf + Concat([]);
    assert Datas([buf]) == [Data(buf)] + Datas([]);
    assert Chunks(buf, [buf]) == [Data(BE32(|buf|)), Data(buf)];
    assert Stream([seg]) == Chunks(buf, [buf]) + Stream([]);
    OuterFramePrefix(buf);
    assert ReadWhole(w) == Stream([seg]);
    FramesOfStream([seg]);
  }

  /** A peer that reads an encoded message's frame whole decodes exactly that message. */
  lemma PeerDecodes(m: Msg)
    requires |m.payload| < TWO32 - HeaderSize
    ensures Decoded(Frames(ReadWhole(OuterFrame(Encode(m))))) == [m]
  {
    FramesOfOuterFrame(Encode(m));
    DecodeEncode(m, []);
    assert Encode(m) + [] == Encode(m);
    var fs := Frames(ReadWhole(OuterFrame(Encode(m))));
    assert Decoded(fs) == [m] + Decoded([]);
  }

  /** The server relays a frame read whole as one broadcast of the message under the session's id. */
  lemma ServerRelaysOnce(cs: seq<Handler>, origin: Byte, m: Msg)
    requires |m.payload| < TWO32 - HeaderSize
    ensures ForwardAll(cs, origin, Frames(ReadWhole(OuterFrame(Encode(m))))) ==
            Fanout(cs, origin, OuterFrame(Encode(m.(sender := origin))))
  {
    FramesOfOuterFrame(Encode(m));
    DecodeEncode(m, []);
    assert Encode(m) + [] == Encode(m);
    var frames := Frames(ReadWhole(OuterFrame(Encode(m))));
    assert ForwardAll(cs, origin, frames) == Forward(cs, origin, Encode(m)) + ForwardAll(cs, origin, []);
  }

  /**
   End to end: a message sent by a client reaches the server as one
   complete payload; the server writes it to every other client with the
   sender replaced by the session's id; each of those clients decodes
   exactly that message.
   */
  lemma RelayEndToEnd(cs: seq<Handler>, origin: Byte, m: Msg)
    requires |m.payload| < TWO32 - HeaderSize
    ensures var sends := ForwardAll(cs, origin, Frames(ReadWhole(OuterFrame(Encode(m)))));
            && sends == Fanout(cs, origin, OuterFrame(Encode(m.(sender := origin))))
            && forall i :: 0 <= i < |sends| ==>
                 Decoded(Frames(ReadWhole(sends[i].bytes))) == [m.(sender := origin)]
  {
    var m' := m.(sender := origin);
    ServerRelaysOnce(cs, origin, m);
    PeerDecodes(m');
    FanoutExcludes(cs, origin, OuterFrame(Encode(m')));
  }

  /** With exactly two registered clients, what one of them sends is relayed to the other alone. */
  lemma RelayToOnlyPeer(h1: Handler, h2: Handler, m: Msg)
    requires h1.id != h2.id
    requires |m.payload| < TWO32 - HeaderSize
    ensures ForwardAll([h1, h2], h1.id, Frames(ReadWhole(OuterFrame(Encode(m))))) ==
            [Send(h2, OuterFrame(Encode(m.(sender := h1.id))))]
  {
    ServerRelaysOnce([h1, h2], h1.id, m);
    assert Without([h1, h2], h1.id) == [h2] by {
      assert [h1, h2][..1] == [h1];
      assert Without([h1], h1.id) == Without([], h1.id) + [];
    }
  }

  /** A client that receives exactly one decodable Text message queues exactly that message. */
  lemma OneTextQueued(b: Containers, fs: seq<Inbound>, m: Msg)
    requires Decoded(fs) == [m] && m.kind == Text
    ensures TakeAll(b, fs).texts == b.texts + [m]
  {
    TakeAllQueues(b, fs);
    assert OfKind([m], Text) == [m] + OfKind([], Text);
  }

  /**
   Client A (id 1) and client B (id 2) connect; A sends Text "hi"; the
   server writes one frame, to B only, and B's inbox then holds exactly the
   message {Text, sender 1, "hi"}.
   */
  method TwoClientsRelayText()
  {
    var server := new Server();
    var a := server.Accept(100);
    var b := server.Accept(101);
    var alice, bob := Handler(a, 100), Handler(b, 101);
    assert server.clients == [alice, bob] && a == 1 && b == 2;

    var client := new Client();
    var hi := Msg(Text, 0, [104, 105]);
    var wire := client.SendMessage(hi);
    var got := hi.(sender := a);
    RelayToOnlyPeer(alice, bob, hi);
    var sends := server.HandleClient(alice, ReadWhole(wire));
    assert sends == [Send(bob, OuterFrame(Encode(got)))];

    var peer := new Client();
    var ok := peer.ConnectToServer(true);
    var incoming := ReadWhole(sends[0].bytes);
    var empty := peer.Contents();
    PeerDecodes(got);
    OneTextQueued(empty, Frames(incoming), got);
    peer.ReceiveMessages(incoming);
    assert peer.textMessages == [Msg(Text, 1, [104, 105])];
  }

  /** B disconnects; a later broadcast from A to everyone but A reaches no one. */
  method BroadcastAfterDisconnect()
  {
    var server := new Server();
    var a := server.Accept(100);
    var b := server.Accept(101);
    server.Remove(b);
    assert server.clients == [Handler(1, 100)] by {
      var cs := [Handler(1, 100), Handler(2, 101)];
      assert cs[..1] == [Handler(1, 100)];
      assert Without(cs[..1], 2) == Without([], 2) + [Handler(1, 100)];
    }
    var sends := server.Broadcast(Msg(Event, a, [1]), a);
    assert Without(server.clients, a) == Without([], a) + [];
    assert sends == [];
  }
}
