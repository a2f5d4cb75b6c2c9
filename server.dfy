/**
 The relay server: the registry of connected clients, the id counter,
 the fan-out of one message to every client but one, and the per-session
 loop that relays each decoded frame under the session's own id.

 The clients mutex only serialises these operations, so they are
 modelled one at a time.
 */
module Relay {
  import opened Wrappers
  import opened Codec
  import opened Framing

  /** A ClientHandler: the id assigned at accept time and the socket to write to. */
  datatype Handler = Handler(id: Byte, socket: int)

  /** One frame written to one client's socket. */
  datatype Send = Send(to: Handler, bytes: seq<Byte>)

  /** The handlers whose id is not k, in their original order (remove_if's survivors). */
  function Without(cs: seq<Handler>, k: Byte): seq<Handler>
    decreases |cs|
  {
    if cs == [] then []
    else Without(cs[..|cs| - 1], k) + (if cs[|cs| - 1].id != k then [cs[|cs| - 1]] else [])
  }

  /** Membership in Without, both directions. */
  lemma {:induction false} WithoutMembers(cs: seq<Handler>, k: Byte)
    ensures forall c :: c in Without(cs, k) <==> c in cs && c.id != k
  {
    if cs != [] {
      WithoutMembers(cs[..|cs| - 1], k);
      assert cs == cs[..|cs| - 1] + [cs[|cs| - 1]];
    }
  }

  /** Filtering distributes over concatenation, so the survivors keep their relative order. */
  lemma {:induction false} WithoutAppend(a: seq<Handler>, b: seq<Handler>, k: Byte)
    ensures Without(a + b, k) == Without(a, k) + Without(b, k)
    decreases |b|
  {
    if b == [] {
      assert a + b == a;
    } else {
      var b' := b[..|b| - 1];
      assert (a + b)[..|a + b| - 1] == a + b';
      WithoutAppend(a, b', k);
    }
  }

  /** Removing an id that no handler has changes nothing. */
  lemma {:induction false} WithoutAbsent(cs: seq<Handler>, k: Byte)
    requires forall i :: 0 <= i < |cs| ==> cs[i].id != k
    ensures Without(cs, k) == cs
  {
    if cs != [] {
      WithoutAbsent(cs[..|cs| - 1], k);
    }
  }

  /** A second removal of the same id is a no-op. */
  lemma WithoutIdempotent(cs: seq<Handler>, k: Byte)
    ensures Without(Without(cs, k), k) == Without(cs, k)
  {
    var w := Without(cs, k);
    WithoutMembers(cs, k);
    assert forall i :: 0 <= i < |w| ==> w[i] in w;
    WithoutAbsent(w, k);
  }

  /** Ids strictly increase along the registry, so no id occurs twice. */
  ghost predicate Increasing(cs: seq<Handler>)
  {
    forall i, j :: 0 <= i < j < |cs| ==> cs[i].id < cs[j].id
  }

  /** No id occurs twice in the registry, in whatever order the ids were issued. */
  ghost predicate DistinctIds(cs: seq<Handler>)
  {
    forall i, j :: 0 <= i < j < |cs| ==> cs[i].id != cs[j].id
  }

  lemma {:induction false} WithoutIncreasing(cs: seq<Handler>, k: Byte)
    requires Increasing(cs)
    ensures Increasing(Without(cs, k))
  {
    if cs != [] {
      var init := cs[..|cs| - 1];
      WithoutIncreasing(init, k);
      WithoutMembers(init, k);
      var w := Without(init, k);
      assert forall i :: 0 <= i < |w| ==> w[i] in init;
    }
  }

  /** With distinct ids, excluding an id that is present leaves exactly one handler fewer. */
  lemma {:induction false} WithoutOnePresent(cs: seq<Handler>, k: Byte)
    requires DistinctIds(cs)
    requires exists i :: 0 <= i < |cs| && cs[i].id == k
    ensures |Without(cs, k)| == |cs| - 1
  {
    var init := cs[..|cs| - 1];
    if cs[|cs| - 1].id == k {
      WithoutAbsent(init, k);
    } else {
      WithoutOnePresent(init, k);
    }
  }

  /** The frames Broadcast writes: one copy of `frame` per handler whose id differs from the excluded one. */
  function Fanout(cs: seq<Handler>, excludeID: Byte, frame: seq<Byte>): (sends: seq<Send>)
  {
    var to := Without(cs, excludeID);
    seq(|to|, i requires 0 <= i < |to| => Send(to[i], frame))
  }

  /** Broadcast exclusion: no copy goes to the excluded id, every other handler gets exactly the frame, in registry order. */
  lemma FanoutExcludes(cs: seq<Handler>, excludeID: Byte, frame: seq<Byte>)
    ensures var sends := Fanout(cs, excludeID, frame);
            && (forall i :: 0 <= i < |sends| ==> sends[i].to.id != excludeID && sends[i].to in cs && sends[i].bytes == frame)
            && (forall c :: c in cs && c.id != excludeID ==> exists i :: 0 <= i < |sends| && sends[i].to == c)
  {
    var to := Without(cs, excludeID);
    WithoutMembers(cs, excludeID);
    var sends := Fanout(cs, excludeID, frame);
    forall c | c in cs && c.id != excludeID
      ensures exists i :: 0 <= i < |sends| && sends[i].to == c
    {
      assert c in to;
      var i :| 0 <= i < |to| && to[i] == c;
      assert sends[i].to == c;
    }
    forall i | 0 <= i < |sends|
      ensures sends[i].to.id != excludeID && sends[i].to in cs
    {
      assert sends[i].to == to[i] && to[i] in to;
    }
  }

  /** With distinct ids and the originator registered, a broadcast writes N - 1 copies. */
  lemma FanoutCount(cs: seq<Handler>, origin: Handler, frame: seq<Byte>)
    requires DistinctIds(cs) && origin in cs
    ensures |Fanout(cs, origin.id, frame)| == |cs| - 1
  {
    WithoutOnePresent(cs, origin.id);
  }

  /**
   What the per-session step writes for one received payload: nothing when
   it does not decode, otherwise the decoded message, with its sender
   overwritten by the session's id, broadcast to every other client.
   */
  function Forward(cs: seq<Handler>, clientID: Byte, buffer: seq<Byte>): seq<Send>
  {
    match Decode(buffer)
    case None => []
    case Some(msg) => Fanout(cs, clientID, OuterFrame(Encode(msg.(sender := clientID))))
  }

  /**
   Every forwarded frame carries the session's id, not the self-reported
   one: its payload decodes to the received message with sender := clientID,
   and no copy goes back to the session itself.
   */
  lemma ForwardCarriesSessionId(cs: seq<Handler>, clientID: Byte, buffer: seq<Byte>)
    requires Decode(buffer).Some?
    ensures var msg := Decode(buffer).value;
            var sends := Forward(cs, clientID, buffer);
            forall i :: 0 <= i < |sends| ==>
              && sends[i].to.id != clientID
              && Decode(sends[i].bytes[PrefixSize..]) == Some(Msg(msg.kind, clientID, msg.payload))
  {
    var msg := Decode(buffer).value;
    var m' := msg.(sender := clientID);
    EncodeDecode(buffer);
    DecodeEncode(m', []);
    assert Encode(m') + [] == Encode(m');
    FanoutExcludes(cs, clientID, OuterFrame(Encode(m')));
  }

  /** All the frames a session writes, one received payload after another. */
  function ForwardAll(cs: seq<Handler>, clientID: Byte, frames: seq<Inbound>): seq<Send>
  {
    if frames == [] then [] else Forward(cs, clientID, frames[0].buf) + ForwardAll(cs, clientID, frames[1..])
  }

  /** Malformed payloads are dropped: they add nothing to what a session writes. */
  lemma {:induction false} ForwardAllDropsMalformed(cs: seq<Handler>, clientID: Byte, frames: seq<Inbound>)
    requires forall k :: 0 <= k < |frames| ==> Decode(frames[k].buf).None?
    ensures ForwardAll(cs, clientID, frames) == []
  {
    if frames != [] {
      ForwardAllDropsMalformed(cs, clientID, frames[1..]);
    }
  }

  class Server {
    /** The registered handlers, in accept order. */
    var clients: seq<Handler>
    /** The next id to hand out: a uint8_t, so it wraps at 256. */
    var nextClientID: Byte
    /** How many connections have been accepted. */
    ghost var issued: nat

    /**
     The counter is 1 plus the number of ids issued, modulo 256. While fewer
     than 256 ids have been issued, every registered id lies in 1..issued
     and no id occurs twice.
     */
    ghost predicate Valid()
      reads this
    {
      && nextClientID == (1 + issued) % 256
      && (issued < 256 ==> Increasing(clients) && forall i :: 0 <= i < |clients| ==> 1 <= clients[i].id <= issued)
    }

    /** nextClientID starts at 1; no client is registered. */
    constructor ()
      ensures Valid()
      ensures clients == [] && nextClientID == 1 && issued == 0
    {
      clients := [];
      nextClientID := 1;
      issued := 0;
    }

    /**
     acceptClients for one accepted socket: take the counter's value as the
     new id, post-increment it modulo 256, and append exactly one handler.
     While fewer than 255 ids have been issued, the id is new and never 0.
     */
    method Accept(socket: int) returns (clientID: Byte)
      requires Valid()
      modifies this
      ensures Valid()
      ensures clientID == old(nextClientID)
      ensures nextClientID == (old(nextClientID) + 1) % 256
      ensures clients == old(clients) + [Handler(clientID, socket)]
      ensures issued == old(issued) + 1
      ensures old(issued) < 255 ==> clientID == old(issued) + 1 && clientID != 0
      ensures old(issued) < 256 ==> forall i :: 0 <= i < |old(clients)| ==> old(clients)[i].id != clientID
    {
      clientID := nextClientID;
      nextClientID := (nextClientID + 1) % 256;
      clients := clients + [Handler(clientID, socket)];
      issued := issued + 1;
    }

    /**
     The removal at the end of handleClient: erase(remove_if(...)) keeps
     every handler whose id differs, in order, and drops every one that matches.
     */
    method Remove(clientID: Byte)
      requires Valid()
      modifies this`clients
      ensures Valid()
      ensures clients == Without(old(clients), clientID)
    {
      var kept: seq<Handler> := [];
      var i := 0;
      while i < |clients|
        invariant 0 <= i <= |clients|
        invariant kept == Without(clients[..i], clientID)
      {
        assert clients[..i + 1][..i] == clients[..i];
        if clients[i].id != clientID {
          kept := kept + [clients[i]];
        }
        i := i + 1;
      }
      assert clients[..i] == clients;
      WithoutMembers(clients, clientID);
      if issued < 256 {
        WithoutIncreasing(clients, clientID);
        assert forall j :: 0 <= j < |kept| ==> kept[j] in clients;
      }
      clients := kept;
    }

    /**
     broadcastMessage: serialise the message once, then write the frame
     BE32(|buffer|) ++ buffer to every handler whose id differs from
     excludeID, in registry order.
     */
    method Broadcast(msg: Msg, excludeID: Byte) returns (sends: seq<Send>)
      ensures sends == Fanout(clients, excludeID, OuterFrame(Encode(msg)))
    {
      var buffer := Serialize(msg, []);
      assert buffer == Encode(msg);
      var frame := OuterFrame(buffer);
      sends := [];
      var i := 0;
      while i < |clients|
        invariant 0 <= i <= |clients|
        invariant sends == Fanout(clients[..i], excludeID, frame)
      {
        assert clients[..i + 1][..i] == clients[..i];
        if clients[i].id != excludeID {
          sends := sends + [Send(clients[i], frame)];
        }
        i := i + 1;
      }
      assert clients[..i] == clients;
    }

    /**
     One pass of handleClient after a complete payload: decode it; drop it
     if malformed; otherwise overwrite the sender with the session's id and
     broadcast it to everyone but the session.
     */
    method RelayFrame(clientID: Byte, buffer: seq<Byte>) returns (sends: seq<Send>)
      ensures sends == Forward(clients, clientID, buffer)
      ensures Decode(buffer).None? ==> sends == []
    {
      var msg := Decode(buffer);
      sends := [];
      if msg.Some? {
        var m := msg.value.(sender := clientID);
        sends := Broadcast(m, clientID);
      }
    }

    /**
     handleClient: receive frames until a recv ends the session, relaying
     each complete payload, then remove the session's id from the registry.
     */
    method HandleClient(handler: Handler, s: seq<Recv>) returns (sends: seq<Send>)
      requires Valid()
      modifies this`clients
      ensures Valid()
      ensures sends == ForwardAll(old(clients), handler.id, Frames(s))
      ensures clients == Without(old(clients), handler.id)
    {
      var clientID := handler.id;
      sends := [];
      var pos := 0;
      while true
        invariant 0 <= pos <= |s|
        invariant clients == old(clients)
        invariant ForwardAll(clients, clientID, Frames(s)) == sends + ForwardAll(clients, clientID, Frames(s[pos..]))
        decreases |s| - pos
      {
        var frame, next := ReadFrame(s, pos);
        if frame.None? {
          break;
        }
        var more := RelayFrame(clientID, frame.value.buf);
        sends := sends + more;
        pos := next;
      }
      Remove(clientID);
    }
  }
}
