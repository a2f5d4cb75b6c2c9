/**
 The client: framing of outgoing messages, the receive loop that sorts
 each decoded message into the inbox, and the pass that drains the inbox.
 Text and Event messages queue in arrival order; Snapshots are kept per
 sender, the latest one replacing any earlier one.
 */
module Inbox {
  import opened Wrappers
  import opened Sequences
  import opened Codec
  import opened Framing

  /** The three message containers of a Client, as one value. */
  datatype Containers = Containers(texts: seq<Msg>, events: seq<Msg>, snapshots: map<Byte, Msg>)

  /** Each container holds only its own kind, and a snapshot is filed under its sender's id. */
  ghost predicate WellFormed(b: Containers)
  {
    && (forall i :: 0 <= i < |b.texts| ==> b.texts[i].kind == Text)
    && (forall i :: 0 <= i < |b.events| ==> b.events[i].kind == Event)
    && (forall k :: k in b.snapshots ==> b.snapshots[k].kind == Snapshot && b.snapshots[k].sender == k)
  }

  /** sortMessageByType on the inbox value. */
  function Sort(b: Containers, m: Msg): Containers
  {
    match m.kind
    case Text => b.(texts := b.texts + [m])
    case Event => b.(events := b.events + [m])
    case Snapshot => b.(snapshots := b.snapshots[m.sender := m])
  }

  /** A received payload: sorted when it decodes, ignored when it does not. */
  function Take(b: Containers, f: Inbound): Containers
  {
    match Decode(f.buf)
    case None => b
    case Some(m) => Sort(b, m)
  }

  /** The inbox after a sequence of received payloads, in arrival order. */
  function TakeAll(b: Containers, fs: seq<Inbound>): Containers
    decreases |fs|
  {
    if fs == [] then b else TakeAll(Take(b, fs[0]), fs[1..])
  }

  /** The messages that decode, in order. */
  function Decoded(fs: seq<Inbound>): seq<Msg>
  {
    if fs == [] then []
    else (match Decode(fs[0].buf) case None => [] case Some(m) => [m]) + Decoded(fs[1..])
  }

  /** The messages of one kind, in order. */
  function OfKind(ms: seq<Msg>, k: Kind): seq<Msg>
  {
    if ms == [] then [] else (if ms[0].kind == k then [ms[0]] else []) + OfKind(ms[1..], k)
  }

  /** The last snapshot from a sender in a sequence of messages, if any. */
  function LastSnapshot(ms: seq<Msg>, sender: Byte): Option<Msg>
    decreases |ms|
  {
    if ms == [] then None
    else
      var m := ms[|ms| - 1];
      if m.kind == Snapshot && m.sender == sender then Some(m) else LastSnapshot(ms[..|ms| - 1], sender)
  }

  /** Sorting keeps the inbox well formed. */
  lemma SortWellFormed(b: Containers, m: Msg)
    requires WellFormed(b)
    ensures WellFormed(Sort(b, m))
  {
  }

  /**
   After any sequence of received payloads: the text and event queues are
   the old ones followed by the decoded messages of that kind in arrival
   order; the snapshot of each sender is the last one received from it, or
   the earlier one if none was received. Malformed payloads leave no trace.
   */
  lemma TakeAllContents(b: Containers, fs: seq<Inbound>)
    ensures var r := TakeAll(b, fs);
            && r.texts == b.texts + OfKind(Decoded(fs), Text)
            && r.events == b.events + OfKind(Decoded(fs), Event)
            && (forall k: Byte :: k in r.snapshots <==> k in b.snapshots || LastSnapshot(Decoded(fs), k).Some?)
            && (forall k: Byte :: k in r.snapshots ==>
                  r.snapshots[k] == (match LastSnapshot(Decoded(fs), k) case Some(m) => m case None => b.snapshots[k]))
  {
    TakeAllQueues(b, fs);
    TakeAllSnapshots(b, fs);
  }

  /** The queue half of TakeAllContents. */
  lemma {:induction false} TakeAllQueues(b: Containers, fs: seq<Inbound>)
    ensures TakeAll(b, fs).texts == b.texts + OfKind(Decoded(fs), Text)
    ensures TakeAll(b, fs).events == b.events + OfKind(Decoded(fs), Event)
    decreases |fs|
  {
    if fs != [] {
      TakeAllQueues(Take(b, fs[0]), fs[1..]);
      var d := Decoded(fs[1..]);
      match Decode(fs[0].buf)
      case None =>
        assert Decoded(fs) == d;
      case Some(m) =>
        assert Decoded(fs) == [m] + d;
        var b' := Take(b, fs[0]);
        OfKindAppend([m], d, Text);
        OfKindAppend([m], d, Event);
        assert b'.texts == b.texts + OfKind([m], Text);
        assert b'.events == b.events + OfKind([m], Event);
        AppendAssoc(b.texts, OfKind([m], Text), OfKind(d, Text));
        AppendAssoc(b.events, OfKind([m], Event), OfKind(d, Event));
    }
  }

  /** The snapshot half of TakeAllContents. */
  lemma {:induction false} TakeAllSnapshots(b: Containers, fs: seq<Inbound>)
    ensures var r := TakeAll(b, fs).snapshots;
            && (forall k: Byte :: k in r <==> k in b.snapshots || LastSnapshot(Decoded(fs), k).Some?)
            && (forall k: Byte :: k in r ==>
                  r[k] == (match LastSnapshot(Decoded(fs), k) case Some(m) => m case None => b.snapshots[k]))
    decreases |fs|
  {
    if fs != [] {
      TakeAllSnapshots(Take(b, fs[0]), fs[1..]);
      var d := Decoded(fs[1..]);
      match Decode(fs[0].buf)
      case None =>
        assert Decoded(fs) == d;
      case Some(m) =>
        assert Decoded(fs) == [m] + d;
        forall k: Byte
          ensures LastSnapshot([m] + d, k) ==
                  (match LastSnapshot(d, k) case Some(x) => Some(x) case None =>
                    if m.kind == Snapshot && m.sender == k then Some(m) else None)
        {
          LastSnapshotAppend([m], d, k);
        }
    }
  }

  lemma {:induction false} OfKindAppend(a: seq<Msg>, b: seq<Msg>, k: Kind)
    ensures OfKind(a + b, k) == OfKind(a, k) + OfKind(b, k)
  {
    if a == [] {
      assert a + b == b;
    } else {
      assert (a + b)[0] == a[0];
      assert (a + b)[1..] == a[1..] + b;
      OfKindAppend(a[1..], b, k);
    }
  }

  lemma {:induction false} LastSnapshotAppend(a: seq<Msg>, b: seq<Msg>, sender: Byte)
    ensures LastSnapshot(a + b, sender) ==
            (match LastSnapshot(b, sender) case Some(x) => Some(x) case None => LastSnapshot(a, sender))
    decreases |b|
  {
    if b == [] {
      assert a + b == a;
    } else {
      assert (a + b)[..|a + b| - 1] == a + b[..|b| - 1];
      LastSnapshotAppend(a, b[..|b| - 1], sender);
    }
  }

  class Client {
    var textMessages: seq<Msg>
    var eventMessages: seq<Msg>
    var snapshotMessages: map<Byte, Msg>
    var isConnected: bool

    function Contents(): Containers
      reads this
    {
      Containers(textMessages, eventMessages, snapshotMessages)
    }

    ghost predicate Valid()
      reads this
    {
      WellFormed(Contents())
    }

    /** A client starts disconnected with empty containers. */
    constructor ()
      ensures Valid() && !isConnected
      ensures textMessages == [] && eventMessages == [] && snapshotMessages == map[]
    {
      textMessages, eventMessages, snapshotMessages := [], [], map[];
      isConnected := false;
    }

    /** connectToServer, given whether the socket calls succeeded: only the flag is modelled. */
    method ConnectToServer(connected: bool) returns (ok: bool)
      modifies this`isConnected
      ensures ok == connected
      ensures isConnected == (old(isConnected) || connected)
    {
      if !connected {
        return false;
      }
      isConnected := true;
      return true;
    }

    /** disconnect: clears the connection flag (closing the socket is not modelled). */
    method Disconnect()
      modifies this`isConnected
      ensures !isConnected
    {
      isConnected := false;
    }

    /**
     sendMessage: the bytes written to the server, the 4-byte big-endian
     length of the encoded message and then the encoded message itself.
     */
    method SendMessage(msg: Msg) returns (written: seq<Byte>)
      ensures written == OuterFrame(Encode(msg))
      ensures |written| == PrefixSize + HeaderSize + |msg.payload|
      ensures BE32Value(written[..PrefixSize]) == (HeaderSize + |msg.payload|) % TWO32
      ensures written[PrefixSize..] == Encode(msg)
    {
      var buffer := Serialize(msg, []);
      assert buffer == Encode(msg);
      var msgSize := BE32(|buffer| % TWO32);
      written := msgSize + buffer;
    }

    /**
     sortMessageByType: a Text or Event message goes to the end of its
     queue; a Snapshot replaces whatever its sender sent before. Nothing
     else changes.
     */
    method SortMessageByType(msg: Msg)
      requires Valid()
      modifies this`textMessages, this`eventMessages, this`snapshotMessages
      ensures Valid()
      ensures Contents() == Sort(old(Contents()), msg)
      ensures msg.kind == Text ==>
                textMessages == old(textMessages) + [msg] &&
                eventMessages == old(eventMessages) && snapshotMessages == old(snapshotMessages)
      ensures msg.kind == Event ==>
                eventMessages == old(eventMessages) + [msg] &&
                textMessages == old(textMessages) && snapshotMessages == old(snapshotMessages)
      ensures msg.kind == Snapshot ==>
                snapshotMessages == old(snapshotMessages)[msg.sender := msg] &&
                textMessages == old(textMessages) && eventMessages == old(eventMessages)
    {
      match msg.kind {
        case Text =>
          textMessages := textMessages + [msg];
        case Event =>
          eventMessages := eventMessages + [msg];
        case Snapshot =>
          snapshotMessages := snapshotMessages[msg.sender := msg];
      }
    }

    /**
     receiveMessages: while connected, read frames and sort each one that
     decodes; a malformed frame is dropped and reading goes on. The first
     recv that returns 0 or less ends the loop, and the client disconnects.
     */
    method ReceiveMessages(s: seq<Recv>)
      requires Valid()
      modifies this
      ensures Valid() && !isConnected
      ensures Contents() == if old(isConnected) then TakeAll(old(Contents()), Frames(s)) else old(Contents())
    {
      var pos := 0;
      while isConnected
        invariant 0 <= pos <= |s|
        invariant Valid()
        invariant isConnected == old(isConnected)
        invariant isConnected ==> TakeAll(old(Contents()), Frames(s)) == TakeAll(Contents(), Frames(s[pos..]))
        invariant !isConnected ==> Contents() == old(Contents())
        decreases |s| - pos
      {
        var frame, next := ReadFrame(s, pos);
        if frame.None? {
          break;
        }
        var msg := Decode(frame.value.buf);
        if msg.Some? {
          SortWellFormed(Contents(), msg.value);
          SortMessageByType(msg.value);
        }
        pos := next;
      }
      Disconnect();
    }

    /**
     One locked pass of processMessages: handle and erase every text
     message in arrival order, then every event, then every snapshot in
     the map's (ascending) key order. Returns what was handled: each stored
     snapshot exactly once, senders strictly ascending. All three containers
     end empty.
     */
    method ProcessMessages() returns (texts: seq<Msg>, events: seq<Msg>, snapshots: seq<Msg>)
      requires Valid()
      modifies this`textMessages, this`eventMessages, this`snapshotMessages
      ensures Valid()
      ensures texts == old(textMessages) && events == old(eventMessages)
      ensures forall i :: 0 <= i < |snapshots| ==>
                snapshots[i].sender in old(snapshotMessages) && old(snapshotMessages)[snapshots[i].sender] == snapshots[i]
      ensures forall k :: k in old(snapshotMessages) ==> old(snapshotMessages)[k] in snapshots
      ensures forall i, j :: 0 <= i < j < |snapshots| ==> snapshots[i].sender < snapshots[j].sender
      ensures textMessages == [] && eventMessages == [] && snapshotMessages == map[]
    {
      texts := DrainTexts();
      events := DrainEvents();
      snapshots := DrainSnapshots();
    }

    /** The first loop of the pass: every text message is handled in arrival order and erased. */
    method DrainTexts() returns (texts: seq<Msg>)
      modifies this`textMessages
      ensures texts == old(textMessages) && textMessages == []
    {
      texts := [];
      while textMessages != []
        invariant texts + textMessages == old(textMessages)
        decreases |textMessages|
      {
        assert textMessages == [textMessages[0]] + textMessages[1..];
        AppendAssoc(texts, [textMessages[0]], textMessages[1..]);
        texts := texts + [textMessages[0]];
        textMessages := textMessages[1..];
      }
    }

    /** The second loop: every event message is handled in arrival order and erased. */
    method DrainEvents() returns (events: seq<Msg>)
      modifies this`eventMessages
      ensures events == old(eventMessages) && eventMessages == []
    {
      events := [];
      while eventMessages != []
        invariant events + eventMessages == old(eventMessages)
        decreases |eventMessages|
      {
        assert eventMessages == [eventMessages[0]] + eventMessages[1..];
        AppendAssoc(events, [eventMessages[0]], eventMessages[1..]);
        events := events + [eventMessages[0]];
        eventMessages := eventMessages[1..];
      }
    }

    /**
     The third loop: the map is walked in ascending key order, each entry
     handled and erased; the walk is modelled as a scan of the 256 possible
     sender ids.
     */
    method DrainSnapshots() returns (snapshots: seq<Msg>)
      requires forall k :: k in snapshotMessages ==> snapshotMessages[k].sender == k
      modifies this`snapshotMessages
      ensures forall i :: 0 <= i < |snapshots| ==>
                snapshots[i].sender in old(snapshotMessages) && old(snapshotMessages)[snapshots[i].sender] == snapshots[i]
      ensures forall k :: k in old(snapshotMessages) ==> old(snapshotMessages)[k] in snapshots
      ensures forall i, j :: 0 <= i < j < |snapshots| ==> snapshots[i].sender < snapshots[j].sender
      ensures snapshotMessages == map[]
    {
      snapshots := [];
      ghost var stored := snapshotMessages;
      var key: nat := 0;
      while key < 256
        invariant 0 <= key <= 256
        invariant forall k :: k in snapshotMessages <==> k in stored && key <= k
        invariant forall k :: k in snapshotMessages ==> snapshotMessages[k] == stored[k]
        invariant forall i :: 0 <= i < |snapshots| ==>
                    snapshots[i].sender < key && snapshots[i].sender in stored && stored[snapshots[i].sender] == snapshots[i]
        invariant forall k :: k in stored && k < key ==> stored[k] in snapshots
        invariant forall i, j :: 0 <= i < j < |snapshots| ==> snapshots[i].sender < snapshots[j].sender
      {
        var k := key as Byte;
        if k in snapshotMessages {
          snapshots := snapshots + [snapshotMessages[k]];
          snapshotMessages := snapshotMessages - {k};
        }
        key := key + 1;
      }
      assert snapshotMessages.Keys == {};
    }
  }
}
