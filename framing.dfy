/**
 Receiving frames: the loop shared by Client::receiveMessages and
 Server::handleClient. Each pass reads the 4-byte outer length, then
 accumulates recv chunks into a buffer of that size until it is full;
 any recv that returns 0 or less ends the session.

 A connection is modelled by the sequence of outcomes its recv calls
 return; a sequence that runs out behaves like a peer that closed.
 */
module Framing {
  import opened Wrappers
  import opened Sequences
  import opened Codec

  /** The outcome of one recv: the bytes it delivered, or an error (-1). */
  datatype Recv = Data(bytes: seq<Byte>) | Fail

  /** recv's return value: the number of bytes delivered, 0 on close, -1 on error. */
  function Count(r: Recv): int
  {
    if r.Fail? then -1 else |r.bytes|
  }

  /** The source's test `bytesReceived <= 0`. */
  predicate Ended(r: Recv)
  {
    Count(r) <= 0
  }

  function Min(a: int, b: int): int
  {
    if a <= b then a else b
  }

  /**
   The value of the length prefix. The prefix read is taken as atomic: the
   first four bytes delivered, big-endian; a read cut short is padded with
   zero bytes (the source would read uninitialised memory there).
   */
  function PrefixValue(b: seq<Byte>): (n: nat)
    ensures n < TWO32
    ensures |b| == PrefixSize ==> n == BE32Value(b)
  {
    assert |b| == PrefixSize ==> (b + [0, 0, 0, 0])[..PrefixSize] == b;
    BE32Value((b + [0, 0, 0, 0])[..PrefixSize])
  }

  /** The result of accumulating a payload: the full buffer and the unread outcomes, or a broken read. */
  datatype Filled = Complete(buf: seq<Byte>, rest: seq<Recv>) | Broken

  /**
   The inner loop: starting from the bytes `acc` already received, recv
   `want - |acc|` more bytes at a time until the buffer holds `want` bytes;
   a recv never delivers more than it was asked for.
   */
  function Fill(s: seq<Recv>, want: nat, acc: seq<Byte>): (r: Filled)
    requires |acc| <= want
    ensures r.Complete? ==> |r.buf| == want && |r.rest| <= |s|
    decreases |s|
  {
    if |acc| == want then Complete(acc, s)
    else if |s| == 0 || Ended(s[0]) then Broken
    else
      var take := Min(|s[0].bytes|, want - |acc|);
      var r := Fill(s[1..], want, acc + s[0].bytes[..take]);
      r
  }

  /** What the inner loop completes starts with the bytes it already had: received bytes are never overwritten. */
  lemma {:induction false} FillExtends(s: seq<Recv>, want: nat, acc: seq<Byte>)
    requires |acc| <= want
    ensures Fill(s, want, acc).Complete? ==> Fill(s, want, acc).buf[..|acc|] == acc
    decreases |s|
  {
    if |acc| < want && |s| > 0 && !Ended(s[0]) {
      var next := acc + s[0].bytes[..Min(|s[0].bytes|, want - |acc|)];
      FillExtends(s[1..], want, next);
      if Fill(s, want, acc).Complete? {
        assert Fill(s, want, acc).buf[..|next|][..|acc|] == next[..|acc|];
      }
    }
  }

  /** A payload handed to Decode, with the length its prefix declared. */
  datatype Inbound = Inbound(declared: nat, buf: seq<Byte>)

  datatype Received = Received(frame: Inbound, rest: seq<Recv>)

  /** One pass of the receive loop: the prefix read, then Fill. */
  function NextFrame(s: seq<Recv>): (r: Option<Received>)
    ensures r.Some? ==> |r.value.frame.buf| == r.value.frame.declared < TWO32
    ensures r.Some? ==> |r.value.rest| < |s|
  {
    if |s| == 0 || Ended(s[0]) then None
    else
      var msgSize := PrefixValue(s[0].bytes);
      match Fill(s[1..], msgSize, [])
      case Broken => None
      case Complete(buf, rest) => Some(Received(Inbound(msgSize, buf), rest))
  }

  /**
   Every payload the loop hands to Decode, in arrival order, until a recv
   ends the session. Each one is complete: it has exactly the length its
   prefix declared.
   */
  function Frames(s: seq<Recv>): (fs: seq<Inbound>)
    ensures forall k :: 0 <= k < |fs| ==> |fs[k].buf| == fs[k].declared
    decreases |s|
  {
    match NextFrame(s)
    case None => []
    case Some(r) => [r.frame] + Frames(r.rest)
  }

  /**
   One pass of the loop as the source writes it: the prefix recv, then a
   buffer of msgSize bytes filled by FillBuffer. Returns the payload handed
   to Decode and the position of the next unread outcome, or None when the
   session ends in this pass.
   */
  method ReadFrame(s: seq<Recv>, pos: nat) returns (frame: Option<Inbound>, next: nat)
    requires pos <= |s|
    ensures NextFrame(s[pos..]).None? ==> frame.None?
    ensures NextFrame(s[pos..]).Some? ==>
              && pos < next <= |s|
              && frame == Some(NextFrame(s[pos..]).value.frame)
              && s[next..] == NextFrame(s[pos..]).value.rest
  {
    frame, next := None, pos;
    var bytesReceived := if pos < |s| then Count(s[pos]) else 0;
    if bytesReceived <= 0 {
      return;
    }
    var msgSize := PrefixValue(s[pos].bytes);
    var buffer := new Byte[msgSize];
    var complete, i := FillBuffer(s, pos + 1, buffer);
    if !complete {
      return;
    }
    frame, next := Some(Inbound(msgSize, buffer[..])), i;
  }

  /**
   The inner loop as the source writes it: recv into the buffer at offset
   totalReceived, asking for the bytes still missing, until the buffer is
   full or a recv returns 0 or less. Reports whether the buffer was filled,
   and where reading stopped.
   */
  method FillBuffer(s: seq<Recv>, start: nat, buffer: array<Byte>) returns (complete: bool, next: nat)
    requires start <= |s|
    modifies buffer
    ensures complete == Fill(s[start..], buffer.Length, []).Complete?
    ensures complete ==> && start <= next <= |s|
                         && buffer[..] == Fill(s[start..], buffer.Length, []).buf
                         && s[next..] == Fill(s[start..], buffer.Length, []).rest
  {
    var msgSize := buffer.Length;
    var totalReceived := 0;
    var i := start;
    ghost var got: seq<Byte> := [];
    while totalReceived < msgSize
      invariant start <= i <= |s|
      invariant totalReceived == |got| <= msgSize
      invariant buffer[..totalReceived] == got
      invariant Fill(s[start..], msgSize, []) == Fill(s[i..], msgSize, got)
      decreases msgSize - totalReceived
    {
      var bytesReceived := if i < |s| then Count(s[i]) else 0;
      if bytesReceived <= 0 {
        FillEnded(s, i, msgSize, got);
        return false, i;
      }
      var chunk := s[i].bytes;
      bytesReceived := Min(bytesReceived, msgSize - totalReceived);
      var upto := totalReceived + bytesReceived;
      CopyInto(buffer, totalReceived, chunk, bytesReceived);
      FillAt(s, i, msgSize, got);
      got := got + chunk[..bytesReceived];
      totalReceived := upto;
      i := i + 1;
    }
    assert buffer[..] == got;
    return true, i;
  }

  /** What recv does with the bytes it delivers: it writes the first n of them into the buffer at the offset. */
  method CopyInto(buffer: array<Byte>, offset: nat, chunk: seq<Byte>, n: nat)
    requires offset + n <= buffer.Length && n <= |chunk|
    modifies buffer
    ensures buffer[..offset + n] == old(buffer[..offset]) + chunk[..n]
    ensures buffer[offset + n..] == old(buffer[offset + n..])
  {
    forall k | 0 <= k < n {
      buffer[offset + k] := chunk[k];
    }
    assert buffer[..offset] == old(buffer[..offset]);
    assert buffer[offset..offset + n] == chunk[..n];
    assert buffer[..offset + n] == buffer[..offset] + buffer[offset..offset + n];
  }

  /** Outcomes of the recv calls that carry one frame: the 4-byte prefix in one read, the payload in the given pieces. */
  function Chunks(payload: seq<Byte>, pieces: seq<seq<Byte>>): seq<Recv>
    requires |payload| < TWO32
  {
    [Data(BE32(|payload|))] + Datas(pieces)
  }

  function Datas(pieces: seq<seq<Byte>>): (rs: seq<Recv>)
    ensures |rs| == |pieces|
  {
    if pieces == [] then [] else [Data(pieces[0])] + Datas(pieces[1..])
  }

  function Concat(pieces: seq<seq<Byte>>): seq<Byte>
  {
    if pieces == [] then [] else pieces[0] + Concat(pieces[1..])
  }

  /** How the payload of one frame may reach recv: split into non-empty pieces. */
  predicate SplitOf(payload: seq<Byte>, pieces: seq<seq<Byte>>)
  {
    && Concat(pieces) == payload
    && forall k :: 0 <= k < |pieces| ==> |pieces[k]| > 0
  }

  /** One step of the inner loop: a recv that delivers bytes adds at most the missing number of them. */
  lemma FillStep(s: seq<Recv>, want: nat, acc: seq<Byte>)
    requires |acc| < want && |s| > 0 && !Ended(s[0])
    ensures Fill(s, want, acc) == Fill(s[1..], want, acc + s[0].bytes[..Min(|s[0].bytes|, want - |acc|)])
  {
  }

  /** FillStep on the outcomes from index i on. */
  lemma FillAt(s: seq<Recv>, i: nat, want: nat, acc: seq<Byte>)
    requires i < |s| && !Ended(s[i]) && |acc| < want
    ensures Fill(s[i..], want, acc) == Fill(s[i + 1..], want, acc + s[i].bytes[..Min(|s[i].bytes|, want - |acc|)])
  {
    assert s[i..][0] == s[i];
    assert s[i..][1..] == s[i + 1..];
    FillStep(s[i..], want, acc);
  }

  /** A recv at index i that returns 0 or less, or no recv left, breaks an unfinished fill. */
  lemma FillEnded(s: seq<Recv>, i: nat, want: nat, acc: seq<Byte>)
    requires i <= |s| && |acc| < want
    requires i == |s| || Ended(s[i])
    ensures Fill(s[i..], want, acc).Broken?
  {
    if i < |s| {
      assert s[i..][0] == s[i];
    }
  }

  /** However the payload is split, Fill reassembles exactly its bytes and stops after the last piece. */
  lemma {:induction false} FillPieces(pieces: seq<seq<Byte>>, tail: seq<Recv>, want: nat, acc: seq<Byte>)
    requires forall k :: 0 <= k < |pieces| ==> |pieces[k]| > 0
    requires |acc| + |Concat(pieces)| == want
    ensures Fill(Datas(pieces) + tail, want, acc) == Complete(acc + Concat(pieces), tail)
  {
    if pieces == [] {
      assert Datas(pieces) + tail == tail;
    } else {
      var p, more := pieces[0], pieces[1..];
      var rest := Datas(more) + tail;
      assert Datas(pieces) + tail == [Data(p)] + rest;
      assert Concat(pieces) == p + Concat(more);
      FillCons(p, rest, want, acc);
      FillPieces(more, tail, want, acc + p);
      AppendAssoc(acc, p, Concat(more));
    }
  }

  /** A recv that delivers no more bytes than are missing adds all of them. */
  lemma FillCons(p: seq<Byte>, rest: seq<Recv>, want: nat, acc: seq<Byte>)
    requires 0 < |p| && |acc| + |p| <= want
    ensures Fill([Data(p)] + rest, want, acc) == Fill(rest, want, acc + p)
  {
    var s := [Data(p)] + rest;
    assert s[1..] == rest;
    assert p[..Min(|p|, want - |acc|)] == p;
    FillStep(s, want, acc);
  }

  /** A frame sent as a prefix and any split of its payload is received whole, and the loop goes on after it. */
  lemma NextFrameOfChunks(payload: seq<Byte>, pieces: seq<seq<Byte>>, tail: seq<Recv>)
    requires |payload| < TWO32 && SplitOf(payload, pieces)
    ensures NextFrame(Chunks(payload, pieces) + tail) == Some(Received(Inbound(|payload|, payload), tail))
  {
    var s := Chunks(payload, pieces) + tail;
    BE32RoundTrip(|payload|);
    assert s[0] == Data(BE32(|payload|));
    assert s[1..] == Datas(pieces) + tail;
    FillPieces(pieces, tail, |payload|, []);
    assert [] + Concat(pieces) == payload;
  }

  /**
   A payload cut short, by a recv that returns 0 or less or by the end
   of the outcomes, never reaches Decode, and no frame follows it.
   */
  lemma {:induction false} CutFrameEnds(declared: nat, partial: seq<seq<Byte>>, rest: seq<Recv>)
    requires declared < TWO32
    requires forall k :: 0 <= k < |partial| ==> |partial[k]| > 0
    requires |Concat(partial)| < declared
    requires rest == [] || Ended(rest[0])
    ensures Frames([Data(BE32(declared))] + Datas(partial) + rest) == []
  {
    var s := [Data(BE32(declared))] + Datas(partial) + rest;
    BE32RoundTrip(declared);
    assert s[1..] == Datas(partial) + rest;
    FillBroken(partial, rest, declared, []);
  }

  lemma {:induction false} FillBroken(pieces: seq<seq<Byte>>, rest: seq<Recv>, want: nat, acc: seq<Byte>)
    requires forall k :: 0 <= k < |pieces| ==> |pieces[k]| > 0
    requires |acc| + |Concat(pieces)| < want
    requires rest == [] || Ended(rest[0])
    ensures Fill(Datas(pieces) + rest, want, acc).Broken?
  {
    var s := Datas(pieces) + rest;
    if pieces == [] {
      assert s == rest;
    } else {
      var p := pieces[0];
      assert s[0] == Data(p);
      assert s[1..] == Datas(pieces[1..]) + rest;
      assert p[..Min(|p|, want - |acc|)] == p;
      assert |acc + p| + |Concat(pieces[1..])| == |acc| + |Concat(pieces)|;
      FillBroken(pieces[1..], rest, want, acc + p);
    }
  }

  /** One frame as a peer sends it: its payload and the pieces recv returns it in. */
  datatype Segment = Segment(payload: seq<Byte>, pieces: seq<seq<Byte>>)

  predicate Sendable(segs: seq<Segment>)
  {
    forall k :: 0 <= k < |segs| ==> |segs[k].payload| < TWO32 && SplitOf(segs[k].payload, segs[k].pieces)
  }

  /** The recv outcomes of a connection that carries these frames and then closes. */
  function Stream(segs: seq<Segment>): seq<Recv>
    requires Sendable(segs)
  {
    if segs == [] then [] else Chunks(segs[0].payload, segs[0].pieces) + Stream(segs[1..])
  }

  /** Reassembly is the inverse of sending: every frame arrives, whole and in order, whatever the split. */
  lemma {:induction false} FramesOfStream(segs: seq<Segment>)
    requires Sendable(segs)
    ensures |Frames(Stream(segs))| == |segs|
    ensures forall k :: 0 <= k < |segs| ==>
              Frames(Stream(segs))[k] == Inbound(|segs[k].payload|, segs[k].payload)
  {
    if segs != [] {
      NextFrameOfChunks(segs[0].payload, segs[0].pieces, Stream(segs[1..]));
      FramesOfStream(segs[1..]);
      var fs := Frames(Stream(segs));
      assert fs == [Inbound(|segs[0].payload|, segs[0].payload)] + Frames(Stream(segs[1..]));
      forall k | 0 <= k < |segs|
        ensures fs[k] == Inbound(|segs[k].payload|, segs[k].payload)
      {
        if k > 0 {
          assert fs[k] == Frames(Stream(segs[1..]))[k - 1];
        }
      }
    }
  }

  /** Whatever follows a stream of whole frames is read after all of them. */
  lemma {:induction false} FramesAfterStream(segs: seq<Segment>, rest: seq<Recv>)
    requires Sendable(segs)
    ensures Frames(Stream(segs) + rest) == Frames(Stream(segs)) + Frames(rest)
  {
    if segs == [] {
      assert Stream(segs) + rest == rest;
    } else {
      var c := Chunks(segs[0].payload, segs[0].pieces);
      var more := Stream(segs[1..]);
      AppendAssoc(c, more, rest);
      NextFrameOfChunks(segs[0].payload, segs[0].pieces, more + rest);
      NextFrameOfChunks(segs[0].payload, segs[0].pieces, more);
      FramesAfterStream(segs[1..], rest);
      var f := Inbound(|segs[0].payload|, segs[0].payload);
      AppendAssoc([f], Frames(more), Frames(rest));
    }
  }

  /**
   A payload cut short after any number of whole frames is dropped: the
   frames received are exactly those before it, and the session ends.
   */
  lemma TruncatedFrameDropped(segs: seq<Segment>, declared: nat, partial: seq<seq<Byte>>, rest: seq<Recv>)
    requires Sendable(segs)
    requires declared < TWO32
    requires forall k :: 0 <= k < |partial| ==> |partial[k]| > 0
    requires |Concat(partial)| < declared
    requires rest == [] || Ended(rest[0])
    ensures Frames(Stream(segs) + ([Data(BE32(declared))] + Datas(partial) + rest)) == Frames(Stream(segs))
  {
    var cut := [Data(BE32(declared))] + Datas(partial) + rest;
    FramesAfterStream(segs, cut);
    CutFrameEnds(declared, partial, rest);
    assert Frames(Stream(segs)) + [] == Frames(Stream(segs));
  }
}
