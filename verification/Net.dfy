/**
 Message framing on a peer connection: the receive side, which must not depend
 on how the byte stream is cut into chunks, and the send queue.
 */
module Net {
  import opened Wrappers

  type Byte = x: nat | x < 256

  const HEADER_SIZE: nat := 24
  const MAX_SIZE: nat := 0x0200_0000
  const MAX_PROTOCOL_MESSAGE_LENGTH: nat := 4 * 1000 * 1000
  const READ_AHEAD: nat := 256 * 1024

  /** How the size of a message is read from its header; nothing where reading throws. */
  type Parser = seq<Byte> -> Option<nat>

  // ----- the stream, one byte at a time

  datatype Message = Message(header: seq<Byte>, data: seq<Byte>)

  /** What the bytes received so far amount to: whole messages, a partial one, or a failure. */
  datatype Stream = Stream(messages: seq<Message>, header: seq<Byte>, data: seq<Byte>, failed: bool)

  predicate Acceptable(parse: Parser, header: seq<Byte>) {
    parse(header).Some? && parse(header).value <= MAX_PROTOCOL_MESSAGE_LENGTH
  }

  ghost function Begin(): Stream {
    Stream([], [], [], false)
  }

  /** A message whose header is there and whose data is `data`: whole, or waiting for more. */
  ghost function Settle(parse: Parser, messages: seq<Message>, header: seq<Byte>, data: seq<Byte>): Stream {
    if !Acceptable(parse, header) then Stream(messages, header, [], true)
    else if |data| == parse(header).value then Stream(messages + [Message(header, data)], [], [], false)
    else Stream(messages, header, data, false)
  }

  ghost function Next(parse: Parser, s: Stream, b: Byte): Stream {
    if s.failed then s
    else if |s.header| < HEADER_SIZE - 1 then s.(header := s.header + [b])
    else if |s.header| == HEADER_SIZE - 1 then Settle(parse, s.messages, s.header + [b], [])
    else Settle(parse, s.messages, s.header, s.data + [b])
  }

  ghost function Feed(parse: Parser, s: Stream, bytes: seq<Byte>): Stream {
    if bytes == [] then s else Next(parse, Feed(parse, s, bytes[..|bytes| - 1]), bytes[|bytes| - 1])
  }

  /** Feeding in two pieces is feeding the whole. */
  lemma {:induction false} FeedPieces(parse: Parser, s: Stream, a: seq<Byte>, b: seq<Byte>)
    ensures Feed(parse, s, a + b) == Feed(parse, Feed(parse, s, a), b)
  {
    if b == [] {
      assert a + b == a;
    } else {
      var c := b[..|b| - 1];
      assert (a + b)[..|a + b| - 1] == a + c;
      FeedPieces(parse, s, a, c);
    }
  }

  ghost function Joined(chunks: seq<seq<Byte>>): seq<Byte> {
    if chunks == [] then [] else Joined(chunks[..|chunks| - 1]) + chunks[|chunks| - 1]
  }

  ghost function FeedChunks(parse: Parser, s: Stream, chunks: seq<seq<Byte>>): Stream {
    if chunks == [] then s else Feed(parse, FeedChunks(parse, s, chunks[..|chunks| - 1]), chunks[|chunks| - 1])
  }

  /** However a stream is cut into chunks, the outcome is that of the whole stream. */
  lemma {:induction false} ChunksDoNotMatter(parse: Parser, s: Stream, chunks: seq<seq<Byte>>)
    ensures FeedChunks(parse, s, chunks) == Feed(parse, s, Joined(chunks))
  {
    if chunks != [] {
      var rest := chunks[..|chunks| - 1];
      ChunksDoNotMatter(parse, s, rest);
      FeedPieces(parse, s, Joined(rest), chunks[|chunks| - 1]);
    }
  }

  lemma {:induction false} FailureStays(parse: Parser, s: Stream, bytes: seq<Byte>)
    requires s.failed
    ensures Feed(parse, s, bytes) == s
  {
    if bytes != [] {
      FailureStays(parse, s, bytes[..|bytes| - 1]);
    }
  }

  // ----- several bytes at once

  /** Bytes that do not complete a header. */
  lemma {:induction false} FeedHeader(parse: Parser, s: Stream, bytes: seq<Byte>)
    requires !s.failed && |s.header| + |bytes| < HEADER_SIZE
    ensures Feed(parse, s, bytes) == s.(header := s.header + bytes)
  {
    if bytes == [] {
      assert s.header + bytes == s.header;
    } else {
      var c, b := bytes[..|bytes| - 1], bytes[|bytes| - 1];
      FeedHeader(parse, s, c);
      assert s.header + bytes == (s.header + c) + [b];
    }
  }

  /** Bytes that complete a header. */
  lemma FeedWholeHeader(parse: Parser, s: Stream, bytes: seq<Byte>)
    requires !s.failed && |s.header| < HEADER_SIZE && |s.header| + |bytes| == HEADER_SIZE
    ensures Feed(parse, s, bytes) == Settle(parse, s.messages, s.header + bytes, [])
  {
    hide Feed, Settle;
    var c, b := bytes[..|bytes| - 1], bytes[|bytes| - 1];
    FeedHeader(parse, s, c);
    FeedLast(parse, s, bytes);
    assert s.header + bytes == (s.header + c) + [b];
  }

  lemma FeedLast(parse: Parser, s: Stream, bytes: seq<Byte>)
    requires bytes != []
    ensures Feed(parse, s, bytes) == Next(parse, Feed(parse, s, bytes[..|bytes| - 1]), bytes[|bytes| - 1])
  {
  }

  /** Bytes of the data of a message. */
  lemma {:induction false} FeedData(parse: Parser, s: Stream, bytes: seq<Byte>)
    requires !s.failed && |s.header| == HEADER_SIZE && Acceptable(parse, s.header)
    requires bytes != [] && |s.data| + |bytes| <= parse(s.header).value
    ensures Feed(parse, s, bytes) == Settle(parse, s.messages, s.header, s.data + bytes)
  {
    var c, b := bytes[..|bytes| - 1], bytes[|bytes| - 1];
    if c == [] {
      assert bytes == [b] && Feed(parse, s, c) == s;
    } else {
      FeedData(parse, s, c);
      assert s.data + bytes == (s.data + c) + [b];
    }
  }

  // ----- CNetMessage

  datatype NetMessage = NetMessage(inData: bool, hdrbuf: seq<Byte>, hdrPos: nat, size: nat, vRecv: seq<Byte>, dataPos: nat) {
    predicate Complete() {
      inData && size == dataPos
    }

    ghost predicate Valid(parse: Parser) {
      && |hdrbuf| == HEADER_SIZE
      && (!inData ==> hdrPos < HEADER_SIZE && vRecv == [] && dataPos == 0)
      && (inData ==> hdrPos == HEADER_SIZE && Acceptable(parse, hdrbuf) && parse(hdrbuf) == Some(size))
      && (inData ==> dataPos <= |vRecv| <= size)
    }
  }

  function NewMessage(): NetMessage {
    NetMessage(false, seq(HEADER_SIZE, _ => 0), 0, 0, [], 0)
  }

  /** memcpy into a buffer */
  function Copied(buf: seq<Byte>, at: nat, bytes: seq<Byte>): (r: seq<Byte>)
    requires at + |bytes| <= |buf|
    ensures |r| == |buf| && r[..at + |bytes|] == buf[..at] + bytes
  {
    buf[..at] + bytes + buf[at + |bytes|..]
  }

  /** What a valid last message that is not complete adds to the messages before it. */
  ghost function Partial(m: NetMessage, messages: seq<Message>): Stream
    requires |m.hdrbuf| == HEADER_SIZE && m.hdrPos <= HEADER_SIZE && m.dataPos <= |m.vRecv|
  {
    if m.inData then Stream(messages, m.hdrbuf, m.vRecv[..m.dataPos], false)
    else Stream(messages, m.hdrbuf[..m.hdrPos], [], false)
  }

  /** The stream after `m`, complete or not. */
  ghost function After(m: NetMessage, messages: seq<Message>): Stream
    requires |m.hdrbuf| == HEADER_SIZE && m.hdrPos <= HEADER_SIZE && m.dataPos <= |m.vRecv|
  {
    if m.Complete() then Stream(messages + [Message(m.hdrbuf, m.vRecv)], [], [], false) else Partial(m, messages)
  }

  /** readHeader: the number of bytes used, or -1. */
  method ReadHeader(parse: Parser, m: NetMessage, pch: seq<Byte>, ghost messages: seq<Message>) returns (m': NetMessage, handled: int)
    requires m.Valid(parse) && !m.inData && pch != []
    ensures handled == -1 || 0 < handled <= |pch|
    ensures handled == -1 ==> Feed(parse, Partial(m, messages), pch).failed
    ensures handled == -1 ==> Feed(parse, Partial(m, messages), pch).messages == messages
    ensures handled > 0 && (m'.inData ==> m'.size <= MAX_PROTOCOL_MESSAGE_LENGTH) ==>
              m'.Valid(parse) && Feed(parse, Partial(m, messages), pch[..handled]) == After(m', messages)
    ensures handled > 0 && m'.inData && m'.size > MAX_PROTOCOL_MESSAGE_LENGTH ==>
              Feed(parse, Partial(m, messages), pch).failed && Feed(parse, Partial(m, messages), pch).messages == messages
    // It takes what the header still needs; a complete header is rejected if it does not parse or announces too much.
    ensures var n := if HEADER_SIZE - m.hdrPos < |pch| then HEADER_SIZE - m.hdrPos else |pch|;
            var size := parse(m.hdrbuf[..m.hdrPos] + pch[..n]);
            && (handled == -1 <==> m.hdrPos + n == HEADER_SIZE && (size.None? || size.value > MAX_SIZE))
            && (handled != -1 ==> handled == n && (m'.inData <==> m.hdrPos + n == HEADER_SIZE))
            && (m'.inData ==> size == Some(m'.size))
  {
    hide Feed;
    var remaining := HEADER_SIZE - m.hdrPos;
    var nCopy := if remaining < |pch| then remaining else |pch|;
    var bytes := pch[..nCopy];
    ghost var s := Partial(m, messages);
    m' := m.(hdrbuf := Copied(m.hdrbuf, m.hdrPos, bytes), hdrPos := m.hdrPos + nCopy);
    if m'.hdrPos < HEADER_SIZE {
      FeedHeader(parse, s, bytes);
      return m', nCopy;
    }
    FeedWholeHeader(parse, s, bytes);
    assert m'.hdrbuf == s.header + bytes;
    assert pch == bytes + pch[nCopy..];
    FeedPieces(parse, s, bytes, pch[nCopy..]);
    if !Acceptable(parse, m'.hdrbuf) {
      FailureStays(parse, Feed(parse, s, bytes), pch[nCopy..]);
    }
    match parse(m'.hdrbuf) {
      case None =>
        return m', -1;
      case Some(size) =>
        m' := m'.(size := size);
        if size > MAX_SIZE {
          return m', -1;
        }
        m' := m'.(inData := true);
        return m', nCopy;
    }
  }

  function Resized(buf: seq<Byte>, n: nat): (r: seq<Byte>)
    requires |buf| <= n
    ensures |r| == n && r[..|buf|] == buf
  {
    buf + seq(n - |buf|, _ => 0)
  }

  /** readData */
  method ReadData(parse: Parser, m: NetMessage, pch: seq<Byte>, ghost messages: seq<Message>) returns (m': NetMessage, handled: nat)
    requires m.Valid(parse) && m.inData && !m.Complete() && pch != []
    ensures 0 < handled <= |pch| && m'.inData
    ensures m'.Valid(parse) && Feed(parse, Partial(m, messages), pch[..handled]) == After(m', messages)
  {
    hide Feed;
    var remaining := m.size - m.dataPos;
    handled := if remaining < |pch| then remaining else |pch|;
    var bytes := pch[..handled];
    var end := m.dataPos + handled;
    var buf := m.vRecv;
    if |buf| < end {
      buf := Resized(buf, if m.size < end + READ_AHEAD then m.size else end + READ_AHEAD);
    }
    m' := m.(vRecv := Copied(buf, m.dataPos, bytes), dataPos := end);
    assert m'.vRecv[..end] == m.vRecv[..m.dataPos] + bytes;
    FeedData(parse, Partial(m, messages), bytes);
    if m'.Complete() {
      assert m'.vRecv[..end] == m'.vRecv;
    }
  }

  // ----- CNode, receive side

  ghost function Wholes(ms: seq<NetMessage>): (r: seq<Message>)
    ensures |r| == |ms|
  {
    seq(|ms|, i requires 0 <= i < |ms| => Message(ms[i].hdrbuf, ms[i].vRecv))
  }

  class ReceivingNode {
    const parse: Parser
    var vRecvMsg: seq<NetMessage>

    constructor (parse: Parser)
      ensures Valid() && Received() == Begin() && this.parse == parse
    {
      this.parse := parse;
      vRecvMsg := [];
    }

    /** Only the last message can be incomplete; a complete one holds exactly as many bytes as its header says. */
    ghost predicate Valid()
      reads this
    {
      && (forall i :: 0 <= i < |vRecvMsg| ==> vRecvMsg[i].Valid(parse))
      && (forall i :: 0 <= i < |vRecvMsg| - 1 ==> vRecvMsg[i].Complete())
    }

    /** The outcome of all bytes received so far. */
    ghost function Received(): Stream
      requires Valid()
      reads this
    {
      if vRecvMsg == [] then Begin() else After(vRecvMsg[|vRecvMsg| - 1], Wholes(vRecvMsg[..|vRecvMsg| - 1]))
    }

    lemma CompleteMessagesAreFull(i: nat)
      requires Valid() && i < |vRecvMsg| && vRecvMsg[i].Complete()
      ensures parse(vRecvMsg[i].hdrbuf) == Some(|vRecvMsg[i].vRecv|)
    {
    }

    /** Get the current incomplete message, or create a new one. */
    method CurrentMessage()
      requires Valid()
      modifies this
      ensures Valid() && Received() == old(Received())
      ensures vRecvMsg != [] && !vRecvMsg[|vRecvMsg| - 1].Complete()
    {
      if vRecvMsg == [] || vRecvMsg[|vRecvMsg| - 1].Complete() {
        ghost var before := vRecvMsg;
        vRecvMsg := vRecvMsg + [NewMessage()];
        assert vRecvMsg[..|before|] == before;
        if before != [] {
          assert before == before[..|before| - 1] + [before[|before| - 1]];
          assert Wholes(before) == Wholes(before[..|before| - 1]) + [Message(before[|before| - 1].hdrbuf, before[|before| - 1].vRecv)];
        }
      }
    }

    /** One turn of the loop of ReceiveMsgBytes: absorb what the current message can take. */
    method Absorb(pch: seq<Byte>) returns (ok: bool, handled: int)
      requires Valid() && pch != [] && !Received().failed
      modifies this
      ensures ok ==> Valid() && 0 < handled <= |pch| && Received() == Feed(parse, old(Received()), pch[..handled])
      ensures ok ==> vRecvMsg != [] && !Received().failed
      ensures ok ==> |Received().messages| == |old(Received()).messages| + if vRecvMsg[|vRecvMsg| - 1].Complete() then 1 else 0
      ensures !ok ==> Feed(parse, old(Received()), pch).failed && vRecvMsg != []
      ensures !ok ==> Wholes(vRecvMsg[..|vRecvMsg| - 1]) == Feed(parse, old(Received()), pch).messages == old(Received()).messages
    {
      hide Feed;
      CurrentMessage();
      var last := |vRecvMsg| - 1;
      var m := vRecvMsg[last];
      ghost var before := Wholes(vRecvMsg[..last]);
      if !m.inData {
        m, handled := ReadHeader(parse, m, pch, before);
      } else {
        m, handled := ReadData(parse, m, pch, before);
      }
      ghost var rest := vRecvMsg[..last];
      vRecvMsg := vRecvMsg[last := m];
      assert vRecvMsg[..last] == rest;
      if handled < 0 {
        return false, handled;
      }
      if m.inData && m.size > MAX_PROTOCOL_MESSAGE_LENGTH {
        return false, handled;
      }
      ok := true;
    }

    /**
     ReceiveMsgBytes: the outcome is that of feeding the bytes one by one, so
     it does not depend on the chunks; it fails exactly where that fails.
     */
    method ReceiveMsgBytes(pch: seq<Byte>) returns (ok: bool, complete: bool)
      requires Valid()
      modifies this
      ensures ok <==> !Feed(parse, old(Received()), pch).failed
      ensures ok ==> Valid() && Received() == Feed(parse, old(Received()), pch)
      ensures !ok ==> vRecvMsg != [] && Wholes(vRecvMsg[..|vRecvMsg| - 1]) == Feed(parse, old(Received()), pch).messages
      ensures complete <==> |Feed(parse, old(Received()), pch).messages| > |old(Received()).messages|
    {
      hide Feed, Valid, Received;
      NotFailed();
      complete := false;
      var rest := pch;
      ghost var start, goal := Received(), Feed(parse, Received(), pch);
      while |rest| > 0
        invariant Valid() && !Received().failed && Feed(parse, Received(), rest) == goal
        invariant |Received().messages| >= |start.messages|
        invariant complete <==> |Received().messages| > |start.messages|
        decreases |rest|
      {
        ghost var before := Received();
        var handled;
        ok, handled := Absorb(rest);
        if !ok {
          return;
        }
        assert rest == rest[..handled] + rest[handled..];
        FeedPieces(parse, before, rest[..handled], rest[handled..]);
        rest := rest[handled..];
        if vRecvMsg[|vRecvMsg| - 1].Complete() {
          complete := true;
        }
      }
      FeedNothing(parse, Received());
      ok := true;
    }

    /** Chunks as they come from the socket, up to the first that makes the node disconnect. */
    method ReceiveAll(chunks: seq<seq<Byte>>) returns (ok: bool)
      requires Valid()
      modifies this
      ensures ok <==> !Feed(parse, old(Received()), Joined(chunks)).failed
      ensures ok ==> Valid() && Received() == Feed(parse, old(Received()), Joined(chunks))
      ensures !ok ==> vRecvMsg != [] && Wholes(vRecvMsg[..|vRecvMsg| - 1]) == Feed(parse, old(Received()), Joined(chunks)).messages
    {
      hide Feed, Valid, Received, Joined, Wholes;
      ghost var start := Received();
      NotFailed();
      NothingJoined();
      FeedNothing(parse, start);
      var i := 0;
      while i < |chunks|
        invariant 0 <= i <= |chunks| && Valid()
        invariant Received() == Feed(parse, start, Joined(chunks[..i])) && !Received().failed
      {
        JoinedMore(chunks[..i], chunks[i]);
        assert chunks[..i + 1] == chunks[..i] + [chunks[i]];
        FeedPieces(parse, start, Joined(chunks[..i]), chunks[i]);
        var complete;
        ok, complete := ReceiveMsgBytes(chunks[i]);
        i := i + 1;
        if !ok {
          assert chunks == chunks[..i] + chunks[i..];
          JoinedBoth(chunks[..i], chunks[i..]);
          FeedPieces(parse, start, Joined(chunks[..i]), Joined(chunks[i..]));
          FailureStays(parse, Feed(parse, start, Joined(chunks[..i])), Joined(chunks[i..]));
          return;
        }
      }
      assert chunks[..i] == chunks;
      ok := true;
    }

    lemma NotFailed()
      requires Valid()
      ensures !Received().failed
    {
    }
  }

  lemma FeedNothing(parse: Parser, s: Stream)
    ensures Feed(parse, s, []) == s
  {
  }

  // ----- CNode, send side

  lemma {:induction false} JoinedFront(q: seq<seq<Byte>>)
    requires q != []
    ensures Joined(q) == q[0] + Joined(q[1..])
  {
    var rest := q[..|q| - 1];
    if rest != [] {
      JoinedFront(rest);
      assert q[1..][..|q| - 2] == rest[1..];
    }
  }

  lemma JoinedMore(q: seq<seq<Byte>>, x: seq<Byte>)
    ensures Joined(q + [x]) == Joined(q) + x
  {
    assert (q + [x])[..|q|] == q;
  }

  lemma {:induction false} JoinedBoth(q: seq<seq<Byte>>, t: seq<seq<Byte>>)
    ensures Joined(q + t) == Joined(q) + Joined(t)
  {
    if t == [] {
      assert q + t == q;
    } else {
      assert (q + t)[..|q + t| - 1] == q + t[..|t| - 1];
      JoinedBoth(q, t[..|t| - 1]);
    }
  }

  /** With the entries `q` still to send, the first from `offset` on: sent and left bytes are the pushed ones, in order. */
  ghost predicate Flow(q: seq<seq<Byte>>, offset: nat, sent: seq<Byte>, pushed: seq<Byte>) {
    && (forall i :: 0 <= i < |q| ==> q[i] != [])
    && (q == [] ==> offset == 0)
    && (q != [] ==> offset < |q[0]|)
    && offset <= |Joined(q)|
    && pushed == sent + Joined(q)[offset..]
  }

  lemma FlowOfMore(q: seq<seq<Byte>>, q': seq<seq<Byte>>, header: seq<Byte>, data: seq<Byte>, offset: nat, sent: seq<Byte>, pushed: seq<Byte>)
    requires Flow(q, offset, sent, pushed) && header != []
    requires q' == (if data == [] then q + [header] else q + [header] + [data])
    ensures Flow(q', offset, sent, pushed + header + data)
    ensures |Joined(q')| == |Joined(q)| + |header| + |data|
  {
    hide Joined;
    JoinedMessage(q, q', header, data, offset);
    var left := Joined(q)[offset..];
    assert sent + left + header + data == sent + (left + header + data);
    assert q == [] ==> q'[0] == header;
    assert q != [] ==> q'[0] == q[0];
  }

  lemma FlowOfTaken(q: seq<seq<Byte>>, offset: nat, n: nat, sent: seq<Byte>, pushed: seq<Byte>)
    requires q != [] && Flow(q, offset, sent, pushed) && 0 < n <= |q[0]| - offset
    ensures var sent' := sent + q[0][offset..offset + n];
            if offset + n == |q[0]| then Flow(q[1..], 0, sent', pushed) else Flow(q, offset + n, sent', pushed)
    ensures |Joined(q)| == |q[0]| + |Joined(q[1..])|
  {
    hide Joined;
    JoinedFront(q);
    var piece, end := q[0][offset..offset + n], offset + n;
    assert Joined(q)[offset..] == piece + Joined(q)[end..];
    assert sent + (piece + Joined(q)[end..]) == sent + piece + Joined(q)[end..];
    if end == |q[0]| {
      assert Joined(q)[end..] == Joined(q[1..]) == Joined(q[1..])[0..];
      if q[1..] != [] {
        assert q[1..][0] == q[1];
      }
    }
  }

  /** How much of entry `k` is offered to the socket: all of it, but for what was sent of the first before. */
  function Offered(q: seq<seq<Byte>>, offset: nat, k: nat): int
    requires k < |q|
  {
    |q[k]| - if k == 0 then offset else 0
  }

  class SendingNode {
    const sendBufferMaxSize: nat
    var vSendMsg: seq<seq<Byte>>
    var sendOffset: nat
    var sendSize: nat
    var sendBytes: nat
    var pauseSend: bool

    ghost var pushed: seq<Byte>  // everything queued since the start
    ghost var sent: seq<Byte>    // everything the socket took

    constructor (sendBufferMaxSize: nat)
      ensures Valid() && pushed == sent == [] && this.sendBufferMaxSize == sendBufferMaxSize
    {
      this.sendBufferMaxSize := sendBufferMaxSize;
      vSendMsg, sendOffset, sendSize, sendBytes, pauseSend := [], 0, 0, 0, false;
      pushed, sent := [], [];
    }

    /** With the entries `q` still to send, sizes and flags are exact. */
    ghost predicate Holds(q: seq<seq<Byte>>)
      reads this`sendOffset, this`sendSize, this`sendBytes, this`pauseSend, this`pushed, this`sent
    {
      && Flow(q, sendOffset, sent, pushed)
      && sendSize == |Joined(q)|
      && sendBytes == |sent|
      && (pauseSend <==> sendSize > sendBufferMaxSize)
    }

    ghost predicate Valid()
      reads this
    {
      Holds(vSendMsg)
    }

    /** The socket took `n` bytes of the first entry. */
    method Took(ghost q: seq<seq<Byte>>, data: seq<Byte>, n: nat) returns (whole: bool)
      requires q != [] && data == q[0] && Holds(q) && 0 < n <= |data| - sendOffset
      modifies this`sendOffset, this`sendSize, this`sendBytes, this`pauseSend, this`sent
      ensures sent == old(sent) + data[old(sendOffset)..old(sendOffset) + n]
      ensures whole <==> old(sendOffset) + n == |data|
      ensures sendOffset == if whole then 0 else old(sendOffset) + n
      ensures Holds(if whole then q[1..] else q)
    {
      FlowOfTaken(q, sendOffset, n, sent, pushed);
      hide Flow, Joined;
      sent := sent + data[sendOffset..sendOffset + n];
      sendBytes := sendBytes + n;
      sendOffset := sendOffset + n;
      whole := sendOffset == |data|;
      if whole {
        sendOffset := 0;
        sendSize := sendSize - |data|;
        pauseSend := sendSize > sendBufferMaxSize;
      }
    }

    lemma FrontIsLeft(q: seq<seq<Byte>>)
      requires Holds(q)
      ensures q != [] ==> sendOffset < |q[0]|
      ensures q == [] ==> sendOffset == sendSize == 0
    {
    }

    /** The queue after a message is pushed; an empty payload is not queued. */
    function Queued(q: seq<seq<Byte>>, header: seq<Byte>, data: seq<Byte>): seq<seq<Byte>> {
      if data == [] then q + [header] else q + [header] + [data]
    }

    /**
     What sending leaves of a queue: all entries before the one then at the front were taken whole,
     and that one was not, unless the socket is closed.
     */
    ghost predicate Drained(q: seq<seq<Byte>>, offset: nat, open: bool, send: (nat, nat) -> int, q': seq<seq<Byte>>, offset': nat) {
      && |q'| <= |q| && q' == q[|q| - |q'|..]
      && (!open ==> q' == q && offset' == offset)
      && (forall k: nat :: k < |q| - |q'| ==> var n := Offered(q, offset, k); n > 0 && send(k, n) == n)
      && (open && q' == [] ==> offset' == 0)
      && (open && q' != [] ==>
            var k: nat := |q| - |q'|;
            var n := Offered(q, offset, k);
            && n > 0 && send(k, n) < n
            && offset' == |q'[0]| - n + (if send(k, n) > 0 then send(k, n) else 0))
    }

    /**
     SocketSendData. `send(k, n)` is what the call for entry `k` returns when offered n bytes, at
     most n. All entries before the one now at the front were taken whole; that one was not,
     unless the socket is closed.
     */
    method SocketSendData(open: bool, send: (nat, nat) -> int) returns (sentSize: nat)
      requires Valid() && forall k: nat, n: nat :: send(k, n) <= n
      modifies this
      ensures Valid() && pushed == old(pushed)
      ensures |sent| == |old(sent)| + sentSize && old(sent) <= sent
      ensures Drained(old(vSendMsg), old(sendOffset), open, send, vSendMsg, sendOffset)
      ensures !open ==> unchanged(this) && sentSize == 0
    {
      hide Holds;
      var it := 0;
      sentSize := 0;
      while it < |vSendMsg|
        invariant 0 <= it <= |vSendMsg| && vSendMsg == old(vSendMsg) && pushed == old(pushed)
        invariant Holds(vSendMsg[it..])
        invariant sendOffset == if it == 0 then old(sendOffset) else 0
        invariant !open ==> it == 0 && sentSize == 0 && unchanged(this)
        invariant |sent| == |old(sent)| + sentSize && old(sent) <= sent
        invariant forall k: nat :: k < it ==> var n := Offered(old(vSendMsg), old(sendOffset), k); n > 0 && send(k, n) == n
      {
        var data := vSendMsg[it];
        ghost var q := vSendMsg[it..];
        FrontIsLeft(q);
        assert |data| > sendOffset;
        if !open {
          break;
        }
        var n := send(it, |data| - sendOffset);
        if n > 0 {
          var whole := Took(q, data, n);
          sentSize := sentSize + n;
          if whole {
            assert q[1..] == vSendMsg[it + 1..];
            it := it + 1;
          } else {
            break;
          }
        } else {
          break;
        }
      }
      if it == |vSendMsg| {
        FrontIsLeft(vSendMsg[it..]);
        assert sendOffset == 0;
        assert sendSize == 0;
      }
      ghost var before := vSendMsg;
      vSendMsg := vSendMsg[it..];
      assert !open ==> vSendMsg == before;
    }

    /** The queueing part of PushMessage. */
    method PushMessage(header: seq<Byte>, data: seq<Byte>, open: bool, send: (nat, nat) -> int) returns (sentSize: nat)
      requires Valid() && |header| == HEADER_SIZE && forall k: nat, n: nat :: send(k, n) <= n
      modifies this
      ensures Valid() && pushed == old(pushed) + header + data
      ensures |sent| == |old(sent)| + sentSize && old(sent) <= sent
      // With nothing queued before, what the socket takes goes out at once; otherwise the message waits its turn.
      ensures old(vSendMsg) != [] ==> sentSize == 0 && vSendMsg == Queued(old(vSendMsg), header, data) && sendOffset == old(sendOffset)
      ensures old(vSendMsg) == [] ==> Drained(Queued([], header, data), 0, open, send, vSendMsg, sendOffset)
    {
      hide Holds;
      var optimistic := vSendMsg == [];
      FrontIsLeft(vSendMsg);
      Enqueue(header, data);
      sentSize := 0;
      if optimistic {
        sentSize := SocketSendData(open, send);
      }
    }

    method Enqueue(header: seq<Byte>, data: seq<Byte>)
      requires Valid() && |header| == HEADER_SIZE
      modifies this
      ensures Valid() && pushed == old(pushed) + header + data && sent == old(sent)
      ensures vSendMsg == Queued(old(vSendMsg), header, data) && sendOffset == old(sendOffset)
    {
      ghost var q := vSendMsg;
      sendSize := sendSize + |header| + |data|;
      if sendSize > sendBufferMaxSize {
        pauseSend := true;
      }
      vSendMsg := vSendMsg + [header];
      if data != [] {
        vSendMsg := vSendMsg + [data];
      }
      FlowOfMore(q, vSendMsg, header, data, sendOffset, sent, pushed);
      hide Flow, Joined;
      pushed := pushed + header + data;
    }
  }

  lemma JoinedMessage(q: seq<seq<Byte>>, q': seq<seq<Byte>>, header: seq<Byte>, data: seq<Byte>, offset: nat)
    requires q' == (if data == [] then q + [header] else q + [header] + [data]) && offset <= |Joined(q)|
    ensures Joined(q') == Joined(q) + header + data
    ensures Joined(q')[offset..] == Joined(q)[offset..] + header + data
    ensures q == [] ==> Joined(q) == []
  {
    hide Joined;
    NothingJoined();
    JoinedMore(q, header);
    JoinedMore(q + [header], data);
  }

  lemma NothingJoined()
    ensures Joined([]) == []
  {
  }

  // ----- from one peer to the other

  ghost predicate Framed(parse: Parser, m: Message) {
    |m.header| == HEADER_SIZE && Acceptable(parse, m.header) && parse(m.header).value == |m.data|
  }

  /** The bytes of messages, as they are pushed. */
  ghost function Bytes(ms: seq<Message>): seq<Byte> {
    if ms == [] then [] else Bytes(ms[..|ms| - 1]) + ms[|ms| - 1].header + ms[|ms| - 1].data
  }

  lemma OneArrives(parse: Parser, messages: seq<Message>, m: Message)
    requires Framed(parse, m)
    ensures Feed(parse, Stream(messages, [], [], false), m.header + m.data) == Stream(messages + [m], [], [], false)
  {
    hide Feed;
    var s := Stream(messages, [], [], false);
    assert s.header + m.header == m.header;
    FeedWholeHeader(parse, s, m.header);
    FeedPieces(parse, s, m.header, m.data);
    if m.data == [] {
      FeedNothing(parse, Settle(parse, messages, m.header, []));
    } else {
      assert [] + m.data == m.data;
      FeedData(parse, Settle(parse, messages, m.header, []), m.data);
    }
  }

  /** All bytes of properly framed messages: exactly these messages, with nothing left over. */
  lemma {:induction false} AllArrive(parse: Parser, ms: seq<Message>)
    requires forall i :: 0 <= i < |ms| ==> Framed(parse, ms[i])
    ensures Feed(parse, Begin(), Bytes(ms)) == Stream(ms, [], [], false)
  {
    hide Feed;
    if ms == [] {
      FeedNothing(parse, Begin());
    } else {
      var rest, m := ms[..|ms| - 1], ms[|ms| - 1];
      AllArrive(parse, rest);
      assert Bytes(ms) == Bytes(rest) + (m.header + m.data);
      FeedPieces(parse, Begin(), Bytes(rest), m.header + m.data);
      OneArrives(parse, rest, m);
      assert rest + [m] == ms;
    }
  }

  lemma {:induction false} MessagesOnlyGrow(parse: Parser, s: Stream, bytes: seq<Byte>)
    ensures s.messages <= Feed(parse, s, bytes).messages
    ensures s.failed ==> Feed(parse, s, bytes).failed
  {
    if bytes != [] {
      MessagesOnlyGrow(parse, s, bytes[..|bytes| - 1]);
    }
  }

  /** Whatever part of the pushed messages has been sent, and however it was cut up, only these messages arrive, in order. */
  lemma OnlyPushedMessagesArrive(parse: Parser, ms: seq<Message>, chunks: seq<seq<Byte>>, queued: seq<Byte>)
    requires forall i :: 0 <= i < |ms| ==> Framed(parse, ms[i])
    requires Bytes(ms) == Joined(chunks) + queued
    ensures var s := FeedChunks(parse, Begin(), chunks);
            && !s.failed && s.messages <= ms
            && (queued == [] ==> s == Stream(ms, [], [], false))
  {
    hide Feed, Bytes, Joined, FeedChunks;
    ChunksDoNotMatter(parse, Begin(), chunks);
    AllArrive(parse, ms);
    FeedPieces(parse, Begin(), Joined(chunks), queued);
    MessagesOnlyGrow(parse, Feed(parse, Begin(), Joined(chunks)), queued);
    if queued == [] {
      FeedNothing(parse, Feed(parse, Begin(), Joined(chunks)));
    }
  }

  /** The same for a node that has just been connected: what it receives of a sender's messages. */
  method Deliver(node: ReceivingNode, chunks: seq<seq<Byte>>, ghost ms: seq<Message>, ghost queued: seq<Byte>) returns (ok: bool)
    requires node.Valid() && node.Received() == Begin()
    requires forall i :: 0 <= i < |ms| ==> Framed(node.parse, ms[i])
    requires Bytes(ms) == Joined(chunks) + queued
    modifies node
    ensures ok && node.Valid() && node.Received().messages <= ms
    ensures queued == [] ==> node.Received() == Stream(ms, [], [], false)
  {
    hide Feed, Bytes, Joined, FeedChunks;
    OnlyPushedMessagesArrive(node.parse, ms, chunks, queued);
    ChunksDoNotMatter(node.parse, Begin(), chunks);
    ok := node.ReceiveAll(chunks);
  }
}
