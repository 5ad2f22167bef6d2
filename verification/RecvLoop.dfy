/** The receive loop of a datapath connection: cutting a TCP byte stream into OpenFlow messages. */
module RecvLoops {
  import opened Bytes

  const OFP_HEADER_SIZE := 8

  /** The length field of the OpenFlow header (`!BBHI`), raised to the header's own size. */
  function FrameLen(buf: seq<Byte>): nat
    requires |buf| >= OFP_HEADER_SIZE
  {
    var msgLen := Get16(buf[2..]);
    if msgLen < OFP_HEADER_SIZE then OFP_HEADER_SIZE else msgLen
  }

  ghost predicate IsFrame(f: seq<Byte>) {
    |f| >= OFP_HEADER_SIZE && |f| == FrameLen(f)
  }

  /** A message is one whose third and fourth byte spell its length, most significant first, or 8 bytes
      where they spell less. */
  lemma FrameIff(f: seq<Byte>)
    requires |f| >= 8
    ensures IsFrame(f) <==> |f| == if Number(f[2..4]) < 8 then 8 else Number(f[2..4])
  {
    BigEndian(f[2..]);
    assert f[2..][..2] == f[2..4];
  }

  /** Too short to hold a whole frame: a proper prefix of one. */
  ghost predicate Incomplete(rest: seq<Byte>) {
    |rest| < OFP_HEADER_SIZE || |rest| < FrameLen(rest)
  }

  /** `fs` are the successive frames of `stream`, and `rest` is what is left over. */
  ghost predicate IsFraming(stream: seq<Byte>, fs: seq<seq<Byte>>, rest: seq<Byte>) {
    && (forall i :: 0 <= i < |fs| ==> IsFrame(fs[i]))
    && Incomplete(rest)
    && stream == Concat(fs) + rest
  }

  /** The header decides the frame: bytes that follow do not change its length. */
  lemma FrameLenPrefix(x: seq<Byte>, y: seq<Byte>)
    requires |x| >= OFP_HEADER_SIZE
    ensures FrameLen(x + y) == FrameLen(x)
  {
  }

  /** A byte stream has only one framing, so the messages cannot depend on how recv splits it. */
  lemma {:induction false} FramingUnique(stream: seq<Byte>, fs: seq<seq<Byte>>, r: seq<Byte>, gs: seq<seq<Byte>>,
                                         q: seq<Byte>)
    requires IsFraming(stream, fs, r) && IsFraming(stream, gs, q)
    ensures fs == gs && r == q
    decreases |fs|
  {
    if fs != [] && gs != [] {
      var f, g := fs[0], gs[0];
      var fTail, gTail := Concat(fs[1..]) + r, Concat(gs[1..]) + q;
      assert stream == f + fTail && stream == g + gTail;
      FrameLenPrefix(f, fTail);
      FrameLenPrefix(g, gTail);
      assert f == stream[..|f|] && g == stream[..|g|];
      assert fTail == stream[|f|..] && gTail == stream[|g|..];
      FramingUnique(fTail, fs[1..], r, gs[1..], q);
    } else if fs != [] {
      NotIncomplete(stream, fs, r);
    } else if gs != [] {
      NotIncomplete(stream, gs, q);
    } else {
      assert [] + r == r && [] + q == q;
    }
  }

  /** A stream that starts with a frame is not incomplete. */
  lemma NotIncomplete(stream: seq<Byte>, fs: seq<seq<Byte>>, r: seq<Byte>)
    requires IsFraming(stream, fs, r) && fs != []
    ensures !Incomplete(stream)
  {
  }

  /** Every list of frames is received back as it was sent, however the stream was cut. */
  lemma FramesReceived(fs: seq<seq<Byte>>, gs: seq<seq<Byte>>, q: seq<Byte>)
    requires forall i :: 0 <= i < |fs| ==> IsFrame(fs[i])
    requires IsFraming(Concat(fs), gs, q)
    ensures gs == fs && q == []
  {
    assert Concat(fs) == Concat(fs) + [];
    FramingUnique(Concat(fs), fs, [], gs, q);
  }

  lemma NothingFramed()
    ensures Concat([]) == []
  {
  }

  lemma FrameCut(stream: seq<Byte>, msgs: seq<seq<Byte>>, buf: seq<Byte>)
    requires stream == Concat(msgs) + buf && !Incomplete(buf)
    ensures IsFrame(buf[..FrameLen(buf)])
    ensures stream == Concat(msgs + [buf[..FrameLen(buf)]]) + buf[FrameLen(buf)..]
  {
    var msg, after := buf[..FrameLen(buf)], buf[FrameLen(buf)..];
    ConcatAppend(msgs, msg);
    assert buf == msg + after;
    FrameLenPrefix(msg, after);
  }

  lemma ChunkArrives(stream: seq<Byte>, received: nat, n: nat, msgs: seq<seq<Byte>>, buf: seq<Byte>)
    requires received + n <= |stream| && stream[..received] == Concat(msgs) + buf
    ensures stream[..received + n] == Concat(msgs) + (buf + stream[received..received + n])
  {
  }

  /** `_recv_loop`. Each round of the outer loop receives any non-empty chunk of at most the requested
      length; a handler may close the connection after any round. What is handed to the parser is the
      framing of exactly the bytes received. */
  method RecvLoop(stream: seq<Byte>) returns (msgs: seq<seq<Byte>>, buf: seq<Byte>, received: nat, closed: bool)
    ensures received <= |stream| && (!closed ==> received == |stream|)
    ensures IsFraming(stream[..received], msgs, buf)
  {
    hide Concat, Get16;
    buf, msgs, received, closed := [], [], 0, false;
    assert Concat([]) == [] by { NothingFramed(); }
    var minReadLen := OFP_HEADER_SIZE;
    var remainingReadLen := OFP_HEADER_SIZE;
    while !closed && received < |stream|
      invariant received <= |stream|
      invariant IsFraming(stream[..received], msgs, buf)
      decreases |stream| - received, !closed
    {
      var readLen := if remainingReadLen > minReadLen then remainingReadLen else minReadLen;
      var n: nat :| 1 <= n <= readLen && received + n <= |stream|;
      ChunkArrives(stream, received, n, msgs, buf);
      buf := buf + stream[received..received + n];
      received := received + n;
      while |buf| >= minReadLen
        invariant forall i :: 0 <= i < |msgs| ==> IsFrame(msgs[i])
        invariant stream[..received] == Concat(msgs) + buf
        decreases |buf|
      {
        var msgLen := Get16(buf[2..]);
        if msgLen < minReadLen {
          msgLen := minReadLen;
        }
        if |buf| < msgLen {
          remainingReadLen := msgLen - |buf|;
          break;
        }
        var msg := buf[..msgLen];
        FrameCut(stream[..received], msgs, buf);
        msgs := msgs + [msg];
        buf := buf[msgLen..];
        remainingReadLen := minReadLen;
      }
      closed := *;
    }
  }
}
