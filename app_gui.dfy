/** The link layer of the GUI application (app_gui.py): its own copies of
    the Hamming functions and of the marker-unit transport, `send_ack`,
    `send_message`, and the receive loop `read_loop` that reassembles frames
    from the decoded bytes, filters them by address and acknowledges
    information frames.

    The window, its widgets and the log are not modelled; what the loop logs
    is dropped, and what it writes to the port is kept. */
module AppGui {
  import opened Base
  import opened Hamming
  import opened FrameCodec
  import opened SerialPort
  import opened UnitStream

  /** `hamming_encode_4bit`: the same codeword as `HammingCodec.encode_4bit`. */
  function HammingEncode4bit(data: byte): (r: byte)
    ensures r == Encode4(data)
    ensures r < 0x80
  {
    var d1 := (data >> 0) & 1;
    var d2 := (data >> 1) & 1;
    var d3 := (data >> 2) & 1;
    var d4 := (data >> 3) & 1;
    var p1 := d1 ^ d2 ^ d4;
    var p2 := d1 ^ d3 ^ d4;
    var p3 := d2 ^ d3 ^ d4;
    p1 | (p2 << 1) | (d1 << 2) | (p3 << 3) | (d2 << 4) | (d3 << 5) | (d4 << 6)
  }

  /** `hamming_decode_7bit`: the same nibble as `HammingCodec.decode_7bit`.
      The syndrome and the flip it drives are left out, as in `Decode7`:
      the flip changes the local copy after the data bits have been read. */
  function HammingDecode7bit(encoded: byte): (r: byte)
    ensures r == Decode7(encoded)
    ensures r < 16
  {
    var d1 := (encoded >> 2) & 1;
    var d2 := (encoded >> 4) & 1;
    var d3 := (encoded >> 5) & 1;
    var d4 := (encoded >> 6) & 1;
    (d1 << 0) | (d2 << 1) | (d3 << 2) | (d4 << 3)
  }

  /** `send_frame`: two marker units per byte, upper nibble first. */
  method SendFrame(port: Port, data: seq<byte>)
    modifies port`written
    ensures port.written == old(port.written) + EncodeStream(data)
  {
    for i := 0 to |data|
      invariant port.written == old(port.written) + EncodeStream(data[..i])
    {
      var b := data[i];
      var upperNibble := (b >> 4) & 0x0F;
      var lowerNibble := b & 0x0F;
      var encodedUpper := HammingEncode4bit(upperNibble);
      var encodedLower := HammingEncode4bit(lowerNibble);
      port.Write([UnitStart, encodedUpper, UnitEnd]);
      port.Write([UnitStart, encodedLower, UnitEnd]);
      EncodeUsesLowNibble(b >> 4);
      EncodeUsesLowNibble(b);
      assert [UnitStart, encodedUpper, UnitEnd] + [UnitStart, encodedLower, UnitEnd] == EncodeByte(b);
      EncodeStreamAppend(data[..i], b);
      assert data[..i + 1] == data[..i] + [b];
    }
    assert data[..|data|] == data;
  }

  /** `read_frame`: one byte from two good marker units, or `None` once the
      line runs dry; it reads exactly as `UnitStream.NextByte` says. */
  method ReadFrame(port: Port) returns (r: Option<byte>)
    requires port.Valid()
    modifies port`pos
    ensures port.Valid()
    ensures (r, port.pos) == NextByte(port.input, old(port.pos))
  {
    var data: seq<byte> := [];
    while |data| < 2
      invariant port.Valid() && |data| <= 2
      invariant |data| < 2 ==> ReadUnits(port.input, port.pos, data) == NextByte(port.input, old(port.pos))
      invariant |data| == 2 ==> (Some((data[0] << 4) | data[1]), port.pos) == NextByte(port.input, old(port.pos))
      decreases |port.input| - port.pos
    {
      var start := port.Read();
      if start.None? {
        return None;
      }
      if start.value == UnitStart {
        var encoded := port.Read();
        var stop := port.Read();
        if encoded.None? || stop != Some(UnitEnd) {
          continue;
        }
        var decoded := HammingDecode7bit(encoded.value);
        data := data + [decoded];
      }
    }
    r := Some((data[0] << 4) | data[1]);
  }

  /** `send_ack`: an ACK frame with an empty payload, sent with `send_frame`.
      Serialisation fails, and nothing is written, when an address is
      outside 0..255. */
  method SendAck(port: Port, receiverAddr: int, senderAddr: int) returns (r: Result<seq<byte>, FrameError>)
    modifies port`written
    ensures r == ToBytes(Frame(receiverAddr, senderAddr, TypeAck, []))
    ensures r.Ok? <==> IsByteValue(receiverAddr) && IsByteValue(senderAddr)
    ensures r.Ok? ==> FromBytes(r.value) == Ok(Frame(receiverAddr, senderAddr, TypeAck, []))
    ensures port.written == old(port.written) + (if r.Ok? then EncodeStream(r.value) else [])
  {
    var ackFrame := Frame(receiverAddr, senderAddr, TypeAck, []);
    r := ToBytes(ackFrame);
    if r.Ok? {
      ParseOfSerialise(ackFrame);
      SendFrame(port, r.value);
    }
  }

  /** `send_message`: a non-empty message goes out as an I frame to the
      broadcast address with a line feed appended; an empty one sends
      nothing. A message too long for the LENGTH byte fails to serialise
      and nothing is written. `msg` holds the UTF-8 bytes of the text. */
  method SendMessage(port: Port, myAddr: int, msg: seq<byte>) returns (r: Option<Result<seq<byte>, FrameError>>)
    modifies port`written
    ensures msg == [] ==> r == None && port.written == old(port.written)
    ensures msg != [] ==> r.Some?
    ensures r.Some? && r.value.Ok? ==>
      FromBytes(r.value.value) == Ok(Frame(BroadcastAddr, myAddr, TypeI, msg + [0x0A]))
      && port.written == old(port.written) + EncodeStream(r.value.value)
    ensures r.Some? && r.value.Err? ==> port.written == old(port.written)
    ensures r.Some? ==> (r.value.Ok? <==> IsByteValue(myAddr) && |msg| < 255)
  {
    if msg == [] {
      return None;
    }
    var frame := Frame(BroadcastAddr, myAddr, TypeI, msg + [0x0A]);
    var raw := ToBytes(frame);
    if raw.Ok? {
      ParseOfSerialise(frame);
      SendFrame(port, raw.value);
    }
    return Some(raw);
  }

  /** The frame assembler of `read_loop`: the bytes collected so far and
      whether a frame is open. */
  datatype Assembler = Assembler(buffer: seq<byte>, inFrame: bool)

  /** The assembler as `read_loop` starts it. */
  const Idle := Assembler([], false)

  /** One decoded byte through the assembler. The second component is the
      buffer handed to `from_bytes`, if this byte closes a frame. */
  function Step(a: Assembler, b: byte): (r: (Assembler, Option<seq<byte>>))
    // outside a frame, only 0xFF matters: it opens a fresh buffer
    ensures !a.inFrame ==> r == (if b == 0xFF then (Assembler([b], true), None) else (a, None))
    // inside a frame, every byte is kept
    ensures a.inFrame ==> r.0.buffer == a.buffer + [b]
    // the frame closes exactly on a 0xFF that brings the buffer to six bytes or more
    ensures a.inFrame ==> (r.1.Some? <==> b == 0xFF && |a.buffer| >= 5)
    ensures a.inFrame ==> (r.0.inFrame <==> r.1.None?)
    ensures r.1.Some? ==> r.1.value == r.0.buffer
  {
    if b == 0xFF && !a.inFrame then (Assembler([b], true), None)
    else if a.inFrame then
      var buffer := a.buffer + [b];
      if b == 0xFF && |buffer| >= 6 then (Assembler(buffer, false), Some(buffer))
      else (Assembler(buffer, true), None)
    else (a, None)
  }

  /** The assembler fed a byte sequence: its final state and every buffer
      it handed to `from_bytes`, in order. */
  function Feed(a: Assembler, bs: seq<byte>): (r: (Assembler, seq<seq<byte>>))
    ensures |r.1| <= |bs|
  {
    if bs == [] then (a, [])
    else
      var prev := Feed(a, bs[..|bs| - 1]);
      var step := Step(prev.0, bs[|bs| - 1]);
      (step.0, prev.1 + Handed(step.1))
  }

  /** The buffers a step hands on: none or one. */
  function Handed(out: Option<seq<byte>>): (r: seq<seq<byte>>)
    ensures out.None? <==> r == []
  {
    if out.Some? then [out.value] else []
  }

  /** Feeding one more byte is one more `Step`. */
  lemma FeedSnoc(a: Assembler, bs: seq<byte>, b: byte)
    ensures Feed(a, bs + [b]) == (Step(Feed(a, bs).0, b).0, Feed(a, bs).1 + Handed(Step(Feed(a, bs).0, b).1))
  {
    assert (bs + [b])[..|bs|] == bs;
  }

  /** What an open buffer always looks like: it starts with 0xFF and has no
      0xFF from its sixth byte on (such a byte would have closed it). */
  predicate OpenBuffer(buffer: seq<byte>)
  {
    |buffer| >= 1 && buffer[0] == 0xFF && forall k :: 5 <= k < |buffer| ==> buffer[k] != 0xFF
  }

  /** What a buffer handed to `from_bytes` looks like. */
  predicate Candidate(buffer: seq<byte>)
  {
    |buffer| >= 6 && buffer[0] == 0xFF && buffer[|buffer| - 1] == 0xFF
    && forall k :: 5 <= k < |buffer| - 1 ==> buffer[k] != 0xFF
  }

  predicate AssemblerInv(a: Assembler)
  {
    a.inFrame ==> OpenBuffer(a.buffer)
  }

  /** The assembler's invariant survives any input, and every buffer it
      hands on is delimited by 0xFF, at least six bytes long, and holds no
      other 0xFF past the header. */
  lemma {:induction false} FeedKeepsShape(a: Assembler, bs: seq<byte>)
    requires AssemblerInv(a)
    ensures AssemblerInv(Feed(a, bs).0)
    ensures forall i :: 0 <= i < |Feed(a, bs).1| ==> Candidate(Feed(a, bs).1[i])
  {
    if bs != [] {
      var prefix := bs[..|bs| - 1];
      FeedKeepsShape(a, prefix);
      var (mid, done) := Feed(a, prefix);
      var b := bs[|bs| - 1];
      var (next, out) := Step(mid, b);
      if out.Some? {
        assert out.value == mid.buffer + [b];
        assert Candidate(out.value);
      }
    }
  }

  /** Inside an open buffer, a byte that is not a closing 0xFF is kept and
      the frame stays open. */
  lemma CollectStep(s: seq<byte>, n: nat)
    requires 2 <= n <= |s|
    requires n - 1 < 5 || s[n - 1] != 0xFF
    ensures Step(Assembler(s[..n - 1], true), s[n - 1]) == (Assembler(s[..n], true), None)
  {
    assert s[..n - 1] + [s[n - 1]] == s[..n];
  }

  /** From a closed assembler, the first `n` bytes of a buffer that starts
      with 0xFF and has no 0xFF at positions 5..n-1 are all collected, and
      nothing is handed on yet. */
  lemma {:induction false} PrefixCollected(a: Assembler, s: seq<byte>, n: nat)
    requires !a.inFrame && 1 <= n <= |s| && s[0] == 0xFF
    requires forall k :: 5 <= k < n ==> s[k] != 0xFF
    ensures Feed(a, s[..n]) == (Assembler(s[..n], true), [])
  {
    if n == 1 {
      assert s[..1] == [] + [s[0]];
      FeedSnoc(a, [], s[0]);
    } else {
      PrefixCollected(a, s, n - 1);
      CollectStep(s, n);
      FeedSnoc(a, s[..n - 1], s[n - 1]);
      assert s[..n - 1] + [s[n - 1]] == s[..n];
    }
  }

  /** The first `n` bytes of `s`, fed to a closed assembler, make up
      exactly one buffer handed to `from_bytes` when they start and end with
      0xFF, number six or more, and hold no 0xFF at positions 5..n-2. */
  lemma FrameCollected(a: Assembler, s: seq<byte>, n: nat)
    requires !a.inFrame && 6 <= n <= |s| && s[0] == 0xFF && s[n - 1] == 0xFF
    requires forall k :: 5 <= k < n - 1 ==> s[k] != 0xFF
    ensures Feed(a, s[..n]) == (Assembler(s[..n], false), [s[..n]])
  {
    PrefixCollected(a, s, n - 1);
    CloseStep(s, n);
    var step := Step(Assembler(s[..n - 1], true), s[n - 1]);
    FeedSnoc(a, s[..n - 1], s[n - 1]);
    assert Feed(a, s[..n - 1] + [s[n - 1]]) == (step.0, [] + Handed(step.1));
    assert s[..n - 1] + [s[n - 1]] == s[..n];
    assert [] + Handed(step.1) == [s[..n]];
  }

  /** A 0xFF that brings an open buffer to six bytes or more closes it and
      hands it on. */
  lemma CloseStep(s: seq<byte>, n: nat)
    requires 6 <= n <= |s| && s[n - 1] == 0xFF
    ensures Step(Assembler(s[..n - 1], true), s[n - 1]) == (Assembler(s[..n], false), Some(s[..n]))
  {
    assert s[..n - 1] + [s[n - 1]] == s[..n];
  }

  /** A frame whose payload holds no 0xFF, arriving while no frame is open,
      is handed to `from_bytes` whole and alone, and closes the assembler. */
  lemma CleanFrameDelivered(a: Assembler, raw: seq<byte>)
    requires !a.inFrame && WellFormed(raw)
    requires forall k :: 5 <= k < |raw| - 1 ==> raw[k] != 0xFF
    ensures Feed(a, raw) == (Assembler(raw, false), [raw])
  {
    FrameCollected(a, raw, |raw|);
    assert raw[..|raw|] == raw;
  }

  /** A payload byte 0xFF (the payload is not escaped) closes the frame
      early: the cut buffer is handed to `from_bytes`, which rejects it, so
      the frame is lost. */
  lemma EarlyClose(a: Assembler, raw: seq<byte>, k: nat)
    requires !a.inFrame && WellFormed(raw)
    requires 5 <= k < |raw| - 1 && raw[k] == 0xFF
    requires forall j :: 5 <= j < k ==> raw[j] != 0xFF
    ensures Feed(a, raw[..k + 1]) == (Assembler(raw[..k + 1], false), [raw[..k + 1]])
    ensures FromBytes(raw[..k + 1]).Err?
  {
    FrameCollected(a, raw, k + 1);
    TruncatedFrameRejected(raw, k + 1);
  }

  /** What `read_loop` answers to a buffer handed to `from_bytes`: an ACK,
      from the address it was sent to back to its sender, exactly for a
      well-formed I frame addressed to `myAddr` or to the broadcast address.
      Frames for other nodes and malformed buffers are only logged. */
  function AckFor(raw: seq<byte>, myAddr: int): (r: Option<Frame>)
    ensures r.Some? <==> WellFormed(raw) && (raw[1] as int == myAddr || raw[1] as int == BroadcastAddr)
                         && raw[3] as int == TypeI
    ensures r.Some? ==> r.value == Frame(raw[2] as int, raw[1] as int, TypeAck, []) && Serialisable(r.value)
  {
    match FromBytes(raw)
    case Err(_) => None
    case Ok(frame) =>
      if frame.receiver != myAddr && frame.receiver != BroadcastAddr then None
      else if frame.frameType == TypeI then Some(Frame(frame.sender, frame.receiver, TypeAck, []))
      else None
  }

  /** The bytes `read_loop` writes in answer to one buffer: the ACK
      frame, if any, through `send_frame`. */
  function AckBytes(raw: seq<byte>, myAddr: int): (r: seq<byte>)
    ensures r == [] <==> AckFor(raw, myAddr).None?
    ensures AckFor(raw, myAddr).Some? ==>
      |r| == 36 && FromBytes(JoinNibbles(UnitNibbles(r))) == Ok(AckFor(raw, myAddr).value)
  {
    var ack := AckFor(raw, myAddr);
    if ack.Some? then
      ParseOfSerialise(ack.value);
      DecodeStreamRoundTrip(ToBytes(ack.value).value);
      EncodeStream(ToBytes(ack.value).value)
    else []
  }

  /** The bytes written in answer to what one step hands on. */
  function Answer(out: Option<seq<byte>>, myAddr: int): seq<byte>
  {
    if out.Some? then AckBytes(out.value, myAddr) else []
  }

  /** The bytes `read_loop` writes in answer to a sequence of buffers. */
  function AckStream(raws: seq<seq<byte>>, myAddr: int): (r: seq<byte>)
    ensures |r| % 36 == 0 && |r| <= 36 * |raws|
  {
    if raws == [] then []
    else AckStream(raws[..|raws| - 1], myAddr) + AckBytes(raws[|raws| - 1], myAddr)
  }

  lemma AckStreamStep(raws: seq<seq<byte>>, out: Option<seq<byte>>, myAddr: int)
    ensures AckStream(raws + Handed(out), myAddr) == AckStream(raws, myAddr) + Answer(out, myAddr)
  {
    if out.Some? {
      AckStreamSnoc(raws, out.value, myAddr);
    } else {
      assert raws + Handed(out) == raws;
    }
  }

  lemma AckStreamSnoc(raws: seq<seq<byte>>, raw: seq<byte>, myAddr: int)
    ensures AckStream(raws + [raw], myAddr) == AckStream(raws, myAddr) + AckBytes(raw, myAddr)
  {
    assert (raws + [raw])[..|raws|] == raws;
  }

  /** The body of `read_loop` for one decoded byte `b`: the assembler
      takes it, and a closed buffer is parsed, filtered and, for an I frame
      addressed here, acknowledged. */
  method TakeByte(port: Port, myAddr: int, buffer: seq<byte>, inFrame: bool, b: byte)
    returns (buffer': seq<byte>, inFrame': bool)
    modifies port`written
    ensures (Assembler(buffer', inFrame'), Step(Assembler(buffer, inFrame), b).1) == Step(Assembler(buffer, inFrame), b)
    ensures port.written == old(port.written) + Answer(Step(Assembler(buffer, inFrame), b).1, myAddr)
  {
    buffer', inFrame' := buffer, inFrame;
    if b == 0xFF && !inFrame' {
      buffer' := [b];
      inFrame' := true;
    } else if inFrame' {
      buffer' := buffer' + [b];
      if b == 0xFF && |buffer'| >= 6 {
        AckBytesOfParse(buffer', myAddr);
        var parsed := FromBytes(buffer');
        if parsed.Ok? {
          var frame := parsed.value;
          if frame.receiver != myAddr && frame.receiver != BroadcastAddr {
            // not for this node: only logged
          } else if frame.frameType == TypeI {
            var sent := SendAck(port, frame.sender, frame.receiver);
          }
        }
        inFrame' := false;
      }
    }
  }

  /** `read_loop` for `rounds` turns of its loop (the source turns until
      the window is closed). It reads as `rounds` successive `read_frame`
      calls do, feeds the bytes they return through the assembler, and
      writes the ACKs that `AckFor` calls for, in order. */
  method ReadLoop(port: Port, myAddr: int, rounds: nat)
    requires port.Valid()
    modifies port`pos, port`written
    ensures port.Valid()
    ensures port.pos == Reads(port.input, old(port.pos), rounds).1
    ensures port.written == old(port.written)
              + AckStream(Feed(Idle, Present(Reads(port.input, old(port.pos), rounds).0)).1, myAddr)
  {
    var buffer: seq<byte> := [];
    var inFrame := false;
    ghost var seen: seq<byte> := [];
    ghost var handed: seq<seq<byte>> := [];
    var i := 0;
    while i < rounds
      invariant 0 <= i <= rounds
      invariant LoopState(port, old(port.pos), old(port.written), myAddr, i, seen, handed, buffer, inFrame)
    {
      buffer, inFrame, seen, handed := Round(port, old(port.pos), old(port.written), myAddr, i, seen, handed, buffer, inFrame);
      i := i + 1;
    }
  }

  /** What `read_loop` has done after `i` turns begun with the cursor at
      `start` and `log` written: the cursor, the bytes decoded, the
      assembler and the buffers handed on are those of the specification,
      and the port has the ACKs for those buffers appended. */
  ghost predicate LoopState(port: Port, start: nat, log: seq<byte>, myAddr: int, i: nat,
                            seen: seq<byte>, handed: seq<seq<byte>>, buffer: seq<byte>, inFrame: bool)
    reads port
  {
    port.Valid() && start <= |port.input|
    && port.pos == Reads(port.input, start, i).1
    && seen == Present(Reads(port.input, start, i).0)
    && Feed(Idle, seen) == (Assembler(buffer, inFrame), handed)
    && port.written == log + AckStream(handed, myAddr)
  }

  /** One turn of `read_loop`: a `read_frame` call and, when it returns a
      byte, one assembler step. */
  method Round(port: Port, ghost start: nat, ghost log: seq<byte>, myAddr: int, ghost i: nat,
               ghost seen: seq<byte>, ghost handed: seq<seq<byte>>, buffer: seq<byte>, inFrame: bool)
    returns (buffer': seq<byte>, inFrame': bool, ghost seen': seq<byte>, ghost handed': seq<seq<byte>>)
    requires LoopState(port, start, log, myAddr, i, seen, handed, buffer, inFrame)
    modifies port`pos, port`written
    ensures LoopState(port, start, log, myAddr, i + 1, seen', handed', buffer', inFrame')
  {
    buffer', inFrame', seen', handed' := buffer, inFrame, seen, handed;
    ghost var before := Assembler(buffer, inFrame);
    var byte := ReadFrame(port);
    RoundKeeps(port.input, start, i, seen, handed, before, byte, port.pos, myAddr);
    if byte.Some? {
      ghost var out := Step(before, byte.value).1;
      ghost var acks := AckStream(handed, myAddr);
      buffer', inFrame' := TakeByte(port, myAddr, buffer, inFrame, byte.value);
      ConcatAssoc(log, acks, Answer(out, myAddr));
      seen' := seen + [byte.value];
      handed' := handed + Handed(out);
    }
  }

  /** One turn of `read_loop` in terms of the specification: one more
      `read_frame` call, and, if it returns a byte, one more assembler step
      and its answer. */
  lemma RoundKeeps(input: seq<byte>, start: nat, i: nat, seen: seq<byte>, handed: seq<seq<byte>>,
                   a: Assembler, byte: Option<byte>, next: nat, myAddr: int)
    requires start <= |input|
    requires seen == Present(Reads(input, start, i).0)
    requires Feed(Idle, seen) == (a, handed)
    requires (byte, next) == NextByte(input, Reads(input, start, i).1)
    ensures Reads(input, start, i + 1).1 == next
    ensures byte.None? ==> Present(Reads(input, start, i + 1).0) == seen
    ensures byte.Some? ==>
      var step := Step(a, byte.value);
      Present(Reads(input, start, i + 1).0) == seen + [byte.value]
      && Feed(Idle, seen + [byte.value]) == (step.0, handed + Handed(step.1))
      && AckStream(handed + Handed(step.1), myAddr) == AckStream(handed, myAddr) + Answer(step.1, myAddr)
  {
    ReadsStep(input, start, i, byte, next);
    if byte.Some? {
      FeedSnoc(Idle, seen, byte.value);
      AckStreamStep(handed, Step(a, byte.value).1, myAddr);
    }
  }

  /** `AckBytes` along the branches `read_loop` takes after `from_bytes`. */
  lemma AckBytesOfParse(buffer: seq<byte>, myAddr: int)
    ensures FromBytes(buffer).Err? ==> AckBytes(buffer, myAddr) == []
    ensures FromBytes(buffer).Ok? ==>
      var frame := FromBytes(buffer).value;
      IsByteValue(frame.sender) && IsByteValue(frame.receiver)
      && AckBytes(buffer, myAddr)
         == if (frame.receiver == myAddr || frame.receiver == BroadcastAddr) && frame.frameType == TypeI
            then EncodeStream(ToBytes(Frame(frame.sender, frame.receiver, TypeAck, [])).value)
            else []
  {
    if FromBytes(buffer).Ok? {
      ByteIntByte(buffer[1]);
      ByteIntByte(buffer[2]);
    }
  }

  /** A serialised frame whose payload has no 0xFF is well formed and has
      no 0xFF between its header and its stop byte. */
  lemma SerialisedFrameIsClean(f: Frame)
    requires Serialisable(f) && forall k :: 0 <= k < |f.data| ==> f.data[k] != 0xFF
    ensures WellFormed(ToBytes(f).value)
    ensures forall k :: 5 <= k < |ToBytes(f).value| - 1 ==> ToBytes(f).value[k] != 0xFF
  {
    var raw := ToBytes(f).value;
    ParseOfSerialise(f);
    forall k | 5 <= k < |raw| - 1
      ensures raw[k] != 0xFF
    {
      assert raw[k] == raw[5..|raw| - 1][k - 5];
    }
  }

  /** The ACK `read_loop` sends for a well-formed I frame addressed to it. */
  lemma AckForFrame(f: Frame, myAddr: int)
    requires Serialisable(f) && (f.receiver == myAddr || f.receiver == BroadcastAddr) && f.frameType == TypeI
    ensures AckFor(ToBytes(f).value, myAddr) == Some(Frame(f.sender, f.receiver, TypeAck, []))
  {
    ParseOfSerialise(f);
  }

  /** End to end: a frame sent over a quiet line, with no 0xFF in its
      payload, is assembled whole and handed to `from_bytes` alone; when it
      is an I frame for this node or for the broadcast address, the bytes
      written in answer are one ACK from its receiver back to its sender. */
  lemma SentFrameDelivered(f: Frame, myAddr: int)
    requires Serialisable(f) && forall k :: 0 <= k < |f.data| ==> f.data[k] != 0xFF
    ensures var raw := ToBytes(f).value;
            Feed(Idle, Present(Reads(EncodeStream(raw), 0, |raw|).0)).1 == [raw]
    ensures var raw := ToBytes(f).value;
            (f.receiver == myAddr || f.receiver == BroadcastAddr) && f.frameType == TypeI ==>
            AckStream([raw], myAddr) == EncodeStream(ToBytes(Frame(f.sender, f.receiver, TypeAck, [])).value)
  {
    var raw := ToBytes(f).value;
    SentStreamReadBack(raw);
    SerialisedFrameIsClean(f);
    CleanFrameDelivered(Idle, raw);
    AckStreamSnoc([], raw, myAddr);
    assert [] + [raw] == [raw];
    if (f.receiver == myAddr || f.receiver == BroadcastAddr) && f.frameType == TypeI {
      AckForFrame(f, myAddr);
    }
  }
}
