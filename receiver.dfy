/** The console receiver (receiver.py): its own copies of the Hamming
    decoder and of `read_frame`, and the line buffer of its `main` loop,
    which collects decoded bytes and emits them as a line whenever a line
    feed or carriage return arrives.

    Port selection, UTF-8 decoding of a line and the printing are not
    modelled: a line is emitted as the bytes it holds. */
module Receiver {
  import opened Base
  import opened Hamming
  import opened SerialPort
  import opened UnitStream

  /** `hamming_decode_7bit`: the same nibble as `HammingCodec.decode_7bit`.
      The syndrome and the flip it drives are left out, as in `Decode7`:
      the flip changes the local copy after the data bits have been read. */
  function HammingDecode7bit(encoded: byte): (r: byte)
    ensures r == Decode7(encoded)
    ensures r < 16
  {
    var d1 := (encoded >> 2) & 1;
    var d2 := (encoded >> 4) & 1;
    var d3 := (encoded >> 5) & 1;
    var d4 := (encoded >> 6) & 1;
    (d1 << 0) | (d2 << 1) | (d3 << 2) | (d4 << 3)
  }

  /** `read_frame`: one byte from two good marker units, or `None` once the
      line runs dry; it reads exactly as `UnitStream.NextByte` says. */
  method ReadFrame(port: Port) returns (r: Option<byte>)
    requires port.Valid()
    modifies port`pos
    ensures port.Valid()
    ensures (r, port.pos) == NextByte(port.input, old(port.pos))
  {
    var data: seq<byte> := [];
    while |data| < 2
      invariant port.Valid() && |data| <= 2
      invariant |data| < 2 ==> ReadUnits(port.input, port.pos, data) == NextByte(port.input, old(port.pos))
      invariant |data| == 2 ==> (Some((data[0] << 4) | data[1]), port.pos) == NextByte(port.input, old(port.pos))
      decreases |port.input| - port.pos
    {
      var start := port.Read();
      if start.None? {
        return None;
      }
      if start.value == UnitStart {
        var encoded := port.Read();
        var stop := port.Read();
        if encoded.None? || stop != Some(UnitEnd) {
          continue;
        }
        var decoded := HammingDecode7bit(encoded.value);
        data := data + [decoded];
      }
    }
    r := Some((data[0] << 4) | data[1]);
  }

  /** The bytes that end a line: `\n` and `\r`. */
  predicate IsLineEnd(b: byte)
  {
    b == 0x0A || b == 0x0D
  }

  /** The lines, in order, one after another. */
  function Flatten(lines: seq<seq<byte>>): seq<byte>
  {
    if lines == [] then [] else Flatten(lines[..|lines| - 1]) + lines[|lines| - 1]
  }

  /** A line as `main` emits it: it ends with its one line end. */
  predicate IsLine(line: seq<byte>)
  {
    |line| > 0 && IsLineEnd(line[|line| - 1])
    && forall j :: 0 <= j < |line| - 1 ==> !IsLineEnd(line[j])
  }

  /** No line end anywhere in `bs`. */
  predicate NoLineEnd(bs: seq<byte>)
  {
    forall j :: 0 <= j < |bs| ==> !IsLineEnd(bs[j])
  }

  /** The lines `main` emits for the decoded bytes `bs`, and what is left
      in its buffer. Together they are `bs` again, every emitted line ends
      at its first line end, and the buffer holds none. */
  function Lines(bs: seq<byte>): (r: (seq<seq<byte>>, seq<byte>))
    ensures Flatten(r.0) + r.1 == bs
    ensures forall i :: 0 <= i < |r.0| ==> IsLine(r.0[i])
    ensures NoLineEnd(r.1)
  {
    if bs == [] then ([], [])
    else
      var prev := Lines(bs[..|bs| - 1]);
      var b := bs[|bs| - 1];
      LinesStep(bs, prev.0, prev.1);
      if IsLineEnd(b) then (prev.0 + [prev.1 + [b]], [])
      else (prev.0, prev.1 + [b])
  }

  /** The step of `Lines`: what holds of the lines and buffer for all but
      the last byte carries over to the next lines and buffer. */
  lemma LinesStep(bs: seq<byte>, lines: seq<seq<byte>>, rest: seq<byte>)
    requires bs != [] && Flatten(lines) + rest == bs[..|bs| - 1]
    requires forall i :: 0 <= i < |lines| ==> IsLine(lines[i])
    requires NoLineEnd(rest)
    ensures var b := bs[|bs| - 1];
      IsLineEnd(b) ==>
        Flatten(lines + [rest + [b]]) + [] == bs
        && (forall i :: 0 <= i < |lines| + 1 ==> IsLine((lines + [rest + [b]])[i]))
    ensures var b := bs[|bs| - 1];
      !IsLineEnd(b) ==> Flatten(lines) + (rest + [b]) == bs && NoLineEnd(rest + [b])
  {
    var b := bs[|bs| - 1];
    BufferStep(bs, Flatten(lines), rest);
    if IsLineEnd(b) {
      FlattenSnoc(lines, rest + [b]);
      LineClosed(lines, rest, b);
    }
  }

  /** The bytes so far are what is flattened plus the buffer. */
  lemma BufferStep(bs: seq<byte>, done: seq<byte>, rest: seq<byte>)
    requires bs != [] && done + rest == bs[..|bs| - 1]
    ensures done + (rest + [bs[|bs| - 1]]) == bs
  {
    assert bs == bs[..|bs| - 1] + [bs[|bs| - 1]];
    ConcatAssoc(done, rest, [bs[|bs| - 1]]);
  }

  /** Flattening one more line appends it. */
  lemma FlattenSnoc(lines: seq<seq<byte>>, line: seq<byte>)
    ensures Flatten(lines + [line]) + [] == Flatten(lines) + line
  {
    assert (lines + [line])[..|lines|] == lines;
  }

  /** A buffer without line ends, closed by a line end, is a line. */
  lemma LineClosed(lines: seq<seq<byte>>, rest: seq<byte>, b: byte)
    requires forall i :: 0 <= i < |lines| ==> IsLine(lines[i])
    requires NoLineEnd(rest) && IsLineEnd(b)
    ensures forall i :: 0 <= i < |lines| + 1 ==> IsLine((lines + [rest + [b]])[i])
  {
    var line := rest + [b];
    assert IsLine(line);
    forall i | 0 <= i < |lines| + 1
      ensures IsLine((lines + [line])[i])
    {
      if i < |lines| {
        assert (lines + [line])[i] == lines[i];
      }
    }
  }

  /** Line splitting is decided byte by byte: only a line end emits. */
  lemma LinesSnoc(bs: seq<byte>, b: byte)
    ensures Lines(bs + [b]) ==
      if IsLineEnd(b) then (Lines(bs).0 + [Lines(bs).1 + [b]], []) else (Lines(bs).0, Lines(bs).1 + [b])
  {
    assert (bs + [b])[..|bs|] == bs;
  }

  /** While a line is still open, its bytes wait in the buffer. */
  lemma {:induction false} LinePrefixBuffered(bs: seq<byte>, line: seq<byte>, k: nat)
    requires Lines(bs).1 == [] && IsLine(line) && k < |line|
    ensures Lines(bs + line[..k]) == (Lines(bs).0, line[..k])
    decreases k
  {
    if k == 0 {
      assert bs + line[..0] == bs;
    } else {
      var front := line[..k - 1];
      var b := line[k - 1];
      LinePrefixBuffered(bs, line, k - 1);
      assert line[..k] == front + [b];
      ConcatAssoc(bs, front, [b]);
      LinesSnoc(bs + front, b);
      assert !IsLineEnd(b);
    }
  }

  /** After an emitted line, the next full line is emitted whole. */
  lemma LinesAfterLine(bs: seq<byte>, line: seq<byte>)
    requires Lines(bs).1 == [] && IsLine(line)
    ensures Lines(bs + line) == (Lines(bs).0 + [line], [])
  {
    var k := |line| - 1;
    var front := bs + line[..k];
    var b := line[k];
    LinePrefixBuffered(bs, line, k);
    assert Lines(front) == (Lines(bs).0, line[..k]);
    LinesSnoc(front, b);
    assert IsLineEnd(b);
    assert Lines(front + [b]) == (Lines(bs).0 + [line[..k] + [b]], []);
    FrontLast(line);
    ConcatAssoc(bs, line[..k], [b]);
  }

  /** Splitting undoes flattening: bytes made of whole lines come out as
      exactly those lines, with nothing left in the buffer. */
  lemma {:induction false} LinesOfFlatten(lines: seq<seq<byte>>)
    requires forall i :: 0 <= i < |lines| ==> IsLine(lines[i])
    ensures Lines(Flatten(lines)) == (lines, [])
    decreases |lines|
  {
    if lines != [] {
      var init := lines[..|lines| - 1];
      LinesOfFlatten(init);
      LinesAfterLine(Flatten(init), lines[|lines| - 1]);
      assert init + [lines[|lines| - 1]] == lines;
    }
  }

  /** `main`'s receive loop for `rounds` turns (the source turns until
      interrupted). It reads as `rounds` successive `read_frame` calls do and
      emits, in order, the lines that `Lines` splits their bytes into; the
      buffer keeps the rest. */
  method ReceiveLoop(port: Port, rounds: nat) returns (lines: seq<seq<byte>>, buffer: seq<byte>)
    requires port.Valid()
    modifies port`pos
    ensures port.Valid()
    ensures port.pos == Reads(port.input, old(port.pos), rounds).1
    ensures (lines, buffer) == Lines(Present(Reads(port.input, old(port.pos), rounds).0))
  {
    lines, buffer := [], [];
    ghost var seen: seq<byte> := [];
    var i := 0;
    while i < rounds
      invariant 0 <= i <= rounds && port.Valid()
      invariant port.pos == Reads(port.input, old(port.pos), i).1
      invariant seen == Present(Reads(port.input, old(port.pos), i).0)
      invariant (lines, buffer) == Lines(seen)
    {
      var byte := ReadFrame(port);
      ReadsStep(port.input, old(port.pos), i, byte, port.pos);
      if byte.Some? {
        var b := byte.value;
        LinesSnoc(seen, b);
        seen := seen + [b];
        buffer := buffer + [b];
        if b == 0x0A || b == 0x0D {
          lines := lines + [buffer];
          buffer := [];
        }
      }
      i := i + 1;
    }
  }
}
