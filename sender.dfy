/** The console sender (sender.py): its own copies of the Hamming encoder
    and of `send_frame`, and the step of its `main` loop that sends one
    typed message as an I frame from node 0x02 to node 0x01.

    Port selection, the prompts and the printing are not modelled. */
module Sender {
  import opened Base
  import opened Hamming
  import opened FrameCodec
  import opened SerialPort

  const MyAddr := 0x02
  const RecvAddr := 0x01

  /** `hamming_encode_4bit`: the same codeword as `HammingCodec.encode_4bit`. */
  function HammingEncode4bit(data: byte): (r: byte)
    ensures r == Encode4(data)
    ensures r < 0x80
  {
    var d1 := (data >> 0) & 1;
    var d2 := (data >> 1) & 1;
    var d3 := (data >> 2) & 1;
    var d4 := (data >> 3) & 1;
    var p1 := d1 ^ d2 ^ d4;
    var p2 := d1 ^ d3 ^ d4;
    var p3 := d2 ^ d3 ^ d4;
    p1 | (p2 << 1) | (d1 << 2) | (p3 << 3) | (d2 << 4) | (d3 << 5) | (d4 << 6)
  }

  /** `send_frame`: two marker units per byte, upper nibble first; the
      stream it writes is `HammingCodec.encode_byte` of every byte in turn. */
  method SendFrame(port: Port, data: seq<byte>)
    modifies port`written
    ensures port.written == old(port.written) + EncodeStream(data)
  {
    for i := 0 to |data|
      invariant port.written == old(port.written) + EncodeStream(data[..i])
    {
      var b := data[i];
      var upperNibble := (b >> 4) & 0x0F;
      var lowerNibble := b & 0x0F;
      var encodedUpper := HammingEncode4bit(upperNibble);
      var encodedLower := HammingEncode4bit(lowerNibble);
      port.Write([UnitStart, encodedUpper, UnitEnd]);
      port.Write([UnitStart, encodedLower, UnitEnd]);
      EncodeUsesLowNibble(b >> 4);
      EncodeUsesLowNibble(b);
      assert [UnitStart, encodedUpper, UnitEnd] + [UnitStart, encodedLower, UnitEnd] == EncodeByte(b);
      EncodeStreamAppend(data[..i], b);
      assert data[..i + 1] == data[..i] + [b];
    }
    assert data[..|data|] == data;
  }

  /** One message of `main`: an I frame to RecvAddr from MyAddr carrying
      the message bytes, serialised and sent. A message longer than 255
      bytes cannot be serialised; the error ends the program and nothing is
      written. */
  method SendMessage(port: Port, message: seq<byte>) returns (r: Result<seq<byte>, FrameError>)
    modifies port`written
    ensures r.Ok? <==> |message| < 256
    ensures r.Ok? ==> FromBytes(r.value) == Ok(Frame(RecvAddr, MyAddr, TypeI, message))
    ensures r.Ok? ==> port.written == old(port.written) + EncodeStream(r.value)
    ensures r.Err? ==> r.error == FieldOutOfRange && port.written == old(port.written)
  {
    var frame := Frame(RecvAddr, MyAddr, TypeI, message);
    r := ToBytes(frame);
    if r.Ok? {
      ParseOfSerialise(frame);
      SendFrame(port, r.value);
    }
  }
}
