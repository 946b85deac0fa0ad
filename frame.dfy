/** The frame codec of `Frame` (frame.py).

    Wire layout: `START RECEIVER SENDER TYPE LENGTH PAYLOAD... STOP`, where
    START and STOP are both 0xFF and LENGTH counts the payload bytes. The
    payload is never escaped. Address and type fields are Python integers:
    nothing restricts them to seven bits, and serialising a field outside
    0..255 raises. */
module FrameCodec {
  import opened Base

  const StartByte: byte := 0xFF
  const StopByte: byte := 0xFF
  const BroadcastAddr := 0x7F

  const TypeI := 0x01
  const TypeLink := 0x02
  const TypeUplink := 0x03
  const TypeAck := 0x04
  const TypeRet := 0x05

  /** Header bytes plus the stop byte. */
  const Overhead := 6

  /** A frame as `Frame.__init__` stores it. */
  datatype Frame = Frame(receiver: int, sender: int, frameType: int, data: seq<byte>)

  /** The `ValueError`s the codec raises. */
  datatype FrameError =
    | FieldOutOfRange    // `bytes([...])` given a value outside 0..255
    | TooShort           // fewer than six bytes
    | BadDelimiters      // first or last byte is not 0xFF
    | LengthMismatch(actual: int, expected: int)

  predicate IsByteValue(x: int) { 0 <= x < 256 }

  /** Every field fits the one byte `to_bytes` gives it. */
  predicate Serialisable(f: Frame)
  {
    IsByteValue(f.receiver) && IsByteValue(f.sender) && IsByteValue(f.frameType)
    && IsByteValue(|f.data|)
  }

  /** `to_bytes`. */
  function ToBytes(f: Frame): (r: Result<seq<byte>, FrameError>)
    ensures r.Ok? <==> Serialisable(f)
    ensures r.Err? ==> r.error == FieldOutOfRange
    ensures r.Ok? ==> |r.value| == Overhead + |f.data|
    ensures r.Ok? ==> r.value[0] == StartByte && r.value[|r.value| - 1] == StopByte
    ensures r.Ok? ==> (r.value[1] as int == f.receiver && r.value[2] as int == f.sender
                       && r.value[3] as int == f.frameType && r.value[4] as int == |f.data|)
    ensures r.Ok? ==> r.value[5..|r.value| - 1] == f.data
  {
    if !Serialisable(f) then Err(FieldOutOfRange)
    else
      var header: seq<byte> := [StartByte, AsByte(f.receiver), AsByte(f.sender), AsByte(f.frameType), AsByte(|f.data|)];
      var raw := header + f.data + [StopByte];
      assert raw[..5] == header && raw[5..|raw| - 1] == f.data;
      Ok(raw)
  }

  /** The byte `bytes([x])` holds for an `x` in range. */
  function AsByte(x: int): (b: byte)
    requires IsByteValue(x)
    ensures b as int == x
  {
    IntByteInt(x);
    x as byte
  }

  /** `from_bytes`: the three checks in the source's order. */
  function FromBytes(raw: seq<byte>): (r: Result<Frame, FrameError>)
    ensures |raw| < Overhead ==> r == Err(TooShort)
    ensures |raw| >= Overhead && (raw[0] != StartByte || raw[|raw| - 1] != StopByte) ==> r == Err(BadDelimiters)
    ensures (|raw| >= Overhead && raw[0] == StartByte && raw[|raw| - 1] == StopByte
             && |raw| != Overhead + raw[4] as int)
            ==> r == Err(LengthMismatch(|raw|, Overhead + raw[4] as int))
    ensures r.Ok? <==> WellFormed(raw)
    ensures r.Ok? ==> (r.value.receiver == raw[1] as int && r.value.sender == raw[2] as int
                       && r.value.frameType == raw[3] as int && r.value.data == raw[5..|raw| - 1])
  {
    if |raw| < Overhead then Err(TooShort)
    else if raw[0] != StartByte || raw[|raw| - 1] != StopByte then Err(BadDelimiters)
    else
      var length := raw[4] as int;
      if |raw| != Overhead + length then Err(LengthMismatch(|raw|, Overhead + length))
      else Ok(Frame(raw[1] as int, raw[2] as int, raw[3] as int, raw[5..|raw| - 1]))
  }

  /** What `from_bytes` accepts, stated independently of its code. */
  predicate WellFormed(raw: seq<byte>)
  {
    |raw| >= Overhead && raw[0] == StartByte && raw[|raw| - 1] == StopByte
    && |raw| == Overhead + raw[4] as int
  }

  /** Parsing a serialised frame gives back every field. */
  lemma ParseOfSerialise(f: Frame)
    requires Serialisable(f)
    ensures ToBytes(f).Ok? && FromBytes(ToBytes(f).value) == Ok(f)
  {
  }

  /** Serialising a parsed frame gives back the very bytes parsed. */
  lemma SerialiseOfParse(raw: seq<byte>)
    requires FromBytes(raw).Ok?
    ensures ToBytes(FromBytes(raw).value) == Ok(raw)
  {
    var f := FromBytes(raw).value;
    var header := raw[..5];
    forall k | 1 <= k < 5 ensures AsByte(raw[k] as int) == raw[k] {
      ByteIntByte(raw[k]);
    }
    assert header == [StartByte, AsByte(f.receiver), AsByte(f.sender), AsByte(f.frameType), AsByte(|f.data|)];
    assert raw == header + f.data + [StopByte];
  }

  /** A prefix of a well-formed frame that ends in a 0xFF is never itself
      accepted: its length disagrees with the LENGTH field it carries. */
  lemma TruncatedFrameRejected(raw: seq<byte>, n: nat)
    requires WellFormed(raw) && Overhead <= n < |raw|
    ensures FromBytes(raw[..n]).Err?
  {
    assert raw[..n][4] == raw[4];
  }
}
