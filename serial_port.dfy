/** The serial port as the scripts use it (`ser.read(1)`, `ser.write`).

    The bytes that will arrive are fixed in advance and read through a
    cursor; a read at the end returns nothing, as a read that times out on
    an idle line does. Everything written is appended to a log. */
module SerialPort {
  import opened Base

  class Port {
    const input: seq<byte>
    var pos: nat
    var written: seq<byte>

    ghost predicate Valid()
      reads this
    {
      pos <= |input|
    }

    constructor (input: seq<byte>)
      ensures Valid() && this.input == input && pos == 0 && written == []
    {
      this.input := input;
      pos := 0;
      written := [];
    }

    /** `ser.read(1)`: the next byte, or nothing once the input is used up. */
    method Read() returns (b: Option<byte>)
      requires Valid()
      modifies this`pos
      ensures Valid()
      ensures old(pos) < |input| ==> b == Some(input[old(pos)]) && pos == old(pos) + 1
      ensures old(pos) == |input| ==> b == None && pos == old(pos)
    {
      if pos < |input| {
        b := Some(input[pos]);
        pos := pos + 1;
      } else {
        b := None;
      }
    }

    /** `ser.write(bs)`. */
    method Write(bs: seq<byte>)
      modifies this`written
      ensures written == old(written) + bs
    {
      written := written + bs;
    }
  }
}
