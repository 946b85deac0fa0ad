/** The streaming marker-unit reader `read_frame`, which app_gui.py and
    receiver.py each carry a copy of, stated as functions of the bytes on
    the line and the read cursor.

    The reader reads one byte; anything but 0xFF is skipped. After a 0xFF it
    reads the codeword and the closing byte; if either read comes back empty
    or the closing byte is not 0xFE the three bytes are dropped and scanning
    goes on after them. An empty first read ends the call with `None`, and
    the upper nibble decoded so far is lost. Two good units give one byte. */
module UnitStream {
  import opened Base
  import opened Hamming


  /** The rest of one `read_frame` call from cursor `pos`, with the nibbles
      already decoded in `nibbles`: the result and the cursor afterwards. */
  function ReadUnits(input: seq<byte>, pos: nat, nibbles: seq<byte>): (r: (Option<byte>, nat))
    requires pos <= |input| && |nibbles| < 2
    ensures pos <= r.1 <= |input|
    ensures pos < |input| ==> pos < r.1
    ensures r.0.None? ==> r.1 == |input|
    decreases |input| - pos
  {
    if pos == |input| then (None, pos)
    else if input[pos] != UnitStart then ReadUnits(input, pos + 1, nibbles)
    else if pos + 2 >= |input| || input[pos + 2] != UnitEnd then
      ReadUnits(input, Min(pos + 3, |input|), nibbles)
    else
      var decoded := nibbles + [Decode7(input[pos + 1])];
      if |decoded| == 2 then (Some((decoded[0] << 4) | decoded[1]), pos + 3)
      else ReadUnits(input, pos + 3, decoded)
  }

  /** One `read_frame` call with the cursor at `pos`. It returns `None` only
      when it has consumed all the input. */
  function NextByte(input: seq<byte>, pos: nat): (r: (Option<byte>, nat))
    requires pos <= |input|
    ensures pos <= r.1 <= |input|
    ensures pos < |input| ==> pos < r.1
    ensures r.0.None? ==> r.1 == |input|
  {
    ReadUnits(input, pos, [])
  }

  /** The six bytes of `encode_byte(b)` at the cursor are read back as `b`. */
  lemma NextByteOfEncodedByte(input: seq<byte>, pos: nat, b: byte)
    requires pos + 6 <= |input| && input[pos..pos + 6] == EncodeByte(b)
    ensures NextByte(input, pos) == (Some(b), pos + 6)
  {
    var unit := EncodeByte(b);
    assert input[pos] == unit[0] && input[pos + 1] == unit[1] && input[pos + 2] == unit[2];
    assert input[pos + 3] == unit[3] && input[pos + 4] == unit[4] && input[pos + 5] == unit[5];
    assert ReadUnits(input, pos, []) == ReadUnits(input, pos + 3, [Decode7(unit[1])]);
  }

  /** Bytes other than 0xFF at the cursor are skipped one at a time. */
  lemma {:induction false} ReadUnitsSkipsNoise(input: seq<byte>, pos: nat, n: nat, nibbles: seq<byte>)
    requires pos + n <= |input| && |nibbles| < 2
    requires forall i :: pos <= i < pos + n ==> input[i] != UnitStart
    ensures ReadUnits(input, pos, nibbles) == ReadUnits(input, pos + n, nibbles)
    decreases n
  {
    if n > 0 {
      ReadUnitsSkipsNoise(input, pos + 1, n - 1, nibbles);
    }
  }

  /** Where the two decoders part ways: one stray 0xFF before an encoded
      byte. `decode_stream` moves on by one byte and recovers the byte;
      `read_frame` swallows `FF FF cw` as a broken unit, so the upper unit is
      lost and it runs dry with `None`. */
  lemma StrayMarkerBeforeByte(b: byte)
    ensures JoinNibbles(UnitNibbles([UnitStart] + EncodeByte(b))) == [b]
    ensures NextByte([UnitStart] + EncodeByte(b), 0) == (None, 7)
  {
    var s := [UnitStart] + EncodeByte(b);
    assert s[1..] == EncodeByte(b) + [];
    UnitNibblesOfEncodedByte(b, []);
    assert UnitNibbles(s) == UnitNibbles(s[1..]);
    assert JoinNibbles(UnitNibbles(s)) == [((b >> 4) << 4) | (b & 0x0F)];
    SplitJoin(b);
    assert s[2] != UnitEnd;
    assert ReadUnits(s, 0, []) == ReadUnits(s, 3, []);
    assert ReadUnits(s, 3, []) == ReadUnits(s, 4, []);
    assert ReadUnits(s, 4, []) == ReadUnits(s, 7, [Decode7(s[5])]);
  }

  /** The outcomes of `n` successive `read_frame` calls from cursor `pos`,
      and the cursor afterwards. */
  function Reads(input: seq<byte>, pos: nat, n: nat): (r: (seq<Option<byte>>, nat))
    requires pos <= |input|
    ensures |r.0| == n && pos <= r.1 <= |input|
    decreases n
  {
    if n == 0 then ([], pos)
    else
      var (b, next) := NextByte(input, pos);
      var (rest, last) := Reads(input, next, n - 1);
      ([b] + rest, last)
  }

  /** Every byte sent with `send_frame` is read back, in order, by as many
      `read_frame` calls. */
  lemma {:induction false} ReadsOfEncodedStream(input: seq<byte>, pos: nat, bs: seq<byte>)
    requires pos + 6 * |bs| <= |input| && input[pos..pos + 6 * |bs|] == EncodeStream(bs)
    ensures Reads(input, pos, |bs|).1 == pos + 6 * |bs|
    ensures forall i :: 0 <= i < |bs| ==> Reads(input, pos, |bs|).0[i] == Some(bs[i])
    decreases |bs|
  {
    if bs != [] {
      var stream := EncodeStream(bs);
      assert stream == EncodeByte(bs[0]) + EncodeStream(bs[1..]);
      assert input[pos..pos + 6] == stream[..6];
      NextByteOfEncodedByte(input, pos, bs[0]);
      assert input[pos + 6..pos + 6 + 6 * |bs[1..]|] == stream[6..];
      ReadsOfEncodedStream(input, pos + 6, bs[1..]);
    }
  }

  /** The bytes among read outcomes, in order (empty reads dropped). */
  function Present(outcomes: seq<Option<byte>>): (r: seq<byte>)
    ensures |r| <= |outcomes|
  {
    if outcomes == [] then []
    else (if outcomes[0].Some? then [outcomes[0].value] else []) + Present(outcomes[1..])
  }

  lemma {:induction false} PresentAppend(outcomes: seq<Option<byte>>, o: Option<byte>)
    ensures Present(outcomes + [o]) == Present(outcomes) + (if o.Some? then [o.value] else [])
    decreases |outcomes|
  {
    if outcomes == [] {
      assert [o][1..] == [];
    } else {
      var head := if outcomes[0].Some? then [outcomes[0].value] else [];
      var tail := if o.Some? then [o.value] else [];
      assert (outcomes + [o])[0] == outcomes[0];
      assert (outcomes + [o])[1..] == outcomes[1..] + [o];
      PresentAppend(outcomes[1..], o);
      assert Present(outcomes + [o]) == head + (Present(outcomes[1..]) + tail);
      ConcatAssoc(head, Present(outcomes[1..]), tail);
    }
  }

  /** One more `read_frame` call appends its outcome to those before it. */
  lemma {:induction false} ReadsSnoc(input: seq<byte>, pos: nat, n: nat)
    requires pos <= |input|
    ensures var (outcomes, last) := Reads(input, pos, n);
            Reads(input, pos, n + 1) == (outcomes + [NextByte(input, last).0], NextByte(input, last).1)
    decreases n
  {
    if n > 0 {
      var (b, next) := NextByte(input, pos);
      ReadsSnoc(input, next, n - 1);
      var (rest, last) := Reads(input, next, n - 1);
      assert Reads(input, pos, n) == ([b] + rest, last);
      var o := NextByte(input, last).0;
      assert Reads(input, pos, n + 1) == ([b] + (rest + [o]), NextByte(input, last).1);
      assert [b] + (rest + [o]) == ([b] + rest) + [o];
    } else {
      var (b, next) := NextByte(input, pos);
      assert Reads(input, pos, 1) == ([b] + [], next);
      assert [b] + [] == [] + [b];
    }
  }

  /** Reads that all succeed yield exactly the bytes they carry. */
  lemma {:induction false} PresentOfSuccesses(outcomes: seq<Option<byte>>, bs: seq<byte>)
    requires |outcomes| == |bs|
    requires forall i :: 0 <= i < |bs| ==> outcomes[i] == Some(bs[i])
    ensures Present(outcomes) == bs
  {
    if bs != [] {
      PresentOfSuccesses(outcomes[1..], bs[1..]);
    }
  }

  /** The byte stream a sender puts on an otherwise quiet line is read back
      whole by as many `read_frame` calls. */
  lemma SentStreamReadBack(bs: seq<byte>)
    ensures Present(Reads(EncodeStream(bs), 0, |bs|).0) == bs
    ensures Reads(EncodeStream(bs), 0, |bs|).1 == |EncodeStream(bs)|
  {
    var input := EncodeStream(bs);
    assert input[0..0 + 6 * |bs|] == input;
    ReadsOfEncodedStream(input, 0, bs);
    PresentOfSuccesses(Reads(input, 0, |bs|).0, bs);
  }

  /** The reads after one more `read_frame` call, in the terms a receive
      loop keeps: the cursor, and the bytes seen so far. */
  lemma ReadsStep(input: seq<byte>, pos: nat, n: nat, outcome: Option<byte>, next: nat)
    requires pos <= |input|
    requires (outcome, next) == NextByte(input, Reads(input, pos, n).1)
    ensures Reads(input, pos, n + 1).1 == next
    ensures Present(Reads(input, pos, n + 1).0)
            == Present(Reads(input, pos, n).0) + (if outcome.Some? then [outcome.value] else [])
  {
    ReadsSnoc(input, pos, n);
    PresentAppend(Reads(input, pos, n).0, outcome);
  }
}
