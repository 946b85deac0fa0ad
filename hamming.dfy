/** The Hamming(7,4) nibble codec and the marker-unit byte codec of
    `HammingCodec` (hamming.py).

    A nibble is encoded into a 7-bit codeword with parity bits at positions
    0, 1, 3 and data bits at positions 2, 4, 5, 6. A byte travels as two
    3-byte units `FF cw FE`, upper nibble first.

    The decoder computes the syndrome and flips the bit it points at, but it
    does so AFTER the data bits were extracted: the flip never reaches the
    result. The model keeps that behaviour; `Corrected` is the value the flip
    produces, and the lemmas below show that it is right and yet unused. */
module Hamming {
  import opened Base

  const UnitStart: byte := 0xFF
  const UnitEnd: byte := 0xFE

  /** Bit `k` of `x`, as `(x >> k) & 1` in the source. */
  function Bit(x: byte, k: nat): byte
    requires k < 8
  {
    (x >> k) & 1
  }

  /** `x` with bit `p` inverted: a single bit error on the line. */
  function Flip(x: byte, p: nat): (r: byte)
    requires p < 8
    ensures Bit(r, p) != Bit(x, p)
    ensures forall q :: 0 <= q < 8 && q != p ==> Bit(r, q) == Bit(x, q)
  {
    x ^ (1 << p)
  }

  /** `encode_4bit`: only the low four bits of `data` are used. */
  function Encode4(data: byte): (r: byte)
    ensures r < 0x80
    ensures ErrorPos(r) == 0
    ensures Decode7(r) == data & 0x0F
    ensures Bit(r, 2) == Bit(data, 0) && Bit(r, 4) == Bit(data, 1)
    ensures Bit(r, 5) == Bit(data, 2) && Bit(r, 6) == Bit(data, 3)
  {
    var d1 := (data >> 0) & 1;
    var d2 := (data >> 1) & 1;
    var d3 := (data >> 2) & 1;
    var d4 := (data >> 3) & 1;
    var p1 := d1 ^ d2 ^ d4;
    var p2 := d1 ^ d3 ^ d4;
    var p3 := d2 ^ d3 ^ d4;
    // the seven terms occupy distinct bits, so `|` is exact
    p1 | (p2 << 1) | (d1 << 2) | (p3 << 3) | (d2 << 4) | (d3 << 5) | (d4 << 6)
  }

  /** `error_pos` of `decode_7bit`: the syndrome `s1 + 2*s2 + 4*s3`. */
  function ErrorPos(encoded: byte): (r: byte)
    ensures r < 8
  {
    var p1 := (encoded >> 0) & 1;
    var p2 := (encoded >> 1) & 1;
    var d1 := (encoded >> 2) & 1;
    var p3 := (encoded >> 3) & 1;
    var d2 := (encoded >> 4) & 1;
    var d3 := (encoded >> 5) & 1;
    var d4 := (encoded >> 6) & 1;
    var s1 := p1 ^ d1 ^ d2 ^ d4;
    var s2 := p2 ^ d1 ^ d3 ^ d4;
    var s3 := p3 ^ d2 ^ d3 ^ d4;
    s1 + (s2 << 1) + (s3 << 2)
  }

  /** The value `encoded` holds after the in-place correction of
      `decode_7bit`; the decoder never reads it again. */
  function Corrected(encoded: byte): (r: byte)
    ensures r == encoded <==> ErrorPos(encoded) == 0
    ensures ErrorPos(encoded) != 0 ==> r == Flip(encoded, (ErrorPos(encoded) - 1) as nat)
  {
    var errorPos := ErrorPos(encoded);
    if errorPos != 0 then encoded ^ (1 << (errorPos - 1)) else encoded
  }

  /** `decode_7bit`: the nibble read from bits 2, 4, 5, 6 of the input as
      received (bit 7 and the parity bits are ignored). */
  function Decode7(encoded: byte): (r: byte)
    ensures r < 16
  {
    var d1 := (encoded >> 2) & 1;
    var d2 := (encoded >> 4) & 1;
    var d3 := (encoded >> 5) & 1;
    var d4 := (encoded >> 6) & 1;
    (d1 << 0) | (d2 << 1) | (d3 << 2) | (d4 << 3)
  }

  /** Encoding depends on the low nibble only. */
  lemma EncodeUsesLowNibble(data: byte)
    ensures Encode4(data) == Encode4(data & 0x0F)
  {
  }

  /** Distinct nibbles get distinct codewords. */
  lemma EncodeInjective(m: byte, n: byte)
    requires m < 16 && n < 16 && m != n
    ensures Encode4(m) != Encode4(n)
  {
    assert Decode7(Encode4(m)) == m && Decode7(Encode4(n)) == n;
  }

  /** A single flipped bit of a codeword is located by the syndrome, and the
      in-place correction restores the codeword. */
  lemma SyndromeLocatesSingleError(n: byte, p: nat)
    requires n < 16 && p < 7
    ensures ErrorPos(Flip(Encode4(n), p)) as int == p + 1
    ensures Corrected(Flip(Encode4(n), p)) == Encode4(n)
  {
  }

  /** The result ignores the parity bits and bit 7 of any received byte ... */
  lemma DecodeIgnoresParityBits(c: byte, p: nat)
    requires p == 0 || p == 1 || p == 3 || p == 7
    ensures Decode7(Flip(c, p)) == Decode7(c)
  {
  }

  /** ... and changes with every data bit, whatever the syndrome says. */
  lemma DecodeFollowsDataBits(c: byte, p: nat)
    requires p == 2 || p == 4 || p == 5 || p == 6
    ensures Decode7(Flip(c, p)) != Decode7(c)
    ensures ErrorPos(Flip(c, p)) != ErrorPos(c)
  {
  }

  /** Consequence for one line error on a codeword: a flipped parity bit
      still decodes to the nibble sent, a flipped data bit does not, even
      though the syndrome pointed at it. */
  lemma SingleErrorOutcome(n: byte, p: nat)
    requires n < 16 && p < 7
    ensures Decode7(Flip(Encode4(n), p)) == n <==> (p == 0 || p == 1 || p == 3)
  {
    if p == 0 || p == 1 || p == 3 {
      DecodeIgnoresParityBits(Encode4(n), p);
    } else {
      DecodeFollowsDataBits(Encode4(n), p);
    }
  }

  /** `encode_byte`: two marker-wrapped units, upper nibble first. The
      codeword bytes stay below 0x80, so they are never a marker. */
  function EncodeByte(b: byte): (r: seq<byte>)
    ensures |r| == 6
    ensures r[0] == UnitStart && r[2] == UnitEnd && r[3] == UnitStart && r[5] == UnitEnd
    ensures r[1] < 0x80 && r[4] < 0x80
    ensures r[1] == Encode4(b >> 4) && r[4] == Encode4(b)
    ensures (Decode7(r[1]) << 4) | Decode7(r[4]) == b
  {
    var upperNibble := (b >> 4) & 0x0F;
    var lowerNibble := b & 0x0F;
    EncodeUsesLowNibble(b);
    EncodeUsesLowNibble(b >> 4);
    [UnitStart, Encode4(upperNibble), UnitEnd, UnitStart, Encode4(lowerNibble), UnitEnd]
  }

  /** The bytes of `encode_byte(b)` for every `b` of `bs`, in order: what a
      sender puts on the line for the payload `bs`. */
  function EncodeStream(bs: seq<byte>): (r: seq<byte>)
    ensures |r| == 6 * |bs|
  {
    if bs == [] then [] else EncodeByte(bs[0]) + EncodeStream(bs[1..])
  }

  lemma {:induction false} EncodeStreamAppend(bs: seq<byte>, b: byte)
    ensures EncodeStream(bs + [b]) == EncodeStream(bs) + EncodeByte(b)
  {
    if bs == [] {
      assert [b][1..] == [];
    } else {
      assert (bs + [b])[1..] == bs[1..] + [b];
      EncodeStreamAppend(bs[1..], b);
    }
  }

  lemma {:induction false} EncodeStreamConcat(xs: seq<byte>, ys: seq<byte>)
    ensures EncodeStream(xs + ys) == EncodeStream(xs) + EncodeStream(ys)
  {
    if xs == [] {
      assert xs + ys == ys;
    } else {
      assert (xs + ys)[1..] == xs[1..] + ys;
      EncodeStreamConcat(xs[1..], ys);
    }
  }

  /** Byte `k` of the stream is byte `k % 6` of the encoding of input byte
      `k / 6`. */
  lemma {:induction false} EncodeStreamAt(bs: seq<byte>, k: nat)
    requires k < 6 * |bs|
    ensures EncodeStream(bs)[k] == EncodeByte(bs[k / 6])[k % 6]
  {
    var head := EncodeByte(bs[0]);
    var tail := EncodeStream(bs[1..]);
    assert EncodeStream(bs) == head + tail;
    if k < 6 {
      assert k / 6 == 0 && k % 6 == k;
      assert (head + tail)[k] == head[k];
    } else {
      var j := k - 6;
      EncodeStreamAt(bs[1..], j);
      assert j / 6 == k / 6 - 1 && j % 6 == k % 6;
      assert bs[1..][j / 6] == bs[k / 6];
      assert (head + tail)[k] == tail[j];
    }
  }

  /** In an encoded stream 0xFF occurs exactly at the first byte of each
      3-byte unit and 0xFE exactly at the last: markers never collide with
      codewords. */
  lemma MarkersOnlyAtUnitEdges(bs: seq<byte>, k: nat)
    requires k < |EncodeStream(bs)|
    ensures EncodeStream(bs)[k] == UnitStart <==> k % 3 == 0
    ensures EncodeStream(bs)[k] == UnitEnd <==> k % 3 == 2
  {
    EncodeStreamAt(bs, k);
  }

  /** What the scanning loop of `decode_stream` collects: at `FF ? FE` the
      decoded middle byte, after which it jumps three bytes; anywhere else
      it skips one byte. */
  function UnitNibbles(s: seq<byte>): (r: seq<byte>)
    ensures |r| <= |s| / 3
    decreases |s|
  {
    if s == [] then []
    else if s[0] == UnitStart && 2 < |s| && s[2] == UnitEnd then
      [Decode7(s[1])] + UnitNibbles(s[3..])
    else UnitNibbles(s[1..])
  }

  /** What the pairing loop of `decode_stream` builds: consecutive nibbles
      joined upper-first; a trailing odd nibble is dropped. */
  function JoinNibbles(ns: seq<byte>): (r: seq<byte>)
    ensures |r| == |ns| / 2
  {
    if |ns| < 2 then [] else [(ns[0] << 4) | ns[1]] + JoinNibbles(ns[2..])
  }

  /** `decode_stream`. */
  method DecodeStream(data: seq<byte>) returns (finalResult: seq<byte>)
    ensures finalResult == JoinNibbles(UnitNibbles(data))
    ensures |finalResult| <= |data| / 6
  {
    var result: seq<byte> := [];
    var i := 0;
    while i < |data|
      invariant 0 <= i <= |data|
      invariant result + UnitNibbles(data[i..]) == UnitNibbles(data)
    {
      UnitNibblesAt(data, i);
      if data[i] == UnitStart && i + 2 < |data| && data[i + 2] == UnitEnd {
        ConcatAssoc(result, [Decode7(data[i + 1])], UnitNibbles(data[i + 3..]));
        result := result + [Decode7(data[i + 1])];
        i := i + 3;
      } else {
        i := i + 1;
      }
    }
    UnitNibblesAt(data, i);
    assert result == UnitNibbles(data);

    finalResult := [];
    var k := 0;
    while k < |result|
      invariant 0 <= k <= |result| + 1
      invariant finalResult + JoinNibbles(result[Min(k, |result|)..]) == JoinNibbles(result)
    {
      JoinNibblesAt(result, k);
      if k + 1 < |result| {
        var pair := (result[k] << 4) | result[k + 1];
        ConcatAssoc(finalResult, [pair], JoinNibbles(result[k + 2..]));
        finalResult := finalResult + [pair];
      }
      k := k + 2;
    }
    JoinNibblesAt(result, |result|);
    assert finalResult == JoinNibbles(result);
    DecodedLengthBound(data);
  }

  /** Every output byte takes at least two 3-byte units of input. */
  lemma DecodedLengthBound(data: seq<byte>)
    ensures |JoinNibbles(UnitNibbles(data))| <= |data| / 6
  {
    var n := |UnitNibbles(data)|;
    assert n <= |data| / 3;
    assert n / 2 <= (|data| / 3) / 2;
  }


  /** One step of the scanning loop, from position `i`. */
  lemma UnitNibblesAt(s: seq<byte>, i: nat)
    requires i <= |s|
    ensures i == |s| ==> UnitNibbles(s[i..]) == []
    ensures i < |s| && s[i] == UnitStart && i + 2 < |s| && s[i + 2] == UnitEnd ==>
      UnitNibbles(s[i..]) == [Decode7(s[i + 1])] + UnitNibbles(s[i + 3..])
    ensures i < |s| && !(s[i] == UnitStart && i + 2 < |s| && s[i + 2] == UnitEnd) ==>
      UnitNibbles(s[i..]) == UnitNibbles(s[i + 1..])
  {
    if i < |s| {
      assert s[i..][1..] == s[i + 1..];
      if i + 3 <= |s| {
        assert s[i..][3..] == s[i + 3..];
      }
    }
  }

  /** One step of the pairing loop, from position `k`. */
  lemma JoinNibblesAt(ns: seq<byte>, k: nat)
    requires k <= |ns|
    ensures k + 1 < |ns| ==> JoinNibbles(ns[k..]) == [(ns[k] << 4) | ns[k + 1]] + JoinNibbles(ns[k + 2..])
    ensures k + 1 >= |ns| ==> JoinNibbles(ns[k..]) == []
  {
    if k + 1 < |ns| {
      assert ns[k..][2..] == ns[k + 2..];
    }
  }

  /** The units of one encoded byte yield its two nibbles. */
  lemma UnitNibblesOfEncodedByte(b: byte, rest: seq<byte>)
    ensures UnitNibbles(EncodeByte(b) + rest) == [b >> 4, b & 0x0F] + UnitNibbles(rest)
  {
    var s := EncodeByte(b) + rest;
    assert s[3..][3..] == rest;
  }

  /** Bytes other than 0xFF in front of a stream are skipped over. */
  lemma {:induction false} UnitNibblesSkipsNoise(noise: seq<byte>, s: seq<byte>)
    requires forall i :: 0 <= i < |noise| ==> noise[i] != UnitStart
    ensures UnitNibbles(noise + s) == UnitNibbles(s)
  {
    if noise != [] {
      assert (noise + s)[1..] == noise[1..] + s;
      UnitNibblesSkipsNoise(noise[1..], s);
    } else {
      assert noise + s == s;
    }
  }

  /** `decode_stream` inverts the concatenation of `encode_byte`. */
  lemma {:induction false} DecodeStreamRoundTrip(bs: seq<byte>)
    ensures JoinNibbles(UnitNibbles(EncodeStream(bs))) == bs
  {
    if bs != [] {
      var b := bs[0];
      var tail := UnitNibbles(EncodeStream(bs[1..]));
      UnitNibblesOfEncodedByte(b, EncodeStream(bs[1..]));
      JoinNibblesCons(b >> 4, b & 0x0F, tail);
      SplitJoin(b);
      DecodeStreamRoundTrip(bs[1..]);
    }
  }

  lemma JoinNibblesCons(hi: byte, lo: byte, ns: seq<byte>)
    ensures JoinNibbles([hi, lo] + ns) == [(hi << 4) | lo] + JoinNibbles(ns)
  {
    assert ([hi, lo] + ns)[2..] == ns;
  }

  /** Joining the two nibbles of a byte gives the byte back. */
  lemma SplitJoin(b: byte)
    ensures ((b >> 4) << 4) | (b & 0x0F) == b
  {
  }
}
