/**
  Binary text and byte packing used by `huffman_compress`: the padding
  count, `"{0:08b}".format(v)`, `int(bits, 2)`, and the model's unpacker.
 */
module BitPacking {
  import opened Pixels
  import opened Wrappers
  import opened Bits

  function Pow2(n: nat): (p: nat)
    ensures p >= 1
  {
    if n == 0 then 1 else 2 * Pow2(n - 1)
  }

  /** `"{0:0<width>b}".format(v)`: `v` in binary, most significant bit first, zero-filled to `width` digits. */
  function ToBinary(v: nat, width: nat): (bits: Code)
    requires v < Pow2(width)
    ensures |bits| == width
  {
    if width == 0 then [] else ToBinary(v / 2, width - 1) + [if v % 2 == 0 then '0' else '1']
  }

  /** `int(bits, 2)`: the number a string of binary digits denotes, most significant first. */
  function BinaryValue(bits: Code): (v: nat)
    ensures v < Pow2(|bits|)
  {
    if bits == [] then 0
    else 2 * BinaryValue(bits[..|bits| - 1]) + (if bits[|bits| - 1] == '1' then 1 else 0)
  }

  /** `width` binary digits denote a number below 2^width; eight digits always make a byte. */
  lemma {:induction false} BinaryValueBound(bits: Code)
    ensures BinaryValue(bits) < Pow2(|bits|)
    ensures |bits| == 8 ==> BinaryValue(bits) < 256
  {
    if bits != [] {
      BinaryValueBound(bits[..|bits| - 1]);
    }
    assert Pow2(8) == 256;
  }

  /** Reading back the binary text of a number gives the number. */
  lemma {:induction false} BinaryValueOfBinary(v: nat, width: nat)
    requires v < Pow2(width)
    ensures BinaryValue(ToBinary(v, width)) == v
  {
    if width > 0 {
      var bits := ToBinary(v, width);
      assert bits[..|bits| - 1] == ToBinary(v / 2, width - 1);
      BinaryValueOfBinary(v / 2, width - 1);
    }
  }

  /** Writing the value of a digit string back out at the same width gives the string. */
  lemma {:induction false} BinaryOfBinaryValue(bits: Code)
    ensures BinaryValue(bits) < Pow2(|bits|)
    ensures ToBinary(BinaryValue(bits), |bits|) == bits
  {
    BinaryValueBound(bits);
    if bits != [] {
      var init := bits[..|bits| - 1];
      BinaryOfBinaryValue(init);
      var v := BinaryValue(bits);
      assert v / 2 == BinaryValue(init);
      assert bits == init + [bits[|bits| - 1]];
    }
  }

  /**
    `8 - len(encoded_data) % 8`: the number of zero bits appended. It lies in
    1..8, is 8 when the code bits are already byte-aligned, and makes the
    padded length the next multiple of 8 strictly above the bit count.
   */
  function Padding(bitCount: nat): (p: nat)
    ensures 1 <= p <= 8
    ensures (bitCount + p) % 8 == 0
    ensures p == 8 <==> bitCount % 8 == 0
    ensures bitCount + p == 8 * (bitCount / 8 + 1)
  {
    8 - bitCount % 8
  }

  /** `"0" * n`. */
  function Zeros(n: nat): (z: Code)
    ensures |z| == n && forall i :: 0 <= i < n ==> z[i] == '0'
  {
    seq(n, _ => '0')
  }

  /** The bits of a byte buffer, eight per byte, most significant first. */
  function BytesToBits(data: seq<Byte>): (bits: Code)
    ensures |bits| == 8 * |data|
  {
    assert Pow2(8) == 256;
    if data == [] then [] else ToBinary(data[0], 8) + BytesToBits(data[1..])
  }

  lemma {:induction false} BytesToBitsAppend(data: seq<Byte>, b: Byte)
    ensures Pow2(8) == 256
    ensures BytesToBits(data + [b]) == BytesToBits(data) + ToBinary(b, 8)
  {
    assert Pow2(8) == 256;
    if data == [] {
      assert data + [b] == [b];
    } else {
      assert (data + [b])[1..] == data[1..] + [b];
      BytesToBitsAppend(data[1..], b);
    }
  }

  /**
    The model's unpacker: the first byte is the padding count; the other
    bytes are unpacked most significant bit first and that many trailing
    bits are dropped. Fails on an empty buffer or a count larger than the
    bits present.
   */
  function Unpack(data: seq<Byte>): Option<Code>
  {
    if data == [] then None
    else
      var pad := data[0];
      var bits := BytesToBits(data[1..]);
      if pad > |bits| then None else Some(bits[..|bits| - pad])
  }
}
