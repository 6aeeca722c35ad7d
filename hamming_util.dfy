/** The bit-level codec (`com.somnath.common.HammingUtil`): byte/bit-string
    conversion, a Hamming(7,4) encoder and decoder with the block layout
    `p0 p1 p2 d3 d2 d1 d0`, the one-bit corruption that simulates a noisy
    channel, and the syndrome-based corrector.

    Bit strings are Java `String`s, so they may hold characters other than
    '0' and '1'. They are modelled as sequences of Unicode scalar values:
    the functions below say what the source does with every character in
    the Basic Multilingual Plane other than a surrogate, and the lemmas say
    what happens on strings of '0' and '1'. */
module HammingUtil {
  import opened Wrappers
  import opened JavaLang
  import opened Messages

  /** The `IllegalArgumentException`s the codec throws. */
  datatype CodecError = NotMultipleOf8(length: nat) | NotMultipleOf7(length: nat)

  predicate IsBit(c: char)
  {
    c == '0' || c == '1'
  }

  predicate IsBinary(s: string)
  {
    forall i :: 0 <= i < |s| ==> IsBit(s[i])
  }

  // ---------------------------------------------------------------------
  // bytesToBinaryString
  // ---------------------------------------------------------------------

  /** The byte after `j` single left shifts, as the loop keeps it. */
  function Shifted(b: bv8, j: nat): bv8
  {
    if j == 0 then b else Shifted(b, j - 1) << 1
  }

  /** Bit `j` of `b` counting from the most significant (0 or 1). */
  function Bit(b: bv8, j: nat): bv8
    requires j < 8
  {
    (if j == 0 then b >> 7 else if j == 1 then b >> 6 else if j == 2 then b >> 5
     else if j == 3 then b >> 4 else if j == 4 then b >> 3 else if j == 5 then b >> 2
     else if j == 6 then b >> 1 else b) & 1
  }

  /** The character for the bit value `v`. */
  function BitCharOf(v: bv8): (c: char)
    ensures IsBit(c)
  {
    if v == 1 then '1' else '0'
  }

  /** The character appended for bit `j` of `b`. */
  function BitChar(b: bv8, j: nat): (c: char)
    requires j < 8
    ensures IsBit(c)
  {
    BitCharOf(Bit(b, j))
  }

  /** After `j` left shifts the loop's `val & 128` tests bit `j` from the
      top. */
  lemma TopOfShifted(b: bv8, j: nat)
    requires j < 8
    ensures (Shifted(b, j) & 128 == 0) == (Bit(b, j) == 0)
  {
    assert Shifted(b, 1) == b << 1 && Shifted(b, 2) == b << 2 && Shifted(b, 3) == b << 3;
    assert Shifted(b, 4) == b << 4 && Shifted(b, 5) == b << 5 && Shifted(b, 6) == b << 6;
    assert Shifted(b, 7) == b << 7;
    if j == 0 {} else if j == 1 {} else if j == 2 {} else if j == 3 {}
    else if j == 4 {} else if j == 5 {} else if j == 6 {} else {}
  }

  /** The eight characters of one byte, most significant bit first. */
  function ByteBits(b: bv8): (s: string)
    ensures |s| == 8 && IsBinary(s)
  {
    seq(8, j requires 0 <= j < 8 => BitChar(b, j))
  }

  /** The bit string of a byte sequence: the bytes in order, eight
      characters each. */
  function BitsOfBytes(bytes: seq<bv8>): (s: string)
    ensures |s| == 8 * |bytes| && IsBinary(s)
  {
    if bytes == [] then [] else BitsOfBytes(bytes[..|bytes| - 1]) + ByteBits(bytes[|bytes| - 1])
  }

  /** Character `8 * k + j` of the bit string is bit `j` of byte `k`. */
  lemma {:induction false} BitsOfBytesAt(bytes: seq<bv8>, k: nat, j: nat)
    requires k < |bytes| && j < 8
    ensures BitsOfBytes(bytes)[8 * k + j] == BitChar(bytes[k], j)
  {
    var n := |bytes| - 1;
    if k < n {
      BitsOfBytesAt(bytes[..n], k, j);
    }
  }

  method BytesToBinaryString(bytes: seq<bv8>) returns (binary: string)
    ensures binary == BitsOfBytes(bytes)
  {
    binary := [];
    for k := 0 to |bytes|
      invariant binary == BitsOfBytes(bytes[..k])
    {
      var val := bytes[k];
      ghost var before := binary;
      for i := 0 to 8
        invariant val == Shifted(bytes[k], i)
        invariant binary == before + ByteBits(bytes[k])[..i]
      {
        binary := binary + [if val & 128 == 0 then '0' else '1'];
        TopOfShifted(bytes[k], i);
        assert ByteBits(bytes[k])[..i + 1] == ByteBits(bytes[k])[..i] + [BitChar(bytes[k], i)];
        val := val << 1;
      }
      assert ByteBits(bytes[k])[..8] == ByteBits(bytes[k]);
      assert bytes[..k + 1][..k] == bytes[..k];
    }
    assert bytes[..|bytes|] == bytes;
  }

  // ---------------------------------------------------------------------
  // binaryStringToBytes
  // ---------------------------------------------------------------------

  /** The low eight bits of Java's `c - '0'`. The source builds each byte in
      an `int` as `(v << 1) | (c - '0')` and keeps the low eight bits with a
      `(byte)` cast; a left shift never moves higher bits down, so those low
      bits depend only on the low bits of each term. */
  function LowByte(c: char): (v: bv8)
  {
    if c == '0' then 0 else if c == '1' then 1 else ByteOf((c as int - '0' as int) % 256)
  }

  /** The eight-bit pattern of a number below 256, counted up from 0. */
  function ByteOf(x: nat): bv8
    requires x < 256
  {
    if x == 0 then 0 else ByteOf(x - 1) + 1
  }

  lemma LowByteOfBit(c: char)
    requires IsBit(c)
    ensures LowByte(c) == if c == '1' then 1 else 0
  {
  }

  /** The terms `c - '0'` of a run of characters, in eight bits. */
  function LowBytes(s: string): (vs: seq<bv8>)
    ensures |vs| == |s| && forall i :: 0 <= i < |s| ==> vs[i] == LowByte(s[i])
  {
    seq(|s|, i requires 0 <= i < |s| => LowByte(s[i]))
  }

  /** One turn of the inner loop: `(byteValue << 1) | term`. */
  function ShiftIn(byteValue: bv8, term: bv8): bv8
  {
    (byteValue << 1) | term
  }

  /** The byte built from a run of terms, the first shifted furthest left. */
  function Pack(vs: seq<bv8>): bv8
  {
    if vs == [] then 0 else ShiftIn(Pack(vs[..|vs| - 1]), vs[|vs| - 1])
  }

  /** The bytes of the whole eight-character groups of `s`, in order. */
  function BytesOfBits(s: string): seq<bv8>
  {
    if |s| < 8 then [] else BytesOfBits(s[..|s| - 8]) + [Pack(LowBytes(s[|s| - 8..]))]
  }

  /** What `binaryStringToBytes` returns or throws. */
  function ToBytes(s: string): Result<seq<bv8>, CodecError>
  {
    if |s| % 8 != 0 then Failure(NotMultipleOf8(|s|)) else Success(BytesOfBits(s))
  }

  method BinaryStringToBytes(binaryString: string) returns (r: Result<seq<bv8>, CodecError>)
    ensures r == ToBytes(binaryString)
  {
    if |binaryString| % 8 != 0 {
      return Failure(NotMultipleOf8(|binaryString|));
    }
    var bytes := new bv8[|binaryString| / 8];
    assert 8 * bytes.Length == |binaryString|;
    for i := 0 to bytes.Length
      invariant bytes[..i] == BytesOfBits(binaryString[..8 * i])
    {
      var byteValue: bv8 := 0;
      ghost var terms := LowBytes(binaryString[8 * i..8 * i + 8]);
      for j := 0 to 8
        invariant byteValue == Pack(terms[..j])
        invariant bytes[..i] == BytesOfBits(binaryString[..8 * i])
      {
        PackStep(terms, j);
        assert terms[j] == LowByte(binaryString[i * 8 + j]);
        byteValue := (byteValue << 1) | LowByte(binaryString[i * 8 + j]);
      }
      assert terms[..8] == terms;
      bytes[i] := byteValue;
      assert bytes[..i + 1] == bytes[..i] + [byteValue];
      BytesOfBitsStep(binaryString, i);
    }
    assert binaryString[..8 * bytes.Length] == binaryString;
    assert bytes[..] == bytes[..bytes.Length];
    return Success(bytes[..]);
  }

  lemma BytesOfBitsStep(s: string, i: nat)
    requires 8 * i + 8 <= |s|
    ensures BytesOfBits(s[..8 * i + 8]) == BytesOfBits(s[..8 * i]) + [Pack(LowBytes(s[8 * i..8 * i + 8]))]
  {
    assert s[..8 * i + 8][..8 * i] == s[..8 * i];
    assert s[..8 * i + 8][8 * i..] == s[8 * i..8 * i + 8];
  }

  /** Eight shift-and-or steps, written out. */
  function Join(v0: bv8, v1: bv8, v2: bv8, v3: bv8, v4: bv8, v5: bv8, v6: bv8, v7: bv8): bv8
  {
    ShiftIn(ShiftIn(ShiftIn(ShiftIn(ShiftIn(ShiftIn(ShiftIn(ShiftIn(0, v0), v1), v2), v3), v4), v5), v6), v7)
  }

  lemma PackStep(vs: seq<bv8>, k: nat)
    requires k < |vs|
    ensures Pack(vs[..k + 1]) == ShiftIn(Pack(vs[..k]), vs[k])
  {
    assert vs[..k + 1][..k] == vs[..k];
  }

  /** `Pack` of eight terms is `Join` of them. */
  lemma PackEight(vs: seq<bv8>)
    requires |vs| == 8
    ensures Pack(vs) == Join(vs[0], vs[1], vs[2], vs[3], vs[4], vs[5], vs[6], vs[7])
  {
    assert Pack(vs[..0]) == 0;
    PackStep(vs, 0); PackStep(vs, 1); PackStep(vs, 2); PackStep(vs, 3);
    PackStep(vs, 4); PackStep(vs, 5); PackStep(vs, 6); PackStep(vs, 7);
    assert vs[..8] == vs;
  }

  /** Joining the eight bits of a byte gives the byte. */
  lemma JoinBits(b: bv8)
    ensures Join(Bit(b, 0), Bit(b, 1), Bit(b, 2), Bit(b, 3), Bit(b, 4), Bit(b, 5), Bit(b, 6), Bit(b, 7)) == b
  {
  }

  /** The bits of a joined byte are the joined bit values. */
  lemma BitOfJoin(v0: bv8, v1: bv8, v2: bv8, v3: bv8, v4: bv8, v5: bv8, v6: bv8, v7: bv8)
    requires v0 <= 1 && v1 <= 1 && v2 <= 1 && v3 <= 1 && v4 <= 1 && v5 <= 1 && v6 <= 1 && v7 <= 1
    ensures var b := Join(v0, v1, v2, v3, v4, v5, v6, v7);
      Bit(b, 0) == v0 && Bit(b, 1) == v1 && Bit(b, 2) == v2 && Bit(b, 3) == v3
      && Bit(b, 4) == v4 && Bit(b, 5) == v5 && Bit(b, 6) == v6 && Bit(b, 7) == v7
  {
  }

  /** Packing the eight characters of a byte gives the byte back. */
  lemma PackByteBits(b: bv8)
    ensures Pack(LowBytes(ByteBits(b))) == b
  {
    var vs := LowBytes(ByteBits(b));
    forall j | 0 <= j < 8 ensures vs[j] == Bit(b, j) {
      LowByteOfBit(ByteBits(b)[j]);
    }
    PackEight(vs);
    JoinBits(b);
  }

  /** The bits of the byte packed from eight bit values are those values. */
  lemma BitsOfPack(vs: seq<bv8>)
    requires |vs| == 8 && forall j :: 0 <= j < 8 ==> vs[j] <= 1
    ensures forall j :: 0 <= j < 8 ==> Bit(Pack(vs), j) == vs[j]
  {
    PackEight(vs);
    BitOfJoin(vs[0], vs[1], vs[2], vs[3], vs[4], vs[5], vs[6], vs[7]);
    var b := Pack(vs);
    forall j | 0 <= j < 8 ensures Bit(b, j) == vs[j] {
      if j == 0 {} else if j == 1 {} else if j == 2 {} else if j == 3 {}
      else if j == 4 {} else if j == 5 {} else if j == 6 {} else {}
    }
  }

  /** The characters of the byte packed from eight '0'/'1' characters are
      those characters. */
  lemma ByteBitsPack(s: string)
    requires |s| == 8 && IsBinary(s)
    ensures ByteBits(Pack(LowBytes(s))) == s
  {
    var vs := LowBytes(s);
    forall j | 0 <= j < 8 ensures vs[j] <= 1 && BitCharOf(vs[j]) == s[j] {
      LowByteOfBit(s[j]);
    }
    BitsOfPack(vs);
    var b := Pack(vs);
    assert forall j :: 0 <= j < 8 ==> ByteBits(b)[j] == BitCharOf(vs[j]);
  }

  /** Bytes to bits to bytes is the identity. */
  lemma {:induction false} BytesRoundTrip(bytes: seq<bv8>)
    ensures ToBytes(BitsOfBytes(bytes)) == Success(bytes)
  {
    if bytes != [] {
      var n := |bytes| - 1;
      var s := BitsOfBytes(bytes);
      BytesRoundTrip(bytes[..n]);
      assert s[..|s| - 8] == BitsOfBytes(bytes[..n]);
      assert s[|s| - 8..] == ByteBits(bytes[n]);
      PackByteBits(bytes[n]);
      assert bytes[..n] + [bytes[n]] == bytes;
    }
  }

  /** Bits to bytes to bits is the identity on `n` whole bytes of '0'/'1'
      characters. */
  lemma {:induction false} BitsOfBytesOfBits(s: string, n: nat)
    requires IsBinary(s) && |s| == 8 * n
    ensures BitsOfBytes(BytesOfBits(s)) == s
  {
    if n > 0 {
      var init, last := s[..|s| - 8], s[|s| - 8..];
      BitsOfBytesOfBits(init, n - 1);
      var bytes := BytesOfBits(s);
      assert bytes[..|bytes| - 1] == BytesOfBits(init);
      ByteBitsPack(last);
      assert init + last == s;
    }
  }

  /** Bits to bytes to bits is the identity on '0'/'1' strings of whole
      bytes. */
  lemma BitsRoundTrip(s: string)
    requires IsBinary(s) && |s| % 8 == 0
    ensures ToBytes(s).Success? && BitsOfBytes(ToBytes(s).value) == s
  {
    BitsOfBytesOfBits(s, |s| / 8);
  }

  // ---------------------------------------------------------------------
  // Java `int` terms and `StringBuilder.append(int)`
  // ---------------------------------------------------------------------

  /** Java's `c - '0'`, an `int`. */
  function Digit(c: char): int
  {
    c as int - '0' as int
  }

  /** What `StringBuilder.append(int)` appends. */
  function Text(x: int): string
  {
    IntToString(x)
  }

  /** The text a run of `append(int)` calls leaves, one call per term. */
  function Render(xs: seq<int>): string
  {
    if xs == [] then [] else Render(xs[..|xs| - 1]) + Text(xs[|xs| - 1])
  }

  lemma RenderSnoc(xs: seq<int>, x: int)
    ensures Render(xs + [x]) == Render(xs) + Text(x)
  {
    assert (xs + [x])[..|xs|] == xs;
  }

  /** Seven `append(int)` calls in a row. */
  lemma RenderSeven(xs: seq<int>, a: int, b: int, c: int, d: int, e: int, f: int, g: int)
    ensures Render(xs + [a, b, c, d, e, f, g])
      == Render(xs) + Text(a) + Text(b) + Text(c) + Text(d) + Text(e) + Text(f) + Text(g)
  {
    var ys := xs + [a] + [b] + [c] + [d] + [e] + [f] + [g];
    RenderSnoc(xs, a);
    RenderSnoc(xs + [a], b);
    RenderSnoc(xs + [a] + [b], c);
    RenderSnoc(xs + [a] + [b] + [c], d);
    RenderSnoc(xs + [a] + [b] + [c] + [d], e);
    RenderSnoc(xs + [a] + [b] + [c] + [d] + [e], f);
    RenderSnoc(xs + [a] + [b] + [c] + [d] + [e] + [f], g);
    assert xs + [a, b, c, d, e, f, g] == ys;
  }

  /** The character of a bit value. */
  function BitOf(x: int): char
  {
    if x == 1 then '1' else '0'
  }

  /** The value of a bit character. */
  function ValueOf(c: char): int
  {
    if c == '1' then 1 else 0
  }

  /** Bit values, each 0 or 1. */
  predicate AllBits(xs: seq<int>)
  {
    forall i :: 0 <= i < |xs| ==> 0 <= xs[i] <= 1
  }

  /** The characters of a run of bit values. */
  function BitString(xs: seq<int>): (s: string)
    ensures |s| == |xs|
  {
    seq(|xs|, i requires 0 <= i < |xs| => BitOf(xs[i]))
  }

  /** Bits render as one character each. */
  lemma {:induction false} RenderBits(xs: seq<int>)
    requires AllBits(xs)
    ensures Render(xs) == BitString(xs)
  {
    if xs != [] {
      var n := |xs| - 1;
      RenderBits(xs[..n]);
      assert Text(xs[n]) == [BitOf(xs[n])];
      assert BitString(xs) == BitString(xs[..n]) + [BitOf(xs[n])];
    }
  }

  /** `^` on two bits. */
  lemma XorBits(a: int, b: int)
    requires 0 <= a <= 1 && 0 <= b <= 1
    ensures Xor(a, b) == if a == b then 0 else 1
  {
    if a == 0 && b == 0 {} else if a == 0 {} else if b == 0 {} else {}
  }

  /** `x | 0 == x` for a non-negative `x`. */
  lemma {:induction false} OrZero(x: int)
    requires x >= 0
    ensures Or(x, 0) == x
    decreases x
  {
    if x != 0 {
      OrZero(x / 2);
    }
  }

  /** Or-ing a bit into a doubled value adds it. */
  lemma OrDoubleBit(x: int, c: int)
    requires x >= 0 && 0 <= c <= 1
    ensures Or(2 * x, c) == 2 * x + c
  {
    if x != 0 {
      assert Or(2 * x, c) == 2 * Or(x, 0) + c;
      OrZero(x);
    }
  }

  /** Three bits shifted into place and or-ed together form their binary
      number. */
  lemma OrBits(s0: int, s1: int, s2: int)
    requires 0 <= s0 <= 1 && 0 <= s1 <= 1 && 0 <= s2 <= 1
    ensures Or(Or(s2 * 4, s1 * 2), s0) == 4 * s2 + 2 * s1 + s0
  {
    if s2 != 0 || s1 != 0 {
      assert Or(s2 * 4, s1 * 2) == 2 * Or(2 * s2, s1);
    }
    OrDoubleBit(s2, s1);
    OrDoubleBit(2 * s2 + s1, s0);
  }

  // ---------------------------------------------------------------------
  // encode
  // ---------------------------------------------------------------------

  /** The seven terms appended for the data block `d3 d2 d1 d0`:
      `p0 p1 p2 d3 d2 d1 d0`. */
  function EncodeBlock(block: string): (xs: seq<int>)
    requires |block| == 4
    ensures |xs| == 7
  {
    var d3, d2, d1, d0 := Digit(block[0]), Digit(block[1]), Digit(block[2]), Digit(block[3]);
    [Xor(Xor(d3, d2), d0), Xor(Xor(d3, d1), d0), Xor(Xor(d2, d1), d0), d3, d2, d1, d0]
  }

  /** The number of '0's appended to reach a multiple of four. */
  function PadLength(n: nat): (k: nat)
    ensures k < 4 && (n + k) % 4 == 0
  {
    (4 - n % 4) % 4
  }

  /** `"0".repeat(k)`. */
  function Zeros(k: nat): (z: string)
    ensures |z| == k && IsBinary(z)
  {
    seq(k, _ => '0')
  }

  /** The input padded with '0's to whole data blocks. */
  function Padded(s: string): (p: string)
    ensures |p| % 4 == 0 && |s| <= |p| < |s| + 4 && p[..|s|] == s
  {
    s + Zeros(PadLength(|s|))
  }

  /** The terms appended for whole data blocks, block by block. */
  function EncodeBlocks(p: string): seq<int>
  {
    if |p| < 4 then [] else EncodeBlocks(p[..|p| - 4]) + EncodeBlock(p[|p| - 4..])
  }

  /** What `encode` returns. */
  function Encoded(s: string): string
  {
    Render(EncodeBlocks(Padded(s)))
  }

  lemma EncodeBlocksStep(p: string, i: nat)
    requires i + 4 <= |p|
    ensures EncodeBlocks(p[..i + 4]) == EncodeBlocks(p[..i]) + EncodeBlock(p[i..i + 4])
  {
    assert p[..i + 4][..i] == p[..i];
    assert p[..i + 4][i..] == p[i..i + 4];
  }

  method Encode(binaryInput: string) returns (encoded: string)
    ensures encoded == Encoded(binaryInput)
  {
    var paddingNeeded := PadLength(|binaryInput|);
    var paddedInput := binaryInput + Zeros(paddingNeeded);
    assert paddedInput == Padded(binaryInput);
    ghost var blocks := |paddedInput| / 4;
    assert 4 * blocks == |paddedInput|;
    encoded := [];
    var i := 0;
    ghost var k := 0;
    while i < |paddedInput|
      invariant i == 4 * k && k <= blocks
      invariant encoded == Render(EncodeBlocks(paddedInput[..i]))
    {
      EncodeBlocksStep(paddedInput, i);
      var dataBlock := paddedInput[i..i + 4];
      var d3 := Digit(dataBlock[0]);
      var d2 := Digit(dataBlock[1]);
      var d1 := Digit(dataBlock[2]);
      var d0 := Digit(dataBlock[3]);
      var p0 := Xor(Xor(d3, d2), d0);
      var p1 := Xor(Xor(d3, d1), d0);
      var p2 := Xor(Xor(d2, d1), d0);
      assert EncodeBlock(dataBlock) == [p0, p1, p2, d3, d2, d1, d0];
      encoded := encoded + Text(p0) + Text(p1) + Text(p2) + Text(d3) + Text(d2) + Text(d1) + Text(d0);
      RenderSeven(EncodeBlocks(paddedInput[..i]), p0, p1, p2, d3, d2, d1, d0);
      i, k := i + 4, k + 1;
    }
    assert paddedInput[..i] == paddedInput;
  }

  // ---------------------------------------------------------------------
  // decode
  // ---------------------------------------------------------------------

  /** The data characters of whole seven-character blocks: positions 3 to 6
      of each, in order. */
  function DecodeBlocks(s: string): string
  {
    if |s| < 7 then [] else DecodeBlocks(s[..|s| - 7]) + s[|s| - 4..]
  }

  /** What `decode` returns or throws. */
  function Decoded(s: string): Result<string, CodecError>
  {
    if |s| % 7 != 0 then Failure(NotMultipleOf7(|s|)) else Success(DecodeBlocks(s))
  }

  lemma DecodeBlocksStep(s: string, i: nat)
    requires i + 7 <= |s|
    ensures DecodeBlocks(s[..i + 7]) == DecodeBlocks(s[..i]) + s[i + 3..i + 7]
  {
    assert s[..i + 7][..i] == s[..i];
    assert s[..i + 7][i + 3..] == s[i + 3..i + 7];
  }

  method Decode(correctedBinaryInput: string) returns (r: Result<string, CodecError>)
    ensures r == Decoded(correctedBinaryInput)
  {
    if |correctedBinaryInput| % 7 != 0 {
      return Failure(NotMultipleOf7(|correctedBinaryInput|));
    }
    ghost var blocks := |correctedBinaryInput| / 7;
    assert 7 * blocks == |correctedBinaryInput|;
    var decodedBinary := [];
    var i := 0;
    ghost var k := 0;
    while i < |correctedBinaryInput|
      invariant i == 7 * k && k <= blocks
      invariant decodedBinary == DecodeBlocks(correctedBinaryInput[..i])
    {
      DecodeBlocksStep(correctedBinaryInput, i);
      var encodedBlock := correctedBinaryInput[i..i + 7];
      decodedBinary := decodedBinary + [encodedBlock[3], encodedBlock[4], encodedBlock[5], encodedBlock[6]];
      assert encodedBlock[3..] == [encodedBlock[3], encodedBlock[4], encodedBlock[5], encodedBlock[6]];
      i, k := i + 7, k + 1;
    }
    assert correctedBinaryInput[..i] == correctedBinaryInput;
    return Success(decodedBinary);
  }

  // ---------------------------------------------------------------------
  // codewords
  // ---------------------------------------------------------------------

  /** The even-parity character over three '0'/'1' characters: '1' exactly
      when an odd number of them are '1'. */
  function Parity(a: char, b: char, c: char): char
  {
    if (a == '1') != ((b == '1') != (c == '1')) then '1' else '0'
  }

  /** A Hamming(7,4) codeword in the layout `p0 p1 p2 d3 d2 d1 d0`: '0'/'1'
      characters whose parity characters cover `d3 d2 d0`, `d3 d1 d0` and
      `d2 d1 d0`. */
  predicate IsCodeword(w: string)
  {
    && |w| == 7 && IsBinary(w)
    && w[0] == Parity(w[3], w[4], w[6])
    && w[1] == Parity(w[3], w[5], w[6])
    && w[2] == Parity(w[4], w[5], w[6])
  }

  /** A string of whole codewords. */
  predicate AllCodewords(s: string)
  {
    if |s| < 7 then s == [] else AllCodewords(s[..|s| - 7]) && IsCodeword(s[|s| - 7..])
  }

  lemma {:induction false} AllCodewordsShape(s: string)
    requires AllCodewords(s)
    ensures |s| % 7 == 0 && IsBinary(s)
  {
    if |s| >= 7 {
      AllCodewordsShape(s[..|s| - 7]);
      assert s == s[..|s| - 7] + s[|s| - 7..];
    }
  }

  /** The parity term computed with `^` on `c - '0'` is the parity bit. */
  lemma XorParity(a: char, b: char, c: char)
    requires IsBit(a) && IsBit(b) && IsBit(c)
    ensures Xor(Xor(Digit(a), Digit(b)), Digit(c)) == ValueOf(Parity(a, b, c))
  {
    XorBits(Digit(a), Digit(b));
    XorBits(Xor(Digit(a), Digit(b)), Digit(c));
  }

  /** The terms of an encoded block are the bit values of its parity and
      data characters. */
  lemma EncodeBlockValues(block: string)
    requires |block| == 4 && IsBinary(block)
    ensures EncodeBlock(block) ==
      [ValueOf(Parity(block[0], block[1], block[3])), ValueOf(Parity(block[0], block[2], block[3])),
       ValueOf(Parity(block[1], block[2], block[3])),
       ValueOf(block[0]), ValueOf(block[1]), ValueOf(block[2]), ValueOf(block[3])]
  {
    XorParity(block[0], block[1], block[3]);
    XorParity(block[0], block[2], block[3]);
    XorParity(block[1], block[2], block[3]);
  }

  /** A block of four '0'/'1' characters is appended as the bits of the
      codeword whose data part is the block. */
  lemma EncodeBinaryBlock(block: string)
    requires |block| == 4 && IsBinary(block)
    ensures AllBits(EncodeBlock(block))
    ensures IsCodeword(BitString(EncodeBlock(block)))
    ensures BitString(EncodeBlock(block))[3..] == block
  {
    var b0, b1, b2, b3 := block[0], block[1], block[2], block[3];
    var w := [Parity(b0, b1, b3), Parity(b0, b2, b3), Parity(b1, b2, b3), b0, b1, b2, b3];
    EncodeBlockValues(block);
    assert BitString(EncodeBlock(block)) == w;
    assert w[3..] == block;
  }

  /** Encoding whole '0'/'1' data blocks produces seven bit values per
      block. */
  lemma {:induction false} EncodeBlocksBits(p: string)
    requires |p| % 4 == 0 && IsBinary(p)
    ensures AllBits(EncodeBlocks(p)) && 4 * |EncodeBlocks(p)| == 7 * |p|
  {
    if |p| >= 4 {
      var init, last := p[..|p| - 4], p[|p| - 4..];
      EncodeBlocksBits(init);
      EncodeBinaryBlock(last);
      var xs, ys := EncodeBlocks(init), EncodeBlock(last);
      assert EncodeBlocks(p) == xs + ys;
      forall i | 0 <= i < |xs + ys| ensures 0 <= (xs + ys)[i] <= 1 {
        if i >= |xs| { assert (xs + ys)[i] == ys[i - |xs|]; }
      }
    }
  }

  /** The characters of two runs of bits are those of each run. */
  lemma BitStringAppend(xs: seq<int>, ys: seq<int>)
    ensures BitString(xs + ys) == BitString(xs) + BitString(ys)
  {
    var e, a, w := BitString(xs + ys), BitString(xs), BitString(ys);
    forall i | 0 <= i < |e| ensures e[i] == (a + w)[i] {
      if i >= |xs| { assert (xs + ys)[i] == ys[i - |xs|]; }
    }
  }

  /** Appending a codeword keeps a string of whole codewords and appends
      the codeword's data part to its decoding. */
  lemma AllCodewordsSnoc(a: string, w: string)
    requires AllCodewords(a) && IsCodeword(w)
    ensures AllCodewords(a + w) && DecodeBlocks(a + w) == DecodeBlocks(a) + w[3..]
  {
    var e := a + w;
    assert e[..|e| - 7] == a && e[|e| - 7..] == w;
    assert e[|e| - 4..] == w[3..];
  }

  /** One more encoded '0'/'1' block keeps the bits whole codewords that
      decode to the data so far. */
  lemma EncodeBlocksShapeStep(init: string, last: string)
    requires AllCodewords(BitString(EncodeBlocks(init))) && DecodeBlocks(BitString(EncodeBlocks(init))) == init
    requires |last| == 4 && IsBinary(last)
    ensures AllCodewords(BitString(EncodeBlocks(init) + EncodeBlock(last)))
    ensures DecodeBlocks(BitString(EncodeBlocks(init) + EncodeBlock(last))) == init + last
  {
    var xs, ys := EncodeBlocks(init), EncodeBlock(last);
    EncodeBinaryBlock(last);
    BitStringAppend(xs, ys);
    AllCodewordsSnoc(BitString(xs), BitString(ys));
  }

  /** The bits of the encoding of whole '0'/'1' data blocks spell whole
      codewords whose data parts are the input. */
  lemma {:induction false} EncodeBlocksShape(p: string)
    requires |p| % 4 == 0 && IsBinary(p)
    ensures AllCodewords(BitString(EncodeBlocks(p)))
    ensures DecodeBlocks(BitString(EncodeBlocks(p))) == p
  {
    if |p| >= 4 {
      var init, last := p[..|p| - 4], p[|p| - 4..];
      EncodeBlocksShape(init);
      EncodeBlocksShapeStep(init, last);
      assert init + last == p;
    } else {
      assert p == [];
    }
  }

  /** `decode` undoes `encode` on '0'/'1' strings, up to the appended
      padding, and the encoding is made of codewords. */
  lemma DecodeEncode(s: string)
    requires IsBinary(s)
    ensures AllCodewords(Encoded(s))
    ensures Decoded(Encoded(s)) == Success(Padded(s))
    ensures Decoded(Encoded(s)).value[..|s|] == s
  {
    var p := Padded(s);
    assert IsBinary(p) by {
      forall i | 0 <= i < |p| ensures IsBit(p[i]) {
        if i >= |s| { assert p[i] == Zeros(PadLength(|s|))[i - |s|]; }
      }
    }
    EncodeBlocksBits(p);
    EncodeBlocksShape(p);
    RenderBits(EncodeBlocks(p));
    AllCodewordsShape(Encoded(s));
  }

  /** `encode` writes seven characters for every four of the padded
      input, so nothing comes only from nothing. */
  lemma EncodedLength(s: string)
    requires IsBinary(s)
    ensures 4 * |Encoded(s)| == 7 * (|s| + PadLength(|s|))
    ensures Encoded(s) == [] <==> s == []
  {
    var e := Encoded(s);
    DecodeEncode(s);
    assert |e| % 7 == 0 && DecodeBlocks(e) == Padded(s);
    DecodeBlocksLength(e, |e| / 7);
  }

  /** A bit string of whole bytes needs no padding, so it is decoded back
      exactly. */
  lemma DecodeEncodeBytes(bytes: seq<bv8>)
    ensures Decoded(Encoded(BitsOfBytes(bytes))) == Success(BitsOfBytes(bytes))
  {
    var s := BitsOfBytes(bytes);
    DecodeEncode(s);
    PaddedWhole(s, 2 * |bytes|);
  }

  /** Whole data blocks are not padded. */
  lemma PaddedWhole(s: string, n: nat)
    requires |s| == 4 * n
    ensures Padded(s) == s
  {
    assert PadLength(|s|) == 0;
  }

  // ---------------------------------------------------------------------
  // simulateError
  // ---------------------------------------------------------------------

  /** The character `setCharAt` writes when flipping: '1' for '0', and
      '0' for anything else. */
  function FlipChar(c: char): (f: char)
    ensures f != c && IsBit(f)
  {
    if c == '0' then '1' else '0'
  }

  /** `s` with the character at `i` flipped. */
  function FlipAt(s: string, i: nat): (t: string)
    requires i < |s|
    ensures |t| == |s| && t[i] != s[i]
  {
    s[i := FlipChar(s[i])]
  }

  /** A flip changes no other position, and keeps a '0'/'1' string one. */
  lemma FlipAtElsewhere(s: string, i: nat)
    requires i < |s|
    ensures forall k :: 0 <= k < |s| && k != i ==> FlipAt(s, i)[k] == s[k]
    ensures IsBinary(s) ==> IsBinary(FlipAt(s, i))
  {
  }

  /** Flipping the same '0'/'1' position twice restores the string. */
  lemma FlipTwice(s: string, i: nat)
    requires i < |s| && IsBit(s[i])
    ensures FlipAt(FlipAt(s, i), i) == s
  {
    assert FlipAt(FlipAt(s, i), i)[i] == s[i];
  }

  /** Flips at different positions commute. */
  lemma FlipCommute(s: string, i: nat, j: nat)
    requires i < |s| && j < |s| && i != j
    ensures FlipAt(FlipAt(s, i), j) == FlipAt(FlipAt(s, j), i)
  {
  }

  /** `simulateError`: a null or empty input comes back unchanged;
      otherwise exactly the character at `randomIndex`, the value drawn by
      `Random.nextInt(length)`, is flipped. */
  function SimulateError(binaryInput: Option<string>, randomIndex: nat): (errored: Option<string>)
    requires binaryInput.Some? && binaryInput.value != [] ==> randomIndex < |binaryInput.value|
    ensures binaryInput.None? || binaryInput.value == [] ==> errored == binaryInput
    ensures binaryInput.Some? && binaryInput.value != [] ==>
      && errored.Some? && |errored.value| == |binaryInput.value|
      && (forall k :: 0 <= k < |binaryInput.value| ==>
            (errored.value[k] != binaryInput.value[k] <==> k == randomIndex))
      && (IsBinary(binaryInput.value) ==> IsBinary(errored.value))
  {
    match binaryInput
    case None => None
    case Some(s) =>
      if s == [] then binaryInput
      else
        FlipAtElsewhere(s, randomIndex);
        Some(FlipAt(s, randomIndex))
  }

  // ---------------------------------------------------------------------
  // correctError
  // ---------------------------------------------------------------------

  /** A corrected string and whether any block had an error flagged. */
  datatype Correction = Correction(text: string, detected: bool)

  /** The syndrome `(s2 << 2) | (s1 << 1) | s0` of a seven-character block,
      computed on the `int` terms `c - '0'`. */
  function Syndrome(block: string): int
    requires |block| == 7
  {
    var rp0, rp1, rp2 := Digit(block[0]), Digit(block[1]), Digit(block[2]);
    var rd3, rd2, rd1, rd0 := Digit(block[3]), Digit(block[4]), Digit(block[5]), Digit(block[6]);
    var s0 := Xor(Xor(Xor(rp0, rd3), rd2), rd0);
    var s1 := Xor(Xor(Xor(rp1, rd3), rd1), rd0);
    var s2 := Xor(Xor(Xor(rp2, rd2), rd1), rd0);
    Or(Or(s2 * 4, s1 * 2), s0)
  }

  /** One block of `correctError`: a syndrome in 1..7 flips the character
      at index `syndrome - 1` and flags an error; any other syndrome leaves
      the block alone. */
  function CorrectBlock(block: string): (c: Correction)
    requires |block| == 7
    ensures |c.text| == 7
  {
    var syndrome := Syndrome(block);
    if syndrome != 0 && 0 <= syndrome - 1 < 7 then Correction(FlipAt(block, syndrome - 1), true)
    else Correction(block, false)
  }

  /** The blocks of `s` corrected one by one, seven characters each; a
      shorter leading rest is kept as it is. */
  function CorrectBlocks(s: string): (c: Correction)
    ensures |c.text| == |s|
  {
    if |s| < 7 then Correction(s, false)
    else
      var init, last := CorrectBlocks(s[..|s| - 7]), CorrectBlock(s[|s| - 7..]);
      Correction(init.text + last.text, init.detected || last.detected)
  }

  /** What `correctError` returns, and the flag it stores twice. */
  function Corrected(s: string): Correction
  {
    if |s| % 7 != 0 then Correction(s, false) else CorrectBlocks(s)
  }

  lemma CorrectBlocksStep(s: string, i: nat)
    requires i + 7 <= |s|
    ensures CorrectBlocks(s[..i + 7]).text
      == CorrectBlocks(s[..i]).text + CorrectBlock(s[i..i + 7]).text
    ensures CorrectBlocks(s[..i + 7]).detected
      == (CorrectBlocks(s[..i]).detected || CorrectBlock(s[i..i + 7]).detected)
  {
    assert s[..i + 7][..i] == s[..i];
    assert s[..i + 7][i..] == s[i..i + 7];
  }

  /** Flipping a character inside the block that follows `a`. */
  lemma FlipInBlock(t: string, a: string, block: string, rest: string, e: nat)
    requires t == a + block + rest && |block| == 7 && e < 7
    ensures t[|a| + e := FlipChar(t[|a| + e])] == a + FlipAt(block, e) + rest
  {
    assert t[|a| + e] == block[e];
  }

  /** One turn of the loop of `correctError`, on the copy `t` whose blocks
      before `i` are corrected: flipping at `i + syndrome - 1` when the
      syndrome is in 1..7, and doing nothing otherwise, corrects the block
      at `i`. */
  lemma CorrectEachBlockStep(s: string, i: nat, t: string)
    requires i + 7 <= |s| && t == CorrectBlocks(s[..i]).text + s[i..]
    ensures var syndrome := Syndrome(s[i..i + 7]);
      && (syndrome != 0 && 0 <= syndrome - 1 < 7 ==>
            t[i + syndrome - 1 := FlipChar(t[i + syndrome - 1])] == CorrectBlocks(s[..i + 7]).text + s[i + 7..])
      && (!(syndrome != 0 && 0 <= syndrome - 1 < 7) ==> t == CorrectBlocks(s[..i + 7]).text + s[i + 7..])
      && CorrectBlocks(s[..i + 7]).detected == (CorrectBlocks(s[..i]).detected || (syndrome != 0 && 0 <= syndrome - 1 < 7))
  {
    CorrectBlocksStep(s, i);
    var block, done := s[i..i + 7], CorrectBlocks(s[..i]).text;
    assert s[i..] == block + s[i + 7..];
    var syndrome := Syndrome(block);
    if syndrome != 0 && 0 <= syndrome - 1 < 7 {
      FlipInBlock(t, done, block, s[i + 7..], syndrome - 1);
    }
  }

  /** The loop of `correctError` over a string of whole seven-character
      blocks: each block is corrected in place in a copy of the input, and
      the flag records whether any block was. */
  method CorrectEachBlock(erroredBinaryInput: string) returns (correctedBinary: string, errorDetectedInAnyBlock: bool)
    requires |erroredBinaryInput| % 7 == 0
    ensures Correction(correctedBinary, errorDetectedInAnyBlock) == CorrectBlocks(erroredBinaryInput)
  {
    var s := erroredBinaryInput;
    ghost var blocks := |s| / 7;
    assert 7 * blocks == |s|;
    assert s[..0] == [] && s[0..] == s;
    correctedBinary := s;
    errorDetectedInAnyBlock := false;
    var i := 0;
    ghost var k := 0;
    while i < |s|
      invariant i == 7 * k && k <= blocks
      invariant correctedBinary == CorrectBlocks(s[..i]).text + s[i..]
      invariant errorDetectedInAnyBlock == CorrectBlocks(s[..i]).detected
    {
      CorrectEachBlockStep(s, i, correctedBinary);
      var block := s[i..i + 7];
      var syndrome := Syndrome(block);
      if syndrome != 0 {
        var errorIndexInBlock := syndrome - 1;
        if errorIndexInBlock >= 0 && errorIndexInBlock < 7 {
          var globalErrorIndex := i + errorIndexInBlock;
          var oldBit := correctedBinary[globalErrorIndex];
          var newBit := if oldBit == '0' then '1' else '0';
          correctedBinary := correctedBinary[globalErrorIndex := newBit];
          errorDetectedInAnyBlock := true;
        }
      }
      i, k := i + 7, k + 1;
    }
    assert s[..i] == s;
  }

  /** `correctError`: the corrected string, and the message's
      `errorDetected` and `errorCorrected` both set to whether any block
      had a syndrome in 1..7 (both false for a length that is not a
      multiple of seven); nothing else of the message changes. */
  method CorrectError(erroredBinaryInput: string, message: Message) returns (correctedBinary: string)
    modifies message
    ensures correctedBinary == Corrected(erroredBinaryInput).text
    ensures message.Wire() == old(message.Wire()).(
      errorDetected := Corrected(erroredBinaryInput).detected,
      errorCorrected := Corrected(erroredBinaryInput).detected)
    ensures message.expanded == old(message.expanded)
  {
    if |erroredBinaryInput| % 7 != 0 {
      message.SetErrorDetected(false);
      message.SetErrorCorrected(false);
      return erroredBinaryInput;
    }
    var errorDetectedInAnyBlock;
    correctedBinary, errorDetectedInAnyBlock := CorrectEachBlock(erroredBinaryInput);
    message.SetErrorDetected(errorDetectedInAnyBlock);
    message.SetErrorCorrected(errorDetectedInAnyBlock);
  }

  // ---------------------------------------------------------------------
  // what correction does to codewords and single-bit errors
  // ---------------------------------------------------------------------

  /** 0 when a received check bit agrees with the parity it should have,
      1 otherwise. */
  function Mismatch(received: char, parity: char): int
  {
    if received == parity then 0 else 1
  }

  /** On '0'/'1' blocks the syndrome is the binary number `s2 s1 s0` of the
      three failed parity checks. */
  lemma SyndromeOfBits(w: string)
    requires |w| == 7 && IsBinary(w)
    ensures Syndrome(w)
      == 4 * Mismatch(w[2], Parity(w[4], w[5], w[6]))
       + 2 * Mismatch(w[1], Parity(w[3], w[5], w[6]))
       + Mismatch(w[0], Parity(w[3], w[4], w[6]))
  {
    var r := seq(7, k requires 0 <= k < 7 => Digit(w[k]));
    assert forall k :: 0 <= k < 7 ==> r[k] == ValueOf(w[k]);
    XorBits(r[0], r[3]); XorBits(Xor(r[0], r[3]), r[4]); XorBits(Xor(Xor(r[0], r[3]), r[4]), r[6]);
    XorBits(r[1], r[3]); XorBits(Xor(r[1], r[3]), r[5]); XorBits(Xor(Xor(r[1], r[3]), r[5]), r[6]);
    XorBits(r[2], r[4]); XorBits(Xor(r[2], r[4]), r[5]); XorBits(Xor(Xor(r[2], r[4]), r[5]), r[6]);
    var s0 := Xor(Xor(Xor(r[0], r[3]), r[4]), r[6]);
    var s1 := Xor(Xor(Xor(r[1], r[3]), r[5]), r[6]);
    var s2 := Xor(Xor(Xor(r[2], r[4]), r[5]), r[6]);
    OrBits(s0, s1, s2);
  }

  /** A '0'/'1' block is a codeword exactly when its syndrome is 0. */
  lemma CodewordIffSyndromeZero(w: string)
    requires |w| == 7 && IsBinary(w)
    ensures IsCodeword(w) <==> Syndrome(w) == 0
  {
    SyndromeOfBits(w);
  }

  /** A codeword is left alone and flags nothing. */
  lemma CorrectCodeword(w: string)
    requires IsCodeword(w)
    ensures CorrectBlock(w) == Correction(w, false)
  {
    SyndromeOfBits(w);
  }

  /** A codeword with one character flipped is always flagged. It is
      repaired when the flip is at index 0, 1, 4, 5 or 6; a flip at index
      2 has syndrome 4 and one at index 3 has syndrome 3, so the source's
      `syndrome - 1` flips the other of the two and the block comes back
      with both indices 2 and 3 flipped. */
  lemma CorrectFlippedCodeword(w: string, e: nat)
    requires IsCodeword(w) && e < 7
    ensures CorrectBlock(FlipAt(w, e))
      == Correction(if e == 2 || e == 3 then FlipAt(FlipAt(w, 2), 3) else w, true)
  {
    var v := FlipAt(w, e);
    FlipAtElsewhere(w, e);
    SyndromeOfBits(v);
    FlipTwice(w, e);
    if e == 3 {
      FlipCommute(w, 2, 3);
    }
  }

  /** A flip inside the right-hand part of a concatenation. */
  lemma FlipRight(a: string, w: string, e: nat)
    requires e < |w|
    ensures FlipAt(a + w, |a| + e) == a + FlipAt(w, e)
  {
  }

  /** A flip inside the left-hand part of a concatenation. */
  lemma FlipLeft(a: string, w: string, i: nat)
    requires i < |a|
    ensures FlipAt(a + w, i) == FlipAt(a, i) + w
  {
  }

  /** Whole codewords pass correction unchanged and flag nothing. */
  lemma {:induction false} CorrectCodewordBlocks(s: string)
    requires AllCodewords(s)
    ensures CorrectBlocks(s) == Correction(s, false)
  {
    if |s| >= 7 {
      var init, last := s[..|s| - 7], s[|s| - 7..];
      CorrectCodewordBlocks(init);
      CorrectCodeword(last);
      assert init + last == s;
    }
  }

  /** `correctError` returns whole codewords unchanged and flags nothing. */
  lemma CorrectCodewords(s: string)
    requires AllCodewords(s)
    ensures Corrected(s) == Correction(s, false)
  {
    AllCodewordsShape(s);
    CorrectCodewordBlocks(s);
  }

  /** Correction of a string followed by one more block. */
  lemma CorrectBlocksAppend(a: string, w: string)
    requires |w| == 7
    ensures CorrectBlocks(a + w)
      == Correction(CorrectBlocks(a).text + CorrectBlock(w).text, CorrectBlocks(a).detected || CorrectBlock(w).detected)
  {
    assert (a + w)[..|a + w| - 7] == a && (a + w)[|a + w| - 7..] == w;
  }

  /** What correction makes of whole codewords `s` with index `r` of block
      `b` flipped: `s` itself, except that a flip at index 2 or 3 ends with
      both of them flipped. */
  function SingleFlipRepaired(s: string, b: nat, r: nat): string
    requires 7 * b + 7 <= |s| && r < 7
  {
    if r == 2 || r == 3 then FlipAt(FlipAt(s, 7 * b + 2), 7 * b + 3) else s
  }

  /** The repaired form of a flip in the block after `init`. */
  lemma RepairedInLastBlock(init: string, last: string, b: nat, r: nat)
    requires |last| == 7 && |init| == 7 * b && r < 7
    ensures SingleFlipRepaired(init + last, b, r)
      == init + (if r == 2 || r == 3 then FlipAt(FlipAt(last, 2), 3) else last)
  {
    if r == 2 || r == 3 {
      FlipRight(init, last, 2);
      FlipRight(init, FlipAt(last, 2), 3);
    }
  }

  /** A flip in the last of a run of codewords. */
  lemma FlipInLastBlock(init: string, last: string, b: nat, r: nat)
    requires AllCodewords(init) && IsCodeword(last) && |init| == 7 * b && r < 7
    ensures CorrectBlocks(FlipAt(init + last, 7 * b + r)) == Correction(SingleFlipRepaired(init + last, b, r), true)
  {
    FlipRight(init, last, r);
    CorrectBlocksAppend(init, FlipAt(last, r));
    CorrectCodewordBlocks(init);
    CorrectFlippedCodeword(last, r);
    RepairedInLastBlock(init, last, b, r);
  }

  /** The repaired form of a flip before the block `last`. */
  lemma RepairedBeforeLastBlock(init: string, last: string, b: nat, r: nat)
    requires 7 * b + 7 <= |init| && r < 7
    ensures SingleFlipRepaired(init + last, b, r) == SingleFlipRepaired(init, b, r) + last
  {
    if r == 2 || r == 3 {
      FlipLeft(init, last, 7 * b + 2);
      FlipLeft(FlipAt(init, 7 * b + 2), last, 7 * b + 3);
    }
  }

  /** A flip before the last codeword leaves that codeword alone. */
  lemma FlipBeforeLastBlock(init: string, last: string, b: nat, r: nat)
    requires IsCodeword(last) && 7 * b + 7 <= |init| && r < 7
    requires CorrectBlocks(FlipAt(init, 7 * b + r)) == Correction(SingleFlipRepaired(init, b, r), true)
    ensures CorrectBlocks(FlipAt(init + last, 7 * b + r)) == Correction(SingleFlipRepaired(init + last, b, r), true)
  {
    FlipLeft(init, last, 7 * b + r);
    CorrectBlocksAppend(FlipAt(init, 7 * b + r), last);
    CorrectCodeword(last);
    RepairedBeforeLastBlock(init, last, b, r);
  }

  /** One flipped character in a string of whole codewords, at index `r`
      of block `b`: correction flags it, and gives back the codewords
      unless `r` is 2 or 3, where it leaves indices 2 and 3 of that block
      flipped. */
  lemma {:induction false} CorrectSingleFlipBlocks(s: string, b: nat, r: nat)
    requires AllCodewords(s) && 7 * b + 7 <= |s| && r < 7
    ensures CorrectBlocks(FlipAt(s, 7 * b + r)) == Correction(SingleFlipRepaired(s, b, r), true)
  {
    var n := |s|;
    AllCodewordsShape(s);
    ghost var m := n / 7;
    assert n == 7 * m;
    var init, last := s[..n - 7], s[n - 7..];
    assert s == init + last;
    if b + 1 == m {
      FlipInLastBlock(init, last, b, r);
    } else {
      CorrectSingleFlipBlocks(init, b, r);
      FlipBeforeLastBlock(init, last, b, r);
    }
  }

  /** The decoding of whole seven-character blocks has four characters
      per block. */
  lemma {:induction false} DecodeBlocksLength(s: string, n: nat)
    requires |s| == 7 * n
    ensures |DecodeBlocks(s)| == 4 * n
  {
    if n > 0 {
      DecodeBlocksLength(s[..|s| - 7], n - 1);
    }
  }

  /** A flip in a check position (0 to 2) of a block does not reach the
      decoding; one in a data position (3 to 6) flips the matching data
      character. */
  lemma {:induction false} DecodeFlip(s: string, n: nat, b: nat, r: nat)
    requires |s| == 7 * n && b < n && r < 7
    ensures |DecodeBlocks(s)| == 4 * n
    ensures r < 3 ==> DecodeBlocks(FlipAt(s, 7 * b + r)) == DecodeBlocks(s)
    ensures 3 <= r ==> DecodeBlocks(FlipAt(s, 7 * b + r)) == FlipAt(DecodeBlocks(s), 4 * b + r - 3)
  {
    DecodeBlocksLength(s, n);
    var init, last := s[..|s| - 7], s[|s| - 7..];
    var j := 7 * b + r;
    var t := FlipAt(s, j);
    assert s == init + last;
    DecodeBlocksLength(init, n - 1);
    if b == n - 1 {
      FlipRight(init, last, r);
      assert t[..|s| - 7] == init;
      assert t[|s| - 7..] == FlipAt(last, r);
      if 3 <= r {
        assert FlipAt(last, r)[3..] == FlipAt(last[3..], r - 3);
        FlipRight(DecodeBlocks(init), last[3..], r - 3);
      } else {
        assert FlipAt(last, r)[3..] == last[3..];
      }
    } else {
      FlipLeft(init, last, j);
      DecodeFlip(init, n - 1, b, r);
      assert t[..|s| - 7] == FlipAt(init, j);
      assert t[|s| - 7..] == last;
      if 3 <= r {
        FlipLeft(DecodeBlocks(init), last[3..], 4 * b + r - 3);
      }
    }
  }

  /** Flipping indices 2 and 3 of block `b` flips only the first data
      character of that block in the decoding. */
  lemma DecodeCheckAndDataFlip(s: string, n: nat, b: nat)
    requires |s| == 7 * n && b < n
    ensures |DecodeBlocks(s)| == 4 * n
    ensures DecodeBlocks(FlipAt(FlipAt(s, 7 * b + 2), 7 * b + 3)) == FlipAt(DecodeBlocks(s), 4 * b)
  {
    var u := FlipAt(s, 7 * b + 2);
    DecodeFlip(s, n, b, 2);
    DecodeFlip(u, n, b, 3);
  }

  /** `decode` after correcting one flip at index `r` of block `b`. */
  lemma DecodeSingleFlipRepaired(s: string, n: nat, b: nat, r: nat)
    requires |s| == 7 * n && b < n && r < 7
    ensures |DecodeBlocks(s)| == 4 * n
    ensures DecodeBlocks(SingleFlipRepaired(s, b, r))
      == if r == 2 || r == 3 then FlipAt(DecodeBlocks(s), 4 * b) else DecodeBlocks(s)
  {
    DecodeBlocksLength(s, n);
    if r == 2 || r == 3 {
      DecodeCheckAndDataFlip(s, n, b);
    }
  }

  /** `correctError` then `decode` on whole codewords with one flipped
      character, at index `r` of block `b`: the error is always flagged,
      and the data comes back intact unless `r` is 2 or 3, where the first
      data character of that block comes back flipped. */
  lemma SingleFlipOutcome(s: string, b: nat, r: nat)
    requires AllCodewords(s) && r < 7 && 7 * b + r < |s|
    ensures Corrected(FlipAt(s, 7 * b + r)).detected
    ensures 7 * |DecodeBlocks(s)| == 4 * |s|
    ensures Decoded(Corrected(FlipAt(s, 7 * b + r)).text)
      == Success(if r == 2 || r == 3 then FlipAt(DecodeBlocks(s), 4 * b) else DecodeBlocks(s))
  {
    AllCodewordsShape(s);
    ghost var n := |s| / 7;
    assert |s| == 7 * n && b < n;
    CorrectSingleFlipBlocks(s, b, r);
    DecodeSingleFlipRepaired(s, n, b, r);
    assert Corrected(FlipAt(s, 7 * b + r)) == CorrectBlocks(FlipAt(s, 7 * b + r));
  }
}
