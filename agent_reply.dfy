/**
 * What every ssh-agent reply header shares: the 9-byte layout (a
 * big-endian 32-bit field at offset 0, a one-byte response code at
 * offset 4, a big-endian 32-bit field at offset 5), the helpers `first`,
 * `second` and `third` that read those fields, the two ways decoding can
 * fail, and one header parser that both concrete decoders use.
 */
module AgentReply {
  import opened JavaInt

  /** Every header decoded here is exactly this many bytes long. */
  const HEADER_SIZE: nat := 9

  /** A byte read as unsigned, the value of Java's `b & 0xFF`. */
  type UInt8 = x: int | 0 <= x < 256

  datatype DecodeError =
    | InvalidLength       // the buffer is not HEADER_SIZE bytes long
    | WrongResponseCode   // byte 4 is not the code the decoder expects

  datatype Result<+T> = Success(value: T) | Failure(error: DecodeError)

  /** The three raw fields of a header, in wire order. */
  datatype Fields = Fields(first: Int32, second: UInt8, third: Int32)

  function UnsignedByte(b: Int8): (r: UInt8)
    ensures (r - b) % 256 == 0
    ensures b >= 0 ==> r == b
  {
    b % 256
  }

  /** The Java `byte` whose unsigned reading is `x`. */
  function SignedByte(x: UInt8): (b: Int8)
    ensures UnsignedByte(b) == x
  {
    if x < 128 then x else x - 256
  }

  lemma SignedUnsignedByte(b: Int8)
    ensures SignedByte(UnsignedByte(b)) == b
  {
  }

  function Pow256(n: nat): (r: nat)
    ensures r > 0
  {
    if n == 0 then 1 else 256 * Pow256(n - 1)
  }

  /** The unsigned big-endian value of the bytes `s`. */
  function BigEndian(s: seq<Int8>): (r: nat)
    ensures r < Pow256(|s|)
  {
    if s == [] then 0
    else
      var p := BigEndian(s[..|s| - 1]);
      assert p <= Pow256(|s| - 1) - 1;
      assert p * 256 <= Pow256(|s|) - 256;
      p * 256 + UnsignedByte(s[|s| - 1])
  }

  /** The `n` bytes whose big-endian value is `v`, as a sender lays them out. */
  function BigEndianBytes(v: nat, n: nat): (s: seq<Int8>)
    requires v < Pow256(n)
    ensures |s| == n
  {
    if n == 0 then []
    else
      assert v / 256 < Pow256(n - 1) by { DivBound(v, Pow256(n - 1)); }
      BigEndianBytes(v / 256, n - 1) + [SignedByte(v % 256)]
  }

  lemma DivBound(v: nat, p: nat)
    requires v < 256 * p
    ensures v / 256 < p
  {
  }

  /** Reading back the bytes written for `v` gives `v`. */
  lemma {:induction false} BigEndianOfBytes(v: nat, n: nat)
    requires v < Pow256(n)
    ensures BigEndian(BigEndianBytes(v, n)) == v
  {
    if n > 0 {
      var s := BigEndianBytes(v, n);
      assert v / 256 < Pow256(n - 1) by { DivBound(v, Pow256(n - 1)); }
      assert s[..n - 1] == BigEndianBytes(v / 256, n - 1);
      BigEndianOfBytes(v / 256, n - 1);
    }
  }

  /** Writing the value read from `s` gives `s` back: no two byte strings share a value. */
  lemma {:induction false} BytesOfBigEndian(s: seq<Int8>)
    ensures BigEndianBytes(BigEndian(s), |s|) == s
  {
    if s != [] {
      var n := |s|;
      var p := BigEndian(s[..n - 1]);
      var v := BigEndian(s);
      assert v / 256 == p && v % 256 == UnsignedByte(s[n - 1]);
      BytesOfBigEndian(s[..n - 1]);
      SignedUnsignedByte(s[n - 1]);
      assert s == s[..n - 1] + [s[n - 1]];
    }
  }

  /** The value of four bytes in closed form. */
  lemma BigEndianFour(s: seq<Int8>)
    requires |s| == 4
    ensures BigEndian(s) == UnsignedByte(s[0]) * 0x100_0000 + UnsignedByte(s[1]) * 0x1_0000
                            + UnsignedByte(s[2]) * 0x100 + UnsignedByte(s[3])
  {
    assert s[..3][..2] == s[..2] && s[..2][..1] == s[..1] && s[..1][..0] == [];
    assert BigEndian(s[..1]) == UnsignedByte(s[0]);
    assert BigEndian(s[..2]) == UnsignedByte(s[0]) * 256 + UnsignedByte(s[1]);
    assert BigEndian(s[..3]) == BigEndian(s[..2]) * 256 + UnsignedByte(s[2]);
    assert BigEndian(s) == BigEndian(s[..3]) * 256 + UnsignedByte(s[3]);
  }

  lemma Pow256Four()
    ensures Pow256(4) == TWO_32
  {
  }

  /** `first`: the big-endian `int` in bytes 0-3. */
  function First(bytes: seq<Int8>): (r: Int32)
    requires |bytes| >= 4
    ensures Unsigned(r) == BigEndian(bytes[..4])
  {
    Pow256Four();
    UnsignedWrap(BigEndian(bytes[..4]));
    Wrap(BigEndian(bytes[..4]))
  }

  /** `second`: the byte at offset 4, widened without sign extension. */
  function Second(bytes: seq<Int8>): (r: UInt8)
    requires |bytes| >= 5
    ensures r == BigEndian(bytes[4..5])
  {
    assert bytes[4..5][..0] == [];
    UnsignedByte(bytes[4])
  }

  /** `third`: the big-endian `int` in bytes 5-8. */
  function Third(bytes: seq<Int8>): (r: Int32)
    requires |bytes| >= 9
    ensures Unsigned(r) == BigEndian(bytes[5..9])
  {
    Pow256Four();
    UnsignedWrap(BigEndian(bytes[5..9]));
    Wrap(BigEndian(bytes[5..9]))
  }

  /**
   * The decoding both header classes perform: check the length, read
   * the three fields and reject a response code other than `expectedCode`.
   */
  function ParseHeader(bytes: seq<Int8>, expectedCode: Int32): (r: Result<Fields>)
    ensures |bytes| != HEADER_SIZE ==> r == Failure(InvalidLength)
    ensures (|bytes| == HEADER_SIZE && UnsignedByte(bytes[4]) != expectedCode) ==>
              r == Failure(WrongResponseCode)
    ensures r.Success? <==> |bytes| == HEADER_SIZE && UnsignedByte(bytes[4]) == expectedCode
    ensures r.Success? ==>
              && r.value.second == expectedCode
              && Unsigned(r.value.first) == BigEndian(bytes[..4])
              && Unsigned(r.value.third) == BigEndian(bytes[5..])
  {
    if |bytes| != HEADER_SIZE then Failure(InvalidLength)
    else
      var length := First(bytes);
      var responseCode := Second(bytes);
      if responseCode != expectedCode then Failure(WrongResponseCode)
      else
        assert bytes[5..] == bytes[5..9];
        Success(Fields(length, responseCode, Third(bytes)))
  }

  /** The 9 bytes that carry `f`: the layout as an agent writes it. */
  function HeaderBytes(f: Fields): (s: seq<Int8>)
    ensures |s| == HEADER_SIZE
  {
    Pow256Four();
    BigEndianBytes(Unsigned(f.first), 4) + [SignedByte(f.second)]
      + BigEndianBytes(Unsigned(f.third), 4)
  }

  /** Parsing the bytes that carry `f` yields `f`, or the code mismatch. */
  lemma ParseHeaderBytes(f: Fields, expectedCode: Int32)
    ensures ParseHeader(HeaderBytes(f), expectedCode)
              == if f.second == expectedCode then Success(f) else Failure(WrongResponseCode)
  {
    Pow256Four();
    var s := HeaderBytes(f);
    assert s[..4] == BigEndianBytes(Unsigned(f.first), 4);
    assert s[5..] == BigEndianBytes(Unsigned(f.third), 4);
    BigEndianOfBytes(Unsigned(f.first), 4);
    BigEndianOfBytes(Unsigned(f.third), 4);
    if f.second == expectedCode {
      var g := ParseHeader(s, expectedCode).value;
      WrapUnsigned(f.first);
      WrapUnsigned(g.first);
      WrapUnsigned(f.third);
      WrapUnsigned(g.third);
    }
  }

  /** A header that parses is exactly the bytes that carry its fields. */
  lemma ParseHeaderInverse(bytes: seq<Int8>, expectedCode: Int32)
    requires ParseHeader(bytes, expectedCode).Success?
    ensures HeaderBytes(ParseHeader(bytes, expectedCode).value) == bytes
  {
    var f := ParseHeader(bytes, expectedCode).value;
    Pow256Four();
    BytesOfBigEndian(bytes[..4]);
    BytesOfBigEndian(bytes[5..]);
    SignedUnsignedByte(bytes[4]);
    assert bytes == bytes[..4] + [bytes[4]] + bytes[5..];
  }
}
