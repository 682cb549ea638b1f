/**
 * The SSH2_AGENT_SIGN_RESPONSE header: the length of the rest of the
 * message, the response code (always 14) and the length of the signature
 * that follows. Values are immutable; `From` is the only way to obtain one.
 */
module SignResponse {
  import opened JavaInt
  import opened AgentReply

  /** The message number of a sign response. */
  const SSH2_AGENT_SIGN_RESPONSE: Int32 := 14

  /** The three `final int` fields; the getters are the destructors. */
  datatype Response = Response(length: Int32, responseCode: Int32, responseLength: Int32)

  /**
   * The values the private constructor can produce: only `From` calls it,
   * and only with the code SSH2_AGENT_SIGN_RESPONSE.
   */
  type ValidResponse = a: Response | a.responseCode == SSH2_AGENT_SIGN_RESPONSE witness Response(0, 14, 0)

  /** Decodes a 9-byte header, rejecting any other length and any other code. */
  function From(bytes: seq<Int8>): (r: Result<ValidResponse>)
    ensures |bytes| != HEADER_SIZE ==> r == Failure(InvalidLength)
    ensures (|bytes| == HEADER_SIZE && UnsignedByte(bytes[4]) != SSH2_AGENT_SIGN_RESPONSE) ==>
              r == Failure(WrongResponseCode)
    ensures r.Success? <==>
              |bytes| == HEADER_SIZE && UnsignedByte(bytes[4]) == SSH2_AGENT_SIGN_RESPONSE
    ensures r.Success? ==>
              && r.value.responseCode == SSH2_AGENT_SIGN_RESPONSE
              && Unsigned(r.value.length) == BigEndian(bytes[..4])
              && Unsigned(r.value.responseLength) == BigEndian(bytes[5..])
  {
    match ParseHeader(bytes, SSH2_AGENT_SIGN_RESPONSE)
    case Success(f) => Success(Response(f.first, f.second, f.third))
    case Failure(e) => Failure(e)
  }

  /** `equals`: field-by-field comparison. */
  function Equals(a: ValidResponse, b: ValidResponse): (r: bool)
    ensures r <==> a == b
  {
    && a.length == b.length
    && a.responseCode == b.responseCode
    && a.responseLength == b.responseLength
  }

  /** `hashCode`: `31 * (31 * length + responseCode) + responseLength` in `int` arithmetic. */
  function HashCode(a: ValidResponse): (r: Int32)
    ensures r == Wrap(961 * a.length + 31 * a.responseCode + a.responseLength)
  {
    HashStepWrap(31 * a.length + a.responseCode, a.responseLength);
    HashStep(HashStep(a.length, a.responseCode), a.responseLength)
  }

  /** `equals` is an equivalence relation. */
  lemma EqualsIsEquivalence(a: ValidResponse, b: ValidResponse, c: ValidResponse)
    ensures Equals(a, a)
    ensures Equals(a, b) <==> Equals(b, a)
    ensures Equals(a, b) && Equals(b, c) ==> Equals(a, c)
  {
  }

  /** Equal responses have equal hash codes. */
  lemma HashCodeConsistent(a: ValidResponse, b: ValidResponse)
    requires Equals(a, b)
    ensures HashCode(a) == HashCode(b)
  {
  }

  /** The 9 bytes an agent sends for `a`. */
  function Bytes(a: ValidResponse): (s: seq<Int8>)
    ensures |s| == HEADER_SIZE
  {
    HeaderBytes(Fields(a.length, a.responseCode, a.responseLength))
  }

  /** Every response is decoded from its own bytes. */
  lemma FromBytes(a: ValidResponse)
    ensures From(Bytes(a)) == Success(a)
  {
    ParseHeaderBytes(Fields(a.length, a.responseCode, a.responseLength), SSH2_AGENT_SIGN_RESPONSE);
  }

  /** A decoded response determines the buffer it came from. */
  lemma BytesOfFrom(bytes: seq<Int8>)
    requires From(bytes).Success?
    ensures Bytes(From(bytes).value) == bytes
  {
    ParseHeaderInverse(bytes, SSH2_AGENT_SIGN_RESPONSE);
  }

  /** Two buffers decode to equal responses only if they are the same buffer. */
  lemma FromInjective(a: seq<Int8>, b: seq<Int8>)
    requires From(a).Success? && From(b).Success?
    requires Equals(From(a).value, From(b).value)
    ensures a == b
  {
    BytesOfFrom(a);
    BytesOfFrom(b);
  }

  lemma ExampleNineSignatureTwenty()
    ensures From([0, 0, 0, 9, 14, 0, 0, 0, 20]) == Success(Response(9, 14, 20))
  {
    var bytes: seq<Int8> := [0, 0, 0, 9, 14, 0, 0, 0, 20];
    BigEndianFour(bytes[..4]);
    BigEndianFour(bytes[5..]);
  }

  lemma ExampleIdentitiesCodeRejected()
    ensures From([0, 0, 0, 9, 12, 0, 0, 0, 20]) == Failure(WrongResponseCode)
  {
  }

  lemma ExampleShortBufferRejected()
    ensures From([0, 0, 0, 9, 14, 0, 0, 0]) == Failure(InvalidLength)
  {
  }

  /** A high bit set in bytes 5-8 surfaces as a negative Java `int`. */
  lemma ExampleNegativeResponseLength()
    ensures From([0, 0, 0, 4, 14, -128, 0, 0, 0]) == Success(Response(4, 14, -0x8000_0000))
  {
    var bytes: seq<Int8> := [0, 0, 0, 4, 14, -128, 0, 0, 0];
    BigEndianFour(bytes[..4]);
    BigEndianFour(bytes[5..]);
    var r := From(bytes).value;
    WrapUnsigned(r.responseLength);
  }
}
