/**
 * The SSH2_AGENT_IDENTITIES_ANSWER header: the length of the rest of the
 * message, the response code (always 12) and the number of keys the
 * agent holds. Values are immutable; `From` is the only way to obtain one.
 */
module IdentitiesAnswer {
  import opened JavaInt
  import opened AgentReply

  /** The message number of an identities answer. */
  const SSH2_AGENT_IDENTITIES_ANSWER: Int32 := 12

  /** The three `final int` fields; the getters are the destructors. */
  datatype Answer = Answer(length: Int32, responseCode: Int32, count: Int32)

  /**
   * The values the private constructor can produce: only `From` calls it,
   * and only with the code SSH2_AGENT_IDENTITIES_ANSWER.
   */
  type ValidAnswer = a: Answer | a.responseCode == SSH2_AGENT_IDENTITIES_ANSWER witness Answer(0, 12, 0)

  /** Decodes a 9-byte header, rejecting any other length and any other code. */
  function From(bytes: seq<Int8>): (r: Result<ValidAnswer>)
    ensures |bytes| != HEADER_SIZE ==> r == Failure(InvalidLength)
    ensures (|bytes| == HEADER_SIZE && UnsignedByte(bytes[4]) != SSH2_AGENT_IDENTITIES_ANSWER) ==>
              r == Failure(WrongResponseCode)
    ensures r.Success? <==>
              |bytes| == HEADER_SIZE && UnsignedByte(bytes[4]) == SSH2_AGENT_IDENTITIES_ANSWER
    ensures r.Success? ==>
              && r.value.responseCode == SSH2_AGENT_IDENTITIES_ANSWER
              && Unsigned(r.value.length) == BigEndian(bytes[..4])
              && Unsigned(r.value.count) == BigEndian(bytes[5..])
  {
    match ParseHeader(bytes, SSH2_AGENT_IDENTITIES_ANSWER)
    case Success(f) => Success(Answer(f.first, f.second, f.third))
    case Failure(e) => Failure(e)
  }

  /** `equals`: field-by-field comparison. */
  function Equals(a: ValidAnswer, b: ValidAnswer): (r: bool)
    ensures r <==> a == b
  {
    && a.length == b.length
    && a.responseCode == b.responseCode
    && a.count == b.count
  }

  /** `hashCode`: `31 * (31 * length + responseCode) + count` in `int` arithmetic. */
  function HashCode(a: ValidAnswer): (r: Int32)
    ensures r == Wrap(961 * a.length + 31 * a.responseCode + a.count)
  {
    HashStepWrap(31 * a.length + a.responseCode, a.count);
    HashStep(HashStep(a.length, a.responseCode), a.count)
  }

  /** `equals` is an equivalence relation. */
  lemma EqualsIsEquivalence(a: ValidAnswer, b: ValidAnswer, c: ValidAnswer)
    ensures Equals(a, a)
    ensures Equals(a, b) <==> Equals(b, a)
    ensures Equals(a, b) && Equals(b, c) ==> Equals(a, c)
  {
  }

  /** Equal answers have equal hash codes. */
  lemma HashCodeConsistent(a: ValidAnswer, b: ValidAnswer)
    requires Equals(a, b)
    ensures HashCode(a) == HashCode(b)
  {
  }

  /** The 9 bytes an agent sends for `a`. */
  function Bytes(a: ValidAnswer): (s: seq<Int8>)
    ensures |s| == HEADER_SIZE
  {
    HeaderBytes(Fields(a.length, a.responseCode, a.count))
  }

  /** Every answer is decoded from its own bytes. */
  lemma FromBytes(a: ValidAnswer)
    ensures From(Bytes(a)) == Success(a)
  {
    ParseHeaderBytes(Fields(a.length, a.responseCode, a.count), SSH2_AGENT_IDENTITIES_ANSWER);
  }

  /** A decoded answer determines the buffer it came from. */
  lemma BytesOfFrom(bytes: seq<Int8>)
    requires From(bytes).Success?
    ensures Bytes(From(bytes).value) == bytes
  {
    ParseHeaderInverse(bytes, SSH2_AGENT_IDENTITIES_ANSWER);
  }

  /** Two buffers decode to equal answers only if they are the same buffer. */
  lemma FromInjective(a: seq<Int8>, b: seq<Int8>)
    requires From(a).Success? && From(b).Success?
    requires Equals(From(a).value, From(b).value)
    ensures a == b
  {
    BytesOfFrom(a);
    BytesOfFrom(b);
  }

  lemma ExampleFiveKeysThree()
    ensures From([0, 0, 0, 5, 12, 0, 0, 0, 3]) == Success(Answer(5, 12, 3))
  {
    var bytes: seq<Int8> := [0, 0, 0, 5, 12, 0, 0, 0, 3];
    BigEndianFour(bytes[..4]);
    BigEndianFour(bytes[5..]);
  }

  lemma ExampleSignCodeRejected()
    ensures From([0, 0, 0, 5, 14, 0, 0, 0, 3]) == Failure(WrongResponseCode)
  {
  }

  lemma ExampleShortBufferRejected()
    ensures From([0, 0, 0, 5, 12, 0, 0, 0]) == Failure(InvalidLength)
  {
  }

  /** A high bit set in bytes 0-3 surfaces as a negative Java `int`. */
  lemma ExampleNegativeLength()
    ensures From([-1, -1, -1, -1, 12, 0, 0, 0, 1]) == Success(Answer(-1, 12, 1))
  {
    var bytes: seq<Int8> := [-1, -1, -1, -1, 12, 0, 0, 0, 1];
    BigEndianFour(bytes[..4]);
    BigEndianFour(bytes[5..]);
    var a := From(bytes).value;
    WrapUnsigned(a.length);
  }
}
