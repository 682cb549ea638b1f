/**
 * How the two header decoders relate: they agree on the length check and
 * no buffer is accepted by both, because their response codes differ.
 */
module ReplyHeaders {
  import opened JavaInt
  import opened AgentReply
  import IdentitiesAnswer
  import SignResponse

  /** A buffer of the wrong length is rejected for its length by both decoders, whatever byte 4 holds. */
  lemma BothRejectWrongLength(bytes: seq<Int8>)
    requires |bytes| != HEADER_SIZE
    ensures IdentitiesAnswer.From(bytes) == Failure(InvalidLength)
    ensures SignResponse.From(bytes) == Failure(InvalidLength)
  {
  }

  /** What one decoder accepts, the other rejects for its response code. */
  lemma DecodersExclusive(bytes: seq<Int8>)
    ensures IdentitiesAnswer.From(bytes).Success? ==> SignResponse.From(bytes) == Failure(WrongResponseCode)
    ensures SignResponse.From(bytes).Success? ==> IdentitiesAnswer.From(bytes) == Failure(WrongResponseCode)
  {
  }

  /** The bytes of any identities answer are rejected as a sign response, and the reverse. */
  lemma HeaderBytesExclusive(a: IdentitiesAnswer.ValidAnswer, s: SignResponse.ValidResponse)
    ensures SignResponse.From(IdentitiesAnswer.Bytes(a)) == Failure(WrongResponseCode)
    ensures IdentitiesAnswer.From(SignResponse.Bytes(s)) == Failure(WrongResponseCode)
  {
    IdentitiesAnswer.FromBytes(a);
    SignResponse.FromBytes(s);
  }

  lemma ExampleEightBytesRejected()
    ensures IdentitiesAnswer.From([0, 0, 0, 5, 12, 0, 0, 0]) == Failure(InvalidLength)
    ensures SignResponse.From([0, 0, 0, 5, 12, 0, 0, 0]) == Failure(InvalidLength)
  {
  }
}
