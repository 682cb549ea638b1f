# ssh-agent reply headers in Dafny

This project models the two fixed-layout reply-header decoders of an
ssh-agent proxy. The message numbers are the ones from the ssh-agent
protocol draft (draft-miller-ssh-agent, section 5.1):
SSH2_AGENT_IDENTITIES_ANSWER = 12 and SSH2_AGENT_SIGN_RESPONSE = 14.

Both headers are 9 bytes long, read big-endian:

| offset | width | field |
|---|---|---|
| 0-3 | 4 | `length`: the byte length of the rest of the message |
| 4 | 1 | `responseCode`: the message number, read unsigned (0-255) |
| 5-8 | 4 | `count` (identities answer) or `responseLength` (sign response) |

`IdentitiesAnswer.from` and `SignResponse.from` each do three things. They
reject a buffer that is not exactly 9 bytes. They read the three fields.
They reject a response code other than their own. The result is an
immutable value with structural `equals` and `hashCode`.

Modules, one per source component:

- `JavaInt` (java_int.dfy): Java `byte` (`Int8`) and `int` (`Int32`) as
  signed subset types. It also holds the 32-bit wrap-around of `int`
  arithmetic (`Wrap`), the unsigned reading of an `int`'s bit pattern
  (`Unsigned`), and the `31 * result + x` step of `hashCode`.
- `AgentReply` (agent_reply.dfy): the base class's helpers `first`,
  `second` and `third` (`First`, `Second`, `Third`), built on `BigEndian`.
  It also has the two failure kinds, a `Result` type,
  and the one `ParseHeader` routine that both decoders use. Two partners
  state the layout from the sender's side: `BigEndianBytes` and
  `HeaderBytes`. Lemmas prove that parsing and laying out are inverse to
  each other, in both directions.
- `IdentitiesAnswer` (identities_answer.dfy) and `SignResponse`
  (sign_response.dfy): each has the header datatype, `From`, `Equals`,
  `HashCode` and the lemmas about them. The Java fields are `final int`
  and the getters only return them, so each datatype's destructors
  (`length`, `responseCode`, `count` / `responseLength`) are the getters.
  The Java constructor is private and only `from` calls it, always with
  the class's own code. So the values a caller can hold are those of the
  subset types `ValidAnswer` (code 12) and `ValidResponse` (code 14). `From`
  returns these types, and `Equals`, `HashCode`, `Bytes` and the lemmas
  take them. `From` is a function, so decoding is deterministic by
  construction: the same buffer always gives the same result.
- `ReplyHeaders` (reply_headers.dfy): how the two decoders relate. Both
  reject a wrong length in the same way, and no buffer is accepted by both.

Input buffers are `seq<Int8>`: Java `byte`s, signed, as in `byte[]`. The
code byte is compared after an unsigned widening (`b & 0xFF`), the same
as `second`. The three fields are Java `int`s. A field whose top bit is
set therefore becomes a negative `int`. `From`'s contract states each
such field through its unsigned 32-bit reading, which equals the
big-endian value of its bytes. Its signed value is fixed by that reading
(`JavaInt.WrapUnsigned`).

The base class's source file, `AgentReply.java`, is not modelled. The
model defines `first`, `second` and `third` by the byte layout above, not
by that class's code.

The code stores the fields in Java `int`s, which are signed, and this
model follows the code. An unsigned value is available through
`JavaInt.Unsigned`. So is the equality `Unsigned(field) == BigEndian(bytes)`.

## Model

| member | source | states |
|---|---|---|
| `JavaInt.Wrap` | src/main/java/com/spotify/sshagentproxy/IdentitiesAnswer.java:103-106 | the result is the unique Java `int` congruent to its argument modulo 2^32, and equals the argument when it is already in `int` range |
| `JavaInt.Unsigned` | src/main/java/com/spotify/sshagentproxy/IdentitiesAnswer.java:29-31 | the unsigned reading of an `int` lies in 0..2^32-1, is congruent to it modulo 2^32, and equals it when it is non-negative |
| `JavaInt.CongruentInt32Equal` | src/main/java/com/spotify/sshagentproxy/IdentitiesAnswer.java:29-31 | two `int`s with the same 32-bit pattern are equal |
| `JavaInt.WrapCongruent` | src/main/java/com/spotify/sshagentproxy/IdentitiesAnswer.java:103-106 | wrapped results depend only on the argument's residue modulo 2^32 |
| `JavaInt.WrapUnsigned` | src/main/java/com/spotify/sshagentproxy/IdentitiesAnswer.java:29-31 | the unsigned reading of an `int`, wrapped back, is that `int` |
| `JavaInt.UnsignedWrap` | src/main/java/com/spotify/sshagentproxy/IdentitiesAnswer.java:44-45 | every unsigned 32-bit value is the reading of the `int` it wraps to |
| `JavaInt.HashStepWrap` | src/main/java/com/spotify/sshagentproxy/IdentitiesAnswer.java:102-107 | wrapping the running hash after each `31 * result + x` step gives the same value as wrapping the exact polynomial once |
| `JavaInt.HashStep` | src/main/java/com/spotify/sshagentproxy/IdentitiesAnswer.java:104-105 | one `result = 31 * result + x` step gives the `int` congruent to 31*result + x modulo 2^32 |
| `AgentReply.UnsignedByte` | src/main/java/com/spotify/sshagentproxy/IdentitiesAnswer.java:47-48 | the byte's unsigned reading is in 0..255, is congruent to it modulo 256, and is unchanged for non-negative bytes |
| `AgentReply.SignedByte` | src/main/java/com/spotify/sshagentproxy/IdentitiesAnswer.java:47-48 | gives the byte whose unsigned reading is the given value |
| `AgentReply.BigEndian` | src/main/java/com/spotify/sshagentproxy/IdentitiesAnswer.java:44-54 | the big-endian value of n bytes is below 256^n |
| `AgentReply.BigEndianBytes` | src/main/java/com/spotify/sshagentproxy/IdentitiesAnswer.java:44-54 | laying out a value below 256^n gives exactly n bytes |
| `AgentReply.BigEndianOfBytes` | src/main/java/com/spotify/sshagentproxy/IdentitiesAnswer.java:44-54 | reading back the bytes laid out for a value gives that value |
| `AgentReply.BytesOfBigEndian` | src/main/java/com/spotify/sshagentproxy/IdentitiesAnswer.java:44-54 | laying out the value read from a byte string gives the same byte string, so no two byte strings of one length share a value |
| `AgentReply.BigEndianFour` | src/main/java/com/spotify/sshagentproxy/IdentitiesAnswer.java:44-45 | the value of four bytes is b0*2^24 + b1*2^16 + b2*2^8 + b3, each byte read unsigned |
| `AgentReply.First` | src/main/java/com/spotify/sshagentproxy/IdentitiesAnswer.java:44-45 | `first` is the `int` whose unsigned reading is the big-endian value of bytes 0-3 |
| `AgentReply.Second` | src/main/java/com/spotify/sshagentproxy/IdentitiesAnswer.java:47-48 | `second` is byte 4 widened without sign extension, i.e. its one-byte big-endian value |
| `AgentReply.Third` | src/main/java/com/spotify/sshagentproxy/IdentitiesAnswer.java:53-54 | `third` is the `int` whose unsigned reading is the big-endian value of bytes 5-8 |
| `AgentReply.ParseHeader` | src/main/java/com/spotify/sshagentproxy/IdentitiesAnswer.java:39-57 | a buffer of any length other than 9 gives InvalidLength whatever byte 4 holds; a 9-byte buffer whose byte 4 differs from the expected code gives WrongResponseCode; otherwise the result succeeds and carries the expected code, and its two `int`s read as the big-endian values of bytes 0-3 and 5-8 |
| `AgentReply.HeaderBytes` | src/main/java/com/spotify/sshagentproxy/IdentitiesAnswer.java:44-54 | the layout of a header's fields is always 9 bytes |
| `AgentReply.ParseHeaderBytes` | src/main/java/com/spotify/sshagentproxy/IdentitiesAnswer.java:39-57 | parsing the laid-out bytes of any fields returns those fields when the code matches, and WrongResponseCode otherwise |
| `AgentReply.ParseHeaderInverse` | src/main/java/com/spotify/sshagentproxy/IdentitiesAnswer.java:39-57 | a buffer that parses is exactly the layout of the fields it parsed to |
| `IdentitiesAnswer.From` | src/main/java/com/spotify/sshagentproxy/IdentitiesAnswer.java:39-57 | fails with InvalidLength for every length other than 9, before looking at the code; on 9 bytes fails with WrongResponseCode exactly when byte 4 is not 12; on success the response code is 12, `length` reads as bytes 0-3 and `count` as bytes 5-8 |
| `IdentitiesAnswer.Equals` | src/main/java/com/spotify/sshagentproxy/IdentitiesAnswer.java:80-99 | `equals` holds exactly when the two values are the same value, i.e. all three fields agree |
| `IdentitiesAnswer.HashCode` | src/main/java/com/spotify/sshagentproxy/IdentitiesAnswer.java:101-107 | `hashCode` is (31*length + responseCode)*31 + count = 961*length + 31*responseCode + count, wrapped to 32 bits |
| `IdentitiesAnswer.EqualsIsEquivalence` | src/main/java/com/spotify/sshagentproxy/IdentitiesAnswer.java:80-99 | `equals` is reflexive, symmetric and transitive |
| `IdentitiesAnswer.HashCodeConsistent` | src/main/java/com/spotify/sshagentproxy/IdentitiesAnswer.java:80-107 | equal values have equal hash codes |
| `IdentitiesAnswer.Bytes` | src/main/java/com/spotify/sshagentproxy/IdentitiesAnswer.java:44-54 | the wire form of any answer (code 12) is 9 bytes |
| `IdentitiesAnswer.FromBytes` | src/main/java/com/spotify/sshagentproxy/IdentitiesAnswer.java:33-57 | every answer a caller can hold, whatever its `length` and `count`, is what `from` returns for its wire form |
| `IdentitiesAnswer.BytesOfFrom` | src/main/java/com/spotify/sshagentproxy/IdentitiesAnswer.java:39-57 | an accepted buffer is the wire form of the answer it decodes to |
| `IdentitiesAnswer.FromInjective` | src/main/java/com/spotify/sshagentproxy/IdentitiesAnswer.java:39-57 | two accepted buffers decode to `equals` answers only if they are the same buffer |
| `IdentitiesAnswer.ExampleFiveKeysThree` | src/main/java/com/spotify/sshagentproxy/IdentitiesAnswer.java:44-56 | [0,0,0,5,12,0,0,0,3] decodes to length 5, code 12, count 3 |
| `IdentitiesAnswer.ExampleSignCodeRejected` | src/main/java/com/spotify/sshagentproxy/IdentitiesAnswer.java:48-51 | [0,0,0,5,14,0,0,0,3] fails with WrongResponseCode |
| `IdentitiesAnswer.ExampleShortBufferRejected` | src/main/java/com/spotify/sshagentproxy/IdentitiesAnswer.java:40-42 | an 8-byte buffer fails with InvalidLength |
| `IdentitiesAnswer.ExampleNegativeLength` | src/main/java/com/spotify/sshagentproxy/IdentitiesAnswer.java:44-45 | bytes 0-3 all 0xFF give the Java `int` length -1 |
| `SignResponse.From` | src/main/java/com/spotify/sshagentproxy/SignResponse.java:41-59 | fails with InvalidLength for every length other than 9, before looking at the code; on 9 bytes fails with WrongResponseCode exactly when byte 4 is not 14; on success the response code is 14, `length` reads as bytes 0-3 and `responseLength` as bytes 5-8 |
| `SignResponse.Equals` | src/main/java/com/spotify/sshagentproxy/SignResponse.java:79-98 | `equals` holds exactly when the two values are the same value, i.e. all three fields agree |
| `SignResponse.HashCode` | src/main/java/com/spotify/sshagentproxy/SignResponse.java:100-106 | `hashCode` is 961*length + 31*responseCode + responseLength, wrapped to 32 bits |
| `SignResponse.EqualsIsEquivalence` | src/main/java/com/spotify/sshagentproxy/SignResponse.java:79-98 | `equals` is reflexive, symmetric and transitive |
| `SignResponse.HashCodeConsistent` | src/main/java/com/spotify/sshagentproxy/SignResponse.java:79-106 | equal values have equal hash codes |
| `SignResponse.Bytes` | src/main/java/com/spotify/sshagentproxy/SignResponse.java:46-56 | the wire form of any response (code 14) is 9 bytes |
| `SignResponse.FromBytes` | src/main/java/com/spotify/sshagentproxy/SignResponse.java:33-59 | every response a caller can hold, whatever its `length` and `responseLength`, is what `from` returns for its wire form |
| `SignResponse.BytesOfFrom` | src/main/java/com/spotify/sshagentproxy/SignResponse.java:41-59 | an accepted buffer is the wire form of the response it decodes to |
| `SignResponse.FromInjective` | src/main/java/com/spotify/sshagentproxy/SignResponse.java:41-59 | two accepted buffers decode to `equals` responses only if they are the same buffer |
| `SignResponse.ExampleNineSignatureTwenty` | src/main/java/com/spotify/sshagentproxy/SignResponse.java:46-58 | [0,0,0,9,14,0,0,0,20] decodes to length 9, code 14, responseLength 20 |
| `SignResponse.ExampleIdentitiesCodeRejected` | src/main/java/com/spotify/sshagentproxy/SignResponse.java:50-53 | [0,0,0,9,12,0,0,0,20] fails with WrongResponseCode |
| `SignResponse.ExampleShortBufferRejected` | src/main/java/com/spotify/sshagentproxy/SignResponse.java:42-44 | an 8-byte buffer fails with InvalidLength |
| `SignResponse.ExampleNegativeResponseLength` | src/main/java/com/spotify/sshagentproxy/SignResponse.java:55-56 | bytes 5-8 = 0x80,0,0,0 give the Java `int` responseLength -2^31 |
| `ReplyHeaders.BothRejectWrongLength` | src/main/java/com/spotify/sshagentproxy/SignResponse.java:42-44 | both decoders reject every buffer of a length other than 9 with InvalidLength |
| `ReplyHeaders.DecodersExclusive` | src/main/java/com/spotify/sshagentproxy/SignResponse.java:50-53 | a buffer accepted by one decoder is rejected by the other with WrongResponseCode |
| `ReplyHeaders.HeaderBytesExclusive` | src/main/java/com/spotify/sshagentproxy/IdentitiesAnswer.java:48-51 | the wire form of any identities answer is rejected as a sign response, and the reverse |
| `ReplyHeaders.ExampleEightBytesRejected` | src/main/java/com/spotify/sshagentproxy/IdentitiesAnswer.java:40-42 | an 8-byte buffer fails with InvalidLength in both decoders |

## Left out

- `toString` in both classes: it formats through a foreign library's string helper. `SignResponse.toString` prints no fields at all.
- The exception classes and their message texts: `IllegalArgumentException` for the length and `RuntimeException` for the code. They are modelled only as the two failure kinds `InvalidLength` and `WrongResponseCode` of a `Result`.
- A null buffer: `from(null)` throws `NullPointerException` when it reads `bytes.length`. A `seq` cannot be null, so this case is not modelled.
- The `this == o` shortcut, the null check and the `getClass()` check in `equals`: these are Java object identity and runtime types. `Equals` compares two values of the same header type.
- The code of the base class `AgentReply`: it is not part of this model. `first`, `second` and `third` are defined by the byte layout.
- The transport that reads the 9 bytes from the agent socket, the key-blob and signature payloads that follow the headers, and the proxy and connection logic: they sit outside these two classes.
- Encoding: `HeaderBytes`, `BigEndianBytes` and the two `Bytes` functions do not model code in these classes. They are reference definitions of the wire layout, the bytes an agent would send. They exist to state the decoders' round-trip properties.
