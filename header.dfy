/**
 * The 4-byte fragment header: `struct.pack("!HH", seq, checksum)` on the
 * sender and `struct.unpack("!HH", data[:4])` on the receiver, i.e. the
 * sequence number then the checksum, each an unsigned 16-bit big-endian
 * ("network order") field. A wire message is the header followed by the
 * payload; there is no length field.
 */
module HeaderCodec {
  import opened Bytes

  const HEADER_SIZE: nat := 4

  /** `struct.pack("!HH", seqNum, checksum)`. */
  function EncodeHeader(seqNum: uint16, checksum: uint16): (h: seq<uint8>)
    ensures |h| == HEADER_SIZE
  {
    [seqNum / 256, seqNum % 256, checksum / 256, checksum % 256]
  }

  /** `header + fragment`, the data message the sender writes. */
  function EncodeMessage(seqNum: uint16, checksum: uint16, payload: seq<uint8>): (m: seq<uint8>)
    ensures |m| == HEADER_SIZE + |payload|
    ensures m[HEADER_SIZE..] == payload
  {
    EncodeHeader(seqNum, checksum) + payload
  }

  /** What the receiver makes of a data message. */
  datatype Unpacked =
    | Frame(seqNum: uint16, checksum: uint16, payload: seq<uint8>)
    | MalformedHeader  // `struct.unpack` raises on fewer than 4 bytes

  /** `struct.unpack("!HH", data[:4])` together with `data[4:]`. */
  function DecodeMessage(data: seq<uint8>): (r: Unpacked)
    ensures r.MalformedHeader? <==> |data| < HEADER_SIZE
  {
    if |data| < HEADER_SIZE then MalformedHeader
    else Frame(BigEndian16(data[0], data[1]), BigEndian16(data[2], data[3]), data[HEADER_SIZE..])
  }

  /** Decoding inverts encoding: the receiver reads back the sender's fields and payload. */
  lemma DecodeEncode(seqNum: uint16, checksum: uint16, payload: seq<uint8>)
    ensures DecodeMessage(EncodeMessage(seqNum, checksum, payload)) == Frame(seqNum, checksum, payload)
  {
    var m := EncodeMessage(seqNum, checksum, payload);
    assert BigEndian16(m[0], m[1]) == seqNum;
    assert BigEndian16(m[2], m[3]) == checksum;
  }

  /** Encoding inverts decoding: a message of at least 4 bytes is its decoded header followed by its payload. */
  lemma EncodeDecode(data: seq<uint8>)
    requires |data| >= HEADER_SIZE
    ensures DecodeMessage(data).Frame?
    ensures EncodeMessage(DecodeMessage(data).seqNum, DecodeMessage(data).checksum, DecodeMessage(data).payload) == data
  {
    var r := DecodeMessage(data);
    var m := EncodeMessage(r.seqNum, r.checksum, r.payload);
    assert m[..HEADER_SIZE] == data[..HEADER_SIZE];
    assert m == m[..HEADER_SIZE] + m[HEADER_SIZE..];
    assert data == data[..HEADER_SIZE] + data[HEADER_SIZE..];
  }
}
