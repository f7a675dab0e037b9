/**
 * The client's handler for "get streams" (command code 10): it sends the
 * one-byte command, receives the response into a 1024-byte buffer, checks
 * the status byte and decodes the listing. The socket exchange is outside
 * the model; the handler starts from the filled buffer and the number of
 * bytes received.
 */
module GetStreamsHandler {
  import opened StreamsCodec
  import opened StreamOrder

  const BufferSize: nat := 1024

  /**
   * What the handler produces from a buffer holding payloadLength received
   * bytes: the status byte is checked first; a response of only the status
   * byte is the empty listing; otherwise buffer[1..payloadLength] is decoded
   * and the streams are ordered by id.
   */
  function GetStreams(buffer: seq<byte>, payloadLength: nat): (r: Result<seq<Stream>>)
    requires |buffer| == BufferSize && payloadLength <= BufferSize
    ensures r.Success? <==>
              buffer[0] == 0 && 1 <= payloadLength && DecodeRecords(buffer[1..payloadLength]).Success?
    ensures r.Success? ==> IsSortedById(r.value)
    ensures r.Success? ==> multiset(r.value) == multiset(DecodeRecords(buffer[1..payloadLength]).value)
  {
    if buffer[0] != 0 then Failure(StatusError(buffer[0]))
    else if payloadLength == 1 then Success([])
    else if payloadLength == 0 then Failure(MalformedPayload)
    else
      match DecodeRecords(buffer[1..payloadLength])
      case Success(streams) =>
        InsertionSortCorrect(streams);
        Success(InsertionSort(streams))
      case Failure(e) => Failure(e)
  }

  /**
   * Reads the little-endian u32 at buffer[at..at + 4], which must lie inside
   * the received body buffer[1..end].
   */
  function ReadU32(buffer: array<byte>, end: nat, at: nat): (x: u32)
    requires 1 <= at && at + 4 <= end <= buffer.Length
    reads buffer
    ensures x == U32At(buffer[1..end], at - 1)
  {
    U32At(buffer[..], at)
  }

  /**
   * The handler: the status byte first, then the one-byte response as the
   * empty listing, then the record loop and the sort by id.
   */
  method HandleGetStreams(buffer: array<byte>, payloadLength: nat) returns (r: Result<seq<Stream>>)
    requires buffer.Length == BufferSize && payloadLength <= buffer.Length
    ensures r == GetStreams(buffer[..], payloadLength)
    ensures buffer[0] != 0 ==> r == Failure(StatusError(buffer[0]))
    ensures buffer[0] == 0 && payloadLength == 1 ==> r == Success([])
  {
    if buffer[0] != 0 {
      return Failure(StatusError(buffer[0]));
    }
    if payloadLength == 1 {
      return Success([]);
    }
    if payloadLength == 0 {
      return Failure(MalformedPayload);
    }
    assert buffer[1..payloadLength] == buffer[..][1..payloadLength];
    var decoded := DecodeBody(buffer, payloadLength);
    if decoded.Failure? {
      return Failure(decoded.error);
    }
    var streams := decoded.value;
    var sorted := new Stream[|streams|](i requires 0 <= i < |streams| => streams[i]);
    assert sorted[..] == streams;
    SortById(sorted);
    return Success(sorted[..]);
  }

  /**
   * The record loop of the handler. Every read goes through ReadU32 or a
   * slice inside buffer[1..payloadLength]; a record whose header or name
   * runs past the received bytes is MalformedPayload, and a name that is
   * not UTF-8 is InvalidName.
   */
  method DecodeBody(buffer: array<byte>, payloadLength: nat) returns (r: Result<seq<Stream>>)
    requires 1 <= payloadLength <= buffer.Length
    ensures r == DecodeRecords(buffer[1..payloadLength])
  {
    ghost var body := buffer[1..payloadLength];
    var length := payloadLength - 1;
    var position := 0;
    var streams: seq<Stream> := [];
    assert body[position..] == body;
    PrependNothing(DecodeRecords(body));
    while position < length
      invariant position <= length == |body|
      invariant DecodeRecords(body) == Prepend(streams, DecodeRecords(body[position..]))
      decreases length - position
    {
      DecodeAt(body, position);
      if length - position < HeaderSize {
        return Failure(MalformedPayload);
      }
      var id := ReadU32(buffer, payloadLength, 1 + position);
      var topics := ReadU32(buffer, payloadLength, 1 + position + 4);
      var nameLength := ReadU32(buffer, payloadLength, 1 + position + 8);
      if length - position - HeaderSize < nameLength {
        return Failure(MalformedPayload);
      }
      var next := position + HeaderSize + nameLength;
      var name := buffer[1 + position + HeaderSize..1 + next];
      assert name == body[position + HeaderSize..next];
      if !IsUtf8(name) {
        return Failure(InvalidName);
      }
      PrependPrepend(streams, [Stream(id, topics, name)], DecodeRecords(body[next..]));
      streams := streams + [Stream(id, topics, name)];
      position := next;
    }
    assert body[position..] == [];
    assert streams + [] == streams;
    return Success(streams);
  }

  /**
   * Round trip through the buffer: a buffer that starts with the encoded
   * response for ss yields exactly ss, ordered by id.
   */
  lemma ResponseRoundTrip(buffer: seq<byte>, ss: seq<Stream>)
    requires AllWellFormed(ss)
    requires |buffer| == BufferSize && |EncodeResponse(ss)| <= BufferSize
    requires buffer[..|EncodeResponse(ss)|] == EncodeResponse(ss)
    ensures GetStreams(buffer, |EncodeResponse(ss)|) == Success(InsertionSort(ss))
  {
    var p := EncodeResponse(ss);
    SliceOfPrefix(buffer, p, 1, |p|);
    assert p[1..] == EncodeRecords(ss);
    RoundTrip(ss);
  }

  /**
   * A response whose last record was cut short (the datagram ends inside
   * the record) is MalformedPayload, where the handler as written panics.
   */
  lemma {:induction false} TruncatedResponseIsMalformed(buffer: seq<byte>, ss: seq<Stream>, k: nat)
    requires ss != [] && AllWellFormed(ss)
    requires |buffer| == BufferSize && |EncodeResponse(ss)| <= BufferSize
    requires buffer[..|EncodeResponse(ss)|] == EncodeResponse(ss)
    requires 0 < k < HeaderSize + |ss[|ss| - 1].name|
    ensures k < |EncodeResponse(ss)|
    ensures GetStreams(buffer, |EncodeResponse(ss)| - k) == Failure(MalformedPayload)
  {
    TruncatedBodyIsMalformed(ss, k);
    var p := EncodeResponse(ss);
    var e := EncodeRecords(ss);
    var n := |p| - k;
    SliceOfPrefix(buffer, p, 1, n);
    assert p[1..n] == e[..|e| - k];
    BodyFailure(buffer, n);
  }

  /** A successful status followed by a body that does not decode gives the decoder's error. */
  lemma BodyFailure(buffer: seq<byte>, payloadLength: nat)
    requires |buffer| == BufferSize && 1 <= payloadLength <= BufferSize && buffer[0] == 0
    requires DecodeRecords(buffer[1..payloadLength]).Failure?
    ensures GetStreams(buffer, payloadLength) == Failure(DecodeRecords(buffer[1..payloadLength]).error)
  {
  }

  /** A slice of a buffer that begins with p is the same slice of p. */
  lemma SliceOfPrefix(buffer: seq<byte>, p: seq<byte>, lo: nat, hi: nat)
    requires |p| <= |buffer| && buffer[..|p|] == p
    requires lo <= hi <= |p|
    ensures buffer[lo..hi] == p[lo..hi]
    ensures 0 < |p| ==> buffer[0] == p[0]
  {
    assert forall i :: lo <= i < hi ==> buffer[i] == buffer[..|p|][i];
  }
}
