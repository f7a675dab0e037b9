/**
 * The wire format of the stream-listing response (command code 10): a status
 * byte followed by a body of repeated records
 *
 *   id: u32 LE | topics: u32 LE | name_length: u32 LE | name[name_length]
 *
 * This module holds the byte-level vocabulary, the record decoder used as
 * the specification of the client's decode loop, the matching encoder and
 * the round-trip lemmas that connect the two.
 */
module StreamsCodec {

  type byte = x: int | 0 <= x < 0x100
  type u32 = x: int | 0 <= x < 0x1_0000_0000

  /** Bytes of the fixed part of a record: id, topic count and name length. */
  const HeaderSize: nat := 12

  /** A stream as the client decodes it; the name is kept as its UTF-8 bytes. */
  datatype Stream = Stream(id: u32, topics: u32, name: seq<byte>)

  datatype DecodeError =
    | StatusError(code: byte)   // the response's status byte was not 0
    | MalformedPayload          // a record's header or name runs past the payload
    | InvalidName               // a name is not well-formed UTF-8

  datatype Result<T> = Success(value: T) | Failure(error: DecodeError)

  /** Puts already decoded records in front of the outcome of decoding the rest. */
  function Prepend(prefix: seq<Stream>, rest: Result<seq<Stream>>): Result<seq<Stream>>
  {
    match rest
    case Success(v) => Success(prefix + v)
    case Failure(e) => Failure(e)
  }

  lemma PrependPrepend(a: seq<Stream>, b: seq<Stream>, r: Result<seq<Stream>>)
    ensures Prepend(a, Prepend(b, r)) == Prepend(a + b, r)
  {
    if r.Success? {
      assert a + (b + r.value) == (a + b) + r.value;
    }
  }

  lemma PrependNothing(r: Result<seq<Stream>>)
    ensures Prepend([], r) == r
  {
    if r.Success? {
      assert [] + r.value == r.value;
    }
  }

  lemma SplitAt<T>(s: seq<T>, n: nat)
    requires n <= |s|
    ensures s == s[..n] + s[n..]
  {
  }

  // ---------------------------------------------------------------------
  // Little-endian u32

  /** The little-endian u32 stored in s[at..at + 4]. */
  function U32At(s: seq<byte>, at: nat): (x: u32)
    requires at + 4 <= |s|
  {
    var b0: int, b1: int, b2: int, b3: int := s[at], s[at + 1], s[at + 2], s[at + 3];
    b0 + 0x100 * b1 + 0x1_0000 * b2 + 0x100_0000 * b3
  }

  /** The four little-endian bytes of x. */
  function LeBytes(x: u32): (b: seq<byte>)
    ensures |b| == 4
  {
    var q1: int := x / 0x100;
    var q2: int := q1 / 0x100;
    var q3: int := q2 / 0x100;
    [x % 0x100, q1 % 0x100, q2 % 0x100, q3]
  }

  /** Euclidean division by 0x100 of a number written as low byte plus 0x100 times the rest. */
  lemma DivModByte(x: int, low: int, high: int)
    requires 0 <= low < 0x100 && x == low + 0x100 * high
    ensures x % 0x100 == low && x / 0x100 == high
  {
  }

  /** Writing x as four bytes and reading them back gives x. */
  lemma U32AtLeBytes(x: u32)
    ensures U32At(LeBytes(x), 0) == x
  {
    var q1: int := x / 0x100;
    var q2: int := q1 / 0x100;
    var q3: int := q2 / 0x100;
    assert x == x % 0x100 + 0x100 * q1;
    assert q1 == q1 % 0x100 + 0x100 * q2;
    assert q2 == q2 % 0x100 + 0x100 * q3;
  }

  /** Reading four bytes as a u32 and writing it back gives the same bytes. */
  lemma LeBytesOfU32At(s: seq<byte>, at: nat)
    requires at + 4 <= |s|
    ensures LeBytes(U32At(s, at)) == s[at..at + 4]
  {
    var b0: int, b1: int, b2: int, b3: int := s[at], s[at + 1], s[at + 2], s[at + 3];
    var x: int := U32At(s, at);
    DivModByte(x, b0, b1 + 0x100 * b2 + 0x1_0000 * b3);
    DivModByte(b1 + 0x100 * b2 + 0x1_0000 * b3, b1, b2 + 0x100 * b3);
    DivModByte(b2 + 0x100 * b3, b2, b3);
    assert LeBytes(x) == [b0, b1, b2, b3];
  }

  // ---------------------------------------------------------------------
  // UTF-8 well-formedness (the byte syntax of section 4 of RFC 3629)

  predicate IsContinuation(b: byte) { 0x80 <= b <= 0xBF }

  /**
   * The length of the well-formed UTF-8 character that starts s, or 0 when
   * s does not start with one.
   */
  function Utf8CharLength(s: seq<byte>): (n: nat)
    requires |s| > 0
    ensures n <= 4 && n <= |s|
    ensures s[0] < 0x80 ==> n == 1
  {
    var b := s[0];
    if b <= 0x7F then 1
    else if 0xC2 <= b <= 0xDF then
      if |s| >= 2 && IsContinuation(s[1]) then 2 else 0
    else if b == 0xE0 then
      if |s| >= 3 && 0xA0 <= s[1] <= 0xBF && IsContinuation(s[2]) then 3 else 0
    else if 0xE1 <= b <= 0xEC || 0xEE <= b <= 0xEF then
      if |s| >= 3 && IsContinuation(s[1]) && IsContinuation(s[2]) then 3 else 0
    else if b == 0xED then
      if |s| >= 3 && 0x80 <= s[1] <= 0x9F && IsContinuation(s[2]) then 3 else 0
    else if b == 0xF0 then
      if |s| >= 4 && 0x90 <= s[1] <= 0xBF && IsContinuation(s[2]) && IsContinuation(s[3]) then 4 else 0
    else if 0xF1 <= b <= 0xF3 then
      if |s| >= 4 && IsContinuation(s[1]) && IsContinuation(s[2]) && IsContinuation(s[3]) then 4 else 0
    else if b == 0xF4 then
      if |s| >= 4 && 0x80 <= s[1] <= 0x8F && IsContinuation(s[2]) && IsContinuation(s[3]) then 4 else 0
    else 0
  }

  /**
   * s is a sequence of well-formed UTF-8 characters. Such a sequence never
   * starts with a continuation byte or with a byte that leads no character.
   */
  predicate IsUtf8(s: seq<byte>)
    ensures IsUtf8(s) && |s| > 0 ==> s[0] < 0x80 || 0xC2 <= s[0] <= 0xF4
    decreases |s|
  {
    |s| == 0 || (var n := Utf8CharLength(s); n > 0 && IsUtf8(s[n..]))
  }

  /** The first character's length depends only on its own bytes. */
  lemma Utf8CharLengthPrefix(a: seq<byte>, b: seq<byte>)
    requires |a| > 0 && Utf8CharLength(a) > 0
    ensures Utf8CharLength(a + b) == Utf8CharLength(a)
  {
    var n := Utf8CharLength(a);
    assert (a + b)[..n] == a[..n];
  }

  /** Concatenating two well-formed UTF-8 strings gives a well-formed one. */
  lemma {:induction false} Utf8Concat(a: seq<byte>, b: seq<byte>)
    requires IsUtf8(a) && IsUtf8(b)
    ensures IsUtf8(a + b)
  {
    if |a| > 0 {
      var n := Utf8CharLength(a);
      Utf8CharLengthPrefix(a, b);
      assert (a + b)[n..] == a[n..] + b;
      Utf8Concat(a[n..], b);
    } else {
      assert a + b == b;
    }
  }

  /** Every sequence of 7-bit bytes is well-formed UTF-8. */
  lemma {:induction false} AsciiIsUtf8(s: seq<byte>)
    requires forall i :: 0 <= i < |s| ==> s[i] < 0x80
    ensures IsUtf8(s)
  {
    if |s| > 0 {
      AsciiIsUtf8(s[1..]);
    }
  }

  // ---------------------------------------------------------------------
  // Records

  /** A stream the encoder can write and the decoder accepts. */
  predicate WellFormed(s: Stream)
  {
    |s.name| < 0x1_0000_0000 && IsUtf8(s.name)
  }

  predicate AllWellFormed(ss: seq<Stream>)
  {
    forall i :: 0 <= i < |ss| ==> WellFormed(ss[i])
  }

  /**
   * One record. The length field is the name's length as a u32 (a longer
   * name would wrap around, as a cast to u32 does; WellFormed excludes it).
   */
  function EncodeRecord(s: Stream): (b: seq<byte>)
    ensures |b| == HeaderSize + |s.name|
  {
    LeBytes(s.id) + LeBytes(s.topics) + LeBytes(|s.name| % 0x1_0000_0000) + s.name
  }

  /** The body of a listing response: the records one after another. */
  function EncodeRecords(ss: seq<Stream>): (b: seq<byte>)
    ensures |b| >= HeaderSize * |ss|
    ensures b == [] <==> ss == []
  {
    if ss == [] then [] else EncodeRecord(ss[0]) + EncodeRecords(ss[1..])
  }

  /** The whole response to command 10 with status 0. */
  function EncodeResponse(ss: seq<Stream>): (b: seq<byte>)
    ensures |b| >= 1 && b[0] == 0
  {
    [0] + EncodeRecords(ss)
  }

  /**
   * Decodes a response body. The cursor sits at the start of `body`; each
   * record moves it forward by HeaderSize + name_length, and decoding ends
   * when nothing is left. A header or name that runs past the end of the
   * body is MalformedPayload, a name that is not UTF-8 is InvalidName.
   */
  function DecodeRecords(body: seq<byte>): (r: Result<seq<Stream>>)
    ensures r.Success? ==> HeaderSize * |r.value| <= |body|
    ensures r.Success? ==> (r.value == [] <==> body == [])
    decreases |body|
  {
    if |body| == 0 then Success([])
    else if |body| < HeaderSize then Failure(MalformedPayload)
    else
      var nameLength := U32At(body, 8);
      if |body| - HeaderSize < nameLength then Failure(MalformedPayload)
      else
        var name := body[HeaderSize..HeaderSize + nameLength];
        if !IsUtf8(name) then Failure(InvalidName)
        else
          Prepend([Stream(U32At(body, 0), U32At(body, 4), name)],
                  DecodeRecords(body[HeaderSize + nameLength..]))
  }

  lemma U32AtDrop(s: seq<byte>, pos: nat, at: nat)
    requires pos + at + 4 <= |s|
    ensures U32At(s[pos..], at) == U32At(s, pos + at)
  {
  }

  /**
   * One step of DecodeRecords on the suffix body[pos..], written with
   * indices into body itself: the shape a cursor-driven decoder follows.
   */
  lemma {:induction false} DecodeAt(body: seq<byte>, pos: nat)
    requires pos < |body|
    ensures |body| - pos < HeaderSize ==> DecodeRecords(body[pos..]) == Failure(MalformedPayload)
    ensures |body| - pos >= HeaderSize && |body| - pos - HeaderSize < U32At(body, pos + 8) ==>
              DecodeRecords(body[pos..]) == Failure(MalformedPayload)
    ensures |body| - pos >= HeaderSize && U32At(body, pos + 8) <= |body| - pos - HeaderSize ==>
              var next := pos + HeaderSize + U32At(body, pos + 8);
              var name := body[pos + HeaderSize..next];
              DecodeRecords(body[pos..]) ==
                if !IsUtf8(name) then Failure(InvalidName)
                else Prepend([Stream(U32At(body, pos), U32At(body, pos + 4), name)], DecodeRecords(body[next..]))
  {
    if |body| - pos >= HeaderSize {
      U32AtDrop(body, pos, 8);
      if U32At(body, pos + 8) <= |body| - pos - HeaderSize {
        DecodeAtRecord(body, pos, U32At(body, pos), U32At(body, pos + 4), U32At(body, pos + 8));
      }
    }
  }

  /** DecodeAt when a whole header and name are left at pos, with the header's fields given. */
  lemma DecodeAtRecord(body: seq<byte>, pos: nat, id: u32, topics: u32, nameLength: nat)
    requires pos + HeaderSize + nameLength <= |body|
    requires U32At(body, pos) == id && U32At(body, pos + 4) == topics && U32At(body, pos + 8) == nameLength
    ensures var next := pos + HeaderSize + nameLength;
            var name := body[pos + HeaderSize..next];
            DecodeRecords(body[pos..]) ==
              if !IsUtf8(name) then Failure(InvalidName)
              else Prepend([Stream(id, topics, name)], DecodeRecords(body[next..]))
  {
    var next := pos + HeaderSize + nameLength;
    SuffixFields(body, pos);
    DecodeRecordsStep(body[pos..], id, topics, body[pos + HeaderSize..next], body[next..]);
  }

  /** The fields, the name and the tail of the suffix at pos, read in the whole body. */
  lemma SuffixFields(body: seq<byte>, pos: nat)
    requires pos + HeaderSize <= |body| && U32At(body, pos + 8) <= |body| - pos - HeaderSize
    ensures var rest, nameLength := body[pos..], U32At(body, pos + 8);
            && U32At(rest, 0) == U32At(body, pos) && U32At(rest, 4) == U32At(body, pos + 4) && U32At(rest, 8) == nameLength
            && rest[HeaderSize..HeaderSize + nameLength] == body[pos + HeaderSize..pos + HeaderSize + nameLength]
            && rest[HeaderSize + nameLength..] == body[pos + HeaderSize + nameLength..]
  {
    U32AtDrop(body, pos, 0);
    U32AtDrop(body, pos, 4);
    U32AtDrop(body, pos, 8);
  }

  /** DecodeRecords on a body that starts with a whole header and name. */
  lemma DecodeRecordsStep(body: seq<byte>, id: u32, topics: u32, name: seq<byte>, tail: seq<byte>)
    requires HeaderSize <= |body| && U32At(body, 8) <= |body| - HeaderSize
    requires U32At(body, 0) == id && U32At(body, 4) == topics
    requires body[HeaderSize..HeaderSize + U32At(body, 8)] == name
    requires body[HeaderSize + U32At(body, 8)..] == tail
    ensures DecodeRecords(body) ==
              if !IsUtf8(name) then Failure(InvalidName) else Prepend([Stream(id, topics, name)], DecodeRecords(tail))
  {
  }

  lemma {:induction false} EncodeRecordsAppend(a: seq<Stream>, b: seq<Stream>)
    ensures EncodeRecords(a + b) == EncodeRecords(a) + EncodeRecords(b)
  {
    if a != [] {
      assert (a + b)[1..] == a[1..] + b;
      EncodeRecordsAppend(a[1..], b);
    } else {
      assert a + b == b;
    }
  }

  lemma EncodeRecordsSnoc(init: seq<Stream>, last: Stream)
    ensures EncodeRecords(init + [last]) == EncodeRecords(init) + EncodeRecord(last)
  {
    EncodeRecordsAppend(init, [last]);
    assert EncodeRecords([last]) == EncodeRecord(last) + EncodeRecords([]);
  }

  lemma U32AtAppend(a: seq<byte>, b: seq<byte>, at: nat)
    requires at + 4 <= |a|
    ensures U32At(a + b, at) == U32At(a, at)
  {
  }

  lemma U32AtShift(a: seq<byte>, b: seq<byte>, at: nat)
    requires at + 4 <= |b|
    ensures U32At(a + b, |a| + at) == U32At(b, at)
  {
  }

  lemma U32AtPrefix(a: seq<byte>, n: nat, at: nat)
    requires at + 4 <= n <= |a|
    ensures U32At(a[..n], at) == U32At(a, at)
  {
  }

  /** The header of an encoded record holds the stream's id, topic count and name length. */
  lemma EncodeRecordFields(s: Stream)
    requires |s.name| < 0x1_0000_0000
    ensures U32At(EncodeRecord(s), 0) == s.id
    ensures U32At(EncodeRecord(s), 4) == s.topics
    ensures U32At(EncodeRecord(s), 8) == |s.name|
    ensures EncodeRecord(s)[HeaderSize..] == s.name
  {
    var a, b, c := LeBytes(s.id), LeBytes(s.topics), LeBytes(|s.name|);
    U32AtLeBytes(s.id);
    U32AtLeBytes(s.topics);
    U32AtLeBytes(|s.name|);
    var abc := a + b + c;
    assert EncodeRecord(s) == abc + s.name;
    U32AtAppend(abc, s.name, 0);
    U32AtAppend(abc, s.name, 4);
    U32AtAppend(abc, s.name, 8);
    U32AtAppend(a + b, c, 0);
    U32AtAppend(a + b, c, 4);
    U32AtAppend(a, b, 0);
    U32AtShift(a, b, 0);
    U32AtShift(a + b, c, 0);
  }

  /** Decoding one encoded record reads back its fields and moves past it. */
  lemma DecodeOneRecord(s: Stream, rest: seq<byte>)
    requires WellFormed(s)
    ensures DecodeRecords(EncodeRecord(s) + rest) == Prepend([s], DecodeRecords(rest))
  {
    var e := EncodeRecord(s);
    EncodeRecordFields(s);
    U32AtAppend(e, rest, 0);
    U32AtAppend(e, rest, 4);
    U32AtAppend(e, rest, 8);
    var body := e + rest;
    assert body[HeaderSize..HeaderSize + |s.name|] == e[HeaderSize..] == s.name;
    assert body[HeaderSize + |s.name|..] == rest;
  }

  /** Encoded records followed by any bytes decode to those records, then the rest. */
  lemma {:induction false} DecodeEncodedPrefix(ss: seq<Stream>, rest: seq<byte>)
    requires AllWellFormed(ss)
    ensures DecodeRecords(EncodeRecords(ss) + rest) == Prepend(ss, DecodeRecords(rest))
  {
    if ss == [] {
      assert [] + rest == rest;
      var r := DecodeRecords(rest);
      if r.Success? { assert [] + r.value == r.value; }
    } else {
      var tail := EncodeRecords(ss[1..]) + rest;
      assert EncodeRecords(ss) + rest == EncodeRecord(ss[0]) + tail;
      DecodeOneRecord(ss[0], tail);
      DecodeEncodedPrefix(ss[1..], rest);
      PrependPrepend([ss[0]], ss[1..], DecodeRecords(rest));
      assert [ss[0]] + ss[1..] == ss;
    }
  }

  /** Round trip: decoding an encoded body gives back the same records in the same order. */
  lemma RoundTrip(ss: seq<Stream>)
    requires AllWellFormed(ss)
    ensures DecodeRecords(EncodeRecords(ss)) == Success(ss)
  {
    DecodeEncodedPrefix(ss, []);
    assert EncodeRecords(ss) + [] == EncodeRecords(ss);
    assert ss + [] == ss;
  }

  /** The first record of a body, re-encoded, is the bytes it was decoded from. */
  lemma EncodeFirstRecord(body: seq<byte>)
    requires |body| >= HeaderSize && HeaderSize + U32At(body, 8) <= |body|
    ensures var n := HeaderSize + U32At(body, 8);
            EncodeRecord(Stream(U32At(body, 0), U32At(body, 4), body[HeaderSize..n])) == body[..n]
  {
    var n := HeaderSize + U32At(body, 8);
    LeBytesOfU32At(body, 0);
    LeBytesOfU32At(body, 4);
    LeBytesOfU32At(body, 8);
    assert (n - HeaderSize) % 0x1_0000_0000 == U32At(body, 8);
    SplitHeader(body, n);
  }

  lemma SplitHeader(body: seq<byte>, n: nat)
    requires HeaderSize <= n <= |body|
    ensures body[..n] == body[0..4] + body[4..8] + body[8..12] + body[HeaderSize..n]
  {
  }

  /** What a successful decode of a non-empty body consists of: its first record, then the rest. */
  lemma DecodeFirstRecord(body: seq<byte>)
    requires |body| > 0 && DecodeRecords(body).Success?
    ensures |body| >= HeaderSize && HeaderSize + U32At(body, 8) <= |body|
    ensures var n := HeaderSize + U32At(body, 8);
            var s := Stream(U32At(body, 0), U32At(body, 4), body[HeaderSize..n]);
            && WellFormed(s)
            && DecodeRecords(body[n..]).Success?
            && DecodeRecords(body).value == [s] + DecodeRecords(body[n..]).value
  {
  }

  /** Every stream a body decodes to is one the encoder can write back. */
  lemma {:induction false} DecodedAreWellFormed(body: seq<byte>)
    requires DecodeRecords(body).Success?
    ensures AllWellFormed(DecodeRecords(body).value)
    decreases |body|
  {
    if |body| > 0 {
      DecodeFirstRecord(body);
      var n := HeaderSize + U32At(body, 8);
      DecodedAreWellFormed(body[n..]);
      var vs := DecodeRecords(body[n..]).value;
      var all := DecodeRecords(body).value;
      forall i | 0 <= i < |all| ensures WellFormed(all[i]) {
        if i > 0 { assert all[i] == vs[i - 1]; }
      }
    }
  }

  /** The other direction: a body that decodes is exactly the encoding of what it decodes to. */
  lemma {:induction false} DecodeThenEncode(body: seq<byte>)
    requires DecodeRecords(body).Success?
    ensures AllWellFormed(DecodeRecords(body).value)
    ensures EncodeRecords(DecodeRecords(body).value) == body
    decreases |body|
  {
    DecodedAreWellFormed(body);
    if |body| > 0 {
      DecodeFirstRecord(body);
      var n := HeaderSize + U32At(body, 8);
      var s := Stream(U32At(body, 0), U32At(body, 4), body[HeaderSize..n]);
      var rest := body[n..];
      DecodeThenEncode(rest);
      var vs := DecodeRecords(rest).value;
      var all := [s] + vs;
      assert all[0] == s && all[1..] == vs;
      assert EncodeRecords(all) == EncodeRecord(s) + EncodeRecords(vs);
      EncodeFirstRecord(body);
      SplitAt(body, n);
    }
  }

  /** An encoded record cut short by k bytes, 0 < k < its length, is MalformedPayload. */
  lemma PartialRecordIsMalformed(s: Stream, k: nat)
    requires WellFormed(s) && 0 < k < HeaderSize + |s.name|
    ensures DecodeRecords(EncodeRecord(s)[..HeaderSize + |s.name| - k]) == Failure(MalformedPayload)
  {
    var e := EncodeRecord(s);
    var partial := e[..|e| - k];
    if |partial| >= HeaderSize {
      EncodeRecordFields(s);
      U32AtPrefix(e, |e| - k, 8);
    }
  }

  /**
   * Truncation: cutting between 1 and (length of the last record - 1) bytes off
   * the end of an encoded body is always MalformedPayload.
   */
  lemma TruncatedBodyIsMalformed(ss: seq<Stream>, k: nat)
    requires ss != [] && AllWellFormed(ss)
    requires 0 < k < HeaderSize + |ss[|ss| - 1].name|
    ensures |EncodeRecords(ss)| >= k
    ensures DecodeRecords(EncodeRecords(ss)[..|EncodeRecords(ss)| - k]) == Failure(MalformedPayload)
  {
    var init, last := ss[..|ss| - 1], ss[|ss| - 1];
    assert ss == init + [last];
    assert AllWellFormed(init);
    EncodeRecordsSnoc(init, last);
    var e := EncodeRecord(last);
    var full := EncodeRecords(ss);
    var partial := e[..|e| - k];
    assert full[..|full| - k] == EncodeRecords(init) + partial;
    DecodeEncodedPrefix(init, partial);
    PartialRecordIsMalformed(last, k);
  }
}
