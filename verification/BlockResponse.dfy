/**
 protocol/mongodb/opmsg.go, BuildBlockResponse and buildErrorBSON: the error reply is
 written into a buffer by hand; here it is shown to be an encoded message.
 */
module BlockResponse {
  import opened Bytes
  import opened Buffers
  import opened Streams
  import opened Bson
  import opened BsonWalk
  import opened MongoMessages

  const INT32_MAX: int := 0x7FFF_FFFF
  const ZERO_DOUBLE: bytes := [0, 0, 0, 0, 0, 0, 0, 0]

  /** The reply document: ok 0.0, the message, code 2. */
  function ErrorDocument(message: bytes): Document {
    Element(Ascii("ok"), Fixed(0x01, ZERO_DOUBLE),
    Element(Ascii("errmsg"), Text(message),
    Element(Ascii("code"), Fixed(0x10, PutLE32(2)), End)))
  }

  method BuildErrorBSON(message: bytes) returns (buf: array<byte>)
    requires 40 + |message| <= INT32_MAX
    ensures fresh(buf) && buf[..] == Encode(ErrorDocument(message))
  {
    hide PutLE32, Encode, Filled, At, Ascii;
    ghost var doc := Encode(ErrorDocument(message));
    ErrorDocumentPieces(message);
    var msgBSONLen := |message| + 1;
    var docSize := 4 + 12 + (1 + 7 + 4 + |message| + 1) + 10 + 1;
    buf := ZeroBuffer(docSize, doc);
    var pos := 0;
    pos := Put(buf, pos, PutLE32(docSize), doc);
    pos := Put(buf, pos, [0x01], doc);
    pos := Put(buf, pos, Ascii("ok") + [0], doc);
    ZerosAreFilled(buf, pos, ZERO_DOUBLE, doc);
    pos := pos + 8;
    pos := Put(buf, pos, [0x02], doc);
    pos := Put(buf, pos, Ascii("errmsg") + [0], doc);
    pos := Put(buf, pos, PutLE32(msgBSONLen), doc);
    pos := Put(buf, pos, message, doc);
    pos := Put(buf, pos, [0x00], doc);
    pos := Put(buf, pos, [0x10], doc);
    pos := Put(buf, pos, Ascii("code") + [0], doc);
    pos := Put(buf, pos, PutLE32(2), doc);
    pos := Put(buf, pos, [0x00], doc);
    FilledIsTarget(buf, doc, pos);
  }

  /** Where the pieces of the reply document stand in its reference encoding. */
  lemma ErrorDocumentPieces(message: bytes)
    ensures
      var doc, n := Encode(ErrorDocument(message)), |message|;
      && |doc| == 40 + n
      && At(doc, 0, PutLE32(40 + n))
      && At(doc, 4, [0x01]) && At(doc, 5, Ascii("ok") + [0]) && At(doc, 8, ZERO_DOUBLE)
      && At(doc, 16, [0x02]) && At(doc, 17, Ascii("errmsg") + [0])
      && At(doc, 24, PutLE32(n + 1)) && At(doc, 28, message) && At(doc, 28 + n, [0])
      && At(doc, 29 + n, [0x10]) && At(doc, 30 + n, Ascii("code") + [0]) && At(doc, 35 + n, PutLE32(2))
      && At(doc, 39 + n, [0])
  {
    hide PutLE32, At, Ascii;
    var d, n := ErrorDocument(message), |message|;
    var doc := Encode(d);
    assert |Elements(d.next.next)| == 10;
    assert |Elements(d.next)| == 13 + n + 10;
    assert |Elements(d)| == 12 + 13 + n + 10;
    AtWhole(doc, []);
    assert doc + [] == doc;
    AtSplit3(doc, 0, PutLE32(40 + n), Elements(d), [0]);
    AtSplit3(doc, 4, Header(d.key, d.value), Payload(d.value), Elements(d.next));
    HeaderPieces(doc, 4, d.key, d.value);
    AtSplit3(doc, 16, Header(d.next.key, d.next.value), Payload(d.next.value), Elements(d.next.next));
    HeaderPieces(doc, 16, d.next.key, d.next.value);
    AtSplit3(doc, 24, PutLE32(n + 1), message, [0]);
    var code := d.next.next;
    AtSplit3(doc, 29 + n, Header(code.key, code.value), Payload(code.value), []);
    HeaderPieces(doc, 29 + n, code.key, code.value);
  }

  lemma HeaderPieces(data: bytes, pos: nat, k: bytes, v: Value)
    requires At(data, pos, Header(k, v))
    ensures At(data, pos, [TypeCode(v)]) && At(data, pos + 1, k + [0])
  {
    assert Header(k, v) == [TypeCode(v)] + (k + [0]);
    AtSplit(data, pos, [TypeCode(v)], k + [0]);
  }

  /** The reply document byte by byte: ok is the double 0.0, eight zero bytes, and the code is 2. */
  lemma ErrorDocumentBytes(message: bytes)
    ensures
      Encode(ErrorDocument(message)) ==
        PutLE32(40 + |message|)
        + ([0x01] + Ascii("ok") + [0] + [0, 0, 0, 0, 0, 0, 0, 0])
        + ([0x02] + Ascii("errmsg") + [0] + PutLE32(|message| + 1) + message + [0])
        + ([0x10] + Ascii("code") + [0] + PutLE32(2)) + [0]
  {
    hide PutLE32, Ascii;
    var d := ErrorDocument(message);
    ErrorDocumentPieces(message);
    assert Elements(d.next.next) == [0x10] + Ascii("code") + [0] + PutLE32(2);
    assert Elements(d.next) ==
           ([0x02] + Ascii("errmsg") + [0] + PutLE32(|message| + 1) + message + [0]) + Elements(d.next.next);
    assert Elements(d) == ([0x01] + Ascii("ok") + [0] + [0, 0, 0, 0, 0, 0, 0, 0]) + Elements(d.next);
  }

  function ResponsePayload(message: bytes): bytes {
    [0, 0, 0, 0] + [0] + Encode(ErrorDocument(message))
  }

  method BuildBlockResponse(responseTo: int, message: bytes) returns (raw: array<byte>)
    requires IsInt32(responseTo)
    requires 61 + |message| <= INT32_MAX
    ensures fresh(raw)
    ensures raw[..] == EncodeMessage(0, responseTo, OP_MSG, ResponsePayload(message))
  {
    hide PutLE32, Encode, Filled, At, EncodeMessage;
    ghost var reply := EncodeMessage(0, responseTo, OP_MSG, ResponsePayload(message));
    ResponsePieces(responseTo, message);
    var bsonDoc := BuildErrorBSON(message);
    var totalLen := 16 + 4 + 1 + bsonDoc.Length;
    raw := ZeroBuffer(totalLen, reply);
    var pos := 0;
    pos := Put(raw, pos, PutLE32(totalLen), reply);
    pos := Put(raw, pos, PutLE32(0), reply);
    pos := Put(raw, pos, PutLE32(responseTo), reply);
    pos := Put(raw, pos, PutLE32(OP_MSG), reply);
    ZerosAreFilled(raw, 16, [0, 0, 0, 0, 0], reply);
    pos := Put(raw, 21, bsonDoc[..], reply);
    FilledIsTarget(raw, reply, pos);
  }

  lemma ResponsePieces(responseTo: int, message: bytes)
    ensures
      var reply, doc := EncodeMessage(0, responseTo, OP_MSG, ResponsePayload(message)), Encode(ErrorDocument(message));
      && |doc| == 40 + |message|
      && |reply| == 61 + |message|
      && At(reply, 0, PutLE32(61 + |message|)) && At(reply, 4, PutLE32(0))
      && At(reply, 8, PutLE32(responseTo)) && At(reply, 12, PutLE32(OP_MSG))
      && At(reply, 16, [0, 0, 0, 0, 0]) && At(reply, 21, doc)
  {
    hide PutLE32, At, Encode;
    ErrorDocumentPieces(message);
    var payload, doc := ResponsePayload(message), Encode(ErrorDocument(message));
    var reply := EncodeMessage(0, responseTo, OP_MSG, payload);
    AtWhole(reply, []);
    assert reply + [] == reply;
    AtSplit4(reply, 0, PutLE32(16 + |payload|), PutLE32(0), PutLE32(responseTo) + PutLE32(OP_MSG), payload);
    AtSplit(reply, 8, PutLE32(responseTo), PutLE32(OP_MSG));
    assert payload == [0, 0, 0, 0, 0] + doc;
    AtSplit(reply, 16, [0, 0, 0, 0, 0], doc);
  }

  lemma KeysAreNulFree()
    ensures NulFree(Ascii("ok")) && NulFree(Ascii("errmsg")) && NulFree(Ascii("code"))
  {
    assert Ascii("ok") == [0x6F, 0x6B];
    assert Ascii("errmsg") == [0x65, 0x72, 0x72, 0x6D, 0x73, 0x67];
    assert Ascii("code") == [0x63, 0x6F, 0x64, 0x65];
  }

  lemma ErrorDocumentIsWellFormed(message: bytes)
    requires 40 + |message| <= INT32_MAX
    ensures WellFormed(ErrorDocument(message)) && |Encode(ErrorDocument(message))| == 40 + |message|
  {
    hide PutLE32;
    ErrorDocumentPieces(message);
    var code := Element(Ascii("code"), Fixed(0x10, PutLE32(2)), End);
    KeysAreNulFree();
    assert ElementsOK(code) by { assert ValueOK(code.value); }
    var errmsg := Element(Ascii("errmsg"), Text(message), code);
    assert ElementsOK(errmsg) by { assert ValueOK(errmsg.value); }
    var ok := Element(Ascii("ok"), Fixed(0x01, ZERO_DOUBLE), errmsg);
    assert ElementsOK(ok) by { assert ValueOK(ok.value); }
  }

  /** What the walker finds in the reply document: the declared length is the actual one, "ok" is the
      first key, and the message is the one string field, NUL bytes included. */
  lemma ErrorDocumentIsRead(message: bytes)
    requires 40 + |message| <= INT32_MAX
    ensures
      var doc := Encode(ErrorDocument(message));
      && DeclaredLength(doc) == Some(|doc|)
      && First(doc) == (Ascii("ok"), [])
      && LastWins(Recorded(doc)) == map[Ascii("errmsg") := message]
  {
    hide PutLE32, LE32, At, Encode, WellFormed, First, Recorded;
    var d := ErrorDocument(message);
    var doc := Encode(d);
    ErrorDocumentIsWellFormed(message);
    assert doc + [] == doc;
    AtWhole(doc, []);
    EncodedLengthIsRead(doc, 0, d);
    FirstOfEncoded(d, []);
    RecordedOfEncoded(d, []);
    assert StringFields(d) == [(Ascii("errmsg"), message)] by {
      assert StringFields(d) == StringFields(d.next);
      assert StringFields(d.next) == [(Ascii("errmsg"), message)] + StringFields(d.next.next);
    }
    LastWinsOfOne(Ascii("errmsg"), message);
  }

  /** The firewall's own readers read its reply: the whole packet, with the given ResponseTo; and they
      take it for a client command exactly when that is 0. */
  lemma ResponseIsReadBack(responseTo: int, message: bytes, rest: bytes, end: IOError)
    requires IsInt32(responseTo)
    requires 61 + |message| <= MAX_MESSAGE
    ensures
      var raw := EncodeMessage(0, responseTo, OP_MSG, ResponsePayload(message));
      && |raw| == 61 + |message|
      && FirstMessage(raw + rest, end) ==
           (Success(Packet(|raw|, 0, responseTo, OP_MSG, ResponsePayload(message), raw)), rest)
      && PacketInfo(FirstMessage(raw + rest, end).0.value) ==
           if responseTo != 0 then None else Some(InfoOf(Encode(ErrorDocument(message))))
  {
    hide FirstMessage, PutLE32, Encode, WellFormed, SectionsInfo, InfoOf;
    var d := ErrorDocument(message);
    ErrorDocumentIsWellFormed(message);
    EncodedMessageIsRead(0, responseTo, OP_MSG, ResponsePayload(message), rest, end);
    MsgInfoIsBodyInfo([0, 0, 0, 0], [], d, []);
    assert [0, 0, 0, 0] + EncodeSequences([]) + ([0] + Encode(d) + []) == ResponsePayload(message);
  }
}
