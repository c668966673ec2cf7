/**
 protocol/mongodb/packet.go and opmsg.go: framing of wire messages, extraction of the
 command, and its rendering as a rule string.
 */
module MongoMessages {
  import opened Bytes
  import opened Streams
  import opened Bson
  import opened BsonWalk

  const OP_QUERY: int := 2004
  const OP_MSG: int := 2013
  const HEADER: nat := 16
  const MAX_MESSAGE: nat := 48 * 1024 * 1024

  datatype Packet = Packet(messageLength: int, requestID: int, responseTo: int, opCode: int,
                           payload: bytes, raw: bytes)

  datatype ReadError = Stream(error: IOError) | InvalidLength(length: int)

  // ---- framing ----

  function Int32At(s: bytes, at: nat): int
    requires at + 4 <= |s|
  {
    ToInt32(LE32(s, at))
  }

  /** The first message of a byte stream that ends with `end`, and what is left after reading it. */
  function FirstMessage(s: bytes, end: IOError): (Result<Packet, ReadError>, bytes) {
    if |s| < HEADER then (Failure(Stream(Short(|s|, end))), [])
    else
      var n := Int32At(s, 0);
      if n < HEADER || n > MAX_MESSAGE then (Failure(InvalidLength(n)), s[HEADER..])
      else if |s| < n then (Failure(Stream(Short(|s| - HEADER, end))), [])
      else (Success(Packet(n, Int32At(s, 4), Int32At(s, 8), Int32At(s, 12), s[HEADER..n], s[..n])), s[n..])
  }

  method ReadPacket(r: PrefixedConn) returns (res: Result<Packet, ReadError>)
    requires r.Valid()
    modifies r, r.conn
    ensures r.Valid()
    ensures (res, r.Remaining()) == FirstMessage(old(r.Remaining()), r.conn.end)
  {
    hide LE32;
    ghost var s := r.Remaining();
    var hdr := new byte[HEADER];
    var err := ReadFull(r, hdr, 0, HEADER);
    if err.Some? { return Failure(Stream(err.value)); }
    assert hdr[..] == s[..HEADER];
    HeaderFieldsAgree(hdr[..], s);
    var msgLen := Int32At(hdr[..], 0);
    if msgLen < HEADER || msgLen > MAX_MESSAGE {
      return Failure(InvalidLength(msgLen));
    }
    var raw := new byte[msgLen];
    forall i | 0 <= i < HEADER { raw[i] := hdr[i]; }
    if msgLen > HEADER {
      err := ReadFull(r, raw, HEADER, msgLen);
      if err.Some? { return Failure(Stream(err.value)); }
    }
    assert raw[..] == s[..msgLen] by {
      assert raw[..HEADER] == s[..HEADER];
      assert raw[HEADER..msgLen] == s[HEADER..msgLen];
      assert raw[..] == raw[..HEADER] + raw[HEADER..msgLen];
    }
    assert raw[HEADER..] == s[HEADER..msgLen];
    assert r.Remaining() == s[msgLen..];
    assert hdr[..] == s[..HEADER];
    HeaderFieldsAgree(hdr[..], s);
    res := Success(Packet(msgLen, Int32At(hdr[..], 4), Int32At(hdr[..], 8), Int32At(hdr[..], 12),
                          raw[HEADER..], raw[..]));
  }

  lemma HeaderFieldsAgree(hdr: bytes, s: bytes)
    requires |s| >= HEADER && hdr == s[..HEADER]
    ensures Int32At(hdr, 0) == Int32At(s, 0) && Int32At(hdr, 4) == Int32At(s, 4)
    ensures Int32At(hdr, 8) == Int32At(s, 8) && Int32At(hdr, 12) == Int32At(s, 12)
  {
    assert hdr[0..4] == s[0..4] && hdr[4..8] == s[4..8];
    assert hdr[8..12] == s[8..12] && hdr[12..16] == s[12..16];
  }

  /** Reference encoder of a message. */
  function EncodeMessage(requestID: int, responseTo: int, opCode: int, payload: bytes): bytes {
    PutLE32(HEADER + |payload|) + PutLE32(requestID) + (PutLE32(responseTo) + PutLE32(opCode)) + payload
  }

  predicate IsInt32(n: int) { -0x8000_0000 <= n < 0x8000_0000 }

  lemma PutLE32Wraps(n: int)
    ensures PutLE32(n) == PutLE32(n % TWO_32)
  {
  }

  lemma Int32IsRead(s: bytes, at: nat, n: int)
    requires IsInt32(n) && At(s, at, PutLE32(n))
    ensures Int32At(s, at) == n
  {
    hide At, LE32, PutLE32;
    PutLE32Wraps(n);
    AtIsSlice(s, at, PutLE32(n));
    LE32At(s, at, n % TWO_32);
  }

  /** Reading an encoded message gives its fields back and leaves exactly what follows it. */
  lemma EncodedMessageIsRead(requestID: int, responseTo: int, opCode: int, payload: bytes, rest: bytes, end: IOError)
    requires IsInt32(requestID) && IsInt32(responseTo) && IsInt32(opCode)
    requires HEADER + |payload| <= MAX_MESSAGE
    ensures
      var raw := EncodeMessage(requestID, responseTo, opCode, payload);
      FirstMessage(raw + rest, end) ==
        (Success(Packet(|raw|, requestID, responseTo, opCode, payload, raw)), rest)
  {
    hide Int32At, PutLE32, At;
    var raw := EncodeMessage(requestID, responseTo, opCode, payload);
    var s := raw + rest;
    AtWhole(raw, rest);
    AtSplit4(s, 0, PutLE32(HEADER + |payload|), PutLE32(requestID), PutLE32(responseTo) + PutLE32(opCode), payload);
    AtSplit(s, 8, PutLE32(responseTo), PutLE32(opCode));
    Int32IsRead(s, 0, HEADER + |payload|);
    Int32IsRead(s, 4, requestID);
    Int32IsRead(s, 8, responseTo);
    Int32IsRead(s, 12, opCode);
    assert s[..|raw|] == raw && s[|raw|..] == rest && s[HEADER..|raw|] == payload;
  }

  /** The layout of what is read: four 32-bit numbers, least significant byte first, then the payload.  The first is the
      length of the whole message, at least 16 and at most 48 MiB; one outside is reported, the header consumed. */
  lemma MessageLayout(s: bytes, end: IOError)
    requires |s| >= 16
    ensures
      var (res, rest) := FirstMessage(s, end);
      var n := Int32At(s, 0);
      && (res.Success? <==> 16 <= n <= 0x300_0000 && |s| >= n)
      && (res.Success? ==>
            && res.value.messageLength == n && res.value.requestID == Int32At(s, 4)
            && res.value.responseTo == Int32At(s, 8) && res.value.opCode == Int32At(s, 12)
            && res.value.payload == s[16..n] && res.value.raw == s[..n] && rest == s[n..])
      && (n < 16 || n > 0x300_0000 ==> res == Failure(InvalidLength(n)) && rest == s[16..])
  {
  }

  /** A failure of the connection is passed on as it is. */
  lemma TransportErrorIsPassedOn(s: bytes, code: int)
    requires FirstMessage(s, Failed(code)).0.Failure?
    ensures
      var e := FirstMessage(s, Failed(code)).0.error;
      e == Stream(Failed(code)) || e.InvalidLength?
  {
  }

  /** Two's complement. */
  lemma Int32Bytes(s: bytes, at: nat)
    requires at + 4 <= |s|
    ensures
      var n := s[at] as int + 0x100 * s[at+1] as int + 0x1_0000 * s[at+2] as int + 0x100_0000 * s[at+3] as int;
      Int32At(s, at) == if s[at+3] < 0x80 then n else n - TWO_32
  {
    hide LE32;
    LE32Bytes(s, at);
  }

  /** Conversely, whatever is read is the encoding of what was read, taken off the front of the stream. */
  lemma ReadMessageIsEncoded(s: bytes, end: IOError)
    requires FirstMessage(s, end).0.Success?
    ensures
      var (p, rest) := (FirstMessage(s, end).0.value, FirstMessage(s, end).1);
      && s == p.raw + rest
      && p.raw == EncodeMessage(p.requestID, p.responseTo, p.opCode, p.payload)
  {
    hide Int32At, EncodeMessage;
    var p := FirstMessage(s, end).0.value;
    SlicesAreEncoding(s, p.messageLength);
    assert s == s[..p.messageLength] + s[p.messageLength..];
  }

  lemma SlicesAreEncoding(s: bytes, n: nat)
    requires HEADER <= n <= |s| && n == Int32At(s, 0)
    ensures s[..n] == EncodeMessage(Int32At(s, 4), Int32At(s, 8), Int32At(s, 12), s[HEADER..n])
  {
    hide Int32At, PutLE32;
    FieldIsWritten(s, 0); FieldIsWritten(s, 4); FieldIsWritten(s, 8); FieldIsWritten(s, 12);
    assert s[..n] == s[0..4] + s[4..8] + (s[8..12] + s[12..16]) + s[16..n];
  }

  lemma FieldIsWritten(s: bytes, at: nat)
    requires at + 4 <= |s|
    ensures PutLE32(Int32At(s, at)) == s[at..at+4]
  {
    PutOfLE(s[at..at+4]);
  }

  /** A bare end-of-file error does not mean the stream ended between messages: it is also
      what a message cut off right after its header gives.  These are the only two cases. */
  lemma BareEOFMeaning(s: bytes)
    ensures FirstMessage(s, EOF).0 == Failure(Stream(EOF)) <==>
            s == [] || (|s| == HEADER && HEADER < Int32At(s, 0) <= MAX_MESSAGE)
  {
  }

  /** The header of every message with a payload is such an input when the stream ends behind it. */
  lemma HeaderAloneIsBareEOF(requestID: int, responseTo: int, opCode: int, payload: bytes)
    requires payload != [] && HEADER + |payload| <= MAX_MESSAGE
    ensures
      var s := EncodeMessage(requestID, responseTo, opCode, payload)[..HEADER];
      s != [] && FirstMessage(s, EOF).0 == Failure(Stream(EOF))
  {
    hide Int32At, PutLE32, At;
    var whole := EncodeMessage(requestID, responseTo, opCode, payload);
    var s := whole[..HEADER];
    AtWhole(s, []);
    assert s + [] == s;
    var length := PutLE32(HEADER + |payload|);
    assert s == length + (PutLE32(requestID) + (PutLE32(responseTo) + PutLE32(opCode)));
    AtSplit(s, 0, length, PutLE32(requestID) + (PutLE32(responseTo) + PutLE32(opCode)));
    Int32IsRead(s, 0, HEADER + |payload|);
    BareEOFMeaning(s);
  }

  // ---- the command ----

  datatype CommandInfo = CommandInfo(command: bytes, collection: bytes, database: bytes,
                                     dangerousOps: seq<bytes>, emptyFilter: bool)

  const DB_KEY: bytes := Ascii("$db")
  const DELETE: bytes := Ascii("delete")
  const UPDATE: bytes := Ascii("update")

  function InfoOf(bson: bytes): CommandInfo {
    var (cmd, coll) := First(bson);
    var fields := LastWins(Recorded(bson));
    CommandInfo(cmd, coll, if DB_KEY in fields then fields[DB_KEY] else [],
                Occurring(bson, DANGEROUS),
                (cmd == DELETE || cmd == UPDATE) && HasEmptyFilter(bson))
  }

  /** The database is what the walk records for "$db"; only a delete or update is searched for an empty filter. */
  lemma FieldsOfInfo(bson: bytes)
    ensures
      var (info, fields) := (InfoOf(bson), LastWins(Recorded(bson)));
      && (info.command, info.collection) == First(bson)
      && info.database == (if Ascii("$db") in fields then fields[Ascii("$db")] else [])
      && info.dangerousOps == Occurring(bson, [Ascii("$where"), Ascii("$function"), Ascii("$accumulator")])
      && (info.emptyFilter <==>
            info.command in {Ascii("delete"), Ascii("update")} && Contains(bson, [0x05, 0, 0, 0, 0]))
  {
    hide Ascii, First, Recorded, LastWins, Contains, Occurring;
  }

  method BuildInfo(bson: bytes) returns (info: CommandInfo)
    ensures info == InfoOf(bson)
  {
    var cmd, coll := FirstKeyValue(bson);
    var fields := ParseTopLevel(bson);
    var ops := ScanDangerousOps(bson);
    info := CommandInfo(cmd, coll, [], ops, false);
    if DB_KEY in fields {
      info := info.(database := fields[DB_KEY]);
    }
    if cmd == DELETE || cmd == UPDATE {
      info := info.(emptyFilter := HasEmptyFilter(bson));
    }
  }

  /** The command found by walking OP_MSG sections from `pos`. */
  function SectionsInfo(payload: bytes, pos: nat): Option<CommandInfo>
    decreases |payload| - pos
  {
    if pos >= |payload| || payload[pos] > 1 || pos + 5 > |payload| then None
    else
      var n := LE32(payload, pos + 1);
      if payload[pos] == 0 then
        if n < 5 || pos + 1 + n > |payload| then None else Some(InfoOf(payload[pos+1..pos+1+n]))
      else if n < 4 then None
      else SectionsInfo(payload, pos + 1 + n)
  }

  method ParseOpMsg(payload: bytes) returns (info: Option<CommandInfo>)
    ensures info == if |payload| < 5 then None else SectionsInfo(payload, 4)
  {
    hide LE32, InfoOf;
    if |payload| < 5 { return None; }
    var pos := 4;
    while pos < |payload|
      invariant SectionsInfo(payload, pos) == SectionsInfo(payload, 4)
      decreases |payload| - pos
    {
      var kind := payload[pos];
      pos := pos + 1;
      if kind == 0 {
        if pos + 4 > |payload| { return None; }
        var docLen := LE32(payload, pos);
        if docLen < 5 || pos + docLen > |payload| { return None; }
        var found := BuildInfo(payload[pos..pos+docLen]);
        return Some(found);
      } else if kind == 1 {
        if pos + 4 > |payload| { return None; }
        var seqLen := LE32(payload, pos);
        if seqLen < 4 { return None; }
        pos := pos + seqLen;
      } else {
        return None;
      }
    }
    return None;
  }

  function QueryInfo(payload: bytes): Option<CommandInfo> {
    var nul := FindNul(payload, 4);
    if |payload| < 9 || nul + 9 >= |payload| then None else Some(InfoOf(payload[nul+9..]))
  }

  method ParseOpQuery(payload: bytes) returns (info: Option<CommandInfo>)
    ensures info == QueryInfo(payload)
  {
    if |payload| < 9 { return None; }
    var pos := ScanToNul(payload, 4);
    if pos >= |payload| { return None; }
    pos := pos + 1 + 8;
    if pos >= |payload| { return None; }
    var found := BuildInfo(payload[pos..]);
    return Some(found);
  }

  /** What is extracted from a packet: nothing from responses and other operations. */
  function PacketInfo(p: Packet): Option<CommandInfo> {
    if p.responseTo != 0 then None
    else if p.opCode == OP_MSG then if |p.payload| < 5 then None else SectionsInfo(p.payload, 4)
    else if p.opCode == OP_QUERY then QueryInfo(p.payload)
    else None
  }

  method ExtractCommand(p: Packet) returns (info: Option<CommandInfo>)
    ensures info == PacketInfo(p)
  {
    if p.responseTo != 0 { return None; }
    if p.opCode == OP_MSG {
      info := ParseOpMsg(p.payload);
    } else if p.opCode == OP_QUERY {
      info := ParseOpQuery(p.payload);
    } else {
      info := None;
    }
  }

  /** Only client messages of the two operations that carry commands give one, each by its own rules. */
  lemma OperationDecides(p: Packet)
    ensures PacketInfo(p).Some? ==> p.responseTo == 0 && p.opCode in {2013, 2004}
    ensures p.responseTo == 0 && p.opCode == 2013 ==>
              PacketInfo(p) == if |p.payload| < 5 then None else SectionsInfo(p.payload, 4)
    ensures p.responseTo == 0 && p.opCode == 2004 ==> PacketInfo(p) == QueryInfo(p.payload)
  {
    hide SectionsInfo, QueryInfo;
  }

  // ---- the rule string ----

  /** " HAS:" and the operator, for each of them. */
  function Flags(ops: seq<bytes>): bytes {
    if ops == [] then [] else Ascii(" HAS:") + ops[0] + Flags(ops[1..])
  }

  /** What follows the command in its rule string. */
  function Details(c: CommandInfo): bytes {
    (if c.database != [] then Ascii(" DB:") + c.database else [])
    + (if c.collection != [] then Ascii(" COLL:") + c.collection else [])
    + Flags(c.dangerousOps)
    + (if c.emptyFilter then Ascii(" EMPTY_FILTER") else [])
  }

  function RuleString(c: CommandInfo): bytes { Ascii("CMD:") + c.command + Details(c) }

  /** The documented form: "CMD:find DB:mydb COLL:users HAS:$where EMPTY_FILTER", parts that are empty left out. */
  lemma RuleStringForm(cmd: bytes, db: bytes, coll: bytes, op: bytes, more: seq<bytes>)
    requires db != [] && coll != []
    ensures RuleString(CommandInfo(cmd, [], [], [], false)) == Ascii("CMD:") + cmd
    ensures RuleString(CommandInfo(cmd, [], db, [], false)) == Ascii("CMD:") + cmd + Ascii(" DB:") + db
    ensures RuleString(CommandInfo(cmd, coll, [], [], false)) == Ascii("CMD:") + cmd + Ascii(" COLL:") + coll
    ensures RuleString(CommandInfo(cmd, coll, db, [op], true)) ==
            Ascii("CMD:") + cmd + Ascii(" DB:") + db + Ascii(" COLL:") + coll + Ascii(" HAS:") + op
            + Ascii(" EMPTY_FILTER")
    ensures Flags([op] + more) == Ascii(" HAS:") + op + Flags(more)
  {
    hide Ascii;
    assert ([op] + more)[1..] == more;
    assert [op][1..] == [];
    assert Flags([op]) == Ascii(" HAS:") + op + Flags([]);
    Regroup8(Ascii("CMD:") + cmd, Ascii(" DB:"), db, Ascii(" COLL:"), coll, Ascii(" HAS:"), op, Ascii(" EMPTY_FILTER"));
    Regroup8(Ascii("CMD:") + cmd, Ascii(" DB:"), db, [], [], [], [], []);
    Regroup8(Ascii("CMD:") + cmd, [], [], Ascii(" COLL:"), coll, [], [], []);
  }

  lemma Regroup8(a: bytes, b: bytes, c: bytes, d: bytes, e: bytes, f: bytes, g: bytes, h: bytes)
    ensures a + ((b + c) + (d + e) + (f + g + []) + h) == a + b + c + d + e + f + g + h
    ensures a + ((b + c) + [] + [] + []) == a + b + c
    ensures a + ([] + (d + e) + [] + []) == a + d + e
    ensures a + ([] + [] + [] + []) == a
  {
  }

  method ToRuleString(c: CommandInfo) returns (b: bytes)
    ensures b == RuleString(c)
  {
    b := Ascii("CMD:");
    b := b + c.command;
    ghost var start := b;
    if c.database != [] {
      b := b + Ascii(" DB:");
      b := b + c.database;
    }
    if c.collection != [] {
      b := b + Ascii(" COLL:");
      b := b + c.collection;
    }
    ghost var db := if c.database != [] then Ascii(" DB:") + c.database else [];
    ghost var coll := if c.collection != [] then Ascii(" COLL:") + c.collection else [];
    assert b == start + db + coll;
    ghost var front := b;
    for i := 0 to |c.dangerousOps|
      invariant b + Flags(c.dangerousOps[i..]) == front + Flags(c.dangerousOps)
    {
      FlagsStep(b, c.dangerousOps[i..]);
      assert c.dangerousOps[i..][1..] == c.dangerousOps[i+1..];
      b := b + Ascii(" HAS:");
      b := b + c.dangerousOps[i];
    }
    assert b == front + Flags(c.dangerousOps);
    if c.emptyFilter {
      b := b + Ascii(" EMPTY_FILTER");
    }
    Regroup(start, db, coll, Flags(c.dangerousOps), if c.emptyFilter then Ascii(" EMPTY_FILTER") else []);
  }

  lemma FlagsStep(b: bytes, ops: seq<bytes>)
    requires ops != []
    ensures b + Flags(ops) == (b + Ascii(" HAS:") + ops[0]) + Flags(ops[1..])
  {
  }

  lemma Regroup(a: bytes, b: bytes, c: bytes, d: bytes, e: bytes)
    ensures a + b + c + d + e == a + (b + c + d + e)
  {
  }

  // ---- sections and the legacy format carry the same command ----

  /** OP_MSG document-sequence sections, each given by what follows its length. */
  function EncodeSequences(contents: seq<bytes>): bytes {
    if contents == [] then []
    else [1] + PutLE32(4 + |contents[0]|) + contents[0] + EncodeSequences(contents[1..])
  }

  lemma SequenceIsSkipped(payload: bytes, pos: nat, c: bytes)
    requires 4 + |c| < TWO_32
    requires At(payload, pos, [1]) && At(payload, pos + 1, PutLE32(4 + |c|))
    ensures SectionsInfo(payload, pos) == SectionsInfo(payload, pos + 5 + |c|)
  {
    hide At, LE32, InfoOf, PutLE32;
    AtFirst(payload, pos, [1]);
    AtIsSlice(payload, pos, [1]);
    AtIsSlice(payload, pos + 1, PutLE32(4 + |c|));
    LE32At(payload, pos + 1, 4 + |c|);
  }

  lemma {:induction false} SequencesAreSkipped(payload: bytes, pos: nat, contents: seq<bytes>)
    requires forall c | c in contents :: 4 + |c| < TWO_32
    requires At(payload, pos, EncodeSequences(contents))
    ensures SectionsInfo(payload, pos) == SectionsInfo(payload, pos + |EncodeSequences(contents)|)
    decreases contents
  {
    hide At, SectionsInfo, PutLE32;
    if contents == [] {
    } else {
      var c, more := contents[0], contents[1..];
      AtSplit4(payload, pos, [1], PutLE32(4 + |c|), c, EncodeSequences(more));
      SequenceIsSkipped(payload, pos, c);
      SequencesAreSkipped(payload, pos + 5 + |c|, more);
    }
  }

  /** A body as far as the section walk looks at it: its declared length is its length, and at least 5. */
  predicate IsBody(body: bytes) { 5 <= |body| && LE32(body, 0) == |body| }

  lemma EncodedIsBody(d: Document)
    requires WellFormed(d)
    ensures IsBody(Encode(d))
  {
    hide At, WellFormed, Encode;
    AtWhole(Encode(d), []);
    assert Encode(d) + [] == Encode(d);
    EncodedLengthIsRead(Encode(d), 0, d);
  }

  lemma BodyIsFound(payload: bytes, pos: nat, contents: seq<bytes>, body: bytes)
    requires IsBody(body)
    requires forall c | c in contents :: 4 + |c| < TWO_32
    requires At(payload, pos, EncodeSequences(contents))
    requires At(payload, pos + |EncodeSequences(contents)|, [0])
    requires At(payload, pos + |EncodeSequences(contents)| + 1, body)
    ensures SectionsInfo(payload, pos) == Some(InfoOf(body))
  {
    hide At, LE32, InfoOf, EncodeSequences;
    var at := pos + |EncodeSequences(contents)|;
    SequencesAreSkipped(payload, pos, contents);
    AtFirst(payload, at, [0]);
    AtIsSlice(payload, at + 1, body);
    SameLength32(payload, at + 1, body);
  }

  lemma SameLength32(payload: bytes, pos: nat, body: bytes)
    requires At(payload, pos, body) && |body| >= 4
    ensures pos + 4 <= |payload| && LE32(payload, pos) == LE32(body, 0)
  {
    assert payload[pos..pos+4] == payload[pos..pos+|body|][0..4];
  }

  /** Document sequences before the body and bytes after it do not matter: the command is that of the first body,
      whatever bytes it is made of. */
  lemma FramedIsExtracted(flags: bytes, contents: seq<bytes>, body: bytes, tail: bytes)
    requires |flags| == 4 && IsBody(body)
    requires forall c | c in contents :: 4 + |c| < TWO_32
    ensures SectionsInfo(flags + EncodeSequences(contents) + ([0] + body + tail), 4) == Some(InfoOf(body))
  {
    hide At, SectionsInfo, InfoOf, EncodeSequences, IsBody;
    var sections, rest := EncodeSequences(contents), [0] + body + tail;
    var payload := flags + sections + rest;
    AtWhole(payload, []);
    assert payload + [] == payload;
    AtSplit3(payload, 0, flags, sections, rest);
    AtSplit3(payload, 4 + |sections|, [0], body, tail);
    BodyIsFound(payload, 4, contents, body);
  }

  /** Conversely, a command is extracted only from sections of that form. */
  lemma {:induction false} ExtractedIsFramed(payload: bytes, pos: nat)
    returns (contents: seq<bytes>, body: bytes, tail: bytes)
    requires pos <= |payload| && SectionsInfo(payload, pos).Some?
    ensures forall c | c in contents :: 4 + |c| < TWO_32
    ensures IsBody(body) && payload[pos..] == EncodeSequences(contents) + ([0] + body + tail)
    ensures SectionsInfo(payload, pos) == Some(InfoOf(body))
    decreases |payload| - pos
  {
    hide InfoOf, PutLE32, LE32, SectionsInfo, EncodeSequences, IsBody;
    SectionStep(payload, pos);
    var n := LE32(payload, pos + 1);
    if payload[pos] == 0 {
      contents, body, tail := [], payload[pos+1..pos+1+n], payload[pos+1+n..];
      BodySection(payload, pos, n);
    } else {
      contents, body, tail := ExtractedIsFramed(payload, pos + 1 + n);
      var c := payload[pos+5..pos+1+n];
      SequenceSection(payload, pos, n, contents);
      assert EncodeSequences([c] + contents) + ([0] + body + tail) ==
             [1] + PutLE32(4 + |c|) + c + (EncodeSequences(contents) + ([0] + body + tail));
      contents := [c] + contents;
    }
  }

  lemma BodySection(payload: bytes, pos: nat, n: nat)
    requires pos + 5 <= |payload| && payload[pos] == 0
    requires n == LE32(payload, pos + 1) && 5 <= n <= |payload| - pos - 1
    ensures IsBody(payload[pos+1..pos+1+n])
    ensures payload[pos..] == EncodeSequences([]) + ([0] + payload[pos+1..pos+1+n] + payload[pos+1+n..])
  {
    hide LE32;
    var body := payload[pos+1..pos+1+n];
    assert At(payload, pos + 1, body);
    SameLength32(payload, pos + 1, body);
  }

  lemma SequenceSection(payload: bytes, pos: nat, n: nat, contents: seq<bytes>)
    requires pos + 5 <= |payload| && payload[pos] == 1
    requires n == LE32(payload, pos + 1) && 4 <= n && pos + 1 + n <= |payload|
    ensures
      var c := payload[pos+5..pos+1+n];
      && 4 + |c| < TWO_32
      && payload[pos..] == [1] + PutLE32(4 + |c|) + c + payload[pos+1+n..]
      && EncodeSequences([c] + contents) == [1] + PutLE32(4 + |c|) + c + EncodeSequences(contents)
  {
    hide LE32, PutLE32;
    var c := payload[pos+5..pos+1+n];
    LengthIsWritten(payload, pos + 1);
    assert payload[pos..] == [payload[pos]] + payload[pos+1..pos+5] + c + payload[pos+1+n..];
    assert ([c] + contents)[1..] == contents;
  }

  lemma SectionStep(payload: bytes, pos: nat)
    requires SectionsInfo(payload, pos).Some?
    ensures pos + 5 <= |payload| && payload[pos] <= 1
    ensures
      var n := LE32(payload, pos + 1);
      if payload[pos] == 0
      then 5 <= n <= |payload| - pos - 1 && SectionsInfo(payload, pos) == Some(InfoOf(payload[pos+1..pos+1+n]))
      else 4 <= n && pos + 1 + n <= |payload| && SectionsInfo(payload, pos) == SectionsInfo(payload, pos + 1 + n)
  {
    hide LE32, InfoOf;
  }

  lemma LengthIsWritten(payload: bytes, at: nat)
    requires at + 4 <= |payload|
    ensures PutLE32(LE32(payload, at)) == payload[at..at+4]
  {
    PutOfLE(payload[at..at+4]);
  }

  /** Document sequences before the body and bytes after it do not change the command of an OP_MSG. */
  lemma MsgInfoIsBodyInfo(flags: bytes, contents: seq<bytes>, d: Document, tail: bytes)
    requires |flags| == 4 && WellFormed(d)
    requires forall c | c in contents :: 4 + |c| < TWO_32
    ensures SectionsInfo(flags + EncodeSequences(contents) + ([0] + Encode(d) + tail), 4) == Some(InfoOf(Encode(d)))
  {
    hide SectionsInfo, InfoOf, EncodeSequences, WellFormed, Encode, IsBody;
    EncodedIsBody(d);
    FramedIsExtracted(flags, contents, Encode(d), tail);
  }

  lemma EncodedIsLong(d: Document)
    ensures |Encode(d)| >= 5
  {
  }

  /** The legacy message: whatever stands behind flags, collection name and the two numbers is taken as the document. */
  lemma LegacyIsExtracted(flags: bytes, name: bytes, numbers: bytes, doc: bytes)
    requires |flags| == 4 && NulFree(name) && |numbers| == 8 && doc != []
    ensures QueryInfo(flags + name + [0] + (numbers + doc)) == Some(InfoOf(doc))
  {
    hide InfoOf, NulFree, FindNul;
    LegacyPieces(flags, name, numbers, doc);
  }

  lemma LegacyPieces(flags: bytes, name: bytes, numbers: bytes, doc: bytes)
    requires |flags| == 4 && NulFree(name) && |numbers| == 8
    ensures
      var payload := flags + name + [0] + (numbers + doc);
      && |payload| == 13 + |name| + |doc|
      && FindNul(payload, 4) == 4 + |name|
      && payload[13+|name|..] == doc
  {
    hide At, NulFree, FindNul;
    var front := flags + name + [0];
    var payload := front + (numbers + doc);
    AtWhole(front, numbers + doc);
    AtSplit3(payload, 0, flags, name, [0]);
    NulAfter(payload, 4, name);
    assert payload[5+|name|..] == numbers + doc;
    assert payload[13+|name|..] == (numbers + doc)[8..] == doc;
  }

  /** Conversely, a command is extracted only from a message of that form. */
  lemma ExtractedIsLegacy(payload: bytes) returns (name: bytes, numbers: bytes, doc: bytes)
    requires QueryInfo(payload).Some?
    ensures NulFree(name) && |numbers| == 8 && doc != []
    ensures payload == payload[..4] + name + [0] + (numbers + doc)
    ensures QueryInfo(payload) == Some(InfoOf(doc))
  {
    hide InfoOf;
    var nul := FindNul(payload, 4);
    FindNulSkipsNone(payload, 4);
    name, numbers, doc := payload[4..nul], payload[nul+1..nul+9], payload[nul+9..];
    assert payload == payload[..4] + payload[4..nul] + [payload[nul]] + (numbers + doc);
  }

  /** The same document as an OP_QUERY, possibly with a field selector behind it. */
  lemma QueryInfoIsDocumentInfo(flags: bytes, name: bytes, numbers: bytes, d: Document, tail: bytes)
    requires |flags| == 4 && NulFree(name) && |numbers| == 8
    ensures QueryInfo(flags + name + [0] + (numbers + Encode(d) + tail)) == Some(InfoOf(Encode(d) + tail))
  {
    hide InfoOf, Encode, NulFree, QueryInfo;
    EncodedIsLong(d);
    assert numbers + Encode(d) + tail == numbers + (Encode(d) + tail);
    LegacyIsExtracted(flags, name, numbers, Encode(d) + tail);
  }

  /** Bytes after the document change neither command, collection nor database, and can only add findings. */
  lemma TrailingBytesAddFindingsOnly(d: Document, tail: bytes)
    requires WellFormed(d)
    ensures
      var info, more := InfoOf(Encode(d)), InfoOf(Encode(d) + tail);
      && (more.command, more.collection, more.database) == (info.command, info.collection, info.database)
      && (forall op | op in info.dangerousOps :: op in more.dangerousOps)
      && (info.emptyFilter ==> more.emptyFilter)
  {
    assert Encode(d) + [] == Encode(d);
    FirstOfEncoded(d, []); FirstOfEncoded(d, tail);
    RecordedOfEncoded(d, []); RecordedOfEncoded(d, tail);
    AtWhole(Encode(d), tail);
    forall t | Contains(Encode(d), t) ensures Contains(Encode(d) + tail, t) {
      ContainsWithin(Encode(d) + tail, 0, Encode(d), t);
    }
  }
}
