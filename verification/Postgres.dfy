/**
 protocol/postgres/packet.go and query.go: framing, the messages that carry SQL, data rows,
 and the error reply.
 */
module Postgres {
  import opened Bytes
  import opened Buffers
  import opened Streams

  const HEADER: nat := 5
  const MAX_LENGTH: nat := 256 * 1024 * 1024

  const QUERY: byte := 0x51           // 'Q'
  const PARSE: byte := 0x50           // 'P'
  const BIND: byte := 0x42            // 'B'
  const DATA_ROW: byte := 0x44        // 'D'
  const ERROR_RESPONSE: byte := 0x45  // 'E'
  const READY: byte := 0x5A           // 'Z'
  const IDLE: byte := 0x49            // 'I'

  datatype Packet = Packet(kind: byte, length: int, payload: bytes, raw: bytes)

  datatype ReadError = Stream(error: IOError) | InvalidLength(length: int)

  // ---- framing ----

  function Int32At(s: bytes, at: nat): int
    requires at + 4 <= |s|
  {
    BEBound(s[at..at+4]); Pow256Of4();
    ToInt32(BE(s[at..at+4]))
  }

  /** Most significant byte first, two's complement. */
  lemma Int32Bytes(s: bytes, at: nat)
    requires at + 4 <= |s|
    ensures
      var n := 0x100_0000 * s[at] as int + 0x1_0000 * s[at+1] as int + 0x100 * s[at+2] as int + s[at+3] as int;
      Int32At(s, at) == if s[at] < 0x80 then n else n - TWO_32
  {
    var b := s[at..at+4];
    assert b[..3][..2] == b[..2] && b[..2][..1] == b[..1] && b[..1][..0] == [];
    assert BE(b) == 0x100 * BE(b[..3]) + b[3] as int;
    assert BE(b[..3]) == 0x100 * BE(b[..2]) + b[2] as int;
    assert BE(b[..2]) == 0x100 * BE(b[..1]) + b[1] as int;
    assert BE(b[..1]) == 0x100 * BE([]) + b[0] as int;
  }

  function PutInt32(n: int): (r: bytes)
    ensures |r| == 4
  {
    PutBE(n % TWO_32, 4)
  }

  lemma Int32IsRead(s: bytes, at: nat, n: int)
    requires -0x8000_0000 <= n < 0x8000_0000 && At(s, at, PutInt32(n))
    ensures at + 4 <= |s| && Int32At(s, at) == n
  {
    Pow256Of4();
    BEOfPut(n % TWO_32, 4);
  }

  /** The first message of a byte stream, and what is left after reading it. */
  function FirstMessage(s: bytes, end: IOError): (Result<Packet, ReadError>, bytes) {
    if |s| < HEADER then (Failure(Stream(Short(|s|, end))), [])
    else
      var n := Int32At(s, 1);
      if n < 4 || n > MAX_LENGTH then (Failure(InvalidLength(n)), s[HEADER..])
      else if |s| < 1 + n then (Failure(Stream(Short(|s| - HEADER, end))), [])
      else (Success(Packet(s[0], n, s[HEADER..1+n], s[..1+n])), s[1+n..])
  }

  method ReadPacket(r: PrefixedConn) returns (res: Result<Packet, ReadError>)
    requires r.Valid()
    modifies r, r.conn
    ensures r.Valid()
    ensures (res, r.Remaining()) == FirstMessage(old(r.Remaining()), r.conn.end)
  {
    hide Int32At;
    ghost var s := r.Remaining();
    var hdr := new byte[HEADER];
    var err := ReadFull(r, hdr, 0, HEADER);
    if err.Some? { return Failure(Stream(err.value)); }
    assert hdr[..] == s[..HEADER];
    var kind, msgLen := hdr[0], Int32At(hdr[..], 1);
    assert kind == hdr[..][0] == s[0];
    SameLength(hdr[..], s);
    if msgLen < 4 || msgLen > MAX_LENGTH {
      return Failure(InvalidLength(msgLen));
    }
    var payloadLen := msgLen - 4;
    var raw := new byte[1 + msgLen];
    forall i | 0 <= i < HEADER { raw[i] := hdr[i]; }
    if payloadLen > 0 {
      err := ReadFull(r, raw, HEADER, raw.Length);
      if err.Some? { return Failure(Stream(err.value)); }
    }
    assert raw[..] == s[..1+msgLen] by {
      assert raw[..HEADER] == s[..HEADER];
      assert raw[HEADER..raw.Length] == s[HEADER..1+msgLen];
      assert raw[..] == raw[..HEADER] + raw[HEADER..raw.Length];
    }
    assert raw[HEADER..] == s[HEADER..1+msgLen];
    assert r.Remaining() == s[1+msgLen..];
    res := Success(Packet(kind, msgLen, raw[HEADER..], raw[..]));
  }

  lemma SameLength(hdr: bytes, s: bytes)
    requires |s| >= HEADER && hdr == s[..HEADER]
    ensures Int32At(hdr, 1) == Int32At(s, 1)
  {
    assert hdr[1..5] == s[1..5];
  }

  function EncodePacket(kind: byte, payload: bytes): bytes {
    [kind] + PutInt32(4 + |payload|) + payload
  }

  /** Reading an encoded packet gives it back and leaves exactly what follows. */
  lemma EncodedPacketIsRead(kind: byte, payload: bytes, rest: bytes, end: IOError)
    requires 4 + |payload| <= MAX_LENGTH
    ensures FirstMessage(EncodePacket(kind, payload) + rest, end) ==
            (Success(Packet(kind, 4 + |payload|, payload, EncodePacket(kind, payload))), rest)
  {
    hide Int32At, PutInt32;
    var raw := EncodePacket(kind, payload);
    var s := raw + rest;
    AtWhole(raw, rest);
    AtSplit3(s, 0, [kind], PutInt32(4 + |payload|), payload);
    Int32IsRead(s, 1, 4 + |payload|);
    assert s[..|raw|] == raw && s[|raw|..] == rest && s[HEADER..|raw|] == payload;
  }

  /** The layout of what is read: the type in the first byte, the length in the next four, which counts itself and is
      at least 4 and at most 256 MiB; a length outside is reported, the header consumed. */
  lemma PacketLayout(s: bytes, end: IOError)
    requires |s| >= 5
    ensures
      var (res, rest) := FirstMessage(s, end);
      var n := Int32At(s, 1);
      && (res.Success? <==> 4 <= n <= 0x1000_0000 && |s| >= 1 + n)
      && (res.Success? ==> res.value == Packet(s[0], n, s[5..1+n], s[..1+n]) && rest == s[1+n..])
      && (n < 4 || n > 0x1000_0000 ==> res == Failure(InvalidLength(n)) && rest == s[5..])
  {
  }

  /** A failure of the connection is passed on as it is. */
  lemma TransportErrorIsPassedOn(s: bytes, code: int)
    requires FirstMessage(s, Failed(code)).0.Failure?
    ensures
      var e := FirstMessage(s, Failed(code)).0.error;
      e == Stream(Failed(code)) || e.InvalidLength?
  {
  }

  /** Conversely, what is read is an encoded packet from the front of the stream. */
  lemma ReadPacketIsEncoded(s: bytes, end: IOError)
    requires FirstMessage(s, end).0.Success?
    ensures
      var (p, rest) := (FirstMessage(s, end).0.value, FirstMessage(s, end).1);
      s == p.raw + rest && p.raw == EncodePacket(p.kind, p.payload)
  {
    var n := Int32At(s, 1);
    PutOfBE(s[1..5]);
    assert PutInt32(n) == s[1..5];
    assert s[..1+n] == [s[0]] + s[1..5] + s[HEADER..1+n];
  }

  /** A bare end-of-file error: an empty stream, or a message cut off right after its header. */
  lemma BareEOFMeaning(s: bytes)
    ensures FirstMessage(s, EOF).0 == Failure(Stream(EOF)) <==>
            s == [] || (|s| == HEADER && 4 < Int32At(s, 1) <= MAX_LENGTH)
  {
  }

  /** The header of every message with a payload is such an input when the stream ends behind it. */
  lemma HeaderAloneIsBareEOF(kind: byte, payload: bytes)
    requires payload != [] && 4 + |payload| <= MAX_LENGTH
    ensures
      var s := EncodePacket(kind, payload)[..HEADER];
      s != [] && FirstMessage(s, EOF).0 == Failure(Stream(EOF))
  {
    hide Int32At, PutInt32, At;
    var length := PutInt32(4 + |payload|);
    var s := EncodePacket(kind, payload)[..HEADER];
    assert s == [kind] + length;
    AtWhole(s, []);
    assert s + [] == s;
    AtSplit(s, 0, [kind], length);
    Int32IsRead(s, 1, 4 + |payload|);
    BareEOFMeaning(s);
  }

  // ---- messages that carry SQL ----

  function CString(p: bytes, off: nat): (r: Option<(bytes, nat)>)
    requires off <= |p|
    ensures r.Some? ==> r.value.1 <= |p|
  {
    var end := FindNul(p, off);
    if end >= |p| then None else Some((p[off..end], end + 1))
  }

  lemma CStringIsRead(p: bytes, pos: nat, s: bytes)
    requires NulFree(s) && At(p, pos, s) && At(p, pos + |s|, [0])
    ensures pos <= |p| && CString(p, pos) == Some((s, pos + |s| + 1))
  {
    hide At, FindNul, NulFree;
    AtIsSlice(p, pos, s);
    AtIsSlice(p, pos + |s|, [0]);
    NulAfter(p, pos, s);
  }

  method ReadCString(p: bytes, off: nat) returns (r: Option<(bytes, nat)>)
    requires off <= |p|
    ensures r == CString(p, off)
  {
    var end := ScanToNul(p, off);
    if end >= |p| { return None; }
    return Some((p[off..end], end + 1));
  }

  /** Two consecutive C strings at the front of a payload. */
  function TwoStrings(p: bytes): Option<(bytes, bytes)> {
    match CString(p, 0)
    case None => None
    case Some(first) =>
      match CString(p, first.1)
      case None => None
      case Some(second) => Some((first.0, second.0))
  }

  /** ParseParse: statement name and SQL text. */
  method ParseParse(pkt: Packet) returns (r: Option<(bytes, bytes)>)
    ensures r == if pkt.kind == PARSE then TwoStrings(pkt.payload) else None
    ensures r.Some? ==> pkt.kind == 0x50
  {
    if pkt.kind != PARSE { return None; }
    var name := ReadCString(pkt.payload, 0);
    if name.None? { return None; }
    var sql := ReadCString(pkt.payload, name.value.1);
    if sql.None? { return None; }
    return Some((name.value.0, sql.value.0));
  }

  /** ParseBind: portal and statement name. */
  method ParseBind(pkt: Packet) returns (r: Option<(bytes, bytes)>)
    ensures r == if pkt.kind == BIND then TwoStrings(pkt.payload) else None
    ensures r.Some? ==> pkt.kind == 0x42
  {
    if pkt.kind != BIND { return None; }
    var portal := ReadCString(pkt.payload, 0);
    if portal.None? { return None; }
    var stmt := ReadCString(pkt.payload, portal.value.1);
    if stmt.None? { return None; }
    return Some((portal.value.0, stmt.value.0));
  }

  /** The names and texts of Parse and Bind packets are recovered whatever follows them. */
  lemma TwoStringsAreRead(first: bytes, second: bytes, rest: bytes)
    requires NulFree(first) && NulFree(second)
    ensures TwoStrings(first + [0] + (second + [0]) + rest) == Some((first, second))
  {
    hide At, CString, NulFree;
    var p := first + [0] + (second + [0]) + rest;
    AtWhole(p, []);
    assert p + [] == p;
    AtSplit4(p, 0, first, [0], second + [0], rest);
    AtSplit(p, |first| + 1, second, [0]);
    CStringIsRead(p, 0, first);
    CStringIsRead(p, |first| + 1, second);
  }

  /** Conversely, two names are found only where two terminated strings stand in front. */
  lemma TwoStringsAreThere(p: bytes) returns (rest: bytes)
    requires TwoStrings(p).Some?
    ensures
      var (first, second) := TwoStrings(p).value;
      NulFree(first) && NulFree(second) && p == first + [0] + (second + [0]) + rest
  {
    var a := FindNul(p, 0);
    var b := FindNul(p, a + 1);
    FindNulSkipsNone(p, 0);
    FindNulSkipsNone(p, a + 1);
    rest := p[b+1..];
    assert p == p[..a] + [p[a]] + (p[a+1..b] + [p[b]]) + p[b+1..];
  }

  /** The SQL text ExtractSQL finds. */
  function SQLOf(pkt: Packet): Option<bytes> {
    var p := pkt.payload;
    if pkt.kind == QUERY then
      if p == [] then None else Some(if p[|p|-1] == 0 then p[..|p|-1] else p)
    else if pkt.kind == PARSE then
      var pos := FindNul(p, 0) + 1;
      if pos >= |p| || FindNul(p, pos) == pos then None else Some(p[pos..FindNul(p, pos)])
    else None
  }

  method ExtractSQL(pkt: Packet) returns (sql: Option<bytes>)
    ensures sql == SQLOf(pkt)
  {
    if pkt.kind == QUERY {
      if |pkt.payload| == 0 { return None; }
      var text := pkt.payload;
      if |text| > 0 && text[|text|-1] == 0 {
        text := text[..|text|-1];
      }
      return Some(text);
    } else if pkt.kind == PARSE {
      var pos := ScanToNul(pkt.payload, 0);
      pos := pos + 1;
      if pos >= |pkt.payload| { return None; }
      var end := ScanToNul(pkt.payload, pos);
      if end == pos { return None; }
      return Some(pkt.payload[pos..end]);
    }
    return None;
  }

  /** A simple query is its payload without the final NUL, if it has one; no other packets but Query and Parse carry
      a text. */
  lemma SimpleQueryIsExtracted(pkt: Packet, text: bytes)
    ensures pkt.kind == 0x51 && pkt.payload == text + [0] ==> SQLOf(pkt) == Some(text)
    ensures pkt.kind == 0x51 && pkt.payload != [] && pkt.payload[|pkt.payload|-1] != 0 ==>
              SQLOf(pkt) == Some(pkt.payload)
    ensures pkt.kind == 0x51 && pkt.payload == [] ==> SQLOf(pkt) == None
    ensures pkt.kind != 0x51 && pkt.kind != 0x50 ==> SQLOf(pkt) == None
  {
    assert (text + [0])[..|text|] == text;
  }

  /** On every Parse packet: where ParseParse succeeds ExtractSQL gives the same text, unless that is empty;
      where it fails ExtractSQL gives a text exactly when an unterminated one follows the statement name. */
  lemma ExtractAgreesWithParse(pkt: Packet)
    requires pkt.kind == PARSE
    ensures
      var p, parsed := pkt.payload, TwoStrings(pkt.payload);
      SQLOf(pkt) ==
        if parsed.Some? then (if parsed.value.1 == [] then None else Some(parsed.value.1))
        else if FindNul(p, 0) + 1 < |p| then Some(p[FindNul(p, 0)+1..])
        else None
  {
    var p := pkt.payload;
    var pos := FindNul(p, 0) + 1;
    if pos < |p| && FindNul(p, pos) >= |p| {
      assert p[pos..FindNul(p, pos)] == p[pos..];
    }
  }

  // ---- data rows ----

  function BE16(p: bytes): nat
    requires |p| >= 2
  {
    BE(p[..2])
  }

  lemma BE16Bytes(p: bytes)
    requires |p| >= 2
    ensures BE16(p) == 0x100 * p[0] as int + p[1] as int
  {
    assert p[..2][..1] == p[..1] && p[..1][..0] == [];
    assert BE(p[..1]) == 0x100 * BE([]) + p[0] as int;
  }

  /** The non-NULL values of up to `n` fields from `pos`; the walk stops where the payload ends early. */
  function Values(p: bytes, pos: nat, n: nat): seq<bytes>
    decreases n
  {
    if n == 0 || pos + 4 > |p| then []
    else
      var l := Int32At(p, pos);
      if l < 0 then Values(p, pos + 4, n - 1)
      else if pos + 4 + l > |p| then []
      else [p[pos+4..pos+4+l]] + Values(p, pos + 4 + l, n - 1)
  }

  function RowValues(p: bytes): Option<seq<bytes>> {
    if |p| < 2 then None else Some(Values(p, 2, BE16(p)))
  }

  method ParseDataRow(pkt: Packet) returns (r: Option<seq<bytes>>)
    ensures r == if pkt.kind == DATA_ROW then RowValues(pkt.payload) else None
    ensures r.Some? <==> pkt.kind == 0x44 && |pkt.payload| >= 2
  {
    hide Int32At, BE16;
    if pkt.kind != DATA_ROW { return None; }
    var p := pkt.payload;
    if |p| < 2 { return None; }
    var n := BE16(p);
    var pos := 2;
    var vals: seq<bytes> := [];
    for i := 0 to n
      invariant vals + Values(p, pos, n - i) == Values(p, 2, n)
    {
      if pos + 4 > |p| { break; }
      var l := Int32At(p, pos);
      pos := pos + 4;
      if l < 0 { continue; }
      if pos + l > |p| { break; }
      ghost var before := vals;
      vals := vals + [p[pos..pos+l]];
      assert forall more: seq<bytes> :: before + ([p[pos..pos+l]] + more) == vals + more;
      pos := pos + l;
    }
    assert vals + [] == vals;
    return Some(vals);
  }

  /** A column is NULL, which any negative length says, or a byte string. */
  datatype Column = Null(length: int) | Value(value: bytes)

  function Field(c: Column): bytes {
    if c.Null? then PutInt32(c.length) else PutInt32(|c.value|) + c.value
  }

  function Fields(columns: seq<Column>): bytes {
    if columns == [] then [] else Field(columns[0]) + Fields(columns[1..])
  }

  function EncodeRow(columns: seq<Column>): bytes { PutBE(|columns|, 2) + Fields(columns) }

  function NonNull(columns: seq<Column>): seq<bytes> {
    if columns == [] then []
    else (if columns[0].Value? then [columns[0].value] else []) + NonNull(columns[1..])
  }

  predicate ColumnOK(c: Column) {
    if c.Null? then -0x8000_0000 <= c.length < 0 else |c.value| < 0x8000_0000
  }

  lemma FieldIsRead(p: bytes, pos: nat, c: Column)
    requires ColumnOK(c) && At(p, pos, Field(c))
    ensures pos + 4 <= |p|
    ensures if c.Null? then |Field(c)| == 4 && Int32At(p, pos) < 0
            else
              && |Field(c)| == 4 + |c.value| && Int32At(p, pos) == |c.value|
              && pos + 4 + |c.value| <= |p| && p[pos+4..pos+4+|c.value|] == c.value
  {
    hide At, Int32At, PutInt32;
    if c.Value? {
      AtSplit(p, pos, PutInt32(|c.value|), c.value);
      Int32IsRead(p, pos, |c.value|);
      AtIsSlice(p, pos + 4, c.value);
    } else {
      Int32IsRead(p, pos, c.length);
    }
  }

  /** Decoding an encoded row gives its non-NULL values in order, NULLs anywhere, whatever follows. */
  lemma RowIsRead(columns: seq<Column>, tail: bytes)
    requires |columns| < 0x1_0000
    requires forall i | 0 <= i < |columns| :: ColumnOK(columns[i])
    ensures RowValues(EncodeRow(columns) + tail) == Some(NonNull(columns))
  {
    hide At, Values, Field, Fields, NonNull, ColumnOK, PutBE, BE;
    var p := PutBE(|columns|, 2) + Fields(columns) + tail;
    CountIsRead(|columns|, Fields(columns) + tail);
    assert PutBE(|columns|, 2) + (Fields(columns) + tail) == p;
    AtWhole(p, []);
    assert p + [] == p;
    AtSplit3(p, 0, PutBE(|columns|, 2), Fields(columns), tail);
    FieldsThenRest(p, 2, columns, |columns|);
    NoMoreFields(p, 2 + |Fields(columns)|);
    assert NonNull(columns) + [] == NonNull(columns);
  }

  lemma CountIsRead(n: nat, rest: bytes)
    requires n < 0x1_0000
    ensures BE16(PutBE(n, 2) + rest) == n
  {
    hide PutBE, BE;
    assert Pow256(2) == 0x1_0000 by { assert Pow256(1) == 0x100; }
    BEOfPut(n, 2);
    assert (PutBE(n, 2) + rest)[..2] == PutBE(n, 2);
  }

  lemma NoMoreFields(p: bytes, pos: nat)
    ensures Values(p, pos, 0) == []
  {
  }

  /** A row that ends inside a field gives the values of the fields before it. */
  lemma CutRowIsRead(columns: seq<Column>, cut: Column, part: bytes, n: nat)
    requires |columns| < n < 0x1_0000 && ColumnOK(cut)
    requires forall i | 0 <= i < |columns| :: ColumnOK(columns[i])
    requires part < Field(cut)
    ensures RowValues(PutBE(n, 2) + Fields(columns) + part) == Some(NonNull(columns))
  {
    hide At, Values, Field, Fields, NonNull, ColumnOK, PutBE, BE;
    var p := PutBE(n, 2) + Fields(columns) + part;
    CountIsRead(n, Fields(columns) + part);
    assert PutBE(n, 2) + (Fields(columns) + part) == p;
    AtWhole(p, []);
    assert p + [] == p;
    AtSplit3(p, 0, PutBE(n, 2), Fields(columns), part);
    NothingOfCutField(p, 2 + |Fields(columns)|, cut, part, n - |columns|);
    FieldsThenRest(p, 2, columns, n);
    assert NonNull(columns) + [] == NonNull(columns);
  }

  lemma NothingOfCutField(p: bytes, pos: nat, cut: Column, part: bytes, n: nat)
    requires ColumnOK(cut) && part < Field(cut) && At(p, pos, part) && pos + |part| == |p|
    ensures Values(p, pos, n) == []
  {
    hide At, PutInt32, Int32At;
    if |part| >= 4 {
      var length := PutInt32(if cut.Null? then cut.length else |cut.value|);
      assert part == length + part[4..];
      AtSplit(p, pos, length, part[4..]);
      Int32IsRead(p, pos, |cut.value|);
    }
  }

  lemma {:induction false} FieldsThenRest(p: bytes, pos: nat, columns: seq<Column>, n: nat)
    requires forall i | 0 <= i < |columns| :: ColumnOK(columns[i])
    requires At(p, pos, Fields(columns)) && |columns| <= n
    ensures Values(p, pos, n) == NonNull(columns) + Values(p, pos + |Fields(columns)|, n - |columns|)
    decreases columns
  {
    hide At, Int32At, Field;
    if columns == [] {
    } else {
      var c, more := columns[0], columns[1..];
      assert ColumnOK(c);
      AtSplit(p, pos, Field(c), Fields(more));
      FieldIsRead(p, pos, c);
      FieldsThenRest(p, pos + |Field(c)|, more, n - 1);
    }
  }

  /** On any bytes, well formed or not, cutting the payload short only cuts the list of values short. */
  lemma TruncationGivesPrefix(p: bytes, k: nat)
    requires 2 <= k <= |p|
    ensures RowValues(p[..k]).value <= RowValues(p).value
  {
    assert p[..k][..2] == p[..2];
    ValuesOfPrefix(p, k, 2, BE16(p));
  }

  lemma {:induction false} ValuesOfPrefix(p: bytes, k: nat, pos: nat, n: nat)
    requires k <= |p|
    ensures Values(p[..k], pos, n) <= Values(p, pos, n)
    decreases n
  {
    hide Int32At;
    if n == 0 || pos + 4 > k {
    } else {
      SameField(p, k, pos);
      var l := Int32At(p, pos);
      if l < 0 {
        ValuesOfPrefix(p, k, pos + 4, n - 1);
      } else if pos + 4 + l <= k {
        ValuesOfPrefix(p, k, pos + 4 + l, n - 1);
        assert p[..k][pos+4..pos+4+l] == p[pos+4..pos+4+l];
      }
    }
  }

  lemma SameField(p: bytes, k: nat, pos: nat)
    requires pos + 4 <= k <= |p|
    ensures Int32At(p[..k], pos) == Int32At(p, pos)
  {
    assert p[..k][pos..pos+4] == p[pos..pos+4];
  }

  // ---- the error reply ----

  datatype ErrorField = ErrorField(code: byte, text: bytes)

  predicate FieldOK(f: ErrorField) { f.code != 0 && NulFree(f.text) }

  /** The field list of an ErrorResponse, section "Error and Notice Message Fields". */
  function EncodeFields(fields: seq<ErrorField>): bytes {
    if fields == [] then [0] else [fields[0].code] + (fields[0].text + [0]) + EncodeFields(fields[1..])
  }

  /** Reference decoder of such a list; None when it is not terminated. */
  function FieldsAt(p: bytes, pos: nat): Option<seq<ErrorField>>
    requires pos <= |p|
    decreases |p| - pos
  {
    if pos == |p| then None
    else if p[pos] == 0 then Some([])
    else match CString(p, pos + 1)
      case None => None
      case Some(text) =>
        match FieldsAt(p, text.1)
        case None => None
        case Some(more) => Some([ErrorField(p[pos], text.0)] + more)
  }

  lemma FirstFieldIsRead(p: bytes, pos: nat, f: ErrorField)
    requires FieldOK(f)
    requires At(p, pos, [f.code]) && At(p, pos + 1, f.text + [0])
    ensures pos < |p| && p[pos] == f.code
    ensures CString(p, pos + 1) == Some((f.text, pos + 2 + |f.text|))
  {
    hide At, CString;
    AtFirst(p, pos, [f.code]);
    AtIsSlice(p, pos, [f.code]);
    AtSplit(p, pos + 1, f.text, [0]);
    CStringIsRead(p, pos + 1, f.text);
  }

  lemma {:induction false} EncodedFieldsAreRead(p: bytes, pos: nat, fields: seq<ErrorField>)
    requires forall i | 0 <= i < |fields| :: FieldOK(fields[i])
    requires pos <= |p| && At(p, pos, EncodeFields(fields))
    ensures FieldsAt(p, pos) == Some(fields)
    decreases fields
  {
    hide At, CString;
    AtIsSlice(p, pos, EncodeFields(fields));
    if fields == [] {
      AtFirst(p, pos, [0]);
    } else {
      var f, more := fields[0], fields[1..];
      assert FieldOK(f);
      AtSplit3(p, pos, [f.code], f.text + [0], EncodeFields(more));
      FirstFieldIsRead(p, pos, f);
      EncodedFieldsAreRead(p, pos + 2 + |f.text|, more);
      assert [ErrorField(f.code, f.text)] + more == fields;
    }
  }

  const SEVERITY: ErrorField := ErrorField(0x53, Ascii("ERROR"))
  const SQLSTATE: ErrorField := ErrorField(0x43, Ascii("42501"))

  function ReplyFields(message: bytes): seq<ErrorField> { [SEVERITY, SQLSTATE, ErrorField(0x4D, message)] }

  function ErrorReply(message: bytes): bytes {
    EncodePacket(ERROR_RESPONSE, EncodeFields(ReplyFields(message)))
  }

  method BuildErrorResponse(message: bytes) returns (buf: array<byte>)
    ensures fresh(buf) && buf[..] == ErrorReply(message)
  {
    hide At, Filled, ErrorReply, PutInt32, Ascii;
    ghost var reply := ErrorReply(message);
    ErrorReplyPieces(message);
    var bodyLen := 7 + 7 + 2 + |message| + 1;
    var totalLen := 1 + 4 + bodyLen;
    buf := ZeroBuffer(totalLen, reply);
    var pos := 0;
    pos := Put(buf, pos, [ERROR_RESPONSE], reply);
    pos := Put(buf, pos, PutInt32(4 + bodyLen), reply);
    pos := Put(buf, pos, [0x53], reply);
    pos := Put(buf, pos, Ascii("ERROR") + [0], reply);
    pos := Put(buf, pos, [0x43], reply);
    pos := Put(buf, pos, Ascii("42501") + [0], reply);
    pos := Put(buf, pos, [0x4D], reply);
    pos := Put(buf, pos, message, reply);
    pos := Put(buf, pos, [0x00], reply);
    pos := Put(buf, pos, [0x00], reply);
    FilledIsTarget(buf, reply, pos);
  }

  /** Where the pieces of the field list stand. */
  lemma BodyPieces(message: bytes)
    ensures
      var body, n := EncodeFields(ReplyFields(message)), |message|;
      && |body| == 17 + n
      && At(body, 0, [0x53]) && At(body, 1, Ascii("ERROR") + [0])
      && At(body, 7, [0x43]) && At(body, 8, Ascii("42501") + [0])
      && At(body, 14, [0x4D]) && At(body, 15, message) && At(body, 15 + n, [0]) && At(body, 16 + n, [0])
  {
    hide At, Ascii, EncodeFields;
    var body, fs := EncodeFields(ReplyFields(message)), ReplyFields(message);
    FieldListBytes(message);
    AtWhole(body, []);
    assert body + [] == body;
    AtSplit3(body, 0, [0x53], Ascii("ERROR") + [0], EncodeFields(fs[1..]));
    AtSplit3(body, 7, [0x43], Ascii("42501") + [0], EncodeFields(fs[2..]));
    AtSplit3(body, 14, [0x4D], message + [0], [0]);
    AtSplit(body, 15, message, [0]);
  }

  lemma FieldListBytes(message: bytes)
    ensures
      var fs := ReplyFields(message);
      && EncodeFields(fs) == [0x53] + (Ascii("ERROR") + [0]) + EncodeFields(fs[1..])
      && EncodeFields(fs[1..]) == [0x43] + (Ascii("42501") + [0]) + EncodeFields(fs[2..])
      && EncodeFields(fs[2..]) == [0x4D] + (message + [0]) + [0]
  {
    hide Ascii;
    var fs := ReplyFields(message);
    assert fs[1..][1..] == fs[2..] && fs[2..][1..] == [];
    assert fs[1..][0] == SQLSTATE && fs[2..][0] == ErrorField(0x4D, message);
  }

  lemma ErrorReplyPieces(message: bytes)
    ensures
      var reply, n := ErrorReply(message), |message|;
      && |reply| == 22 + n
      && At(reply, 0, [ERROR_RESPONSE]) && At(reply, 1, PutInt32(21 + n))
      && At(reply, 5, [0x53]) && At(reply, 6, Ascii("ERROR") + [0])
      && At(reply, 12, [0x43]) && At(reply, 13, Ascii("42501") + [0])
      && At(reply, 19, [0x4D]) && At(reply, 20, message) && At(reply, 20 + n, [0]) && At(reply, 21 + n, [0])
  {
    hide At, PutInt32, Ascii, EncodeFields;
    var reply, n, body := ErrorReply(message), |message|, EncodeFields(ReplyFields(message));
    BodyPieces(message);
    AtWhole(reply, []);
    assert reply + [] == reply;
    AtSplit3(reply, 0, [ERROR_RESPONSE], PutInt32(4 + |body|), body);
    AtInside(reply, 5, body, 0, [0x53]);
    AtInside(reply, 5, body, 1, Ascii("ERROR") + [0]);
    AtInside(reply, 5, body, 7, [0x43]);
    AtInside(reply, 5, body, 8, Ascii("42501") + [0]);
    AtInside(reply, 5, body, 14, [0x4D]);
    AtInside(reply, 5, body, 15, message);
    AtInside(reply, 5, body, 15 + n, [0]);
    AtInside(reply, 5, body, 16 + n, [0]);
  }

  const READY_IDLE: bytes := [READY, 0, 0, 0, 5, IDLE]

  function ReadyForQueryStatus(pkt: Packet): Option<byte> {
    if pkt.kind != READY || |pkt.payload| < 1 then None else Some(pkt.payload[|pkt.payload|-1])
  }

  /** The status of a ReadyForQuery packet is the last byte of its payload; nothing else has one. */
  lemma StatusIsLastByte(pkt: Packet, front: bytes, status: byte)
    ensures pkt.kind == 0x5A && pkt.payload == front + [status] ==> ReadyForQueryStatus(pkt) == Some(status)
    ensures ReadyForQueryStatus(pkt).Some? <==> pkt.kind == 0x5A && pkt.payload != []
  {
  }

  /** The reply byte by byte: type E, its length, and the fields S, C and M. */
  lemma ErrorReplyBytes(message: bytes)
    ensures ErrorReply(message) ==
            [0x45] + PutInt32(21 + |message|)
            + ([0x53] + (Ascii("ERROR") + [0]) + ([0x43] + (Ascii("42501") + [0]) + ([0x4D] + (message + [0]) + [0])))
  {
    hide PutInt32, Ascii, EncodeFields;
    FieldListBytes(message);
    BodyPieces(message);
  }

  lemma ReadyIdleIsPacket()
    ensures READY_IDLE == EncodePacket(READY, [IDLE])
  {
    assert BE([0, 0, 0, 5]) == 5 by {
      assert [0, 0, 0, 5][..3] == [0, 0, 0];
      assert [0, 0, 0][..2] == [0, 0];
      assert [0, 0][..1] == [0];
      assert BE([0]) == 0;
    }
    PutOfBE([0, 0, 0, 5]);
  }

  /** The blocked client reads two packets, an ErrorResponse and an idle ReadyForQuery, and nothing more. */
  lemma ErrorThenReadyIsRead(message: bytes, rest: bytes, end: IOError)
    requires 21 + |message| <= MAX_LENGTH
    ensures
      var first := FirstMessage(ErrorReply(message) + READY_IDLE + rest, end);
      && first.0.Success? && first.0.value.kind == ERROR_RESPONSE
      && first.0.value.payload == EncodeFields(ReplyFields(message))
      && var second := FirstMessage(first.1, end);
         second.0.Success? && ReadyForQueryStatus(second.0.value) == Some(IDLE) && second.1 == rest
  {
    hide FirstMessage, EncodePacket, EncodeFields;
    var body := EncodeFields(ReplyFields(message));
    BodyPieces(message);
    assert ErrorReply(message) + READY_IDLE + rest == ErrorReply(message) + (READY_IDLE + rest);
    EncodedPacketIsRead(ERROR_RESPONSE, body, READY_IDLE + rest, end);
    ReadyIdleIsPacket();
    EncodedPacketIsRead(READY, [IDLE], rest, end);
  }

  /** Severity, SQLSTATE and message are recovered from the reply exactly when the message has no NUL. */
  lemma ReplyFieldsAreRecovered(message: bytes)
    ensures FieldsAt(EncodeFields(ReplyFields(message)), 0) == Some(ReplyFields(message)) <==> NulFree(message)
  {
    hide At, Ascii, FieldsAt, EncodeFields;
    var p := EncodeFields(ReplyFields(message));
    AtWhole(p, []);
    assert p + [] == p;
    FixedFieldsAreNulFree();
    if NulFree(message) {
      EncodedFieldsAreRead(p, 0, ReplyFields(message));
    } else {
      ThirdFieldIsCut(message);
    }
  }

  lemma FixedFieldsAreNulFree()
    ensures FieldOK(SEVERITY) && FieldOK(SQLSTATE)
  {
    assert Ascii("ERROR") == [0x45, 0x52, 0x52, 0x4F, 0x52];
    assert Ascii("42501") == [0x34, 0x32, 0x35, 0x30, 0x31];
  }

  /** With a NUL in it the message text ends there. */
  lemma ThirdFieldIsCut(message: bytes)
    requires !NulFree(message)
    ensures FieldsAt(EncodeFields(ReplyFields(message)), 0) != Some(ReplyFields(message))
  {
    hide At, Ascii, EncodeFields, FindNul;
    var p := EncodeFields(ReplyFields(message));
    BodyPieces(message);
    FixedFieldsAreNulFree();
    AtFirst(p, 0, [0x53]); AtFirst(p, 7, [0x43]); AtFirst(p, 14, [0x4D]);
    AtSplit(p, 1, SEVERITY.text, [0]);
    NulAfter(p, 1, SEVERITY.text);
    AtSplit(p, 8, SQLSTATE.text, [0]);
    NulAfter(p, 8, SQLSTATE.text);
    var i :| 0 <= i < |message| && message[i] == 0;
    AtIsSlice(p, 1, SEVERITY.text + [0]);
    AtIsSlice(p, 8, SQLSTATE.text + [0]);
    AtIsSlice(p, 15, message);
    assert p[15+i] == p[15..15+|message|][i] == 0;
    FindNulSkipsNone(p, 15);
    assert FindNul(p, 15) <= 15 + i;
    assert CString(p, 1).value.1 == 7 && CString(p, 8).value.1 == 14;
    assert FieldsAt(p, 14).Some? ==> FieldsAt(p, 14).value != [] && |FieldsAt(p, 14).value[0].text| <= i;
    assert FieldsAt(p, 7).Some? ==> FieldsAt(p, 7).value[1..] == FieldsAt(p, 14).value;
    assert FieldsAt(p, 0).Some? ==> FieldsAt(p, 0).value[1..] == FieldsAt(p, 7).value;
    if FieldsAt(p, 0).Some? {
      assert FieldsAt(p, 0).value[2] == FieldsAt(p, 14).value[0];
    }
  }
}
