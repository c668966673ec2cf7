/**
 protocol/mysql/command.go, capabilities.go, handshake.go and error.go: length-encoded
 integers, COM_QUERY, the client's handshake response and the error packet.
 */
module MysqlCommands {
  import opened Bytes
  import opened Streams
  import opened MysqlFraming

  const TWO_63: int := 0x8000_0000_0000_0000
  const TWO_64: int := 0x1_0000_0000_0000_0000

  // ---- length-encoded integers ----

  datatype LenEnc = LenEnc(value: nat, width: nat)

  function ReadLenEncInt(b: bytes): (r: Option<LenEnc>)
    ensures r.Some? ==> r.value.width <= |b|
  {
    if b == [] then None
    else if b[0] < 0xFB then Some(LenEnc(b[0] as int, 1))
    else if b[0] == 0xFC then if |b| < 3 then None else Some(LenEnc(LE(b[1..3]), 3))
    else if b[0] == 0xFD then if |b| < 4 then None else Some(LenEnc(LE(b[1..4]), 4))
    else if b[0] == 0xFE then if |b| < 9 then None else Some(LenEnc(LE(b[1..9]), 9))
    else None
  }

  /** The four wire forms of a length-encoded integer. */
  datatype Form = Direct | Two | Three | Eight

  predicate Fits(value: nat, form: Form) {
    match form
    case Direct => value < 0xFB
    case Two => value < Pow256(2)
    case Three => value < Pow256(3)
    case Eight => value < Pow256(8)
  }

  function EncodeLenEnc(value: nat, form: Form): bytes
    requires Fits(value, form)
  {
    match form
    case Direct => [value as byte]
    case Two => [0xFC] + PutLE(value, 2)
    case Three => [0xFD] + PutLE(value, 3)
    case Eight => [0xFE] + PutLE(value, 8)
  }

  /** Decoding inverts every form of every value, whatever follows. */
  lemma LenEncIsRead(value: nat, form: Form, rest: bytes)
    requires Fits(value, form)
    ensures ReadLenEncInt(EncodeLenEnc(value, form) + rest) ==
            Some(LenEnc(value, |EncodeLenEnc(value, form)|))
  {
    var b := EncodeLenEnc(value, form) + rest;
    match form
    case Direct =>
    case Two => LEOfPut(value, 2); assert b[1..3] == PutLE(value, 2);
    case Three => LEOfPut(value, 3); assert b[1..4] == PutLE(value, 3);
    case Eight => LEOfPut(value, 8); assert b[1..9] == PutLE(value, 8);
  }

  /** The forms byte by byte. */
  lemma LenEncBytes(a: byte, b: byte, c: byte, rest: bytes)
    ensures a < 0xFB ==> ReadLenEncInt([a] + rest) == Some(LenEnc(a as int, 1))
    ensures ReadLenEncInt([0xFC, a, b] + rest) == Some(LenEnc(a as int + 0x100 * b as int, 3))
    ensures ReadLenEncInt([0xFD, a, b, c] + rest) == Some(LenEnc(a as int + 0x100 * b as int + 0x1_0000 * c as int, 4))
    ensures ReadLenEncInt([0xFB] + rest) == ReadLenEncInt([0xFF] + rest) == ReadLenEncInt([]) == None
  {
    assert LE([a, b]) == a as int + 0x100 * LE([b]) by { assert [a, b][1..] == [b]; }
    assert LE([b]) == b as int && LE([c]) == c as int;
    assert LE([b, c]) == b as int + 0x100 * c as int by { assert [b, c][1..] == [c]; }
    assert LE([a, b, c]) == a as int + 0x100 * LE([b, c]) by { assert [a, b, c][1..] == [b, c]; }
    assert ([0xFC, a, b] + rest)[1..3] == [a, b];
    assert ([0xFD, a, b, c] + rest)[1..4] == [a, b, c];
  }

  /** The eight-byte form is marked by FE. */
  lemma LenEncEightBytes(low: bytes, high: bytes, rest: bytes)
    requires |low| == |high| == 4
    ensures ReadLenEncInt([0xFE] + (low + high) + rest) == Some(LenEnc(LE32(low, 0) + TWO_32 * LE32(high, 0), 9))
  {
    var b := [0xFE] + (low + high) + rest;
    assert b[1..9] == low + high;
    LEOfConcat(low, high);
    Pow256Of4();
    assert low[0..4] == low && high[0..4] == high;
  }

  lemma {:induction false} LEOfConcat(a: bytes, b: bytes)
    ensures LE(a + b) == LE(a) + Pow256(|a|) * LE(b)
    decreases a
  {
    if a == [] {
      assert a + b == b;
    } else {
      assert (a + b)[1..] == a[1..] + b;
      LEOfConcat(a[1..], b);
    }
  }

  /** Conversely, whatever is decoded stands at the front in one of the forms. */
  lemma ReadLenEncIsEncoded(b: bytes) returns (form: Form)
    requires ReadLenEncInt(b).Some?
    ensures
      var r := ReadLenEncInt(b).value;
      && Fits(r.value, form)
      && b == EncodeLenEnc(r.value, form) + b[r.width..]
  {
    if b[0] < 0xFB {
      form := Direct;
      assert b == [b[0]] + b[1..];
    } else {
      form := if b[0] == 0xFC then Two else if b[0] == 0xFD then Three else Eight;
      var w := ReadLenEncInt(b).value.width;
      LEBound(b[1..w]);
      PutOfLE(b[1..w]);
      assert b == [b[0]] + b[1..w] + b[w..];
    }
  }

  // ---- COM_QUERY ----

  const COM_QUERY: byte := 0x03

  function ExtractQuery(payload: bytes, queryAttrs: bool): Option<bytes> {
    if payload == [] || payload[0] != COM_QUERY then None
    else
      var body := payload[1..];
      if !queryAttrs then Some(body)
      else match ReadLenEncInt(body)
        case None => None
        case Some(count) =>
          var body := body[count.width..];
          match ReadLenEncInt(body)
          case None => None
          case Some(sets) => if count.value > 0 then None else Some(body[sets.width..])
  }

  /** Without query attributes the text is the rest of the payload; with or without, nothing else is a query. */
  lemma ClassicQueryIsExtracted(payload: bytes, text: bytes, queryAttrs: bool)
    ensures ExtractQuery([0x03] + text, false) == Some(text)
    ensures ExtractQuery(payload, queryAttrs).Some? ==> payload != [] && payload[0] == 0x03
    ensures ExtractQuery(payload, false).Some? <==> payload != [] && payload[0] == 0x03
  {
    assert ([0x03] + text)[1..] == text;
  }

  /** The wire form of a query with an attribute block. */
  function EncodeQuery(count: nat, countForm: Form, sets: nat, setsForm: Form, rest: bytes): bytes
    requires Fits(count, countForm) && Fits(sets, setsForm)
  {
    [COM_QUERY] + EncodeLenEnc(count, countForm) + EncodeLenEnc(sets, setsForm) + rest
  }

  /** Behind an empty attribute block, in any encoding, the SQL text is recovered; behind parameters it is not. */
  lemma QueryIsExtracted(count: nat, countForm: Form, sets: nat, setsForm: Form, rest: bytes)
    requires Fits(count, countForm) && Fits(sets, setsForm)
    ensures ExtractQuery(EncodeQuery(count, countForm, sets, setsForm, rest), true) ==
            if count == 0 then Some(rest) else None
  {
    hide ReadLenEncInt, EncodeLenEnc, Fits;
    var c, s := EncodeLenEnc(count, countForm), EncodeLenEnc(sets, setsForm);
    assert EncodeQuery(count, countForm, sets, setsForm, rest)[1..] == c + (s + rest);
    LenEncIsRead(count, countForm, s + rest);
    assert (c + (s + rest))[|c|..] == s + rest;
    LenEncIsRead(sets, setsForm, rest);
    assert (s + rest)[|s|..] == rest;
  }

  /** Conversely, a text is extracted only from behind an empty attribute block. */
  lemma ExtractedQueryIsEncoded(payload: bytes) returns (countForm: Form, sets: nat, setsForm: Form)
    requires ExtractQuery(payload, true).Some?
    ensures Fits(0, countForm) && Fits(sets, setsForm)
    ensures payload == EncodeQuery(0, countForm, sets, setsForm, ExtractQuery(payload, true).value)
  {
    hide EncodeLenEnc, Fits, ReadLenEncInt;
    var body := payload[1..];
    countForm := ReadLenEncIsEncoded(body);
    var body' := body[ReadLenEncInt(body).value.width..];
    sets := ReadLenEncInt(body').value.value;
    setsForm := ReadLenEncIsEncoded(body');
    assert payload == [COM_QUERY] + body;
  }

  // ---- capabilities and the handshake response ----

  type Capabilities = bv32
  type Word = n: nat | n < TWO_32

  function ToCaps(word: Word): Capabilities { word as bv32 }

  /** Every combination of capabilities has its word. */
  lemma WordOfCaps(caps: Capabilities)
    ensures ToCaps(caps as int) == caps
  {
  }

  /** The capability word at the front of a handshake response. */
  function CapsOf(payload: bytes): Capabilities
    requires |payload| >= 4
  {
    ToCaps(LE32(payload, 0))
  }

  const CONNECT_WITH_DB: Capabilities := 0x0000_0008
  const SECURE_CONNECTION: Capabilities := 0x0000_8000
  const PLUGIN_AUTH: Capabilities := 0x0008_0000
  const LENENC_AUTH: Capabilities := 0x0020_0000

  predicate Has(c: Capabilities, flag: Capabilities) { c & flag == flag }

  /** The bit numbers of the capabilities that select the layout. */
  lemma CapabilityBits(c: Capabilities)
    ensures Has(c, CONNECT_WITH_DB) <==> (c >> 3) & 1 == 1
    ensures Has(c, SECURE_CONNECTION) <==> (c >> 15) & 1 == 1
    ensures Has(c, PLUGIN_AUTH) <==> (c >> 19) & 1 == 1
    ensures Has(c, LENENC_AUTH) <==> (c >> 21) & 1 == 1
  {
  }

  datatype HandshakeInfo = HandshakeInfo(caps: Capabilities, username: bytes, database: bytes)

  /** What ParseHandshakeResponse does: return a pair, or panic on a slice expression out of range. */
  datatype Outcome = Returns(info: HandshakeInfo, ok: bool) | Panics

  /** Go's int on a 64-bit platform: sums and conversions wrap around. */
  function Wrap64(n: nat): (i: int)
    requires n < TWO_64 + TWO_63
  {
    if n < TWO_63 then n else n - TWO_64
  }

  const FIXED_PART: nat := 32

  /** The position behind the auth response that starts at `pos`; None when it cannot be read. */
  function AuthEnd(payload: bytes, caps: Capabilities, pos: nat): Option<int>
    requires pos <= |payload| < TWO_63
  {
    if Has(caps, LENENC_AUTH) then
      match ReadLenEncInt(payload[pos..])
      case None => None
      case Some(r) => LenEncBound(payload[pos..]); Some(Wrap64(pos + r.width + r.value))
    else if Has(caps, SECURE_CONNECTION) then
      if pos >= |payload| then None else Some(pos + 1 + payload[pos] as int)
    else Some(if FindNul(payload, pos) < |payload| then FindNul(payload, pos) + 1 else |payload|)
  }

  lemma LenEncBound(b: bytes)
    ensures ReadLenEncInt(b).Some? ==> ReadLenEncInt(b).value.value < TWO_64
  {
    Pow256Of8();
    if ReadLenEncInt(b).Some? && b[0] >= 0xFB {
      LEBound(b[1..ReadLenEncInt(b).value.width]);
    }
  }

  lemma Pow256Of8()
    ensures Pow256(2) == 0x1_0000 && Pow256(3) == 0x100_0000 && Pow256(8) == TWO_64
  {
    assert Pow256(1) == 0x100;
    assert Pow256(4) == 0x1_0000_0000;
    assert Pow256(5) == 0x100_0000_0000;
    assert Pow256(6) == 0x1_0000_0000_0000;
    assert Pow256(7) == 0x100_0000_0000_0000;
  }

  /** ParseHandshakeResponse as a function of the payload. */
  function Handshake(payload: bytes): Outcome
    requires |payload| < TWO_63
  {
    if |payload| < FIXED_PART then Returns(HandshakeInfo(0, [], []), false)
    else
      var caps := CapsOf(payload);
      var nul := FindNul(payload, FIXED_PART);
      if |payload| == FIXED_PART then Returns(HandshakeInfo(caps, [], []), true)
      else if nul >= |payload| then Returns(HandshakeInfo(caps, [], []), false)
      else
        var username := payload[FIXED_PART..nul];
        match AuthEnd(payload, caps, nul + 1)
        case None => Returns(HandshakeInfo(caps, username, []), false)
        case Some(pos) =>
          if !Has(caps, CONNECT_WITH_DB) || pos >= |payload| then Returns(HandshakeInfo(caps, username, []), true)
          else if pos < 0 then Panics
          else Returns(HandshakeInfo(caps, username, payload[pos..FindNul(payload, pos)]), true)
  }

  /** The position of the next NUL; |payload| stands for "not found". */
  method IndexNul(payload: bytes, pos: nat) returns (end: nat)
    requires pos <= |payload|
    ensures end == FindNul(payload, pos) && pos <= end <= |payload|
  {
    end := ScanToNul(payload, pos);
  }

  method ParseHandshakeResponse(payload: bytes) returns (outcome: Outcome)
    requires |payload| < TWO_63
    ensures outcome == Handshake(payload)
  {
    hide ReadLenEncInt, LE32, Has, FindNul, ToCaps;
    var info := HandshakeInfo(0, [], []);
    if |payload| < 32 {
      return Returns(info, false);
    }
    info := info.(caps := CapsOf(payload));
    if |payload| == 32 {
      return Returns(info, true);
    }
    var pos: int := 32;
    var end := IndexNul(payload, pos);
    if end == |payload| {
      return Returns(info, false);
    }
    info := info.(username := payload[pos..end]);
    pos := end + 1;

    if Has(info.caps, LENENC_AUTH) {
      var r := ReadLenEncInt(payload[pos..]);
      if r.None? {
        return Returns(info, false);
      }
      LenEncBound(payload[pos..]);
      pos := Wrap64(pos + r.value.width + r.value.value);
    } else if Has(info.caps, SECURE_CONNECTION) {
      if pos >= |payload| {
        return Returns(info, false);
      }
      var authLen := payload[pos] as int;
      pos := pos + 1 + authLen;
    } else {
      end := IndexNul(payload, pos);
      if end == |payload| {
        pos := |payload|;
      } else {
        pos := end + 1;
      }
    }

    if Has(info.caps, CONNECT_WITH_DB) && pos < |payload| {
      if pos < 0 {
        return Panics;
      }
      end := IndexNul(payload, pos);
      info := info.(database := payload[pos..end]);
    }
    return Returns(info, true);
  }

  // ---- the handshake encoder and the round trip ----

  predicate AuthOK(caps: Capabilities, auth: bytes, form: Form) {
    if Has(caps, LENENC_AUTH) then Fits(|auth|, form)
    else if Has(caps, SECURE_CONNECTION) then |auth| < 0x100
    else NulFree(auth)
  }

  /** The auth response in the encoding the capabilities select. */
  function EncodeAuth(caps: Capabilities, auth: bytes, form: Form): bytes
    requires AuthOK(caps, auth, form)
  {
    if Has(caps, LENENC_AUTH) then EncodeLenEnc(|auth|, form) + auth
    else if Has(caps, SECURE_CONNECTION) then [|auth| as byte] + auth
    else auth + [0]
  }

  lemma LenEncAt(payload: bytes, pos: nat, value: nat, form: Form)
    requires Fits(value, form) && At(payload, pos, EncodeLenEnc(value, form))
    ensures pos <= |payload|
    ensures ReadLenEncInt(payload[pos..]) == Some(LenEnc(value, |EncodeLenEnc(value, form)|))
  {
    hide At, Fits, EncodeLenEnc, ReadLenEncInt;
    var e := EncodeLenEnc(value, form);
    AtIsSlice(payload, pos, e);
    assert payload[pos..] == e + payload[pos+|e|..];
    LenEncIsRead(value, form, payload[pos+|e|..]);
  }

  lemma AuthIsSkipped(payload: bytes, caps: Capabilities, pos: nat, auth: bytes, form: Form)
    requires AuthOK(caps, auth, form) && |payload| < TWO_63
    requires pos <= |payload| && At(payload, pos, EncodeAuth(caps, auth, form))
    ensures AuthEnd(payload, caps, pos) == Some(pos + |EncodeAuth(caps, auth, form)|)
  {
    hide At, Has, Fits, EncodeLenEnc, ReadLenEncInt, FindNul, NulFree;
    AtIsSlice(payload, pos, EncodeAuth(caps, auth, form));
    if Has(caps, LENENC_AUTH) {
      AtSplit(payload, pos, EncodeLenEnc(|auth|, form), auth);
      LenEncAt(payload, pos, |auth|, form);
    } else if Has(caps, SECURE_CONNECTION) {
      AtSplit(payload, pos, [|auth| as byte], auth);
      AtFirst(payload, pos, [|auth| as byte]);
    } else {
      AtSplit(payload, pos, auth, [0]);
      NulAfter(payload, pos, auth);
    }
  }

  /** A HandshakeResponse41: `word` holds the capability bits, `middle` is max packet size, charset and filler,
      `form` the form of a length-encoded auth length, `trailing` whatever follows the announced fields. */
  datatype Response = Response(word: Word, middle: bytes, username: bytes, auth: bytes, form: Form,
                               database: bytes, pluginName: bytes, trailing: bytes)
  {
    function Caps(): Capabilities { ToCaps(word) }
  }

  predicate FieldsOK(r: Response) {
    AuthOK(r.Caps(), r.auth, r.form) && |r.middle| == 28 && NulFree(r.username) && NulFree(r.database)
  }

  predicate ResponseOK(r: Response) { FieldsOK(r) && NulFree(r.pluginName) }

  /** A NUL-terminated field that is there when its capability is. */
  function Announced(caps: Capabilities, flag: Capabilities, s: bytes): bytes {
    if Has(caps, flag) then s + [0] else []
  }

  /** The fields up to the database. */
  function EncodeFields(r: Response): bytes
    requires AuthOK(r.Caps(), r.auth, r.form)
  {
    (PutLE32(r.word) + r.middle) + (r.username + [0]) + EncodeAuth(r.Caps(), r.auth, r.form)
    + Announced(r.Caps(), CONNECT_WITH_DB, r.database)
  }

  function EncodeHandshake(r: Response): bytes
    requires AuthOK(r.Caps(), r.auth, r.form)
  {
    EncodeFields(r) + (Announced(r.Caps(), PLUGIN_AUTH, r.pluginName) + r.trailing)
  }

  /** Parsing an encoded handshake response gives back the capabilities, the user name, and the database
      exactly when the capabilities say that one is there, in each of the three auth encodings and whatever
      stands behind the database. */
  lemma HandshakeIsRead(r: Response, behind: bytes)
    requires FieldsOK(r) && |EncodeFields(r) + behind| < TWO_63
    ensures Handshake(EncodeFields(r) + behind) ==
            Returns(HandshakeInfo(r.Caps(), r.username,
                                  if Has(r.Caps(), CONNECT_WITH_DB) then r.database else []), true)
  {
    hide At, Has, AuthEnd, EncodeAuth, PutLE32, AuthOK, LE32, EncodeFields, ToCaps;
    var payload := EncodeFields(r) + behind;
    HandshakePieces(r, behind);
    LE32At(payload, 0, r.word);
    AtIsSlice(payload, 32, r.username);
    NulAfter(payload, 32, r.username);
    var pos := 33 + |r.username|;
    AuthIsSkipped(payload, r.Caps(), pos, r.auth, r.form);
    if Has(r.Caps(), CONNECT_WITH_DB) {
      pos := pos + |EncodeAuth(r.Caps(), r.auth, r.form)|;
      AtSplit(payload, pos, r.database, [0]);
      AtIsSlice(payload, pos, r.database);
      AtIsSlice(payload, pos + |r.database|, [0]);
      NulAfter(payload, pos, r.database);
    }
  }

  lemma Regroup(a: bytes, b: bytes, c: bytes, d: bytes, e: bytes)
    ensures (a + b + c + d) + e == a + b + c + (d + e)
    ensures |a + b + c + d| == |a| + |b| + |c| + |d|
  {
  }

  lemma HandshakePieces(r: Response, behind: bytes)
    requires AuthOK(r.Caps(), r.auth, r.form) && |r.middle| == 28
    ensures
      var payload, a := EncodeFields(r) + behind, EncodeAuth(r.Caps(), r.auth, r.form);
      var pos, end := 33 + |r.username|, 33 + |r.username| + |a|;
      && At(payload, 0, PutLE32(r.word))
      && At(payload, 32, r.username) && At(payload, 32 + |r.username|, [0])
      && At(payload, pos, a) && end <= |payload|
      && |EncodeFields(r)| == end + |Announced(r.Caps(), CONNECT_WITH_DB, r.database)|
      && At(payload, end, Announced(r.Caps(), CONNECT_WITH_DB, r.database))
  {
    hide At, Has, EncodeAuth, PutLE32, AuthOK, NulFree, ToCaps, Announced;
    var payload, a := EncodeFields(r) + behind, EncodeAuth(r.Caps(), r.auth, r.form);
    var head, name := PutLE32(r.word) + r.middle, r.username + [0];
    var db := Announced(r.Caps(), CONNECT_WITH_DB, r.database);
    AtWhole(payload, []);
    assert payload + [] == payload;
    Regroup(head, name, a, db, behind);
    AtSplit4(payload, 0, head, name, a, db + behind);
    AtSplit(payload, 0, PutLE32(r.word), r.middle);
    AtSplit(payload, 32, r.username, [0]);
    AtSplit(payload, 33 + |r.username| + |a|, db, behind);
  }

  // ---- what else the parser accepts ----

  /** Where the auth response that starts at `pos` ends; None unless all of it is there. */
  function AuthWithin(payload: bytes, caps: Capabilities, pos: nat): (end: Option<nat>)
    requires pos <= |payload|
    ensures end.Some? ==> pos <= end.value <= |payload|
  {
    if Has(caps, LENENC_AUTH) then
      match ReadLenEncInt(payload[pos..])
      case None => None
      case Some(r) => if pos + r.width + r.value <= |payload| then Some(pos + r.width + r.value) else None
    else if Has(caps, SECURE_CONNECTION) then
      if pos < |payload| && pos + 1 + payload[pos] as int <= |payload| then Some(pos + 1 + payload[pos] as int)
      else None
    else if FindNul(payload, pos) < |payload| then Some(FindNul(payload, pos) + 1) else None
  }

  /** The user name ends inside the payload. */
  predicate NameEnds(payload: bytes) {
    |payload| > FIXED_PART && FindNul(payload, FIXED_PART) < |payload|
  }

  /** Where a NUL-terminated field that starts at `pos` ends when it is announced; None when its NUL is missing. */
  function AnnouncedEnd(payload: bytes, flag: Capabilities, pos: nat): (end: Option<nat>)
    requires 4 <= |payload| && pos <= |payload|
    ensures end.Some? ==> pos <= end.value <= |payload|
  {
    if !Has(CapsOf(payload), flag) then Some(pos)
    else if FindNul(payload, pos) < |payload| then Some(FindNul(payload, pos) + 1) else None
  }

  /** Where the auth response ends. */
  function AuthPart(payload: bytes): (end: Option<nat>)
    requires NameEnds(payload)
    ensures end.Some? ==> end.value <= |payload|
  {
    AuthWithin(payload, CapsOf(payload), FindNul(payload, FIXED_PART) + 1)
  }

  /** Every announced field is there in full: user name, auth response, database and plugin name, with their NULs. */
  predicate Complete(payload: bytes) {
    && NameEnds(payload)
    && AuthPart(payload).Some?
    && var database := AnnouncedEnd(payload, CONNECT_WITH_DB, AuthPart(payload).value);
       database.Some? && AnnouncedEnd(payload, PLUGIN_AUTH, database.value).Some?
  }

  /** Some handshake response is encoded as this payload. */
  ghost predicate IsHandshake(payload: bytes) {
    exists r :: ResponseOK(r) && EncodeHandshake(r) == payload
  }

  lemma AuthWithinIsEncoded(payload: bytes, caps: Capabilities, pos: nat) returns (auth: bytes, form: Form)
    requires pos <= |payload| && AuthWithin(payload, caps, pos).Some?
    ensures AuthOK(caps, auth, form)
    ensures payload[pos..AuthWithin(payload, caps, pos).value] == EncodeAuth(caps, auth, form)
  {
    hide Has, ReadLenEncInt, EncodeLenEnc, Fits;
    var end := AuthWithin(payload, caps, pos).value;
    form := Direct;
    if Has(caps, LENENC_AUTH) {
      var r := ReadLenEncInt(payload[pos..]).value;
      form := ReadLenEncIsEncoded(payload[pos..]);
      auth := payload[pos+r.width..end];
      EncodeLenEncLength(payload[pos..], form);
      assert payload[pos..][..r.width] == payload[pos..pos+r.width];
      assert payload[pos..end] == payload[pos..pos+r.width] + auth;
    } else if Has(caps, SECURE_CONNECTION) {
      auth := payload[pos+1..end];
      assert payload[pos..end] == [payload[pos]] + auth;
    } else {
      auth := payload[pos..end-1];
      SliceIsNulFree(payload, pos);
      assert payload[pos..end] == auth + [0];
    }
  }

  lemma EncodeLenEncLength(b: bytes, form: Form)
    requires ReadLenEncInt(b).Some? && Fits(ReadLenEncInt(b).value.value, form)
    requires b == EncodeLenEnc(ReadLenEncInt(b).value.value, form) + b[ReadLenEncInt(b).value.width..]
    ensures b[..ReadLenEncInt(b).value.width] == EncodeLenEnc(ReadLenEncInt(b).value.value, form)
  {
    hide ReadLenEncInt, EncodeLenEnc, Fits;
    var r := ReadLenEncInt(b).value;
    var e := EncodeLenEnc(r.value, form);
    assert |b| == |e| + |b[r.width..]|;
    assert b[..r.width] == e;
  }

  lemma SliceIsNulFree(s: bytes, from: nat)
    requires from <= |s|
    ensures from <= FindNul(s, from) <= |s| && NulFree(s[from..FindNul(s, from)])
  {
    FindNulSkipsNone(s, from);
  }

  /** An announced field that ends is encoded as the bytes up to there. */
  lemma AnnouncedIsEncoded(payload: bytes, flag: Capabilities, pos: nat) returns (s: bytes)
    requires 4 <= |payload| && pos <= |payload| && AnnouncedEnd(payload, flag, pos).Some?
    ensures NulFree(s)
    ensures payload[pos..AnnouncedEnd(payload, flag, pos).value] == Announced(CapsOf(payload), flag, s)
  {
    hide Has, CapsOf, NulFree, FindNul;
    if Has(CapsOf(payload), flag) {
      SliceIsNulFree(payload, pos);
      NulIsThere(payload, pos);
      s := payload[pos..FindNul(payload, pos)];
    } else {
      NothingIsNulFree();
      s := [];
    }
  }

  /** A complete payload is the encoding of a handshake response. */
  lemma CompleteIsEncoded(payload: bytes) returns (r: Response)
    requires Complete(payload)
    ensures ResponseOK(r) && EncodeHandshake(r) == payload
  {
    hide Has, AuthWithin, EncodeAuth, PutLE32, LE32, AuthOK, FindNul, NulFree, ToCaps, AnnouncedEnd, Announced;
    var caps, nul := CapsOf(payload), FindNul(payload, FIXED_PART);
    var authEnd := AuthPart(payload).value;
    var dbEnd := AnnouncedEnd(payload, CONNECT_WITH_DB, authEnd).value;
    var end := AnnouncedEnd(payload, PLUGIN_AUTH, dbEnd).value;
    var auth, form := AuthWithinIsEncoded(payload, caps, nul + 1);
    var database := AnnouncedIsEncoded(payload, CONNECT_WITH_DB, authEnd);
    var pluginName := AnnouncedIsEncoded(payload, PLUGIN_AUTH, dbEnd);
    SliceIsNulFree(payload, FIXED_PART);
    r := Response(LE32(payload, 0), payload[4..32], payload[32..nul], auth, form, database, pluginName, payload[end..]);
    CapsAreWritten(payload);
    assert payload[0..32] == PutLE32(r.word) + r.middle;
    assert payload[32..nul+1] == r.username + [0] by { NulIsThere(payload, FIXED_PART); }
    PartsOf(payload, nul + 1, authEnd, dbEnd, end);
  }

  lemma PartsOf(payload: bytes, a: nat, b: nat, c: nat, d: nat)
    requires 32 <= a <= b <= c <= d <= |payload|
    ensures payload ==
            payload[0..32] + payload[32..a] + payload[a..b] + payload[b..c] + (payload[c..d] + payload[d..])
  {
  }

  lemma NothingIsNulFree()
    ensures NulFree([])
  {
  }

  lemma NulIsThere(s: bytes, from: nat)
    requires FindNul(s, from) < |s|
    ensures s[FindNul(s, from)] == 0
  {
  }

  lemma CapsAreWritten(payload: bytes)
    requires |payload| >= 4
    ensures PutLE32(LE32(payload, 0)) == payload[0..4]
  {
    hide LE, PutLE;
    PutOfLE(payload[0..4]);
    assert LE32(payload, 0) % TWO_32 == LE32(payload, 0);
  }

  lemma AnnouncedIsFound(payload: bytes, flag: Capabilities, pos: nat, s: bytes)
    requires 4 <= |payload| && NulFree(s) && At(payload, pos, Announced(CapsOf(payload), flag, s))
    ensures pos <= |payload|
    ensures AnnouncedEnd(payload, flag, pos) == Some(pos + |Announced(CapsOf(payload), flag, s)|)
  {
    hide At, Has, CapsOf, NulFree, FindNul;
    AtIsSlice(payload, pos, Announced(CapsOf(payload), flag, s));
    if Has(CapsOf(payload), flag) {
      AtSplit(payload, pos, s, [0]);
      NulAfter(payload, pos, s);
    }
  }

  /** And every encoding is complete. */
  lemma EncodedIsComplete(r: Response)
    requires ResponseOK(r)
    ensures Complete(EncodeHandshake(r))
  {
    hide At, Has, EncodeAuth, PutLE32, AuthOK, LE32, EncodeFields, AuthWithin, ToCaps, Announced, AnnouncedEnd;
    var payload, pluginName := EncodeHandshake(r), Announced(r.Caps(), PLUGIN_AUTH, r.pluginName);
    HandshakePieces(r, pluginName + r.trailing);
    LE32At(payload, 0, r.word);
    AtIsSlice(payload, 32 + |r.username|, [0]);
    NulAfter(payload, 32, r.username);
    AuthIsWithin(payload, r.Caps(), 33 + |r.username|, r.auth, r.form);
    var end := 33 + |r.username| + |EncodeAuth(r.Caps(), r.auth, r.form)|;
    AnnouncedIsFound(payload, CONNECT_WITH_DB, end, r.database);
    AtWhole(EncodeFields(r), pluginName + r.trailing);
    AtSplit(payload, |EncodeFields(r)|, pluginName, r.trailing);
    AnnouncedIsFound(payload, PLUGIN_AUTH, |EncodeFields(r)|, r.pluginName);
  }

  lemma AuthIsWithin(payload: bytes, caps: Capabilities, pos: nat, auth: bytes, form: Form)
    requires AuthOK(caps, auth, form) && pos <= |payload| && At(payload, pos, EncodeAuth(caps, auth, form))
    ensures AuthWithin(payload, caps, pos) == Some(pos + |EncodeAuth(caps, auth, form)|)
  {
    hide At, Has, Fits, EncodeLenEnc, ReadLenEncInt, FindNul, NulFree;
    AtIsSlice(payload, pos, EncodeAuth(caps, auth, form));
    if Has(caps, LENENC_AUTH) {
      AtSplit(payload, pos, EncodeLenEnc(|auth|, form), auth);
      LenEncAt(payload, pos, |auth|, form);
    } else if Has(caps, SECURE_CONNECTION) {
      AtSplit(payload, pos, [|auth| as byte], auth);
      AtFirst(payload, pos, [|auth| as byte]);
    } else {
      AtSplit(payload, pos, auth, [0]);
      AtIsSlice(payload, pos + |auth|, [0]);
      NulAfter(payload, pos, auth);
    }
  }

  /** A database is to follow, and the declared length of a length-encoded auth response puts the position behind it
      past the largest int. */
  predicate AuthOverflows(payload: bytes) {
    && NameEnds(payload)
    && Has(CapsOf(payload), LENENC_AUTH) && Has(CapsOf(payload), CONNECT_WITH_DB)
    && var pos := FindNul(payload, FIXED_PART) + 1;
       var r := ReadLenEncInt(payload[pos..]);
       r.Some? && TWO_63 <= pos + r.value.width + r.value.value < TWO_64
  }

  /** The length of the auth response is taken on trust: the parser panics exactly when it overflows. */
  lemma HandshakePanicsWhen(payload: bytes)
    requires |payload| < TWO_63
    ensures Handshake(payload) == Panics <==> AuthOverflows(payload)
  {
    hide ReadLenEncInt, LE32, Has, ToCaps;
    if NameEnds(payload) {
      LenEncBound(payload[FindNul(payload, FIXED_PART)+1..]);
    }
  }

  /** The bytes that say how long the auth response is are there. */
  predicate AuthAnnounced(payload: bytes) {
    && NameEnds(payload)
    && var pos := FindNul(payload, FIXED_PART) + 1;
       if Has(CapsOf(payload), LENENC_AUTH) then ReadLenEncInt(payload[pos..]).Some?
       else Has(CapsOf(payload), SECURE_CONNECTION) ==> pos < |payload|
  }

  /** The parser reports success for a payload of 32 bytes, which is an SSL request, and whenever the user name ends
      and the length of the auth response can be read and does not overflow. */
  lemma HandshakeAcceptsWhen(payload: bytes)
    requires |payload| < TWO_63
    ensures Accepted(payload) <==>
            |payload| == FIXED_PART || (AuthAnnounced(payload) && !AuthOverflows(payload))
  {
    hide ReadLenEncInt, LE32, Has, ToCaps, AuthOverflows;
    HandshakePanicsWhen(payload);
  }

  /** What is returned, with or without success.  An SSL request returns its capability word, which tells the caller
      that it is one. */
  lemma HandshakeFields(payload: bytes)
    requires |payload| < TWO_63 && Handshake(payload).Returns?
    ensures
      var info := Handshake(payload).info;
      && (|payload| < 32 ==> info == HandshakeInfo(0, [], []))
      && (|payload| == 32 ==> info == HandshakeInfo(CapsOf(payload), [], []))
      && (|payload| > 32 && FindNul(payload, 32) >= |payload| ==> info == HandshakeInfo(CapsOf(payload), [], []))
      && (NameEnds(payload) ==>
            && info.caps == CapsOf(payload) && info.username == payload[32..FindNul(payload, 32)]
            && (AuthPart(payload).Some? && Has(CapsOf(payload), CONNECT_WITH_DB) ==>
                  var at := AuthPart(payload).value;
                  info.database == payload[at..FindNul(payload, at)])
            && (info.database != [] ==> Has(CapsOf(payload), CONNECT_WITH_DB)))
  {
    hide ReadLenEncInt, LE32, Has, ToCaps;
    if NameEnds(payload) && AuthPart(payload).Some? {
      var at := AuthPart(payload).value;
      assert payload[at..FindNul(payload, at)] == [] || at < |payload|;
    }
  }

  /** The capability word byte by byte. */
  lemma CapsBytes(payload: bytes)
    requires |payload| >= 4
    ensures
      var word := payload[0] as int + 0x100 * payload[1] as int + 0x1_0000 * payload[2] as int
                  + 0x100_0000 * payload[3] as int;
      word < TWO_32 && CapsOf(payload) == ToCaps(word)
  {
    hide ToCaps;
    LE32Bytes(payload, 0);
  }

  predicate Accepted(payload: bytes)
    requires |payload| < TWO_63
  {
    Handshake(payload).Returns? && Handshake(payload).ok
  }

  /** The comment promises failure on truncated or malformed input.  Accepted although it encodes no handshake
      response is, besides the SSL request, exactly what announces an auth response that is not all there, a
      database without its NUL, or a plugin name without its NUL. */
  lemma MalformedIsAcceptedWhen(payload: bytes)
    requires |payload| < TWO_63
    ensures IsHandshake(payload) ==> Accepted(payload)
    ensures IsHandshake(payload) <==> Complete(payload)
    ensures Accepted(payload) && !IsHandshake(payload) <==>
            || |payload| == FIXED_PART
            || (&& AuthAnnounced(payload) && !AuthOverflows(payload)
                && (|| AuthPart(payload).None?
                    || var database := AnnouncedEnd(payload, CONNECT_WITH_DB, AuthPart(payload).value);
                       database.None? || AnnouncedEnd(payload, PLUGIN_AUTH, database.value).None?))
  {
    hide ReadLenEncInt, LE32, Has, ToCaps, AuthOverflows, EncodeFields, AuthOK, NulFree, AuthWithin, Handshake,
         AuthAnnounced, AnnouncedEnd, Announced;
    HandshakeAcceptsWhen(payload);
    if Complete(payload) {
      var r := CompleteIsEncoded(payload);
      HandshakeIsRead(r, Announced(r.Caps(), PLUGIN_AUTH, r.pluginName) + r.trailing);
    }
    if IsHandshake(payload) {
      var r :| ResponseOK(r) && EncodeHandshake(r) == payload;
      EncodedIsComplete(r);
    }
    if AuthAnnounced(payload) { AnnouncedNameEnds(payload); }
  }

  lemma AnnouncedNameEnds(payload: bytes)
    requires AuthAnnounced(payload)
    ensures NameEnds(payload)
  {
  }

  /** The payload with this capability word, an empty user name and the given bytes behind it. */
  function Anonymous(word: Word, middle: bytes, rest: bytes): bytes { PutLE32(word) + middle + [0] + rest }

  lemma AnonymousIsRead(word: Word, middle: bytes, rest: bytes)
    requires |middle| == 28
    ensures
      var payload := Anonymous(word, middle, rest);
      && |payload| == 33 + |rest|
      && CapsOf(payload) == ToCaps(word) && FindNul(payload, FIXED_PART) == 32 && payload[33..] == rest
  {
    hide PutLE32, LE32, ToCaps;
    var payload := Anonymous(word, middle, rest);
    AtWhole(payload, []);
    assert payload + [] == payload;
    assert payload == PutLE32(word) + (middle + [0] + rest);
    AtSplit(payload, 0, PutLE32(word), middle + [0] + rest);
    LE32At(payload, 0, word);
    assert payload[32] == 0;
  }

  /** A one-byte length larger than what follows is accepted: 34 bytes that announce 200 more, say. */
  lemma TruncatedAuthIsAccepted(word: Word, middle: bytes, length: byte, auth: bytes)
    requires |middle| == 28 && |auth| < length as int
    requires Has(ToCaps(word), SECURE_CONNECTION) && !Has(ToCaps(word), LENENC_AUTH)
    ensures
      var payload := Anonymous(word, middle, [length] + auth);
      && !IsHandshake(payload)
      && Handshake(payload) == Returns(HandshakeInfo(ToCaps(word), [], []), true)
  {
    hide Has, ToCaps, Anonymous, ResponseOK, EncodeHandshake;
    var payload := Anonymous(word, middle, [length] + auth);
    AnonymousIsRead(word, middle, [length] + auth);
    assert payload[33] == payload[33..][0] == length;
    assert AuthWithin(payload, ToCaps(word), 33).None?;
    MalformedIsAcceptedWhen(payload);
  }

  /** A plugin name that is announced and cut off, or missing altogether, is accepted as well. */
  lemma TruncatedPluginNameIsAccepted(word: Word, middle: bytes, name: bytes)
    requires |middle| == 28 && NulFree(name) && 34 + |name| < TWO_63
    requires Has(ToCaps(word), PLUGIN_AUTH) && Has(ToCaps(word), SECURE_CONNECTION)
    requires !Has(ToCaps(word), LENENC_AUTH) && !Has(ToCaps(word), CONNECT_WITH_DB)
    ensures
      var payload := Anonymous(word, middle, [0] + name);
      && !IsHandshake(payload)
      && Handshake(payload) == Returns(HandshakeInfo(ToCaps(word), [], []), true)
  {
    hide Has, ToCaps, Anonymous, ResponseOK, EncodeHandshake;
    var payload := Anonymous(word, middle, [0] + name);
    AnonymousIsRead(word, middle, [0] + name);
    assert forall i | 0 <= i < |name| :: payload[34+i] == payload[33..][1+i] == name[i];
    assert payload[33] == payload[33..][0] == 0;
    FindNulIsFirst(payload, 34, |payload|);
    assert AuthPart(payload) == Some(34);
    MalformedIsAcceptedWhen(payload);
  }

  /** An eight-byte length decides by its size alone: past the payload it is accepted, from 2^63 - 42 on it makes the
      parser panic, and from 2^64 - 42 on the database is read from the fixed part of the payload. */
  lemma DeclaredLengthIsTrusted(word: Word, middle: bytes, length: nat)
    requires |middle| == 28 && Fits(length, Eight)
    requires Has(ToCaps(word), LENENC_AUTH) && Has(ToCaps(word), CONNECT_WITH_DB)
    ensures
      var payload := Anonymous(word, middle, EncodeLenEnc(length, Eight));
      && |payload| == 42
      && !IsHandshake(payload)
      && Handshake(payload) ==
           if length < TWO_63 - 42 then Returns(HandshakeInfo(ToCaps(word), [], []), true)
           else if length < TWO_64 - 42 then Panics
           else var at := length + 42 - TWO_64;
                Returns(HandshakeInfo(ToCaps(word), [], payload[at..FindNul(payload, at)]), true)
  {
    hide Has, ToCaps, Anonymous, ResponseOK, EncodeHandshake, ReadLenEncInt, EncodeLenEnc;
    Pow256Of8();
    var e := EncodeLenEnc(length, Eight);
    var payload := Anonymous(word, middle, e);
    AnonymousIsRead(word, middle, e);
    EightTakesNine(length);
    assert e + [] == e;
    LenEncIsRead(length, Eight, []);
    assert AuthWithin(payload, ToCaps(word), 33) == if length == 0 then Some(42) else None;
    MalformedIsAcceptedWhen(payload);
  }

  /** There are capability words for the inputs of the three lemmas above. */
  lemma InputsExist() returns (auth: Word, name: Word, length: Word)
    ensures Has(ToCaps(auth), SECURE_CONNECTION) && !Has(ToCaps(auth), LENENC_AUTH)
    ensures Has(ToCaps(name), PLUGIN_AUTH) && Has(ToCaps(name), SECURE_CONNECTION)
    ensures !Has(ToCaps(name), LENENC_AUTH) && !Has(ToCaps(name), CONNECT_WITH_DB)
    ensures Has(ToCaps(length), LENENC_AUTH) && Has(ToCaps(length), CONNECT_WITH_DB)
  {
    hide ToCaps;
    WordOfCaps(SECURE_CONNECTION);
    WordOfCaps(PLUGIN_AUTH | SECURE_CONNECTION);
    WordOfCaps(LENENC_AUTH | CONNECT_WITH_DB);
    auth, name := SECURE_CONNECTION as int, (PLUGIN_AUTH | SECURE_CONNECTION) as int;
    length := (LENENC_AUTH | CONNECT_WITH_DB) as int;
  }

  lemma EightTakesNine(value: nat)
    requires Fits(value, Eight)
    ensures |EncodeLenEnc(value, Eight)| == 9
  {
  }

  // ---- the error packet ----

  function State5(s: bytes): (r: bytes)
    ensures |r| == 5
  {
    if |s| >= 5 then s[..5] else s + seq(5 - |s|, _ => 0)
  }

  function ErrorPayload(code: nat, sqlState: bytes, message: bytes): bytes
    requires code < 0x1_0000
  {
    [0xFF] + [(code % 0x100) as byte, (code / 0x100) as byte] + [0x23] + State5(sqlState) + message
  }

  /** The five-byte state field: a prefix of the given state, padded with zeros. */
  method PaddedState(sqlState: bytes) returns (state: array<byte>)
    ensures fresh(state) && state[..] == State5(sqlState)
  {
    state := new byte[5](_ => 0);
    forall i | 0 <= i < 5 && i < |sqlState| { state[i] := sqlState[i]; }
  }

  method BuildErrorPacket(seqId: byte, code: nat, sqlState: bytes, message: bytes) returns (pkt: array<byte>)
    requires code < 0x1_0000
    ensures fresh(pkt)
    ensures
      var payload := ErrorPayload(code, sqlState, message);
      pkt[..] == PutLE(|payload|, 3) + [seqId] + payload
  {
    hide PutLE, State5;
    var payload: bytes := [];
    payload := payload + [0xFF];
    payload := payload + [(code % 0x100) as byte, (code / 0x100) as byte];
    payload := payload + [0x23];
    var state := PaddedState(sqlState);
    payload := payload + state[..];
    payload := payload + message;
    assert payload == ErrorPayload(code, sqlState, message);
    var pktLen := |payload|;
    pkt := new byte[4 + pktLen];
    pkt[0] := (pktLen % 0x100) as byte;
    pkt[1] := (pktLen / 0x100 % 0x100) as byte;
    pkt[2] := (pktLen / 0x1_0000 % 0x100) as byte;
    pkt[3] := seqId;
    forall i | 0 <= i < pktLen { pkt[4 + i] := payload[i]; }
    LengthBytes(pktLen);
    assert pkt[..4] == PutLE(pktLen, 3) + [seqId];
    assert pkt[4..] == payload;
    assert pkt[..] == pkt[..4] + pkt[4..];
  }

  lemma LengthBytes(n: nat)
    ensures PutLE(n, 3) == [(n % 0x100) as byte, (n / 0x100 % 0x100) as byte, (n / 0x1_0000 % 0x100) as byte]
  {
    assert n / 0x100 / 0x100 == n / 0x1_0000;
    assert PutLE(n / 0x1_0000, 1) == [(n / 0x1_0000 % 0x100) as byte];
  }

  /** The error packet is read back as one packet with this sequence id and payload exactly when the payload
      is shorter than the largest fragment: the builder does not split. */
  lemma ErrorPacketIsRead(seqId: byte, code: nat, sqlState: bytes, message: bytes, rest: bytes, end: IOError)
    requires code < 0x1_0000
    ensures
      var payload := ErrorPayload(code, sqlState, message);
      var pkt := PutLE(|payload|, 3) + [seqId] + payload;
      FirstPacket(pkt + rest, end) == (Success(Packet(seqId, payload, pkt)), rest)
      <==> 9 + |message| < MAX_PAYLOAD
  {
    hide FirstPacket, PutLE;
    var payload := ErrorPayload(code, sqlState, message);
    assert |payload| == 9 + |message|;
    var pkt := PutLE(|payload|, 3) + [seqId] + payload;
    if |payload| < MAX_PAYLOAD {
      assert Fragmented(payload, [seqId]) == pkt;
      FragmentedIsRead(payload, [seqId], rest, end);
    } else if FirstPacket(pkt + rest, end) == (Success(Packet(seqId, payload, pkt)), rest) {
      ReadPacketIsFragmented(pkt + rest, end);
    }
  }

  /** The fields of an error payload stand where the protocol puts them. */
  lemma ErrorFields(code: nat, sqlState: bytes, message: bytes)
    requires code < 0x1_0000
    ensures
      var p := ErrorPayload(code, sqlState, message);
      && |p| == 9 + |message| && p[0] == 0xFF && p[3] == 0x23
      && LE(p[1..3]) == code
      && p[9..] == message
      && (forall i | 0 <= i < 5 :: p[4+i] == if i < |sqlState| then sqlState[i] else 0)
  {
    var p := ErrorPayload(code, sqlState, message);
    assert p[1..3] == [(code % 0x100) as byte, (code / 0x100) as byte];
    assert p[1..3][1..] == [(code / 0x100) as byte];
    assert LE([(code / 0x100) as byte]) == code / 0x100;
  }
}
