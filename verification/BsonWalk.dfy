/**
 protocol/mongodb/bson.go: the flat byte walker and the raw scans, and their
 correctness against the document tree of module Bson.
 */
module BsonWalk {
  import opened Bytes
  import opened Bson

  // ---- what the walker does on arbitrary bytes ----

  /** Bytes to advance over a value of type `typ` at `pos`; -1 when it cannot be skipped. */
  function SkipLength(data: bytes, pos: nat, typ: byte): (n: int)
    ensures -1 <= n
  {
    if FixedWidth(typ).Some? then FixedWidth(typ).value
    else if typ == REGEX then FindNul(data, FindNul(data, pos) + 1) + 1 - pos
    else if !KnownCode(typ) || pos + 4 > |data| then -1
    else if typ == STRING then 4 + LE32(data, pos)
    else if typ == BINARY then 5 + LE32(data, pos)
    else LE32(data, pos)
  }

  /** The advance for every type code, as the standard gives the widths. */
  lemma SkipLengths(data: bytes, pos: nat)
    ensures SkipLength(data, pos, 0x01) == SkipLength(data, pos, 0x09) == 8
    ensures SkipLength(data, pos, 0x11) == SkipLength(data, pos, 0x12) == 8
    ensures SkipLength(data, pos, 0x07) == 12 && SkipLength(data, pos, 0x08) == 1
    ensures SkipLength(data, pos, 0x10) == 4 && SkipLength(data, pos, 0x13) == 16
    ensures SkipLength(data, pos, 0x0A) == SkipLength(data, pos, 0x7F) == SkipLength(data, pos, 0xFF) == 0
    ensures pos + 4 > |data| ==> forall typ: byte | typ in {0x02, 0x03, 0x04, 0x05} :: SkipLength(data, pos, typ) == -1
    ensures pos + 4 <= |data| ==>
              && SkipLength(data, pos, 0x02) == 4 + LE32(data, pos)
              && SkipLength(data, pos, 0x03) == SkipLength(data, pos, 0x04) == LE32(data, pos)
              && SkipLength(data, pos, 0x05) == 5 + LE32(data, pos)
    ensures forall typ: byte |
              typ == 0 || typ == 0x06 || 0x0C <= typ <= 0x0F || (0x14 <= typ < 0xFF && typ != 0x7F) ::
              SkipLength(data, pos, typ) == -1
  {
    hide LE32, FindNul;
  }

  /** The string value at `pos`, when its length prefix is positive and inside the data. */
  function TextAt(data: bytes, pos: nat): Option<bytes> {
    if pos + 4 <= |data| && 0 < LE32(data, pos) && pos + 4 + LE32(data, pos) <= |data|
    then Some(data[pos+4..pos+4+LE32(data, pos)-1])
    else None
  }

  /** The declared length when it is usable: at least 5 and no longer than the data. */
  function DeclaredLength(data: bytes): Option<nat> {
    if 5 <= |data| && 5 <= LE32(data, 0) <= |data| then Some(LE32(data, 0)) else None
  }

  /** The string pairs met by the walk from `pos`, elements starting before `limit`. */
  function Walk(data: bytes, pos: nat, limit: nat): seq<(bytes, bytes)>
    requires limit <= |data|
    decreases |data| - pos
  {
    if pos >= limit || data[pos] == 0 then []
    else
      var typ, keyEnd := data[pos], FindNul(data, pos + 1);
      if keyEnd >= |data| then []
      else
        var advance := SkipLength(data, keyEnd + 1, typ);
        if advance < 0 then []
        else
          var rest := Walk(data, keyEnd + 1 + advance, limit);
          var text := TextAt(data, keyEnd + 1);
          if typ == STRING && text.Some? then [(data[pos+1..keyEnd], text.value)] + rest else rest
  }

  /** All string pairs ParseTopLevel records for `data`, in order. */
  function Recorded(data: bytes): seq<(bytes, bytes)> {
    match DeclaredLength(data)
    case None => []
    case Some(n) => Walk(data, 4, n - 1)
  }

  /** The first key and its string value; empty where there is none. */
  function First(data: bytes): (bytes, bytes) {
    if DeclaredLength(data).None? || data[4] == 0 || FindNul(data, 5) >= |data| then ([], [])
    else
      var keyEnd := FindNul(data, 5);
      var text := TextAt(data, keyEnd + 1);
      (data[5..keyEnd], if data[4] == STRING && text.Some? then text.value else [])
  }

  /** Data that is too short, or whose declared length is below 5 or beyond its end, yields nothing; other data yields
      the key behind its first type code, up to the NUL. */
  lemma UnusableYieldsNothing(data: bytes)
    ensures |data| < 5 || LE32(data, 0) < 5 || LE32(data, 0) > |data| ==>
              Recorded(data) == [] && First(data) == ([], [])
    ensures |data| >= 5 && 5 <= LE32(data, 0) <= |data| && data[4] != 0 && FindNul(data, 5) < |data| ==>
              First(data).0 == data[5..FindNul(data, 5)]
    ensures |data| >= 5 && (data[4] == 0 || FindNul(data, 5) >= |data|) ==> First(data) == ([], [])
  {
  }

  /** A string whose length is at least 1 and ends inside the data is read, without its last byte, whatever that is. */
  lemma TextAtEndIsRead(front: bytes, text: bytes, last: byte, tail: bytes)
    requires |text| + 1 < TWO_32
    ensures TextAt(front + PutLE32(|text| + 1) + (text + [last]) + tail, |front|) == Some(text)
    ensures TextAt(front + PutLE32(0) + tail, |front|) == None
    ensures TextAt(front + PutLE32(|text| + 1) + text, |front|) == None
  {
    hide At, PutLE32, LE32;
    var s := front + PutLE32(|text| + 1) + (text + [last]) + tail;
    assert s == front + PutLE32(|text| + 1) + ((text + [last]) + tail);
    AtFront(front, PutLE32(|text| + 1), (text + [last]) + tail);
    LE32At(s, |front|, |text| + 1);
    assert s[|front|+4..|front|+4+|text|] == text;
    AtFront(front, PutLE32(0), tail);
    LE32At(front + PutLE32(0) + tail, |front|, 0);
    AtFront(front, PutLE32(|text| + 1), text);
    LE32At(front + PutLE32(|text| + 1) + text, |front|, |text| + 1);
  }

  lemma AtFront(a: bytes, b: bytes, c: bytes)
    ensures At(a + b + c, |a|, b)
  {
  }

  lemma WalkCases(data: bytes, pos: nat, limit: nat)
    requires limit <= |data| && Walk(data, pos, limit) != []
    ensures pos < limit && FindNul(data, pos + 1) < |data|
    ensures
      var end := FindNul(data, pos + 1);
      var next := end + 1 + SkipLength(data, end + 1, data[pos]);
      && next > pos
      && Walk(data, pos, limit) ==
           (if data[pos] == STRING && TextAt(data, end + 1).Some? then [(data[pos+1..end], TextAt(data, end + 1).value)]
            else []) + Walk(data, next, limit)
  {
    hide SkipLength, TextAt, LE32, FindNul;
  }

  /** On arbitrary bytes: every pair recorded is a string element that stands in the data, type, key and text. */
  lemma {:induction false} RecordedIsThere(data: bytes, pos: nat, limit: nat, i: nat) returns (at: nat, end: nat)
    requires limit <= |data| && i < |Walk(data, pos, limit)|
    ensures pos <= at < end < |data| && at < limit && data[at] == 0x02 && end == FindNul(data, at + 1)
    ensures Walk(data, pos, limit)[i].0 == data[at+1..end] && Some(Walk(data, pos, limit)[i].1) == TextAt(data, end + 1)
    decreases |data| - pos
  {
    hide SkipLength, TextAt, LE32, FindNul, Walk;
    WalkCases(data, pos, limit);
    at, end := pos, FindNul(data, pos + 1);
    var next := end + 1 + SkipLength(data, end + 1, data[pos]);
    if data[pos] == STRING && TextAt(data, end + 1).Some? {
      if i > 0 { at, end := RecordedIsThere(data, next, limit, i - 1); }
    } else {
      at, end := RecordedIsThere(data, next, limit, i);
    }
  }

  /** And its type byte stands in front of the last byte of the declared length. */
  lemma RecordedIsInside(data: bytes, i: nat) returns (at: nat, end: nat)
    requires i < |Recorded(data)|
    ensures 4 <= at < end < |data| && at < LE32(data, 0) - 1 && data[at] == 0x02 && end == FindNul(data, at + 1)
    ensures Recorded(data)[i].0 == data[at+1..end] && Some(Recorded(data)[i].1) == TextAt(data, end + 1)
  {
    hide Walk, TextAt, LE32;
    at, end := RecordedIsThere(data, 4, DeclaredLength(data).value - 1, i);
  }

  lemma WalkStep(data: bytes, pos: nat, limit: nat, m: map<bytes, bytes>)
    requires pos < limit <= |data| && data[pos] != 0
    ensures
      var keyEnd := FindNul(data, pos + 1);
      keyEnd < |data| ==>
        var advance := SkipLength(data, keyEnd + 1, data[pos]);
        var text := TextAt(data, keyEnd + 1);
        advance >= 0 ==>
          Assign(m, Walk(data, pos, limit)) ==
          Assign(if data[pos] == STRING && text.Some? then m[data[pos+1..keyEnd] := text.value] else m,
                 Walk(data, keyEnd + 1 + advance, limit))
  {
    hide SkipLength, TextAt, FindNul;
    var keyEnd := FindNul(data, pos + 1);
    if keyEnd < |data| {
      var advance := SkipLength(data, keyEnd + 1, data[pos]);
      if advance >= 0 {
        var rest := Walk(data, keyEnd + 1 + advance, limit);
        var text := TextAt(data, keyEnd + 1);
        if data[pos] == STRING && text.Some? {
          var pair := (data[pos+1..keyEnd], text.value);
          assert Walk(data, pos, limit) == [pair] + rest;
          assert ([pair] + rest)[1..] == rest;
        }
      }
    }
  }

  // ---- the program ----

  method SkipBSONValue(data: bytes, pos: nat, typ: byte) returns (n: int)
    requires pos <= |data|
    ensures n == SkipLength(data, pos, typ)
  {
    if typ == 0x01 {
      return 8;
    } else if typ == STRING {
      if pos + 4 > |data| { return -1; }
      return 4 + LE32(data, pos);
    } else if typ == DOCUMENT || typ == ARRAY {
      if pos + 4 > |data| { return -1; }
      return LE32(data, pos);
    } else if typ == BINARY {
      if pos + 4 > |data| { return -1; }
      return 4 + 1 + LE32(data, pos);
    } else if typ == 0x07 {
      return 12;
    } else if typ == 0x08 {
      return 1;
    } else if typ == 0x09 || typ == 0x12 || typ == 0x11 {
      return 8;
    } else if typ == 0x0A || typ == 0xFF || typ == 0x7F {
      return 0;
    } else if typ == 0x10 {
      return 4;
    } else if typ == 0x13 {
      return 16;
    } else if typ == REGEX {
      var p := ScanToNul(data, pos);
      p := p + 1;
      p := ScanToNul(data, p);
      p := p + 1;
      return p - pos;
    } else {
      return -1;
    }
  }

  /** The bounds-checked string read that ParseTopLevel and FirstKeyValue both make. */
  method StringValue(data: bytes, pos: nat, typ: byte) returns (val: Option<bytes>)
    ensures val == if typ == STRING then TextAt(data, pos) else None
  {
    val := None;
    if typ == STRING && pos + 4 <= |data| {
      var strLen := LE32(data, pos);
      var end := pos + 4 + strLen;
      if end <= |data| && strLen > 0 {
        val := Some(data[pos+4..end-1]);
      }
    }
  }

  method ParseTopLevel(data: bytes) returns (result: map<bytes, bytes>)
    ensures result == LastWins(Recorded(data))
  {
    hide SkipLength, TextAt, FindNul, LE32;
    result := map[];
    if |data| < 5 { return; }
    var docLen := LE32(data, 0);
    if docLen > |data| || docLen < 5 { return; }
    var pos := 4;
    while pos < docLen - 1 && pos < |data|
      invariant 4 <= pos
      invariant LastWins(Recorded(data)) == Assign(result, Walk(data, pos, docLen - 1))
      decreases |data| - pos
    {
      var typ := data[pos];
      if typ != 0 { WalkStep(data, pos, docLen - 1, result); }
      pos := pos + 1;
      if typ == 0 { break; }
      var keyEnd := ScanToNul(data, pos);
      if keyEnd >= |data| { break; }
      var key := data[pos..keyEnd];
      pos := keyEnd + 1;
      var advance := SkipBSONValue(data, pos, typ);
      if advance < 0 { break; }
      var val := StringValue(data, pos, typ);
      if val.Some? {
        result := result[key := val.value];
      }
      pos := pos + advance;
    }
  }

  method FirstKeyValue(data: bytes) returns (key: bytes, val: bytes)
    ensures (key, val) == First(data)
  {
    key, val := [], [];
    if |data| < 5 { return; }
    var docLen := LE32(data, 0);
    if docLen > |data| || docLen < 5 { return; }
    var pos := 4;
    var typ := data[pos];
    pos := pos + 1;
    if typ == 0 { return; }
    var keyEnd := ScanToNul(data, pos);
    if keyEnd >= |data| { return; }
    key := data[pos..keyEnd];
    pos := keyEnd + 1;
    var text := StringValue(data, pos, typ);
    if text.Some? {
      val := text.value;
    }
  }

  // ---- the walker against the tree ----

  /** The length prefix of a string, document, array or binary value. */
  function LengthPrefix(v: Value): nat
    requires v.Text? || v.Embedded? || v.Binary?
  {
    match v
    case Text(s) => |s| + 1
    case Embedded(_, d) => |Encode(d)|
    case Binary(_, bs) => |bs|
  }

  lemma LengthPrefixIsRead(data: bytes, pos: nat, v: Value)
    requires v.Text? || v.Embedded? || v.Binary?
    requires ValueOK(v) && At(data, pos, Payload(v))
    ensures pos + 4 <= |data| && LE32(data, pos) == LengthPrefix(v)
  {
    match v
    case Text(s) => AtSplit3(data, pos, PutLE32(|s| + 1), s, [0]); LE32At(data, pos, |s| + 1);
    case Embedded(_, d) => EncodedLengthIsRead(data, pos, d);
    case Binary(subtype, bs) => AtSplit3(data, pos, PutLE32(|bs|), [subtype], bs); LE32At(data, pos, |bs|);
  }

  lemma RegexEndIsFound(data: bytes, pos: nat, pattern: bytes, options: bytes)
    requires NulFree(pattern) && NulFree(options) && At(data, pos, pattern + [0] + options + [0])
    ensures FindNul(data, FindNul(data, pos) + 1) == pos + |pattern| + 1 + |options|
  {
    AtSplit4(data, pos, pattern, [0], options, [0]);
    NulAfter(data, pos, pattern);
    NulAfter(data, pos + |pattern| + 1, options);
  }

  /** Skipping a value of a known type advances by exactly its encoded length, nested documents included. */
  lemma SkipIsPayloadLength(data: bytes, pos: nat, v: Value)
    requires ValueOK(v) && !v.Unsupported? && At(data, pos, Payload(v))
    ensures SkipLength(data, pos, TypeCode(v)) == |Payload(v)|
  {
    hide At, LE32;
    match v
    case Fixed(_, _) =>
    case Regex(pattern, options) => RegexEndIsFound(data, pos, pattern, options);
    case _ => LengthPrefixIsRead(data, pos, v);
  }

  lemma TypeCodeIs(data: bytes, pos: nat, v: Value)
    requires ValueOK(v)
    ensures TypeCode(v) != 0
    ensures TypeCode(v) == STRING <==> v.Text?
    ensures v.Unsupported? ==> SkipLength(data, pos, TypeCode(v)) == -1
  {
  }

  lemma EncodedLengthIsRead(data: bytes, pos: nat, d: Document)
    requires WellFormed(d) && At(data, pos, Encode(d))
    ensures LE32(data, pos) == |Encode(d)|
    ensures |Encode(d)| == |Elements(d)| + 5
    ensures At(data, pos + 4, Elements(d)) && At(data, pos + 4 + |Elements(d)|, [0])
  {
    hide At, Elements, LE32, PutLE32, ElementsOK;
    var n := |Elements(d)| + 5;
    AtSplit3(data, pos, PutLE32(n), Elements(d), [0]);
    LE32At(data, pos, n);
  }

  lemma TextIsRead(data: bytes, pos: nat, v: Value)
    requires v.Text? && ValueOK(v) && At(data, pos, Payload(v))
    ensures TextAt(data, pos) == Some(v.text)
  {
    AtSplit3(data, pos, PutLE32(|v.text| + 1), v.text, [0]);
    LE32At(data, pos, |v.text| + 1);
  }

  /** An element header: its type byte, its key, and the NUL that ends the key. */
  lemma HeaderIsRead(data: bytes, pos: nat, k: bytes, v: Value)
    requires NulFree(k) && At(data, pos, Header(k, v))
    ensures |Header(k, v)| == |k| + 2
    ensures data[pos] == TypeCode(v)
    ensures FindNul(data, pos + 1) == pos + 1 + |k| < |data|
    ensures data[pos+1..pos+1+|k|] == k
  {
    AtSplit3(data, pos, [TypeCode(v)], k, [0]);
    assert data[pos..pos+1][0] == data[pos];
    NulAfter(data, pos + 1, k);
  }

  lemma {:induction false} WalkOfElements(data: bytes, pos: nat, d: Document)
    requires ElementsOK(d) && At(data, pos, Elements(d)) && pos + |Elements(d)| < |data|
    ensures Walk(data, pos, pos + |Elements(d)|) == StringFields(d)
    decreases d
  {
    hide SkipLength, TypeCode, TextAt, At, LE32, ValueOK, Payload, Header, FindNul;
    if d == End {
    } else {
      var k, v, next := d.key, d.value, d.next;
      AtSplit3(data, pos, Header(k, v), Payload(v), Elements(next));
      HeaderIsRead(data, pos, k, v);
      var start := pos + 2 + |k|;
      TypeCodeIs(data, start, v);
      if !v.Unsupported? {
        SkipIsPayloadLength(data, start, v);
        if v.Text? { TextIsRead(data, start, v); }
        WalkOfElements(data, start + |Payload(v)|, next);
      }
    }
  }

  /** The pairs ParseTopLevel records for an encoded document are its string fields
      before the first element of an unknown type, whatever follows the document. */
  lemma RecordedOfEncoded(d: Document, tail: bytes)
    requires WellFormed(d)
    ensures Recorded(Encode(d) + tail) == StringFields(d)
  {
    hide SkipLength, At, LE32, Walk, Encode, Elements, StringFields;
    AtWhole(Encode(d), tail);
    assert ElementsOK(d);
    AtIsSlice(Encode(d) + tail, 0, Encode(d));
    EncodedLengthIsRead(Encode(d) + tail, 0, d);
    WalkOfElements(Encode(d) + tail, 4, d);
  }

  /** The comment on ParseTopLevel has it that elements that are no strings are skipped.  All top-level strings are
      recorded exactly when none stands behind an element of unknown type; the map of all of them is the one
      returned, updated with those that are lost. */
  lemma AllStringsAreRecordedWhen(d: Document, tail: bytes)
    requires WellFormed(d)
    ensures Recorded(Encode(d) + tail) == Strings(d) <==> BehindUnknown(d) == []
    ensures LastWins(Strings(d)) == Assign(LastWins(Recorded(Encode(d) + tail)), BehindUnknown(d))
  {
    hide Recorded, Encode, WellFormed, StringFields, BehindUnknown, Strings;
    RecordedOfEncoded(d, tail);
    StringsSplit(d);
    AssignOfConcat(map[], StringFields(d), BehindUnknown(d));
  }

  lemma EndIsRead(data: bytes)
    requires At(data, 4, [0])
    ensures data[4] == 0
  {
    assert data[4] == data[4..5][0];
  }

  lemma FirstElementIsRead(data: bytes, d: Document)
    requires DeclaredLength(data).Some? && d.Element? && ElementsOK(d) && At(data, 4, Elements(d))
    ensures First(data) == (d.key, if d.value.Text? then d.value.text else [])
  {
    hide SkipLength, TypeCode, TextAt, At, LE32, ValueOK, Payload, Header, FindNul, DeclaredLength;
    AtSplit3(data, 4, Header(d.key, d.value), Payload(d.value), Elements(d.next));
    HeaderIsRead(data, 4, d.key, d.value);
    TypeCodeIs(data, 6 + |d.key|, d.value);
    if d.value.Text? { TextIsRead(data, 6 + |d.key|, d.value); }
  }

  /** FirstKeyValue of an encoded document: its first key, and that element's value when it is a string. */
  lemma FirstOfEncoded(d: Document, tail: bytes)
    requires WellFormed(d)
    ensures First(Encode(d) + tail) ==
            if d == End then ([], [])
            else (d.key, if d.value.Text? then d.value.text else [])
  {
    hide At, LE32, Elements, Encode;
    var data := Encode(d) + tail;
    AtWhole(Encode(d), tail);
    AtIsSlice(data, 0, Encode(d));
    EncodedLengthIsRead(data, 0, d);
    if d == End {
      NoElements();
      EndIsRead(data);
    } else {
      FirstElementIsRead(data, d);
    }
  }

  lemma NoElements()
    ensures Elements(End) == []
  {
  }

  /** On arbitrary bytes: a non-empty value found by FirstKeyValue is the first pair ParseTopLevel
      records, provided the declared length leaves room for an element. */
  lemma FirstIsFirstRecorded(data: bytes)
    requires DeclaredLength(data).Some? && DeclaredLength(data).value >= 6
    requires First(data).1 != []
    ensures Recorded(data) != [] && Recorded(data)[0] == First(data)
  {
  }

  // ---- the raw scans against the tree ----

  /** A key at any depth is a substring of the encoding. */
  lemma {:induction false} KeyIsSubstring(data: bytes, pos: nat, d: Document, key: bytes)
    requires At(data, pos, Elements(d)) && HasKey(d, key)
    ensures Contains(data, key)
    decreases d
  {
    hide At, Contains, PutLE32;
    var k, v, next := d.key, d.value, d.next;
    AtSplit3(data, pos, Header(k, v), Payload(v), Elements(next));
    if k == key {
      AtSplit3(data, pos, [TypeCode(v)], k, [0]);
      AtIsContained(data, pos + 1, key);
    } else if v.Embedded? && HasKey(v.doc, key) {
      NestedElements(data, pos + |Header(k, v)|, v);
      KeyIsSubstring(data, pos + |Header(k, v)| + 4, v.doc, key);
    } else {
      KeyIsSubstring(data, pos + |Header(k, v)| + |Payload(v)|, next, key);
    }
  }

  lemma NestedElements(data: bytes, pos: nat, v: Value)
    requires v.Embedded? && At(data, pos, Payload(v))
    ensures At(data, pos + 4, Elements(v.doc))
  {
    hide At, Elements, PutLE32;
    AtSplit3(data, pos, PutLE32(|Elements(v.doc)| + 5), Elements(v.doc), [0]);
  }

  const EMPTY_DOCUMENT: bytes := [0x05, 0x00, 0x00, 0x00, 0x00]

  lemma EncodeEnd()
    ensures Encode(End) == EMPTY_DOCUMENT
  {
    PutOfLE([0x05, 0x00, 0x00, 0x00]);
    assert LE([0x05, 0x00, 0x00, 0x00]) == 5;
  }

  /** An empty document or array at any depth leaves its five bytes in the encoding. */
  lemma {:induction false} EmptyIsSubstring(data: bytes, pos: nat, d: Document)
    requires At(data, pos, Elements(d)) && HoldsEmpty(d)
    ensures Contains(data, EMPTY_DOCUMENT)
    decreases d
  {
    hide At, Contains, PutLE32, Header, Encode;
    var k, v, next := d.key, d.value, d.next;
    AtSplit3(data, pos, Header(k, v), Payload(v), Elements(next));
    if v.Embedded? && v.doc == End {
      EncodeEnd();
      AtIsContained(data, pos + |Header(k, v)|, EMPTY_DOCUMENT);
    } else if v.Embedded? && HoldsEmpty(v.doc) {
      NestedElements(data, pos + |Header(k, v)|, v);
      EmptyIsSubstring(data, pos + |Header(k, v)| + 4, v.doc);
    } else {
      EmptyIsSubstring(data, pos + |Header(k, v)| + |Payload(v)|, next);
    }
  }

  const WHERE: bytes := Ascii("$where")
  const FUNCTION: bytes := Ascii("$function")
  const ACCUMULATOR: bytes := Ascii("$accumulator")
  const DANGEROUS: seq<bytes> := [WHERE, FUNCTION, ACCUMULATOR]

  /** The operators of `ops` that occur in `data`, in the order of `ops`. */
  function Occurring(data: bytes, ops: seq<bytes>): (found: seq<bytes>)
    ensures forall op :: op in found <==> op in ops && Contains(data, op)
  {
    if ops == [] then []
    else (if Contains(data, ops[0]) then [ops[0]] else []) + Occurring(data, ops[1..])
  }

  /** Operators are listed in the order of the list, each once for each time it is asked for. */
  lemma {:induction false} OccurringInOrder(data: bytes, op: bytes, a: seq<bytes>, b: seq<bytes>)
    ensures Occurring(data, [op]) == if Contains(data, op) then [op] else []
    ensures Occurring(data, a + b) == Occurring(data, a) + Occurring(data, b)
    decreases a
  {
    hide Contains;
    assert [op][1..] == [];
    if a == [] {
      assert a + b == b;
    } else {
      assert (a + b)[1..] == a[1..] + b;
      OccurringInOrder(data, op, a[1..], b);
    }
  }

  method ScanDangerousOps(data: bytes) returns (found: seq<bytes>)
    ensures found == Occurring(data, DANGEROUS)
  {
    found := ScanFor(data, DANGEROUS);
  }

  method ScanFor(data: bytes, ops: seq<bytes>) returns (found: seq<bytes>)
    ensures found == Occurring(data, ops)
  {
    hide Contains;
    found := [];
    for i := 0 to |ops|
      invariant found + Occurring(data, ops[i..]) == Occurring(data, ops)
    {
      assert ops[i..][0] == ops[i] && ops[i..][1..] == ops[i+1..];
      if Contains(data, ops[i]) {
        found := found + [ops[i]];
      }
    }
  }

  predicate HasEmptyFilter(data: bytes) { Contains(data, EMPTY_DOCUMENT) }

  /** Neither scan misses anything the tree holds. */
  lemma ScansAreComplete(d: Document, tail: bytes)
    ensures forall op | op in DANGEROUS && HasKey(d, op) :: op in Occurring(Encode(d) + tail, DANGEROUS)
    ensures d == End || HoldsEmpty(d) ==> HasEmptyFilter(Encode(d) + tail)
  {
    hide At, Contains, Elements, PutLE32;
    var data := Encode(d) + tail;
    AtWhole(Encode(d), tail);
    AtSplit3(data, 0, PutLE32(|Elements(d)| + 5), Elements(d), [0]);
    forall op | op in DANGEROUS && HasKey(d, op) ensures op in Occurring(data, DANGEROUS) {
      KeyIsSubstring(data, 4, d, op);
    }
    if d == End {
      EncodeEnd();
      AtIsContained(data, 0, EMPTY_DOCUMENT);
    } else if HoldsEmpty(d) {
      EmptyIsSubstring(data, 4, d);
    }
  }
}
