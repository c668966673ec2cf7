/**
 The BSON 1.1 document tree and its reference encoder.  The byte walkers of
 protocol/mongodb/bson.go know nothing of this tree; it is what they are proved against.
 */
module Bson {
  import opened Bytes

  const STRING: byte := 0x02
  const DOCUMENT: byte := 0x03
  const ARRAY: byte := 0x04
  const BINARY: byte := 0x05
  const REGEX: byte := 0x0B

  datatype Value =
    | Fixed(code: byte, raw: bytes)                // double, bool, int32, null, ...: width given by the code
    | Text(text: bytes)
    | Embedded(isArray: bool, doc: Document)
    | Binary(subtype: byte, data: bytes)
    | Regex(pattern: bytes, options: bytes)
    | Unsupported(other: byte, rest: bytes)        // a code the firewall's walker does not know

  /** The element list of a document; a key may occur more than once. */
  datatype Document = End | Element(key: bytes, value: Value, next: Document)

  /** Payload width of the fixed-width element types. */
  function FixedWidth(code: byte): (w: Option<nat>) {
    if code in {0x01, 0x09, 0x11, 0x12} then Some(8)      // double, datetime, timestamp, int64
    else if code == 0x07 then Some(12)                    // object id
    else if code == 0x08 then Some(1)                     // bool
    else if code in {0x0A, 0x7F, 0xFF} then Some(0)       // null, max key, min key
    else if code == 0x10 then Some(4)                     // int32
    else if code == 0x13 then Some(16)                    // decimal128
    else None
  }

  predicate KnownCode(code: byte) {
    code in {STRING, DOCUMENT, ARRAY, BINARY, REGEX} || FixedWidth(code).Some?
  }

  function TypeCode(v: Value): byte {
    match v
    case Fixed(code, _) => code
    case Text(_) => STRING
    case Embedded(isArray, _) => if isArray then ARRAY else DOCUMENT
    case Binary(_, _) => BINARY
    case Regex(_, _) => REGEX
    case Unsupported(code, _) => code
  }

  /** The fixed-width values by what they hold; `bits` stands for the bits of a double or a decimal. */
  datatype Scalar =
    | Double(bits: nat)
    | ObjectId(id: bytes)
    | Bool(b: bool)
    | DateTime(millis: nat)
    | Null
    | Int32(n: nat)
    | Timestamp(t: nat)
    | Int64(n: nat)
    | Decimal128(bits: nat)
    | MinKey
    | MaxKey

  function ScalarValue(s: Scalar): Value {
    match s
    case Double(bits) => Fixed(0x01, PutLE(bits, 8))
    case ObjectId(id) => Fixed(0x07, id)
    case Bool(b) => Fixed(0x08, [if b then 1 else 0])
    case DateTime(millis) => Fixed(0x09, PutLE(millis, 8))
    case Null => Fixed(0x0A, [])
    case Int32(n) => Fixed(0x10, PutLE(n, 4))
    case Timestamp(t) => Fixed(0x11, PutLE(t, 8))
    case Int64(n) => Fixed(0x12, PutLE(n, 8))
    case Decimal128(bits) => Fixed(0x13, PutLE(bits, 16))
    case MinKey => Fixed(0xFF, [])
    case MaxKey => Fixed(0x7F, [])
  }

  // ---- reference encoder ----

  function Encode(d: Document): bytes
    decreases d, 1
  {
    PutLE32(|Elements(d)| + 5) + Elements(d) + [0]
  }

  function Elements(d: Document): bytes
    decreases d, 0
  {
    match d
    case End => []
    case Element(k, v, next) => Header(k, v) + Payload(v) + Elements(next)
  }

  function Header(k: bytes, v: Value): bytes { [TypeCode(v)] + k + [0] }

  function Payload(v: Value): bytes
    decreases v
  {
    match v
    case Fixed(_, raw) => raw
    case Text(s) => PutLE32(|s| + 1) + s + [0]
    case Embedded(_, d) => Encode(d)
    case Binary(subtype, data) => PutLE32(|data|) + [subtype] + data
    case Regex(pattern, options) => pattern + [0] + options + [0]
    case Unsupported(_, rest) => rest
  }

  // ---- what can be encoded: NUL-free keys, lengths that fit their 32-bit fields ----

  predicate WellFormed(d: Document)
    decreases d, 1
  {
    |Encode(d)| < TWO_32 && ElementsOK(d)
  }

  predicate ElementsOK(d: Document)
    decreases d, 0
  {
    d.Element? ==> NulFree(d.key) && ValueOK(d.value) && ElementsOK(d.next)
  }

  predicate ValueOK(v: Value)
    decreases v
  {
    match v
    case Fixed(code, raw) => FixedWidth(code) == Some(|raw|)
    case Text(s) => |s| + 1 < TWO_32
    case Embedded(_, d) => WellFormed(d)
    case Binary(_, data) => |data| < TWO_32
    case Regex(pattern, options) => NulFree(pattern) && NulFree(options)
    case Unsupported(code, _) => code != 0 && !KnownCode(code)
  }

  /** The scalars of the standard are values, and every fixed-width value is one of them or has the width of one. */
  lemma ScalarsAreValues(s: Scalar, code: byte, raw: bytes)
    requires s.ObjectId? ==> |s.id| == 12
    ensures ValueOK(ScalarValue(s))
    ensures ValueOK(Fixed(code, raw)) <==>
            || (code in {0x01, 0x09, 0x11, 0x12} && |raw| == 8) || (code == 0x07 && |raw| == 12)
            || (code == 0x08 && |raw| == 1) || (code == 0x10 && |raw| == 4) || (code == 0x13 && |raw| == 16)
            || (code in {0x0A, 0x7F, 0xFF} && raw == [])
  {
  }

  const AWESOME: bytes := [0x61, 0x77, 0x65, 0x73, 0x6F, 0x6D, 0x65]

  /** An example of the standard: {"BSON": ["awesome", 5.05, 1986]}. */
  function Example(): Document { Element([0x42, 0x53, 0x4F, 0x4E], Embedded(true, ExampleItems()), End) }

  function ExampleItems(): Document { Element([0x30], Text(AWESOME), ExampleNumbers()) }

  function ExampleNumbers(): Document {
    Element([0x31], Fixed(0x01, [0x33, 0x33, 0x33, 0x33, 0x33, 0x33, 0x14, 0x40]),
    Element([0x32], Fixed(0x10, [0xC2, 0x07, 0, 0]), End))
  }

  lemma ExampleNumbersAreEncoded()
    ensures Elements(ExampleNumbers()) ==
            [0x01, 0x31, 0, 0x33, 0x33, 0x33, 0x33, 0x33, 0x33, 0x14, 0x40] + [0x10, 0x32, 0, 0xC2, 0x07, 0, 0]
  {
    assert Elements(ExampleNumbers().next) == [0x10, 0x32, 0, 0xC2, 0x07, 0, 0];
  }

  lemma ExampleItemsAreEncoded()
    ensures Encode(ExampleItems()) ==
            [0x26, 0, 0, 0] + [0x02, 0x30, 0] + [0x08, 0, 0, 0] + AWESOME + [0]
            + ([0x01, 0x31, 0, 0x33, 0x33, 0x33, 0x33, 0x33, 0x33, 0x14, 0x40] + [0x10, 0x32, 0, 0xC2, 0x07, 0, 0])
            + [0]
  {
    hide PutLE32, ExampleNumbers;
    SmallLength(8);
    SmallLength(0x26);
    ExampleNumbersAreEncoded();
    assert Elements(ExampleItems()) ==
           [0x02, 0x30, 0] + ([0x08, 0, 0, 0] + AWESOME + [0]) + Elements(ExampleNumbers());
  }

  lemma ExampleIsEncoded()
    ensures Encode(Example()) ==
            [0x31, 0, 0, 0] + [0x04, 0x42, 0x53, 0x4F, 0x4E, 0]
            + ([0x26, 0, 0, 0] + [0x02, 0x30, 0] + [0x08, 0, 0, 0] + AWESOME + [0]
               + ([0x01, 0x31, 0, 0x33, 0x33, 0x33, 0x33, 0x33, 0x33, 0x14, 0x40] + [0x10, 0x32, 0, 0xC2, 0x07, 0, 0])
               + [0])
            + [0]
  {
    hide PutLE32, ExampleItems;
    SmallLength(0x31);
    ExampleItemsAreEncoded();
    assert Elements(Example()) == [0x04, 0x42, 0x53, 0x4F, 0x4E, 0] + Encode(ExampleItems());
  }

  lemma SmallLength(n: nat)
    requires n < 0x100
    ensures PutLE32(n) == [n as byte, 0, 0, 0]
  {
    assert PutLE(n, 4) == [n as byte] + PutLE(0, 3);
    assert PutLE(0, 3) == [0] + PutLE(0, 2);
    assert PutLE(0, 2) == [0] + PutLE(0, 1);
  }

  /** Type codes and layout of the other values. */
  lemma ElementLayout(k: bytes, s: bytes, d: Document, subtype: byte, data: bytes, pattern: bytes, options: bytes)
    ensures Elements(Element(k, Embedded(false, d), End)) == [0x03] + k + [0] + Encode(d)
    ensures Elements(Element(k, Embedded(true, d), End)) == [0x04] + k + [0] + Encode(d)
    ensures Elements(Element(k, Binary(subtype, data), End)) == [0x05] + k + [0] + PutLE32(|data|) + [subtype] + data
    ensures Elements(Element(k, Regex(pattern, options), End)) ==
            [0x0B] + k + [0] + pattern + [0] + options + [0]
  {
    hide PutLE32, Encode;
  }

  // ---- what the firewall looks for in a document ----

  /** `key` is a key of `d` or of a document or array nested in it, at any depth. */
  predicate HasKey(d: Document, key: bytes) {
    match d
    case End => false
    case Element(k, v, next) =>
      k == key || (v.Embedded? && HasKey(v.doc, key)) || HasKey(next, key)
  }

  /** An empty document or array is nested in `d`, at any depth. */
  predicate HoldsEmpty(d: Document) {
    match d
    case End => false
    case Element(_, v, next) =>
      (v.Embedded? && (v.doc == End || HoldsEmpty(v.doc))) || HoldsEmpty(next)
  }

  /** The string elements of `d` in order, up to the first element of an unknown type. */
  function StringFields(d: Document): seq<(bytes, bytes)> {
    match d
    case End => []
    case Element(k, v, next) =>
      if v.Unsupported? then []
      else (if v.Text? then [(k, v.text)] else []) + StringFields(next)
  }

  /** All string elements of `d` in order. */
  function Strings(d: Document): seq<(bytes, bytes)> {
    match d
    case End => []
    case Element(k, v, next) => (if v.Text? then [(k, v.text)] else []) + Strings(next)
  }

  /** Those behind the first element of an unknown type. */
  function BehindUnknown(d: Document): seq<(bytes, bytes)> {
    match d
    case End => []
    case Element(_, v, next) => if v.Unsupported? then Strings(next) else BehindUnknown(next)
  }

  lemma {:induction false} StringsSplit(d: Document)
    ensures Strings(d) == StringFields(d) + BehindUnknown(d)
  {
    if d == End {
    } else {
      StringsSplit(d.next);
    }
  }

  /** Assign the pairs to `m` from left to right: later pairs overwrite earlier ones. */
  function Assign(m: map<bytes, bytes>, pairs: seq<(bytes, bytes)>): map<bytes, bytes>
    decreases pairs
  {
    if pairs == [] then m else Assign(m[pairs[0].0 := pairs[0].1], pairs[1..])
  }

  lemma {:induction false} AssignOfConcat(m: map<bytes, bytes>, a: seq<(bytes, bytes)>, b: seq<(bytes, bytes)>)
    ensures Assign(m, a + b) == Assign(Assign(m, a), b)
    decreases a
  {
    if a == [] {
      assert a + b == b;
    } else {
      AssignOfConcat(m[a[0].0 := a[0].1], a[1..], b);
      assert (a + b)[1..] == a[1..] + b;
    }
  }

  function LastWins(pairs: seq<(bytes, bytes)>): map<bytes, bytes> { Assign(map[], pairs) }

  lemma LastWinsOfOne(key: bytes, value: bytes)
    ensures LastWins([(key, value)]) == map[key := value]
  {
    assert [(key, value)][1..] == [];
    assert Assign(map[], [(key, value)]) == Assign(map[key := value], []);
  }

  /** A key is bound exactly when some pair has it (or it was bound before), and the last such pair gives the value. */
  lemma {:induction false} AssignMeaning(m: map<bytes, bytes>, pairs: seq<(bytes, bytes)>, key: bytes)
    ensures key in Assign(m, pairs) <==> key in m || exists i | 0 <= i < |pairs| :: pairs[i].0 == key
    ensures key in Assign(m, pairs) ==>
            || (exists i | 0 <= i < |pairs| :: pairs[i] == (key, Assign(m, pairs)[key])
                 && forall j | i < j < |pairs| :: pairs[j].0 != key)
            || (key in m && m[key] == Assign(m, pairs)[key] && forall j | 0 <= j < |pairs| :: pairs[j].0 != key)
    decreases pairs
  {
    if pairs == [] {
    } else {
      var m1, tail := m[pairs[0].0 := pairs[0].1], pairs[1..];
      AssignMeaning(m1, tail, key);
      assert forall i | 0 < i < |pairs| :: pairs[i] == tail[i-1];
      if i :| (&& 0 <= i < |tail|
               && tail[i].0 == key && key in Assign(m1, tail) && tail[i].1 == Assign(m1, tail)[key]
               && forall j | i < j < |tail| :: tail[j].0 != key) {
        assert pairs[i+1] == (key, Assign(m, pairs)[key]);
      } else if key in m1 {
        assert pairs[0].0 == key ==> pairs[0] == (key, Assign(m, pairs)[key]);
      }
    }
  }

  lemma LastWinsMeaning(pairs: seq<(bytes, bytes)>, key: bytes)
    ensures key in LastWins(pairs) <==> exists i | 0 <= i < |pairs| :: pairs[i].0 == key
    ensures key in LastWins(pairs) ==>
            exists i | 0 <= i < |pairs| :: pairs[i] == (key, LastWins(pairs)[key])
              && forall j | i < j < |pairs| :: pairs[j].0 != key
  {
    AssignMeaning(map[], pairs, key);
  }
}
