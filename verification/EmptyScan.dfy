/**
 The raw scan of protocol/mongodb/bson.go for empty documents, against the document tree in both
 directions: which documents the scan takes for one that holds an empty document or array.
 */
module EmptyScan {
  import opened Bytes
  import opened Bson
  import opened BsonWalk
  import opened Occurrences

  // ---- what a document shows the scan ----

  /** A key that ends in 05 in front of a nested length whose three low bytes are zero. */
  predicate KeyForges(k: bytes, length: nat) {
    k != [] && k[|k|-1] == 5 && length % 0x100_0000 == 0
  }

  /** Some element shows the five bytes without being an empty document or array: a leaf in its own bytes and the
      document ends right behind it, a nested document in its key and length.  `behind` is what follows the
      elements of `d`. */
  predicate Forges(d: Document, behind: bytes) {
    match d
    case End => false
    case Element(k, v, next) =>
      var after := if next == End then behind else [];
      || (if v.Embedded? then KeyForges(k, |Encode(v.doc)|) || Forges(v.doc, [0] + after)
          else StartsIn(Header(k, v) + Payload(v), after, EMPTY_DOCUMENT))
      || Forges(next, behind)
  }

  // ---- where the five bytes can stand ----

  /** `behind` stands at `end`, and then the data ends or goes on with a byte that is not zero. */
  predicate EndsWith(data: bytes, end: nat, behind: bytes) {
    At(data, end, behind) && (end + |behind| < |data| ==> data[end+|behind|] != 0)
  }

  lemma OccurrenceBytes(data: bytes, i: nat)
    ensures At(data, i, EMPTY_DOCUMENT) <==>
            i + 5 <= |data| && data[i] == 5 && data[i+1] == data[i+2] == data[i+3] == data[i+4] == 0
  {
    AtIsElementwise(data, i, EMPTY_DOCUMENT);
    if i + 5 <= |data| && data[i] == 5 && data[i+1] == data[i+2] == data[i+3] == data[i+4] == 0 {
      assert data[i..i+5] == EMPTY_DOCUMENT;
    }
  }

  /** What follows `t` cannot take part in an occurrence: it is the end of the data, or a byte that is not zero. */
  lemma SameOccurrence(data: bytes, pos: nat, t: bytes, i: nat)
    requires At(data, pos, t) && i < |t| && (pos + |t| < |data| ==> data[pos+|t|] != 0)
    ensures At(data, pos + i, EMPTY_DOCUMENT) <==> At(t, i, EMPTY_DOCUMENT)
  {
    AtIsElementwise(data, pos, t);
    hide At;
    OccurrenceBytes(data, pos + i);
    OccurrenceBytes(t, i);
    assert forall m | 0 <= m < |t| :: data[pos+m] == t[m];
    if i + 5 <= |t| {
      assert data[pos+(i+1)] == t[i+1] && data[pos+(i+2)] == t[i+2];
      assert data[pos+(i+3)] == t[i+3] && data[pos+(i+4)] == t[i+4];
    }
  }

  lemma LeafOccurrences(data: bytes, pos: nat, s: bytes, behind: bytes)
    requires At(data, pos, s) && EndsWith(data, pos + |s|, behind)
    ensures OccursBetween(data, EMPTY_DOCUMENT, pos, pos + |s|) <==> StartsIn(s, behind, EMPTY_DOCUMENT)
  {
    hide At;
    var t := s + behind;
    AtJoin(data, pos, s, behind);
    if i: nat :| pos <= i < pos + |s| && At(data, i, EMPTY_DOCUMENT) {
      SameOccurrence(data, pos, t, i - pos);
    }
    if i :| 0 <= i < |s| && At(t, i, EMPTY_DOCUMENT) {
      SameOccurrence(data, pos, t, i);
    }
  }

  lemma HeaderBytes(data: bytes, pos: nat, k: bytes, v: Value)
    requires At(data, pos, Header(k, v))
    ensures pos + |k| + 2 <= |data|
    ensures data[pos] == TypeCode(v) && data[pos+|k|+1] == 0
    ensures forall m | 0 <= m < |k| :: data[pos+1+m] == k[m]
  {
    var h := Header(k, v);
    AtIsElementwise(data, pos, h);
    assert h[0] == TypeCode(v) == data[pos+0] && h[|k|+1] == 0 == data[pos+(|k|+1)];
    forall m | 0 <= m < |k| ensures data[pos+1+m] == k[m] {
      assert h[1+m] == k[m] && data[pos+(1+m)] == h[1+m];
    }
  }

  /** Neither the type code of a nested document nor a byte of its key before the last starts an occurrence. */
  lemma NoneInFrontOfKeyEnd(data: bytes, pos: nat, k: bytes, v: Value)
    requires v.Embedded? && NulFree(k) && At(data, pos, Header(k, v))
    ensures !OccursBetween(data, EMPTY_DOCUMENT, pos, pos + |k|)
  {
    hide At, Header;
    HeaderBytes(data, pos, k, v);
    forall i: nat | pos <= i < pos + |k| ensures !At(data, i, EMPTY_DOCUMENT) {
      OccurrenceBytes(data, i);
      assert data[pos+1+(i-pos)] == k[i-pos] != 0;
    }
  }

  /** In the header of a nested document only the last byte of the key can start an occurrence. */
  lemma HeaderOccurrences(data: bytes, pos: nat, k: bytes, v: Value)
    requires v.Embedded? && NulFree(k) && WellFormed(v.doc)
    requires At(data, pos, Header(k, v)) && At(data, pos + |k| + 2, Encode(v.doc))
    ensures OccursBetween(data, EMPTY_DOCUMENT, pos, pos + |k| + 2) <==> KeyForges(k, |Encode(v.doc)|)
  {
    hide At, Encode, WellFormed, OccursBetween, Header, LE32, Elements;
    var h := pos + |k| + 2;
    NoneInFrontOfKeyEnd(data, pos, k, v);
    HeaderBytes(data, pos, k, v);
    OneBetween(data, EMPTY_DOCUMENT, h - 2);
    OneBetween(data, EMPTY_DOCUMENT, h - 1);
    BetweenSplits(data, EMPTY_DOCUMENT, pos, h - 2, h);
    BetweenSplits(data, EMPTY_DOCUMENT, h - 2, h - 1, h);
    OccurrenceBytes(data, h - 2);
    OccurrenceBytes(data, h - 1);
    assert k != [] ==> data[pos+1+(|k|-1)] == k[|k|-1];
    EncodedLengthIsRead(data, h, v.doc);
    AtIsSlice(data, h, Encode(v.doc));
    LE32Bytes(data, h);
  }

  lemma Opened(d: Document)
    requires WellFormed(d)
    ensures ElementsOK(d)
  {
  }

  /** A length prefix starts an occurrence exactly when its document is empty. */
  lemma PrefixOccurrences(data: bytes, h: nat, d: Document)
    requires WellFormed(d) && At(data, h, Encode(d))
    ensures OccursBetween(data, EMPTY_DOCUMENT, h, h + 4) <==> d == End
  {
    hide At, Encode, WellFormed, Elements;
    EncodedLengthIsRead(data, h, d);
    AtIsSlice(data, h, Encode(d));
    LE32Bytes(data, h);
    if d == End {
      EncodeEnd();
      assert At(data, h, EMPTY_DOCUMENT);
    } else {
      Opened(d);
      FirstByteIsTypeCode(data, h + 4, d);
      forall i: nat | h <= i < h + 4 ensures !At(data, i, EMPTY_DOCUMENT) {
        OccurrenceBytes(data, i);
      }
    }
  }

  lemma FirstByteIsTypeCode(data: bytes, pos: nat, d: Document)
    requires d.Element? && ElementsOK(d) && At(data, pos, Elements(d))
    ensures pos < |data| && data[pos] != 0
  {
    hide At, Payload, ValueOK;
    AtSplit3(data, pos, Header(d.key, d.value), Payload(d.value), Elements(d.next));
    HeaderBytes(data, pos, d.key, d.value);
    TypeCodeIs(data, pos, d.value);
  }

  // ---- the tree induction ----

  /** What stands behind a value: the next element, or what ends the document. */
  lemma AfterValue(data: bytes, pos: nat, next: Document, behind: bytes)
    requires ElementsOK(next) && At(data, pos, Elements(next)) && EndsWith(data, pos + |Elements(next)|, behind)
    ensures EndsWith(data, pos, if next == End then behind else [])
  {
    if next.Element? { FirstByteIsTypeCode(data, pos, next); }
  }

  /** The terminator of a nested document stands in front of what follows that document. */
  lemma AfterElements(data: bytes, end: nat, after: bytes)
    requires At(data, end, [0]) && EndsWith(data, end + 1, after)
    ensures EndsWith(data, end, [0] + after)
  {
    AtJoin(data, end, [0], after);
  }

  /** The occurrences that start in the elements of `d` are those of empty documents, and the forged ones. */
  lemma {:induction false} ElementOccurrences(data: bytes, pos: nat, d: Document, behind: bytes)
    requires ElementsOK(d) && At(data, pos, Elements(d)) && EndsWith(data, pos + |Elements(d)|, behind)
    ensures OccursBetween(data, EMPTY_DOCUMENT, pos, pos + |Elements(d)|) <==> HoldsEmpty(d) || Forges(d, behind)
    decreases d, 0
  {
    hide At, EndsWith, OccursBetween, Payload, Header, StartsIn, KeyForges, WellFormed, ValueOK;
    if d == End {
      assert !OccursBetween(data, EMPTY_DOCUMENT, pos, pos) by { NoneInNothing(data, EMPTY_DOCUMENT, pos); }
    } else {
      var k, v, next := d.key, d.value, d.next;
      AtSplit3(data, pos, Header(k, v), Payload(v), Elements(next));
      var mid := pos + |Header(k, v)| + |Payload(v)|;
      var after := if next == End then behind else [];
      BetweenSplits(data, EMPTY_DOCUMENT, pos, mid, mid + |Elements(next)|);
      ElementOccurrences(data, mid, next, behind);
      AfterValue(data, mid, next, behind);
      if v.Embedded? {
        EmbeddedValue(v);
        EmbeddedOccurrences(data, pos, k, v, after);
      } else {
        AtJoin(data, pos, Header(k, v), Payload(v));
        LeafOccurrences(data, pos, Header(k, v) + Payload(v), after);
      }
    }
  }

  lemma {:induction false} EmbeddedOccurrences(data: bytes, pos: nat, k: bytes, v: Value, after: bytes)
    requires v.Embedded? && NulFree(k) && WellFormed(v.doc)
    requires At(data, pos, Header(k, v)) && At(data, pos + |Header(k, v)|, Encode(v.doc))
    requires EndsWith(data, pos + |Header(k, v)| + |Encode(v.doc)|, after)
    ensures OccursBetween(data, EMPTY_DOCUMENT, pos, pos + |Header(k, v)| + |Encode(v.doc)|) <==>
            KeyForges(k, |Encode(v.doc)|) || v.doc == End || HoldsEmpty(v.doc) || Forges(v.doc, [0] + after)
    decreases v.doc, 1
  {
    hide At, EndsWith, OccursBetween, KeyForges, WellFormed, Encode, Elements, Forges, HoldsEmpty;
    var h := pos + |k| + 2;
    var end := h + 4 + |Elements(v.doc)|;
    EncodedLengthIsRead(data, h, v.doc);
    HeaderOccurrences(data, pos, k, v);
    PrefixOccurrences(data, h, v.doc);
    AfterElements(data, end, after);
    Opened(v.doc);
    ElementOccurrences(data, h + 4, v.doc, [0] + after);
    NoneAt(data, EMPTY_DOCUMENT, end);
    BetweenSplits(data, EMPTY_DOCUMENT, pos, h, end + 1);
    BetweenSplits(data, EMPTY_DOCUMENT, h, h + 4, end + 1);
    BetweenSplits(data, EMPTY_DOCUMENT, h + 4, end, end + 1);
  }

  lemma EmbeddedValue(v: Value)
    requires v.Embedded? && ValueOK(v)
    ensures WellFormed(v.doc) && Payload(v) == Encode(v.doc)
  {
  }

  // ---- the scan, exactly ----

  /** What the scan takes for an empty document although `d`, followed by `tail`, holds none. */
  predicate Misleads(d: Document, tail: bytes) {
    Forges(d, [0] + tail) || HasEmptyFilter(tail)
  }

  /** The scan of an encoded document, whatever follows it: it reports exactly the documents that hold an empty
      document or array at some depth and those that mislead it; so it is right exactly when the document does hold
      one or does not mislead. */
  lemma ScanIsExactly(d: Document, tail: bytes)
    requires WellFormed(d) && d != End
    ensures HasEmptyFilter(Encode(d) + tail) <==> HoldsEmpty(d) || Misleads(d, tail)
    ensures HasEmptyFilter(Encode(d) + tail) == HoldsEmpty(d) <==> HoldsEmpty(d) || !Misleads(d, tail)
  {
    hide At, Contains, OccursBetween, WellFormed, Encode, Elements, Forges, HoldsEmpty;
    var data, end := Encode(d) + tail, 4 + |Elements(d)|;
    AtWhole(Encode(d), tail);
    EncodedLengthIsRead(data, 0, d);
    AtWhole(data, []);
    assert data + [] == data;
    ContainsIsBetween(data, 0, data, EMPTY_DOCUMENT);
    PrefixOccurrences(data, 0, d);
    TailEnds(data, end + 1, tail);
    AfterElements(data, end, tail);
    Opened(d);
    ElementOccurrences(data, 4, d, [0] + tail);
    NoneAt(data, EMPTY_DOCUMENT, end);
    ContainsIsBetween(data, end + 1, tail, EMPTY_DOCUMENT);
    BetweenSplits(data, EMPTY_DOCUMENT, 0, 4, |data|);
    BetweenSplits(data, EMPTY_DOCUMENT, 4, end, |data|);
    BetweenSplits(data, EMPTY_DOCUMENT, end, end + 1, |data|);
  }

  lemma TailEnds(data: bytes, at: nat, tail: bytes)
    requires At(data, at, tail) && at + |tail| == |data|
    ensures EndsWith(data, at, tail)
  {
  }

  /** A payload that begins with the five bytes, or whose document ends where they do, forges under every key. */
  lemma PayloadForges(k: bytes, v: Value, next: Document, behind: bytes)
    requires !v.Embedded? && Payload(v) != []
    requires At(Payload(v) + if next == End then behind else [], 0, EMPTY_DOCUMENT)
    ensures Forges(Element(k, v, next), behind)
  {
    hide At, Payload, Header;
    var h, after := Header(k, v), if next == End then behind else [];
    var s := h + Payload(v) + after;
    AtWhole(h, Payload(v) + after);
    assert h + (Payload(v) + after) == s;
    AtInside(s, |h|, Payload(v) + after, 0, EMPTY_DOCUMENT);
    assert StartsIn(h + Payload(v), after, EMPTY_DOCUMENT);
  }

  /** Whole families do: a 64-bit integer 5, five bytes of generic binary data, and a 32-bit integer 5 that is the
      last element of its document. */
  lemma FivesForge(k: bytes, data: bytes, next: Document, behind: bytes)
    requires |data| == 5
    ensures Forges(Element(k, Fixed(0x12, [5, 0, 0, 0, 0, 0, 0, 0]), next), behind)
    ensures Forges(Element(k, Binary(0, data), next), behind)
    ensures Forges(Element(k, Fixed(0x10, [5, 0, 0, 0]), End), [0] + behind)
  {
    hide Forges;
    EncodeEnd();
    assert Elements(End) == [];
    PayloadForges(k, Fixed(0x12, [5, 0, 0, 0, 0, 0, 0, 0]), next, behind);
    PayloadForges(k, Binary(0, data), next, behind);
    PayloadForges(k, Fixed(0x10, [5, 0, 0, 0]), End, [0] + behind);
  }
}
