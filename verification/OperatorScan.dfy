/**
 The raw scan of protocol/mongodb/bson.go for script operators, against the document tree in both
 directions: which documents show an operator.
 */
module OperatorScan {
  import opened Bytes
  import opened Bson
  import opened BsonWalk
  import opened Occurrences

  /** What stands behind a value before the next NUL: the type and key of the next element, if there is one. */
  function Lead(next: Document): bytes {
    if next == End then [] else [TypeCode(next.value)] + next.key
  }

  /** Some element of `d` shows the text `t`: in its type and key, in the payload of a leaf, which may run on into the
      type and key of the next element, or in a nested document. */
  predicate ElementsShow(d: Document, t: bytes)
    decreases d, 0
  {
    match d
    case End => false
    case Element(k, v, next) =>
      || Contains([TypeCode(v)] + k, t)
      || (if v.Embedded? then Shows(v.doc, t) else StartsIn(Payload(v), Lead(next), t))
      || ElementsShow(next, t)
  }

  /** The document shows it: in its length, which may run on into the first type and key, or in an element. */
  predicate Shows(d: Document, t: bytes)
    decreases d, 1
  {
    StartsIn(PutLE32(|Elements(d)| + 5), Lead(d), t) || ElementsShow(d, t)
  }

  lemma LeadIsThere(data: bytes, pos: nat, d: Document)
    requires At(data, pos, Elements(d)) && At(data, pos + |Elements(d)|, [0])
    ensures At(data, pos, Lead(d) + [0])
  {
    hide At, Payload;
    if d.Element? {
      AtSplit3(data, pos, Header(d.key, d.value), Payload(d.value), Elements(d.next));
    } else {
      assert [] + [0] == [0 as byte];
    }
  }

  /** A part, and what follows it up to the next NUL. */
  lemma PartShows(data: bytes, pos: nat, s: bytes, d: Document, t: bytes)
    requires t != [] && NulFree(t) && At(data, pos, s)
    requires At(data, pos + |s|, Elements(d)) && At(data, pos + |s| + |Elements(d)|, [0])
    ensures OccursBetween(data, t, pos, pos + |s|) <==> StartsIn(s, Lead(d), t)
  {
    hide At, Lead, OccursBetween, StartsIn;
    LeadIsThere(data, pos + |s|, d);
    AtJoin(data, pos, s, Lead(d) + [0]);
    assert s + (Lead(d) + [0]) == s + Lead(d) + [0];
    NotAcrossNul(data, pos, s, Lead(d), t);
  }

  lemma HeaderShows(data: bytes, pos: nat, k: bytes, v: Value, t: bytes)
    requires t != [] && NulFree(t) && At(data, pos, Header(k, v))
    ensures OccursBetween(data, t, pos, pos + |Header(k, v)|) <==> Contains([TypeCode(v)] + k, t)
  {
    hide At, OccursBetween;
    var s := [TypeCode(v)] + k;
    assert Header(k, v) == s + [] + [0];
    NotAcrossNul(data, pos, s, [], t);
    AtSplit(data, pos, s, [0]);
    NoneAt(data, t, pos + |s|);
    BetweenSplits(data, t, pos, pos + |s|, pos + |s| + 1);
    assert s + [] == s;
    AtWhole(s, []);
    ContainsIsBetween(s, 0, s, t);
    StartsInIsBetween(s, [], t);
  }

  /** The occurrences that start in the elements of `d` are those its elements show. */
  lemma {:induction false} ElementOccurrences(data: bytes, pos: nat, d: Document, t: bytes)
    requires t != [] && NulFree(t)
    requires At(data, pos, Elements(d)) && At(data, pos + |Elements(d)|, [0])
    ensures OccursBetween(data, t, pos, pos + |Elements(d)|) <==> ElementsShow(d, t)
    decreases d, 0
  {
    hide At, OccursBetween, Payload, Header, StartsIn, NulFree, Contains, Shows, Lead;
    if d == End {
      NoneInNothing(data, t, pos);
    } else {
      var k, v, next := d.key, d.value, d.next;
      AtSplit3(data, pos, Header(k, v), Payload(v), Elements(next));
      var mid := pos + |Header(k, v)|;
      var end := mid + |Payload(v)|;
      HeaderShows(data, pos, k, v, t);
      if v.Embedded? {
        EmbeddedIs(v);
        DocumentOccurrences(data, mid, v.doc, t);
      } else {
        PartShows(data, mid, Payload(v), next, t);
      }
      ElementOccurrences(data, end, next, t);
      BetweenSplits(data, t, pos, mid, end + |Elements(next)|);
      BetweenSplits(data, t, mid, end, end + |Elements(next)|);
    }
  }

  lemma EmbeddedIs(v: Value)
    requires v.Embedded?
    ensures Payload(v) == Encode(v.doc)
  {
  }

  lemma {:induction false} DocumentOccurrences(data: bytes, pos: nat, d: Document, t: bytes)
    requires t != [] && NulFree(t) && At(data, pos, Encode(d))
    ensures OccursBetween(data, t, pos, pos + |Encode(d)|) <==> Shows(d, t)
    decreases d, 1
  {
    hide At, OccursBetween, Elements, ElementsShow, StartsIn, Lead, PutLE32;
    var prefix := PutLE32(|Elements(d)| + 5);
    var mid, end := pos + 4, pos + 4 + |Elements(d)|;
    AtSplit3(data, pos, prefix, Elements(d), [0]);
    PartShows(data, pos, prefix, d, t);
    ElementOccurrences(data, mid, d, t);
    NoneAt(data, t, end);
    BetweenSplits(data, t, pos, mid, end + 1);
    BetweenSplits(data, t, mid, end, end + 1);
  }

  /** The scan of an encoded document, whatever follows it: a text without NUL, like every script operator, occurs
      exactly when the document shows it or what follows contains it. */
  lemma ScanIsExactly(d: Document, tail: bytes, t: bytes)
    requires t != [] && NulFree(t)
    ensures Contains(Encode(d) + tail, t) <==> Shows(d, t) || Contains(tail, t)
  {
    hide At, OccursBetween, Encode, Contains, Shows;
    var data := Encode(d) + tail;
    AtWhole(Encode(d), tail);
    AtWhole(data, []);
    assert data + [] == data;
    ContainsIsBetween(data, 0, data, t);
    ContainsIsBetween(data, |Encode(d)|, tail, t);
    DocumentOccurrences(data, 0, d, t);
    BetweenSplits(data, t, 0, |Encode(d)|, |data|);
  }

  lemma OperatorBytes(op: bytes)
    requires op in DANGEROUS
    ensures |op| >= 6 && NulFree(op) && forall i | 0 <= i < |op| :: op[i] >= 0x24
  {
    assert WHERE == [0x24, 0x77, 0x68, 0x65, 0x72, 0x65];
    assert FUNCTION == [0x24, 0x66, 0x75, 0x6E, 0x63, 0x74, 0x69, 0x6F, 0x6E];
    assert ACCUMULATOR == [0x24, 0x61, 0x63, 0x63, 0x75, 0x6D, 0x75, 0x6C, 0x61, 0x74, 0x6F, 0x72];
  }

  // ---- in documents of ordinary size the lengths show nothing ----

  lemma SmallLengthBytes(n: nat)
    requires n < 0x2000_0000
    ensures PutLE32(n)[3] < 0x20
  {
    assert n % TWO_32 == n;
    assert PutLE32(n) == PutLE(n, 4);
    assert PutLE(n, 4)[3] == PutLE(n / 0x100, 3)[2] == PutLE(n / 0x100 / 0x100, 2)[1];
  }

  lemma OperatorAt(s: bytes, i: nat, op: bytes)
    requires op in DANGEROUS && At(s, i, op)
    ensures i + 6 <= |s| && s[i] >= 0x24 && s[i+1] >= 0x24 && s[i+2] >= 0x24 && s[i+3] >= 0x24
  {
    hide At, NulFree;
    OperatorBytes(op);
    AtIsElementwise(s, i, op);
    assert s[i+0] == op[0] && s[i+1] == op[1] && s[i+2] == op[2] && s[i+3] == op[3];
  }

  /** An operator that starts in a length below 512 MiB does not get past its last byte. */
  lemma SmallLengthShowsNothing(n: nat, behind: bytes, op: bytes)
    requires n < 0x2000_0000 && op in DANGEROUS
    ensures !StartsIn(PutLE32(n), behind, op)
  {
    hide PutLE32, At;
    var s := PutLE32(n) + behind;
    if i :| 0 <= i < 4 && At(s, i, op) {
      OperatorAt(s, i, op);
      SmallLengthBytes(n);
    }
  }

  /** A string value shows an operator exactly when its text contains it. */
  lemma TextShows(text: bytes, behind: bytes, op: bytes)
    requires |text| + 1 < 0x2000_0000 && op in DANGEROUS
    ensures StartsIn(Payload(Text(text)), behind, op) <==> Contains(text, op)
  {
    hide At, PutLE32, OccursBetween, StartsIn, Contains, NulFree;
    var prefix := PutLE32(|text| + 1);
    var payload := prefix + text + [0];
    var data := payload + behind;
    OperatorBytes(op);
    StartsInIsBetween(payload, behind, op);
    AtWhole(payload, behind);
    AtSplit3(data, 0, prefix, text, [0]);
    SmallLengthShowsNothing(|text| + 1, text + [0] + behind, op);
    StartsInIsBetween(prefix, text + [0] + behind, op);
    assert prefix + (text + [0] + behind) == data;
    AtJoin(data, 4, text, [0]);
    assert text + [] == text;
    NotAcrossNul(data, 4, text, [], op);
    StartsInIsBetween(text, [], op);
    AtWhole(text, []);
    ContainsIsBetween(text, 0, text, op);
    NoneAt(data, op, 4 + |text|);
    BetweenSplits(data, op, 0, 4, |payload|);
    BetweenSplits(data, op, 4, 4 + |text|, |payload|);
  }
}
