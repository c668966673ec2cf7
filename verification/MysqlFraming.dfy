/**
 protocol/mysql/packet.go: reassembly of fragmented packets from a byte stream, with the
 bytes read kept verbatim.
 */
module MysqlFraming {
  import opened Bytes
  import opened Streams

  const HEADER_LEN: nat := 4
  const MAX_PAYLOAD: nat := 0xFF_FFFF

  datatype Packet = Packet(seqId: byte, payload: bytes, raw: bytes)

  /** Read errors as the code wraps them. */
  datatype ReadError =
    | Bare(error: IOError)
    | InPayload(length: nat, error: IOError)
    | InContinuation(inner: ReadError)

  datatype Fragment = Fragment(raw: bytes, payload: bytes, seqId: byte, more: bool)

  // ---- the stream as a pure function of its bytes ----

  function PayloadLength(s: bytes): (n: nat)
    requires |s| >= 3
    ensures n <= MAX_PAYLOAD
  {
    LEBound(s[..3]); Pow256Of3();
    LE(s[..3])
  }

  lemma Pow256Of3()
    ensures Pow256(3) == MAX_PAYLOAD + 1
  {
    assert Pow256(1) == 0x100 && Pow256(2) == 0x1_0000;
  }

  function FirstFragment(s: bytes, end: IOError): (r: (Result<Fragment, ReadError>, bytes))
    ensures r.0.Success? ==>
              && r.0.value.raw + r.1 == s
              && |r.0.value.raw| == HEADER_LEN + |r.0.value.payload|
  {
    if |s| < HEADER_LEN then (Failure(Bare(Short(|s|, end))), [])
    else
      var n := PayloadLength(s);
      if |s| - HEADER_LEN < n then (Failure(InPayload(n, Short(|s| - HEADER_LEN, end))), [])
      else (Success(Fragment(s[..HEADER_LEN+n], s[HEADER_LEN..HEADER_LEN+n], s[3], n == MAX_PAYLOAD)),
            s[HEADER_LEN+n..])
  }

  /** Continue a packet of which `raw` and `payload` have been read. */
  function Continue(raw: bytes, payload: bytes, s: bytes, end: IOError): (Result<Packet, ReadError>, bytes)
    decreases |s|
  {
    match FirstFragment(s, end)
    case (Failure(e), rest) => (Failure(InContinuation(e)), rest)
    case (Success(f), rest) =>
      if f.more then Continue(raw + f.raw, payload + f.payload, rest, end)
      else (Success(Packet(f.seqId, payload + f.payload, raw + f.raw)), rest)
  }

  /** The first logical packet of a stream, and what is left. */
  function FirstPacket(s: bytes, end: IOError): (Result<Packet, ReadError>, bytes) {
    match FirstFragment(s, end)
    case (Failure(e), rest) => (Failure(e), rest)
    case (Success(f), rest) =>
      if f.more then Continue(f.raw, f.payload, rest, end)
      else (Success(Packet(f.seqId, f.payload, f.raw)), rest)
  }

  // ---- the program ----

  class Reader {
    const r: PrefixedConn
    const hdr: array<byte>

    constructor (r: PrefixedConn)
      requires r.Valid()
      ensures Valid() && this.r == r && fresh(hdr)
    {
      this.r := r;
      this.hdr := new byte[HEADER_LEN];
    }

    ghost predicate Valid()
      reads this, r
    {
      r.Valid() && hdr.Length == HEADER_LEN
    }

    method ReadFragment() returns (res: Result<Fragment, ReadError>)
      requires Valid()
      modifies r, r.conn, hdr
      ensures Valid()
      ensures (res, r.Remaining()) == FirstFragment(old(r.Remaining()), r.conn.end)
    {
      hide PayloadLength, FirstFragment;
      ghost var s := r.Remaining();
      FirstFragmentCases(s, r.conn.end);
      var err := ReadFull(r, hdr, 0, HEADER_LEN);
      if err.Some? { return Failure(Bare(err.value)); }
      assert hdr[..] == s[..HEADER_LEN];
      SameLength(hdr[..], s);
      var length := PayloadLength(hdr[..]);
      var seqId := hdr[3];
      assert seqId == hdr[..][3] == s[3];
      var raw := new byte[HEADER_LEN + length];
      forall i | 0 <= i < HEADER_LEN { raw[i] := hdr[i]; }
      assert raw[..HEADER_LEN] == s[..HEADER_LEN];
      err := ReadFull(r, raw, HEADER_LEN, raw.Length);
      if err.Some? { return Failure(InPayload(length, err.value)); }
      assert raw[..HEADER_LEN] == s[..HEADER_LEN];
      assert raw[HEADER_LEN..] == s[HEADER_LEN..][..length];
      assert raw[..] == s[..HEADER_LEN] + s[HEADER_LEN..][..length];
      assert r.Remaining() == s[HEADER_LEN+length..];
      res := Success(Fragment(raw[..], raw[HEADER_LEN..], seqId, length == MAX_PAYLOAD));
    }

    /** However the connection splits its bytes and wherever a prefix ends, the packet, the error and
        the unread rest are those of the pure function on the remaining bytes. */
    method ReadPacket() returns (res: Result<Packet, ReadError>)
      requires Valid()
      modifies r, r.conn, hdr
      ensures Valid()
      ensures (res, r.Remaining()) == FirstPacket(old(r.Remaining()), r.conn.end)
    {
      ghost var s := r.Remaining();
      var f := ReadFragment();
      if f.Failure? { return Failure(f.error); }
      if !f.value.more {
        return Success(Packet(f.value.seqId, f.value.payload, f.value.raw));
      }
      var rawBuf, payloadBuf, lastSeq, more := f.value.raw, f.value.payload, f.value.seqId, true;
      while more
        invariant Valid()
        invariant FirstPacket(s, r.conn.end) ==
                  if more then Continue(rawBuf, payloadBuf, r.Remaining(), r.conn.end)
                  else (Success(Packet(lastSeq, payloadBuf, rawBuf)), r.Remaining())
        decreases |r.Remaining()|, more
      {
        f := ReadFragment();
        if f.Failure? {
          return Failure(InContinuation(f.error));
        }
        rawBuf := rawBuf + f.value.raw;
        payloadBuf := payloadBuf + f.value.payload;
        lastSeq := f.value.seqId;
        more := f.value.more;
      }
      return Success(Packet(lastSeq, payloadBuf, rawBuf));
    }
  }

  lemma FirstFragmentCases(s: bytes, end: IOError)
    ensures |s| < HEADER_LEN ==> FirstFragment(s, end) == (Failure(Bare(Short(|s|, end))), [])
    ensures |s| >= HEADER_LEN ==>
              var n, body := PayloadLength(s), s[HEADER_LEN..];
              if |body| < n then FirstFragment(s, end) == (Failure(InPayload(n, Short(|body|, end))), [])
              else FirstFragment(s, end) ==
                   (Success(Fragment(s[..HEADER_LEN] + body[..n], body[..n], s[3], n == MAX_PAYLOAD)),
                    s[HEADER_LEN+n..])
  {
    if |s| >= HEADER_LEN && |s| - HEADER_LEN >= PayloadLength(s) {
      var n := PayloadLength(s);
      assert s[..HEADER_LEN+n] == s[..HEADER_LEN] + s[HEADER_LEN..][..n];
      assert s[HEADER_LEN..HEADER_LEN+n] == s[HEADER_LEN..][..n];
    }
  }

  /** The header of a fragment: three bytes of length, least significant first, and the sequence id. */
  lemma FragmentLayout(s: bytes, end: IOError)
    requires |s| >= 4
    ensures
      var n := s[0] as int + 0x100 * s[1] as int + 0x1_0000 * s[2] as int;
      var (res, rest) := FirstFragment(s, end);
      && PayloadLength(s) == n
      && (res.Success? <==> |s| >= 4 + n)
      && (res.Success? ==> res.value == Fragment(s[..4+n], s[4..4+n], s[3], n == 0xFF_FFFF) && rest == s[4+n..])
  {
    var b := s[..3];
    assert b[1..][1..] == b[2..] && b[2..][1..] == [];
    assert LE(b) == b[0] as int + 0x100 * LE(b[1..]) && LE(b[1..]) == b[1] as int + 0x100 * LE(b[2..]);
    assert LE(b[2..]) == b[2] as int + 0x100 * LE([]);
  }

  lemma SameLength(hdr: bytes, s: bytes)
    requires |s| >= HEADER_LEN && hdr == s[..HEADER_LEN]
    ensures PayloadLength(hdr) == PayloadLength(s)
  {
    assert hdr[..3] == s[..3];
  }

  // ---- fragmenting, the inverse ----

  function Header(n: nat, seqId: byte): bytes { PutLE(n, 3) + [seqId] }

  /** How many fragments a payload takes; a multiple of the maximum needs an empty last one. */
  function FragmentCount(payload: bytes): nat
    decreases |payload|
  {
    if |payload| < MAX_PAYLOAD then 1 else 1 + FragmentCount(payload[MAX_PAYLOAD..])
  }

  /** The wire form of a payload under the given sequence ids, one per fragment. */
  function Fragmented(payload: bytes, seqIds: bytes): bytes
    requires |seqIds| == FragmentCount(payload)
    decreases |payload|
  {
    if |payload| < MAX_PAYLOAD then Header(|payload|, seqIds[0]) + payload
    else Header(MAX_PAYLOAD, seqIds[0]) + payload[..MAX_PAYLOAD]
         + Fragmented(payload[MAX_PAYLOAD..], seqIds[1..])
  }

  lemma {:induction false} FragmentCountIs(payload: bytes)
    ensures FragmentCount(payload) == |payload| / MAX_PAYLOAD + 1
    decreases |payload|
  {
    if |payload| < MAX_PAYLOAD {
    } else {
      FragmentCountIs(payload[MAX_PAYLOAD..]);
    }
  }

  lemma FragmentIsRead(n: nat, seqId: byte, body: bytes, rest: bytes, end: IOError)
    requires n == |body| <= MAX_PAYLOAD
    ensures FirstFragment(Header(n, seqId) + body + rest, end) ==
            (Success(Fragment(Header(n, seqId) + body, body, seqId, n == MAX_PAYLOAD)), rest)
  {
    var s := Header(n, seqId) + body + rest;
    Pow256Of3();
    LEOfPut(n, 3);
    assert s[..3] == PutLE(n, 3);
    assert s[3] == seqId;
    assert s[..4+n] == Header(n, seqId) + body;
    assert s[4..4+n] == body && s[4+n..] == rest;
  }

  /** Continuing over the fragments of a payload appends exactly that payload. */
  lemma {:induction false} ContinueOverFragments(raw: bytes, front: bytes, payload: bytes, seqIds: bytes,
                                                 rest: bytes, end: IOError)
    requires |seqIds| == FragmentCount(payload)
    ensures Continue(raw, front, Fragmented(payload, seqIds) + rest, end) ==
            (Success(Packet(seqIds[|seqIds|-1], front + payload, raw + Fragmented(payload, seqIds))), rest)
    decreases |payload|
  {
    hide Header, FirstFragment;
    if |payload| < MAX_PAYLOAD {
      FragmentIsRead(|payload|, seqIds[0], payload, rest, end);
    } else {
      var body, tail, ids := payload[..MAX_PAYLOAD], payload[MAX_PAYLOAD..], seqIds[1..];
      var head := Header(MAX_PAYLOAD, seqIds[0]) + body;
      assert Fragmented(payload, seqIds) + rest == head + (Fragmented(tail, ids) + rest);
      FragmentIsRead(MAX_PAYLOAD, seqIds[0], body, Fragmented(tail, ids) + rest, end);
      ContinueOverFragments(raw + head, front + body, tail, ids, rest, end);
      assert front + body + tail == front + payload;
      assert raw + head + Fragmented(tail, ids) == raw + Fragmented(payload, seqIds);
    }
  }

  /** Reading a fragmented payload gives it back, with the last sequence id and the wire bytes verbatim,
      and leaves exactly what follows: for empty payloads, multiples of the maximum and anything longer. */
  lemma FragmentedIsRead(payload: bytes, seqIds: bytes, rest: bytes, end: IOError)
    requires |seqIds| == FragmentCount(payload)
    ensures FirstPacket(Fragmented(payload, seqIds) + rest, end) ==
            (Success(Packet(seqIds[|seqIds|-1], payload, Fragmented(payload, seqIds))), rest)
  {
    ContinueOverFragments([], [], payload, seqIds, rest, end);
    ContinueFromNothing(Fragmented(payload, seqIds) + rest, end);
    assert [] + payload == payload;
    assert [] + Fragmented(payload, seqIds) == Fragmented(payload, seqIds);
  }

  /** Reading a packet is continuing an empty one, up to how a failure is wrapped. */
  lemma ContinueFromNothing(s: bytes, end: IOError)
    ensures FirstPacket(s, end).0.Success? == Continue([], [], s, end).0.Success?
    ensures FirstPacket(s, end).0.Success? ==> FirstPacket(s, end) == Continue([], [], s, end)
  {
    if FirstFragment(s, end).0.Success? {
      var f := FirstFragment(s, end).0.value;
      assert [] + f.raw == f.raw && [] + f.payload == f.payload;
    }
  }

  // ---- the converse: what was read is what was sent ----

  /** The sequence ids recorded in the wire bytes of a packet. */
  function SeqIds(raw: bytes): bytes
    decreases |raw|
  {
    if |raw| < HEADER_LEN then []
    else if |raw| < HEADER_LEN + MAX_PAYLOAD then [raw[3]]
    else [raw[3]] + SeqIds(raw[HEADER_LEN+MAX_PAYLOAD..])
  }

  lemma FragmentIsEncoded(s: bytes, end: IOError)
    requires FirstFragment(s, end).0.Success?
    ensures
      var f := FirstFragment(s, end).0.value;
      && f.raw == Header(|f.payload|, f.seqId) + f.payload
      && |f.payload| <= MAX_PAYLOAD
      && f.more == (|f.payload| == MAX_PAYLOAD)
      && f.raw[3] == f.seqId
  {
    var n := PayloadLength(s);
    PutOfLE(s[..3]);
    assert s[..HEADER_LEN+n] == s[..3] + [s[3]] + s[HEADER_LEN..HEADER_LEN+n];
  }

  /** What a continuation has added is the fragmented form of the payload it has added. */
  lemma {:induction false} ContinuedIsFragmented(raw: bytes, front: bytes, s: bytes, end: IOError)
    requires Continue(raw, front, s, end).0.Success?
    ensures
      var (p, rest) := (Continue(raw, front, s, end).0.value, Continue(raw, front, s, end).1);
      && raw <= p.raw && front <= p.payload
      && var (wire, payload) := (p.raw[|raw|..], p.payload[|front|..]);
         && wire + rest == s
         && |SeqIds(wire)| == FragmentCount(payload)
         && Fragmented(payload, SeqIds(wire)) == wire
         && SeqIds(wire)[|SeqIds(wire)|-1] == p.seqId
    decreases |s|
  {
    hide Header, FirstFragment;
    FragmentIsEncoded(s, end);
    FragmentIsPrefix(s, end);
    var f, after := FirstFragment(s, end).0.value, FirstFragment(s, end).1;
    var (p, rest) := (Continue(raw, front, s, end).0.value, Continue(raw, front, s, end).1);
    if !f.more {
      assert p.raw[|raw|..] == f.raw && p.payload[|front|..] == f.payload;
    } else {
      ContinuedIsFragmented(raw + f.raw, front + f.payload, after, end);
      var wire, payload := p.raw[|raw|..], p.payload[|front|..];
      var wire', payload' := p.raw[|raw+f.raw|..], p.payload[|front+f.payload|..];
      assert wire == f.raw + wire' && payload == f.payload + payload';
      assert payload[..MAX_PAYLOAD] == f.payload && payload[MAX_PAYLOAD..] == payload';
      assert wire[HEADER_LEN+MAX_PAYLOAD..] == wire' && wire[3] == f.seqId;
      assert SeqIds(wire) == [f.seqId] + SeqIds(wire');
      assert SeqIds(wire)[1..] == SeqIds(wire');
      assert wire + rest == f.raw + (wire' + rest);
    }
  }

  lemma FragmentIsPrefix(s: bytes, end: IOError)
    requires FirstFragment(s, end).0.Success?
    ensures
      var (f, rest) := (FirstFragment(s, end).0.value, FirstFragment(s, end).1);
      s == f.raw + rest && |f.raw| == HEADER_LEN + |f.payload|
  {
  }

  /** Whatever packet is read, fragmenting its payload again under the recorded sequence ids gives its raw
      bytes; those stood at the front of the stream; and their number follows from the payload's. */
  lemma ReadPacketIsFragmented(s: bytes, end: IOError)
    requires FirstPacket(s, end).0.Success?
    ensures
      var (p, rest) := (FirstPacket(s, end).0.value, FirstPacket(s, end).1);
      && s == p.raw + rest
      && |SeqIds(p.raw)| == FragmentCount(p.payload)
      && p.raw == Fragmented(p.payload, SeqIds(p.raw))
      && p.seqId == SeqIds(p.raw)[|SeqIds(p.raw)|-1]
      && |p.raw| == |p.payload| + HEADER_LEN * (|p.payload| / MAX_PAYLOAD + 1)
  {
    ContinueFromNothing(s, end);
    ContinuedIsFragmented([], [], s, end);
    var p := FirstPacket(s, end).0.value;
    assert p.raw[0..] == p.raw && p.payload[0..] == p.payload;
    FragmentCountIs(p.payload);
    FragmentedLength(p.payload, SeqIds(p.raw));
  }

  lemma {:induction false} FragmentedLength(payload: bytes, seqIds: bytes)
    requires |seqIds| == FragmentCount(payload)
    ensures |Fragmented(payload, seqIds)| == |payload| + HEADER_LEN * FragmentCount(payload)
    decreases |payload|
  {
    if |payload| < MAX_PAYLOAD {
    } else {
      FragmentedLength(payload[MAX_PAYLOAD..], seqIds[1..]);
    }
  }

  // ---- whole runs ----

  datatype Run = Run(packets: seq<Packet>, stop: ReadError, unread: bytes)

  /** Reading packets until the first error. */
  function ReadAll(s: bytes, end: IOError): Run
    decreases |s|
  {
    match FirstPacket(s, end)
    case (Failure(e), rest) => Run([], e, rest)
    case (Success(p), rest) =>
      ReadPacketIsFragmented(s, end);
      var run := ReadAll(rest, end);
      Run([p] + run.packets, run.stop, run.unread)
  }

  /** The stream after `n` successful reads. */
  function After(s: bytes, n: nat, end: IOError): bytes
    requires n <= |ReadAll(s, end).packets|
    decreases n
  {
    if n == 0 then s else After(FirstPacket(s, end).1, n - 1, end)
  }

  function Raws(packets: seq<Packet>): bytes {
    if packets == [] then [] else packets[0].raw + Raws(packets[1..])
  }

  /** Nothing is lost, altered or held back: after any number of reads the raw bytes handed out,
      followed by the unread rest, are the original stream. */
  lemma {:induction false} RunConservesBytes(s: bytes, n: nat, end: IOError)
    requires n <= |ReadAll(s, end).packets|
    ensures Raws(ReadAll(s, end).packets[..n]) + After(s, n, end) == s
    decreases n
  {
    hide FirstPacket, Fragmented, SeqIds;
    if n == 0 {
    } else {
      ReadPacketIsFragmented(s, end);
      var (p, rest) := (FirstPacket(s, end).0.value, FirstPacket(s, end).1);
      RunConservesBytes(rest, n - 1, end);
      var packets := ReadAll(s, end).packets;
      assert packets[..n] == [p] + ReadAll(rest, end).packets[..n-1];
      assert packets[..n][1..] == ReadAll(rest, end).packets[..n-1];
    }
  }

  datatype Sent = Sent(payload: bytes, seqIds: bytes)

  predicate SentOK(m: Sent) { |m.seqIds| == FragmentCount(m.payload) }

  /** The packet a sent message is read as. */
  function PacketOf(m: Sent): Packet
    requires SentOK(m)
  {
    Packet(m.seqIds[|m.seqIds|-1], m.payload, Fragmented(m.payload, m.seqIds))
  }

  function OnWire(messages: seq<Sent>): bytes
    requires forall i | 0 <= i < |messages| :: SentOK(messages[i])
  {
    if messages == [] then []
    else
      assert SentOK(messages[0]);
      Fragmented(messages[0].payload, messages[0].seqIds) + OnWire(messages[1..])
  }

  /** A run over any sequence of fragmented payloads reads back exactly those payloads, then a clean end. */
  lemma {:induction false} RunReadsWhatWasSent(messages: seq<Sent>)
    requires forall i | 0 <= i < |messages| :: SentOK(messages[i])
    ensures
      var run := ReadAll(OnWire(messages), EOF);
      && |run.packets| == |messages|
      && (forall i | 0 <= i < |messages| :: run.packets[i] == PacketOf(messages[i]))
      && run.stop == Bare(EOF) && run.unread == []
    decreases |messages|
  {
    if messages == [] {
    } else {
      var m, more := messages[0], messages[1..];
      FragmentedIsRead(m.payload, m.seqIds, OnWire(more), EOF);
      RunReadsWhatWasSent(more);
    }
  }

  /** A caller that reads until the first error sees that run. */
  method Drain(reader: Reader) returns (packets: seq<Packet>, stop: ReadError)
    requires reader.Valid()
    modifies reader.r, reader.r.conn, reader.hdr
    ensures reader.Valid()
    ensures Run(packets, stop, reader.r.Remaining()) == ReadAll(old(reader.r.Remaining()), reader.r.conn.end)
  {
    hide FirstPacket, Fragmented, SeqIds, FragmentCount;
    ghost var s, end := reader.r.Remaining(), reader.r.conn.end;
    packets := [];
    while true
      invariant reader.Valid()
      invariant
        var run := ReadAll(reader.r.Remaining(), end);
        ReadAll(s, end) == Run(packets + run.packets, run.stop, run.unread)
      decreases |reader.r.Remaining()|
    {
      ghost var before := reader.r.Remaining();
      var res := reader.ReadPacket();
      if res.Failure? {
        assert packets + [] == packets;
        return packets, res.error;
      }
      ReadPacketIsFragmented(before, end);
      ghost var more := ReadAll(reader.r.Remaining(), end).packets;
      assert packets + ([res.value] + more) == (packets + [res.value]) + more;
      packets := packets + [res.value];
    }
  }

  /** Two connections that carry the same bytes, one of them partly behind a replayed prefix, and split
      their reads in whatever way, give the same packets and the same error. */
  method ChunkingIsInvisible(data: bytes, k: nat, idle: nat, idle': nat, end: IOError)
    returns (a: seq<Packet>, aStop: ReadError, b: seq<Packet>, bStop: ReadError)
    requires k <= |data|
    ensures a == b == ReadAll(data, end).packets
    ensures aStop == bStop == ReadAll(data, end).stop
  {
    var plain := new Conn(data, idle, end);
    var r := new PrefixedConn(plain, []);
    var reader := new Reader(r);
    assert r.Remaining() == data;
    a, aStop := Drain(reader);
    var later := new Conn(data[k..], idle', end);
    r := new PrefixedConn(later, data[..k]);
    reader := new Reader(r);
    assert r.Remaining() == data;
    b, bStop := Drain(reader);
  }

  // ---- which error a truncated stream gives ----

  /** A bare io.EOF means the stream was empty at the call, and only that. */
  lemma BareEOFMeaning(s: bytes)
    ensures FirstPacket(s, EOF).0 == Failure(Bare(EOF)) <==> s == []
  {
    hide Continue;
    if FirstFragment(s, EOF).0.Success? && FirstFragment(s, EOF).0.value.more {
      var f, rest := FirstFragment(s, EOF).0.value, FirstFragment(s, EOF).1;
      ContinueNeverFailsBare(f.raw, f.payload, rest);
    }
  }

  lemma {:induction false} ContinueNeverFailsBare(raw: bytes, payload: bytes, s: bytes)
    ensures Continue(raw, payload, s, EOF).0 != Failure(Bare(EOF))
    decreases |s|
  {
    if FirstFragment(s, EOF).0.Failure? || !FirstFragment(s, EOF).0.value.more {
    } else {
      var f, rest := FirstFragment(s, EOF).0.value, FirstFragment(s, EOF).1;
      ContinueNeverFailsBare(raw + f.raw, payload + f.payload, rest);
    }
  }

  /** The error at the bottom of a chain of wrappers, as errors.Is sees it. */
  function Root(e: ReadError): IOError {
    match e
    case Bare(error) => error
    case InPayload(_, error) => error
    case InContinuation(inner) => Root(inner)
  }

  /** What is left of the stream after its complete maximal fragments. */
  function AfterFullFragments(s: bytes): bytes
    decreases |s|
  {
    if |s| >= HEADER_LEN + MAX_PAYLOAD && PayloadLength(s) == MAX_PAYLOAD
    then AfterFullFragments(s[HEADER_LEN+MAX_PAYLOAD..]) else s
  }

  /** The comment on ReadPacket promises io.ErrUnexpectedEOF for a truncated packet.  The code keeps that
      promise exactly when the stream does not end between two fragments or right behind a fragment header;
      there the error's root is io.EOF although the packet is incomplete. */
  lemma {:induction false} TruncationError(s: bytes)
    requires FirstPacket(s, EOF).0.Failure?
    ensures Root(FirstPacket(s, EOF).0.error) ==
            if |AfterFullFragments(s)| in {0, HEADER_LEN} then IOError.EOF else UnexpectedEOF
  {
    if FirstFragment(s, EOF).0.Success? {
      var f, rest := FirstFragment(s, EOF).0.value, FirstFragment(s, EOF).1;
      ContinuationError(f.raw, f.payload, rest);
    }
  }

  lemma {:induction false} ContinuationError(raw: bytes, payload: bytes, s: bytes)
    requires Continue(raw, payload, s, EOF).0.Failure?
    ensures Root(Continue(raw, payload, s, EOF).0.error) ==
            if |AfterFullFragments(s)| in {0, HEADER_LEN} then IOError.EOF else UnexpectedEOF
    decreases |s|
  {
    if FirstFragment(s, EOF).0.Failure? {
    } else {
      var f, rest := FirstFragment(s, EOF).0.value, FirstFragment(s, EOF).1;
      ContinuationError(raw + f.raw, payload + f.payload, rest);
    }
  }

  /** A failure of the connection is at the root of the error, wherever the stream ends. */
  lemma TransportErrorIsPassedOn(s: bytes, code: int)
    requires FirstPacket(s, Failed(code)).0.Failure?
    ensures Root(FirstPacket(s, Failed(code)).0.error) == Failed(code)
  {
    hide Continue;
    if FirstFragment(s, Failed(code)).0.Success? {
      var f, rest := FirstFragment(s, Failed(code)).0.value, FirstFragment(s, Failed(code)).1;
      ContinuationPassesOn(f.raw, f.payload, rest, code);
    }
  }

  lemma {:induction false} ContinuationPassesOn(raw: bytes, payload: bytes, s: bytes, code: int)
    requires Continue(raw, payload, s, Failed(code)).0.Failure?
    ensures Root(Continue(raw, payload, s, Failed(code)).0.error) == Failed(code)
    decreases |s|
  {
    if FirstFragment(s, Failed(code)).0.Failure? {
    } else {
      var f, rest := FirstFragment(s, Failed(code)).0.value, FirstFragment(s, Failed(code)).1;
      ContinuationPassesOn(raw + f.raw, payload + f.payload, rest, code);
    }
  }

  /** A header that announces one byte, and then nothing: the root of the error is io.EOF. */
  lemma TruncatedBehindHeader()
    ensures FirstPacket([1, 0, 0, 0], EOF).0 == Failure(InPayload(1, EOF))
  {
    var s: bytes := [1, 0, 0, 0];
    assert s[..3] == [1, 0, 0] && s[..3][1..] == [0, 0] && s[..3][1..][1..] == [0];
    assert LE([0]) == 0 && LE([0, 0]) == 0;
  }

  /** Nor is one between two fragments the promised one, under any sequence id and with any full first fragment. */
  lemma TruncatedBetweenFragments(seqId: byte, body: bytes)
    requires |body| == MAX_PAYLOAD
    ensures FirstPacket(Header(MAX_PAYLOAD, seqId) + body, EOF).0 == Failure(InContinuation(Bare(EOF)))
  {
    hide Header, FirstFragment;
    var s := Header(MAX_PAYLOAD, seqId) + body;
    FragmentIsRead(MAX_PAYLOAD, seqId, body, [], EOF);
    assert s + [] == s;
    FirstFragmentCases([], EOF);
  }
}
