/**
 Byte streams as Go's io package and tlsutil/tlsutil.go present them: a connection that
 may split its bytes over reads in any way, the PrefixedConn wrapper, and io.ReadFull.
 */
module Streams {
  import opened Bytes

  /** What a reader reports: the two end-of-file errors of package io, or a transport failure. */
  datatype IOError = EOF | UnexpectedEOF | Failed(code: int)

  /** An underlying net.Conn.  `rest` is what it has yet to deliver; when that is used up it
      reports `end`.  Every read may deliver any positive number of bytes that fits, or (at most
      `idle` times) none at all, and may report `end` together with the last bytes. */
  class Conn {
    var rest: bytes
    var idle: nat
    const end: IOError

    constructor (rest: bytes, idle: nat, end: IOError)
      ensures this.rest == rest && this.idle == idle && this.end == end
    {
      this.rest, this.idle, this.end := rest, idle, end;
    }

    /** Read into b[lo..hi]. */
    method Read(b: array<byte>, lo: nat, hi: nat) returns (n: nat, err: Option<IOError>)
      requires lo <= hi <= b.Length
      modifies this, b
      ensures n <= hi - lo && n <= |old(rest)| && rest == old(rest)[n..]
      ensures b[lo..lo+n] == old(rest)[..n]
      ensures forall i | 0 <= i < b.Length && !(lo <= i < lo + n) :: b[i] == old(b[i])
      ensures err.Some? ==> rest == [] && err.value == end
      ensures idle <= old(idle)
      ensures n == 0 && err.None? && lo < hi ==> idle < old(idle)
    {
      err, n := None, 0;
      if rest == [] || lo == hi {
        if rest == [] { err := Some(end); }
        return;
      }
      n :| 0 <= n <= hi - lo && n <= |rest| && (n == 0 ==> idle > 0);
      if n == 0 { idle := idle - 1; }
      forall i | lo <= i < lo + n { b[i] := rest[i - lo]; }
      rest := rest[n..];
      var early :| early ==> rest == [];
      if early { err := Some(end); }
    }
  }

  /** tlsutil.PrefixedConn.  An empty prefix gives the connection itself. */
  class PrefixedConn {
    const conn: Conn
    const prefix: bytes
    var offset: nat

    constructor (conn: Conn, prefix: bytes)
      ensures Valid() && Remaining() == prefix + conn.rest && this.conn == conn
    {
      this.conn, this.prefix, this.offset := conn, prefix, 0;
    }

    ghost predicate Valid()
      reads this
    {
      offset <= |prefix|
    }

    /** The bytes a caller has yet to see. */
    ghost function Remaining(): bytes
      requires Valid()
      reads this, conn
    {
      prefix[offset..] + conn.rest
    }

    method Read(b: array<byte>, lo: nat, hi: nat) returns (n: nat, err: Option<IOError>)
      requires Valid() && lo <= hi <= b.Length
      modifies this, conn, b
      ensures Valid()
      ensures n <= hi - lo && n <= |old(Remaining())| && Remaining() == old(Remaining())[n..]
      ensures b[lo..lo+n] == old(Remaining())[..n]
      ensures forall i | 0 <= i < b.Length && !(lo <= i < lo + n) :: b[i] == old(b[i])
      ensures err.Some? ==> Remaining() == [] && err.value == conn.end
      ensures conn.idle <= old(conn.idle)
      ensures n == 0 && err.None? && lo < hi ==> conn.idle < old(conn.idle)
    {
      if offset < |prefix| {
        n := if hi - lo < |prefix| - offset then hi - lo else |prefix| - offset;
        ghost var before := Remaining();
        assert before[..n] == prefix[offset..offset+n];
        forall i | lo <= i < lo + n { b[i] := prefix[offset + i - lo]; }
        offset := offset + n;
        assert Remaining() == before[n..];
        return n, None;
      }
      assert Remaining() == conn.rest;
      n, err := conn.Read(b, lo, hi);
    }
  }

  /** The error io.ReadFull gives when only `n` of the wanted bytes came before `end`. */
  function Short(n: nat, end: IOError): IOError {
    if n > 0 && end == EOF then UnexpectedEOF else end
  }

  /** io.ReadFull(r, b[lo:hi]).  The result depends on the remaining bytes only, not on how
      the connection splits them or where the prefix ends. */
  method ReadFull(r: PrefixedConn, b: array<byte>, lo: nat, hi: nat) returns (err: Option<IOError>)
    requires r.Valid() && lo <= hi <= b.Length
    modifies r, r.conn, b
    ensures r.Valid()
    ensures forall i | 0 <= i < b.Length && !(lo <= i < hi) :: b[i] == old(b[i])
    ensures |old(r.Remaining())| >= hi - lo ==>
              && err == None
              && b[lo..hi] == old(r.Remaining())[..hi-lo]
              && r.Remaining() == old(r.Remaining())[hi-lo..]
    ensures |old(r.Remaining())| < hi - lo ==>
              && err == Some(Short(|old(r.Remaining())|, r.conn.end))
              && r.Remaining() == []
  {
    var n, min := 0, hi - lo;
    ghost var all := r.Remaining();
    err := None;
    while n < min && err.None?
      invariant r.Valid()
      invariant 0 <= n <= min && n <= |all|
      invariant b[lo..lo+n] == all[..n]
      invariant r.Remaining() == all[n..]
      invariant err.Some? ==> r.Remaining() == [] && err.value == r.conn.end
      invariant forall i | 0 <= i < b.Length && !(lo <= i < hi) :: b[i] == old(b[i])
      decreases min - n, r.conn.idle, err.None?
    {
      ghost var left := r.Remaining();
      ghost var front := b[lo..lo+n];
      var nn;
      nn, err := r.Read(b, lo + n, hi);
      assert b[lo..lo+n] == front;
      assert b[lo..lo+n+nn] == b[lo..lo+n] + b[lo+n..lo+n+nn];
      assert all[..n+nn] == all[..n] + left[..nn];
      n := n + nn;
    }
    if n >= min {
      err := None;
    } else if n > 0 && err == Some(EOF) {
      err := Some(UnexpectedEOF);
    }
  }
}
