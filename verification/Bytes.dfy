/**
 Byte strings, fixed-width integers and substring search: what the wire parsers
 take from Go's `encoding/binary` and `bytes` packages.  A Go string is a byte
 string here, as it is in Go.
 */
module Bytes {
  newtype byte = b: int | 0 <= b < 0x100
  type bytes = seq<byte>

  const TWO_32: int := 0x1_0000_0000

  datatype Option<+T> = None | Some(value: T)
  datatype Result<+T, +E> = Success(value: T) | Failure(error: E)

  /** The bytes of an ASCII literal. */
  function Ascii(s: string): (r: bytes)
    ensures |r| == |s|
  {
    seq(|s|, i requires 0 <= i < |s| => (s[i] as int % 0x100) as byte)
  }

  lemma AsciiOfConcat(a: string, b: string)
    ensures Ascii(a + b) == Ascii(a) + Ascii(b)
  {
  }

  predicate NulFree(s: bytes) {
    forall i | 0 <= i < |s| :: s[i] != 0
  }

  /** The first index at or after `from` that holds a NUL; past the end when there is none. */
  function FindNul(s: bytes, from: nat): (k: nat)
    ensures from <= k
    ensures k <= |s| || k == from
    ensures k < |s| ==> s[k] == 0
    decreases |s| - from
  {
    if from >= |s| || s[from] == 0 then from else FindNul(s, from + 1)
  }

  /** There is no NUL between `from` and FindNul's result, and that pins the result down. */
  lemma {:induction false} FindNulIsFirst(s: bytes, from: nat, k: nat)
    requires from <= k <= |s|
    requires forall j | from <= j < k :: s[j] != 0
    requires k < |s| ==> s[k] == 0
    ensures FindNul(s, from) == k
    decreases k - from
  {
    if from == k {
    } else {
      FindNulIsFirst(s, from + 1, k);
    }
  }

  lemma {:induction false} FindNulSkipsNone(s: bytes, from: nat)
    ensures forall j | from <= j < FindNul(s, from) :: s[j] != 0
    decreases |s| - from
  {
    if from >= |s| || s[from] == 0 {
    } else {
      FindNulSkipsNone(s, from + 1);
    }
  }

  /** The scan for a NUL that the parsers write inline. */
  method ScanToNul(s: bytes, from: nat) returns (p: nat)
    ensures p == FindNul(s, from)
  {
    p := from;
    while p < |s| && s[p] != 0
      invariant FindNul(s, p) == FindNul(s, from)
    {
      p := p + 1;
    }
  }

  // ---- fixed-width integers ----

  function Pow256(w: nat): (p: nat)
    ensures p > 0
  {
    if w == 0 then 1 else 0x100 * Pow256(w - 1)
  }

  /** The little-endian value of a byte string. */
  function LE(s: bytes): nat {
    if s == [] then 0 else s[0] as int + 0x100 * LE(s[1..])
  }

  /** The low `w` bytes of `n`, least significant first. */
  function PutLE(n: nat, w: nat): (r: bytes)
    ensures |r| == w
    decreases w
  {
    if w == 0 then [] else [(n % 0x100) as byte] + PutLE(n / 0x100, w - 1)
  }

  function BE(s: bytes): nat {
    if s == [] then 0 else 0x100 * BE(s[..|s|-1]) + s[|s|-1] as int
  }

  function PutBE(n: nat, w: nat): (r: bytes)
    ensures |r| == w
    decreases w
  {
    if w == 0 then [] else PutBE(n / 0x100, w - 1) + [(n % 0x100) as byte]
  }

  lemma {:induction false} LEBound(s: bytes)
    ensures LE(s) < Pow256(|s|)
  {
    if s == [] {
    } else {
      LEBound(s[1..]);
    }
  }

  lemma {:induction false} BEBound(s: bytes)
    ensures BE(s) < Pow256(|s|)
  {
    if s == [] {
    } else {
      BEBound(s[..|s|-1]);
    }
  }

  /** Reading what was written gives the number back. */
  lemma {:induction false} LEOfPut(n: nat, w: nat)
    requires n < Pow256(w)
    ensures LE(PutLE(n, w)) == n
    decreases w
  {
    if w == 0 {
    } else {
      LEOfPut(n / 0x100, w - 1);
      assert PutLE(n, w)[1..] == PutLE(n / 0x100, w - 1);
    }
  }

  lemma {:induction false} BEOfPut(n: nat, w: nat)
    requires n < Pow256(w)
    ensures BE(PutBE(n, w)) == n
    decreases w
  {
    if w == 0 {
    } else {
      BEOfPut(n / 0x100, w - 1);
      assert PutBE(n, w)[..w-1] == PutBE(n / 0x100, w - 1);
    }
  }

  /** Writing what was read gives the bytes back. */
  lemma {:induction false} PutOfLE(s: bytes)
    ensures PutLE(LE(s), |s|) == s
  {
    if s == [] {
    } else {
      PutOfLE(s[1..]);
    }
  }

  lemma {:induction false} PutOfBE(s: bytes)
    ensures PutBE(BE(s), |s|) == s
  {
    if s == [] {
    } else {
      PutOfBE(s[..|s|-1]);
    }
  }

  lemma Pow256Of4()
    ensures Pow256(4) == TWO_32
  {
    assert Pow256(1) == 0x100 && Pow256(2) == 0x1_0000 && Pow256(3) == 0x100_0000;
  }

  /** binary.LittleEndian.Uint32(s[at:]) */
  function LE32(s: bytes, at: nat): (n: nat)
    requires at + 4 <= |s|
    ensures n < TWO_32
  {
    LEBound(s[at..at+4]); Pow256Of4();
    LE(s[at..at+4])
  }

  /** Least significant byte first. */
  lemma LE32Bytes(s: bytes, at: nat)
    requires at + 4 <= |s|
    ensures LE32(s, at) ==
            s[at] as int + 0x100 * s[at+1] as int + 0x1_0000 * s[at+2] as int + 0x100_0000 * s[at+3] as int
  {
    var b := s[at..at+4];
    assert LE(b) == b[0] as int + 0x100 * LE(b[1..]);
    assert b[1..][1..] == b[2..] && LE(b[1..]) == b[1] as int + 0x100 * LE(b[2..]);
    assert b[2..][1..] == b[3..] && LE(b[2..]) == b[2] as int + 0x100 * LE(b[3..]);
    assert b[3..][1..] == [] && LE(b[3..]) == b[3] as int + 0x100 * LE([]);
  }

  /** The four bytes written by binary.LittleEndian.PutUint32; Go's conversion to uint32 keeps the low 32 bits. */
  function PutLE32(n: int): (r: bytes)
    ensures |r| == 4
  {
    PutLE(n % TWO_32, 4)
  }

  /** Go's conversion of a uint32 to int32. */
  function ToInt32(u: nat): (i: int)
    requires u < TWO_32
    ensures -0x8000_0000 <= i < 0x8000_0000
    ensures i % TWO_32 == u
  {
    if u < 0x8000_0000 then u else u - TWO_32
  }

  // ---- byte strings inside byte strings ----

  /** `part` stands in `data` at `pos`. */
  predicate At(data: bytes, pos: nat, part: bytes) {
    pos + |part| <= |data| && data[pos..pos+|part|] == part
  }

  predicate StandsAt(data: bytes, pos: nat, part: bytes) {
    pos + |part| <= |data| && forall j | 0 <= j < |part| :: data[pos+j] == part[j]
  }

  lemma AtIsElementwise(data: bytes, pos: nat, part: bytes)
    ensures At(data, pos, part) <==> StandsAt(data, pos, part)
  {
    if At(data, pos, part) {
      forall j | 0 <= j < |part| ensures data[pos+j] == part[j] {
        assert data[pos..pos+|part|][j] == data[pos+j];
      }
    }
  }

  lemma AtSplit(data: bytes, pos: nat, a: bytes, b: bytes)
    requires At(data, pos, a + b)
    ensures At(data, pos, a) && At(data, pos + |a|, b)
  {
    assert data[pos..pos+|a|] == (a + b)[..|a|] == a;
    assert data[pos+|a|..pos+|a|+|b|] == (a + b)[|a|..] == b;
  }

  lemma AtSplit3(data: bytes, pos: nat, a: bytes, b: bytes, c: bytes)
    requires At(data, pos, a + b + c)
    ensures At(data, pos, a) && At(data, pos + |a|, b) && At(data, pos + |a| + |b|, c)
  {
    AtSplit(data, pos, a + b, c);
    AtSplit(data, pos, a, b);
  }

  lemma AtSplit4(data: bytes, pos: nat, a: bytes, b: bytes, c: bytes, d: bytes)
    requires At(data, pos, a + b + c + d)
    ensures At(data, pos, a) && At(data, pos + |a|, b)
    ensures At(data, pos + |a| + |b|, c) && At(data, pos + |a| + |b| + |c|, d)
  {
    AtSplit(data, pos, a + b + c, d);
    AtSplit3(data, pos, a, b, c);
  }

  lemma AtFirst(data: bytes, pos: nat, part: bytes)
    ensures At(data, pos, part) && part != [] ==> data[pos] == part[0]
  {
    if At(data, pos, part) && part != [] { assert data[pos] == data[pos..pos+|part|][0]; }
  }

  lemma AtInside(data: bytes, pos: nat, s: bytes, k: nat, part: bytes)
    requires At(data, pos, s) && At(s, k, part)
    ensures At(data, pos + k, part)
  {
    forall j | 0 <= j < |part| ensures data[pos+k+j] == part[j] {
      assert s[k..k+|part|][j] == s[k+j];
      assert data[pos..pos+|s|][k+j] == data[pos+k+j];
    }
    assert data[pos+k..pos+k+|part|] == part;
  }

  lemma AtJoin(data: bytes, pos: nat, a: bytes, b: bytes)
    requires At(data, pos, a) && At(data, pos + |a|, b)
    ensures At(data, pos, a + b)
  {
    assert data[pos..pos+|a|+|b|] == data[pos..pos+|a|] + data[pos+|a|..pos+|a|+|b|];
  }

  lemma AtIsSlice(data: bytes, pos: nat, part: bytes)
    requires At(data, pos, part)
    ensures pos + |part| <= |data| && data[pos..pos+|part|] == part
  {
  }

  lemma AtWhole(s: bytes, tail: bytes)
    ensures At(s + tail, 0, s) && At(s + tail, |s|, tail)
  {
  }

  lemma LE32At(data: bytes, pos: nat, n: nat)
    requires n < TWO_32 && At(data, pos, PutLE32(n))
    ensures LE32(data, pos) == n
  {
    Pow256Of4();
    LEOfPut(n, 4);
    hide LE, PutLE, Pow256;
    assert data[pos..pos+4] == PutLE(n, 4);
  }

  /** A NUL-free string followed by a NUL ends where FindNul says. */
  lemma NulAfter(data: bytes, pos: nat, s: bytes)
    requires NulFree(s) && At(data, pos, s) && At(data, pos + |s|, [0])
    ensures FindNul(data, pos) == pos + |s|
  {
    forall j | pos <= j < pos + |s| ensures data[j] != 0 {
      assert data[j] == data[pos..pos+|s|][j - pos];
    }
    assert data[pos+|s|] == data[pos+|s|..pos+|s|+1][0];
    FindNulIsFirst(data, pos, pos + |s|);
  }

  // ---- substring search ----

  /** Go's bytes.Contains. */
  predicate Contains(s: bytes, t: bytes) {
    exists i | 0 <= i <= |s| :: At(s, i, t)
  }

  lemma AtIsContained(data: bytes, pos: nat, t: bytes)
    requires At(data, pos, t)
    ensures Contains(data, t)
  {
  }

  lemma ContainsWithin(data: bytes, pos: nat, s: bytes, t: bytes)
    requires At(data, pos, s) && Contains(s, t)
    ensures Contains(data, t)
  {
    var i :| 0 <= i <= |s| && At(s, i, t);
    AtInside(data, pos, s, i, t);
  }
}
