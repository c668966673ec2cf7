/**
 Filling a byte buffer from front to back, as the packet builders do: `buf := make([]byte, n)`,
 then copies at an advancing position.  Progress is measured against the bytes it should hold.
 */
module Buffers {
  import opened Bytes

  /** The buffer agrees with `target` up to `pos` and is still zero after it. */
  ghost predicate Filled(buf: array<byte>, target: bytes, pos: nat)
    reads buf
  {
    && pos <= buf.Length == |target|
    && (forall i | 0 <= i < pos :: buf[i] == target[i])
    && (forall i | pos <= i < buf.Length :: buf[i] == 0)
  }

  /** make([]byte, n) */
  method ZeroBuffer(n: nat, ghost target: bytes) returns (buf: array<byte>)
    requires n == |target|
    ensures fresh(buf) && Filled(buf, target, 0)
  {
    buf := new byte[n](_ => 0);
  }

  /** Go's copy(buf[pos:], s), the whole of `s` fitting. */
  method Put(buf: array<byte>, pos: nat, s: bytes, ghost target: bytes) returns (next: nat)
    requires Filled(buf, target, pos) && At(target, pos, s)
    modifies buf
    ensures next == pos + |s| && Filled(buf, target, next)
  {
    forall i | 0 <= i < |s| { buf[pos + i] := s[i]; }
    next := pos + |s|;
    assert forall i | pos <= i < next :: target[i] == target[pos..next][i-pos];
  }

  /** Bytes of a fresh buffer that are left alone are zeros. */
  lemma ZerosAreFilled(buf: array<byte>, pos: nat, zeros: bytes, target: bytes)
    requires Filled(buf, target, pos) && At(target, pos, zeros)
    requires forall i | 0 <= i < |zeros| :: zeros[i] == 0
    ensures Filled(buf, target, pos + |zeros|)
  {
    assert forall i | pos <= i < pos + |zeros| :: target[i] == target[pos..pos+|zeros|][i-pos];
  }

  lemma FilledIsTarget(buf: array<byte>, target: bytes, pos: nat)
    requires Filled(buf, target, pos) && pos == |target|
    ensures buf[..] == target
  {
  }
}
