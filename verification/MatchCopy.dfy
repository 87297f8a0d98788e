/** The back-reference copy of the decompressors: the byte-at-a-time definition and the three-way
    version built from memset and non-overlapping memcpy. */
module MatchCopy {
  import opened Bits

  /** Appends len bytes, each equal to the byte dist positions before it. */
  function Repeat(s: seq<byte>, dist: nat, len: nat): (r: seq<byte>)
    requires 0 < dist <= |s|
    ensures |r| == |s| + len && r[..|s|] == s
    decreases len
  {
    if len == 0 then s else Repeat(s + [s[|s| - dist]], dist, len - 1)
  }

  lemma {:induction false} RepeatAt(s: seq<byte>, dist: nat, len: nat, k: nat)
    requires 0 < dist <= |s| && |s| <= k < |s| + len
    ensures Repeat(s, dist, len)[k] == Repeat(s, dist, len)[k - dist]
    decreases len
  {
    var s' := s + [s[|s| - dist]];
    if k == |s| {
      var r := Repeat(s, dist, len);
      assert r[k] == r[..|s'|][k] && r[k - dist] == r[..|s'|][k - dist];
    } else {
      RepeatAt(s', dist, len - 1, k);
    }
  }

  /** A sequence that starts with s and repeats at distance dist is the copy. */
  lemma {:induction false} RepeatUnique(s: seq<byte>, dist: nat, len: nat, r: seq<byte>)
    requires 0 < dist <= |s| && |r| == |s| + len && r[..|s|] == s
    requires forall k :: |s| <= k < |r| ==> r[k] == r[k - dist]
    ensures r == Repeat(s, dist, len)
    decreases len
  {
    if len > 0 {
      var s' := s + [s[|s| - dist]];
      assert r[|s|] == r[|s| - dist] == r[..|s|][|s| - dist];
      assert r[..|s'|] == s';
      RepeatUnique(s', dist, len - 1, r);
    }
  }

  method Memset(out: array<byte>, dst: nat, c: byte, n: nat)
    requires dst + n <= out.Length
    modifies out
    ensures forall k :: 0 <= k < out.Length ==> out[k] == if dst <= k < dst + n then c else old(out[k])
  {
    forall k | dst <= k < dst + n {
      out[k] := c;
    }
  }

  /** memcpy, which requires disjoint ranges. */
  method Memcpy(out: array<byte>, dst: nat, src: nat, n: nat)
    requires src + n <= dst && dst + n <= out.Length
    modifies out
    ensures forall k :: 0 <= k < out.Length ==>
              out[k] == if dst <= k < dst + n then old(out[src + k - dst]) else old(out[k])
  {
    forall k | dst <= k < dst + n {
      out[k] := out[src + k - dst];
    }
  }

  /** The loop of memcpys of at most dist bytes. */
  method CopyPieces(out: array<byte>, pout0: nat, dist: nat, len0: nat)
    requires 0 < dist <= pout0 && pout0 + len0 <= out.Length
    modifies out
    ensures forall k :: 0 <= k < out.Length && !(pout0 <= k < pout0 + len0) ==> out[k] == old(out[k])
    ensures forall k :: pout0 <= k < pout0 + len0 ==> out[k] == out[k - dist]
  {
    var pout, len: nat := pout0, len0;
    while len > 0
      invariant pout + len == pout0 + len0 && len <= len0
      invariant forall k :: 0 <= k < out.Length && !(pout0 <= k < pout) ==> out[k] == old(out[k])
      invariant forall k :: pout0 <= k < pout ==> out[k] == out[k - dist]
    {
      var copy := if len < dist then len else dist;
      label before:
      Memcpy(out, pout, pout - dist, copy);
      forall k | pout0 <= k < pout + copy ensures out[k] == out[k - dist] {
        if k >= pout {
          assert out[k] == old@before(out[pout - dist + k - pout]);
        }
      }
      len := len - copy;
      pout := pout + copy;
    }
  }

  /** The copy of a match: distance 1 is a memset, a match no longer than its distance one memcpy,
      anything else repeated memcpys of at most dist bytes. */
  method CopyMatch(out: array<byte>, pout0: nat, dist: nat, len0: nat) returns (pout: nat)
    requires 0 < dist <= pout0 && pout0 + len0 <= out.Length
    modifies out
    ensures pout == pout0 + len0
    ensures out[..pout] == Repeat(old(out[..pout0]), dist, len0)
    ensures out[pout..] == old(out[pout0 + len0..])
  {
    ghost var s, rest := out[..pout0], out[pout0 + len0..];
    pout := pout0 + len0;
    if dist == 1 {
      Memset(out, pout0, out[pout0 - 1], len0);
    } else if dist >= len0 {
      Memcpy(out, pout0, pout0 - dist, len0);
    } else {
      CopyPieces(out, pout0, dist, len0);
    }
    assert out[..pout][..pout0] == s && out[pout..] == rest;
    RepeatUnique(s, dist, len0, out[..pout]);
  }

  /** memcpy from the input to the output. */
  method CopyIn(out: array<byte>, dst: nat, data: seq<byte>)
    requires dst + |data| <= out.Length
    modifies out
    ensures out[..dst + |data|] == old(out[..dst]) + data
    ensures out[dst + |data|..] == old(out[dst + |data|..])
  {
    forall k | 0 <= k < |data| {
      out[dst + k] := data[k];
    }
  }
}
