/** Antecedent chains: increasing clause indices as differences in groups of seven bits, ended by a zero. */
module Chains {

  type Bytes = seq<nat>

  /** Seven bits at a time, low bits first; all groups but the last carry the high bit. */
  function EncodeNumber(u: nat): (b: Bytes)
    ensures |b| > 0 && forall k :: 0 <= k < |b| ==> b[k] < 256
  {
    if u < 128 then [u] else [u % 128 + 128] + EncodeNumber(u / 128)
  }

  ghost predicate Increasing(prev: nat, s: seq<nat>) {
    && (s != [] ==> prev < s[0])
    && forall i, j :: 0 <= i < j < |s| ==> s[i] < s[j]
  }

  function Chain(prev: nat, s: seq<nat>): Bytes
    requires Increasing(prev, s)
    decreases |s|
  {
    if s == [] then [0] else EncodeNumber(s[0] - prev) + Chain(s[0], s[1..])
  }

  /** Seven more bits. */
  function Gathered(delta: nat, byte: nat, weight: nat): nat {
    delta + byte % 128 * weight
  }

  /** What the decoding loop reads from `b` on, with `delta` gathered so far and the next group of the given
      weight. */
  function Decoded(b: Bytes, delta: nat, weight: nat, prev: nat): seq<nat> {
    if b == [] || b[0] == 0 then []
    else
      var sum := Gathered(delta, b[0], weight);
      if b[0] >= 128 then Decoded(b[1..], sum, weight * 128, prev)
      else [prev + sum] + Decoded(b[1..], 0, 1, prev + sum)
  }

  lemma {:induction false} DecodeNumber(u: nat, rest: Bytes, delta: nat, weight: nat, prev: nat)
    requires u > 0
    ensures var next := prev + delta + u * weight;
      Decoded(EncodeNumber(u) + rest, delta, weight, prev) == [next] + Decoded(rest, 0, 1, next)
    decreases u
  {
    var b := EncodeNumber(u) + rest;
    if u < 128 {
      assert b[1..] == rest;
    } else {
      var v, r := u / 128, u % 128;
      assert b[1..] == EncodeNumber(v) + rest && b[0] == r + 128 && b[0] % 128 == r;
      DecodeNumber(v, rest, delta + r * weight, weight * 128, prev);
      SplitGroup(u, weight);
    }
  }

  lemma SplitGroup(u: nat, weight: nat)
    ensures u * weight == u % 128 * weight + u / 128 * (weight * 128)
  {
    var v, r := u / 128, u % 128;
    assert u == 128 * v + r;
    assert (128 * v + r) * weight == 128 * v * weight + r * weight;
  }

  /** Decoding a chain gives back the indices. */
  lemma {:induction false} RoundTrip(prev: nat, s: seq<nat>)
    requires Increasing(prev, s)
    ensures Decoded(Chain(prev, s), 0, 1, prev) == s
    decreases |s|
  {
    if s != [] {
      DecodeNumber(s[0] - prev, Chain(s[0], s[1..]), 0, 1, prev);
      RoundTrip(s[0], s[1..]);
    }
  }

  /** No byte of a positive number is zero. */
  lemma {:induction false} NumberNotZero(u: nat)
    requires u > 0
    ensures forall k :: 0 <= k < |EncodeNumber(u)| ==> EncodeNumber(u)[k] != 0
    decreases u
  {
    if u >= 128 {
      NumberNotZero(u / 128);
    }
  }

  /** A chain ends at its first zero. */
  lemma {:induction false} OnlyTheEndIsZero(prev: nat, s: seq<nat>)
    requires Increasing(prev, s)
    ensures var c := Chain(prev, s); |c| > 0 && c[|c| - 1] == 0 && forall k :: 0 <= k < |c| - 1 ==> c[k] != 0
    decreases |s|
  {
    if s != [] {
      NumberNotZero(s[0] - prev);
      OnlyTheEndIsZero(s[0], s[1..]);
    }
  }

  /** Numbers of 32 bits take five groups, so no group is shifted by more than 28. */
  lemma FiveGroups(u: nat)
    requires u < 0x1_0000_0000
    ensures |EncodeNumber(u)| <= 5
  {
    GroupsShrink(u, 4);
  }

  lemma {:induction false} GroupsShrink(u: nat, n: nat)
    requires u < Power128(n + 1)
    ensures |EncodeNumber(u)| <= n + 1
    decreases n
  {
    if u >= 128 && n > 0 {
      GroupsShrink(u / 128, n - 1);
    }
  }

  function Power128(n: nat): nat {
    if n == 0 then 1 else 128 * Power128(n - 1)
  }

  class Buffer {
    var bytes: Bytes

    constructor ()
      ensures bytes == []
    {
      bytes := [];
    }

    method PushByte(c: nat)
      modifies this
      ensures bytes == old(bytes) + [c]
    {
      bytes := bytes + [c];
    }

    method PushNumber(n: nat)
      modifies this
      ensures bytes == old(bytes) + EncodeNumber(n)
    {
      var u := n;
      while u >= 128
        invariant bytes + EncodeNumber(u) == old(bytes) + EncodeNumber(n)
        decreases u
      {
        PushByte(u % 128 + 128);
        u := u / 128;
      }
      PushByte(u);
    }

    /** Encode the sorted indices of the resolved clauses. */
    method AddChain(resolved: seq<nat>)
      requires Increasing(0, resolved) && bytes == []
      modifies this
      ensures bytes == Chain(0, resolved)
    {
      hide Chain, EncodeNumber;
      assert resolved[0..] == resolved;
      var prev := 0;
      for i := 0 to |resolved|
        invariant Increasing(prev, resolved[i..])
        invariant bytes + Chain(prev, resolved[i..]) == Chain(0, resolved)
      {
        ChainStep(prev, resolved[i..]);
        assert resolved[i..][1..] == resolved[i + 1..];
        PushNumber(resolved[i] - prev);
        prev := resolved[i];
      }
      ChainEnd(prev);
      PushByte(0);
    }
  }

  lemma ChainStep(prev: nat, s: seq<nat>)
    requires Increasing(prev, s) && s != []
    ensures Increasing(s[0], s[1..]) && Chain(prev, s) == EncodeNumber(s[0] - prev) + Chain(s[0], s[1..])
  {
  }

  lemma ChainEnd(prev: nat)
    ensures Chain(prev, []) == [0]
  {
  }

  /** One byte that does not end the chain. */
  lemma DecodedStep(b: Bytes, p: nat, delta: nat, weight: nat, prev: nat)
    requires p < |b| && b[p] != 0
    ensures var sum := Gathered(delta, b[p], weight);
      Decoded(b[p..], delta, weight, prev)
      == if b[p] >= 128 then Decoded(b[p + 1..], sum, weight * 128, prev)
         else [prev + sum] + Decoded(b[p + 1..], 0, 1, prev + sum)
    ensures 0 in b[p..] ==> 0 in b[p + 1..]
  {
    assert b[p..][1..] == b[p + 1..] && b[p..][0] == b[p];
    assert b[p..] == [b[p]] + b[p + 1..];
  }

  lemma DecodedEnd(b: Bytes, p: nat, delta: nat, weight: nat, prev: nat)
    requires p < |b| && b[p] == 0
    ensures Decoded(b[p..], delta, weight, prev) == []
  {
  }

  /** Read a chain up to its zero. */
  method Decode(znt: Bytes) returns (indices: seq<nat>)
    requires 0 in znt
    ensures indices == Decoded(znt, 0, 1, 0)
  {
    hide Decoded, Gathered;
    var p, delta: nat, weight: nat, prev: nat := 0, 0, 1, 0;
    indices := [];
    assert znt[0..] == znt;
    while znt[p] != 0
      invariant 0 <= p < |znt| && 0 in znt[p..]
      invariant indices + Decoded(znt[p..], delta, weight, prev) == Decoded(znt, 0, 1, 0)
      decreases |znt| - p
    {
      DecodedStep(znt, p, delta, weight, prev);
      var byte := znt[p];
      delta := Gathered(delta, byte, weight);
      p := p + 1;
      if byte >= 128 {
        weight := weight * 128;
      } else {
        prev := prev + delta;
        indices := indices + [prev];
        delta, weight := 0, 1;
      }
    }
    DecodedEnd(znt, p, delta, weight, prev);
  }
}
