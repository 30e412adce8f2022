/** Streaming SHA-256.  The compression function is a parameter: everything here holds
    whatever it is.

    The reference is the one-shot definition of FIPS 180-4: pad the message as in its
    section 5.1.1 and fold the compression function over the 64-byte blocks. */
module Sha256 {
  import opened Arith

  const BLOCK: nat := 64

  // ----- Blocks -----------------------------------------------------------

  /** How many whole blocks `len` bytes hold. */
  function Blocks(len: nat): (n: nat)
    ensures 64 * n <= len < 64 * n + 64
  {
    len / 64
  }

  lemma BlocksIs(len: nat, n: nat)
    requires 64 * n <= len < 64 * n + 64
    ensures Blocks(len) == n
  {
  }

  /** The compression function over the first `n` blocks in turn. */
  function Fold<S>(f: (S, seq<Byte>) -> S, s: S, m: seq<Byte>, n: nat): S
    requires 64 * n <= |m|
  {
    if n == 0 then s else f(Fold(f, s, m, n - 1), m[64 * n - 64..64 * n])
  }

  lemma {:induction false} FoldPrefix<S>(f: (S, seq<Byte>) -> S, s: S, m: seq<Byte>, b: seq<Byte>, n: nat)
    requires 64 * n <= |m|
    ensures Fold(f, s, m + b, n) == Fold(f, s, m, n)
  {
    if n > 0 {
      FoldPrefix(f, s, m, b, n - 1);
      assert (m + b)[64 * n - 64..64 * n] == m[64 * n - 64..64 * n];
    }
  }

  /** Folding some blocks and then the rest. */
  lemma {:induction false} FoldSplit<S>(f: (S, seq<Byte>) -> S, s: S, m: seq<Byte>, k: nat, n: nat)
    requires 64 * (k + n) <= |m|
    ensures Fold(f, s, m, k + n) == Fold(f, Fold(f, s, m, k), m[64 * k..], n)
    decreases n
  {
    if n > 0 {
      FoldSplit(f, s, m, k, n - 1);
      assert m[64 * k..][64 * n - 64..64 * n] == m[64 * (k + n) - 64..64 * (k + n)];
    }
  }

  lemma FoldOne<S>(f: (S, seq<Byte>) -> S, s: S, m: seq<Byte>)
    requires |m| == BLOCK
    ensures Fold(f, s, m, 1) == f(s, m)
  {
    assert m[0..64] == m;
  }

  // ----- The streaming state ----------------------------------------------

  /** `state`, the pending part of `buffer`, and `total_len`. */
  datatype Ctx<S> = Ctx(state: S, pending: seq<Byte>, total: nat) {
    predicate Ok() { |pending| < BLOCK }
  }

  function Rest(m: seq<Byte>): (r: seq<Byte>)
    ensures |r| < BLOCK
  {
    m[64 * Blocks(|m|)..]
  }

  /** What `update` does. */
  function Absorb<S>(f: (S, seq<Byte>) -> S, c: Ctx<S>, data: seq<Byte>): (c': Ctx<S>)
    requires c.Ok()
    ensures c'.Ok()
  {
    Consume(f, c.state, c.pending + data, (c.total + |data|) % WORD)
  }

  /** Folding the whole blocks of `x` and keeping the rest. */
  function Consume<S>(f: (S, seq<Byte>) -> S, s: S, x: seq<Byte>, total: nat): (c: Ctx<S>)
    ensures c.Ok()
  {
    Ctx(Fold(f, s, x, Blocks(|x|)), Rest(x), total)
  }

  function Zeros(n: nat): (z: seq<Byte>)
    ensures |z| == n && forall i :: 0 <= i < n ==> z[i] == 0
  {
    if n == 0 then [] else Zeros(n - 1) + [0]
  }

  /** The last `n` bytes of `v`, most significant first. */
  function BytesOf(v: nat, n: nat): (r: seq<Byte>)
    ensures |r| == n
  {
    if n == 0 then [] else BytesOf(v / 256, n - 1) + [v % 256]
  }

  function BigEndian(v: nat): (r: seq<Byte>)
    ensures |r| == 8
  {
    BytesOf(v, 8)
  }

  /** How many zero bytes go between the marker and the length, after `t` bytes of the
      last block. */
  function Gap(t: nat): nat
    requires t < BLOCK
  {
    if t <= 55 then 55 - t else 119 - t
  }

  function LastBlocks(t: nat): nat { if t <= 55 then 1 else 2 }

  /** The marker, zeros and the length, which fill up the last block. */
  function PadFrom(t: nat, total: nat): (p: seq<Byte>)
    requires t < BLOCK
    ensures t + |p| == 64 * LastBlocks(t)
  {
    [0x80] + Zeros(Gap(t)) + BigEndian(8 * total % WORD)
  }

  /** The padding of a message of `n` bytes: FIPS 180-4, section 5.1.1. */
  function Padding(n: nat): (p: seq<Byte>)
    ensures n + |p| == 64 * (Blocks(n) + LastBlocks(n - 64 * Blocks(n)))
  {
    PadFrom(n - 64 * Blocks(n), n)
  }

  /** The one-shot definition. */
  function Hash<S>(f: (S, seq<Byte>) -> S, init: S, m: seq<Byte>): S {
    var p := m + Padding(|m|);
    Fold(f, init, p, Blocks(|p|))
  }

  /** What `finalize` does with the pending bytes and the length. */
  function Finish<S>(f: (S, seq<Byte>) -> S, c: Ctx<S>): S
    requires c.Ok()
  {
    Fold(f, c.state, c.pending + PadFrom(|c.pending|, c.total), LastBlocks(|c.pending|))
  }

  /** The padding adds as few zero bytes as make the message fill whole blocks. */
  lemma PaddingIsLeast(n: nat)
    ensures (n + |Padding(n)|) % 64 == 0 && |Padding(n)| < 9 + 64
    ensures Padding(n)[0] == 0x80
    ensures forall i :: 1 <= i < |Padding(n)| - 8 ==> Padding(n)[i] == 0
    ensures Padding(n)[|Padding(n)| - 8..] == BigEndian(8 * n % WORD)
  {
    hide BigEndian, Zeros;
  }

  function Value(bytes: seq<Byte>): nat {
    if bytes == [] then 0 else 256 * Value(bytes[..|bytes| - 1]) + bytes[|bytes| - 1]
  }

  function Power256(n: nat): nat { if n == 0 then 1 else 256 * Power256(n - 1) }

  lemma {:induction false} ValueOfBytes(v: nat, n: nat)
    requires v < Power256(n)
    ensures Value(BytesOf(v, n)) == v
  {
    if n > 0 { ValueOfBytes(v / 256, n - 1); }
  }

  /** The length field holds the length in bits for every message FIPS 180-4 allows. */
  lemma LengthFieldIsExact(n: nat)
    requires 8 * n < WORD
    ensures Value(BigEndian(8 * n % WORD)) == 8 * n
  {
    hide BytesOf, Value;
    assert Power256(4) == 0x1_0000_0000;
    assert Power256(8) == WORD;
    ValueOfBytes(8 * n, 8);
  }

  // ----- Chunking does not matter -----------------------------------------

  lemma TotalsAdd(t: nat, a: nat, b: nat)
    ensures ((t + a) % WORD + b) % WORD == (t + (a + b)) % WORD
  {
  }

  lemma RestOfBoth(x: seq<Byte>, b: seq<Byte>, i: nat, j: nat)
    requires i <= |x| && i + j <= |x + b|
    ensures var y := x[i..] + b; (x + b)[i..] == y && (x + b)[i + j..] == y[j..]
  {
  }

  /** Two updates are one update with the data joined. */
  lemma AbsorbTwice<S>(f: (S, seq<Byte>) -> S, c: Ctx<S>, a: seq<Byte>, b: seq<Byte>)
    requires c.Ok()
    ensures Absorb(f, Absorb(f, c, a), b) == Absorb(f, c, a + b)
  {
    hide Fold, Blocks;
    var x := c.pending + a;
    assert c.pending + (a + b) == x + b;
    var n, y := Blocks(|x|), Rest(x) + b;
    var k := Blocks(|y|);
    BlocksIs(|x + b|, n + k);
    FoldPrefix(f, c.state, x, b, n);
    FoldSplit(f, c.state, x + b, n, k);
    RestOfBoth(x, b, 64 * n, 64 * k);
    TotalsAdd(c.total, |a|, |b|);
  }

  function Start<S>(init: S): Ctx<S> { Ctx(init, [], 0) }

  function AbsorbAll<S>(f: (S, seq<Byte>) -> S, c: Ctx<S>, chunks: seq<seq<Byte>>): (c': Ctx<S>)
    requires c.Ok()
    ensures c'.Ok()
  {
    if chunks == [] then c else Absorb(f, AbsorbAll(f, c, chunks[..|chunks| - 1]), chunks[|chunks| - 1])
  }

  function Join(chunks: seq<seq<Byte>>): seq<Byte> {
    if chunks == [] then [] else Join(chunks[..|chunks| - 1]) + chunks[|chunks| - 1]
  }

  lemma {:induction false} ChunksJoin<S>(f: (S, seq<Byte>) -> S, init: S, chunks: seq<seq<Byte>>)
    ensures AbsorbAll(f, Start(init), chunks) == Absorb(f, Start(init), Join(chunks))
  {
    hide Absorb;
    if chunks == [] {
      AbsorbNothing(f, init);
    } else {
      var front := chunks[..|chunks| - 1];
      ChunksJoin(f, init, front);
      AbsorbTwice(f, Start(init), Join(front), chunks[|chunks| - 1]);
    }
  }

  lemma AbsorbNothing<S>(f: (S, seq<Byte>) -> S, init: S)
    ensures Absorb(f, Start(init), []) == Start(init)
  {
  }

  lemma WrapTwice(n: nat)
    ensures 8 * (n % WORD) % WORD == 8 * n % WORD
  {
    var q := n / WORD;
    assert 8 * n == 8 * q * WORD + 8 * (n % WORD);
    var r := 8 * (n % WORD);
    DivIs(8 * n, WORD, 8 * q + r / WORD, r % WORD);
  }

  /** The padding only depends on where the message ends in its last block. */
  lemma FinishIsHash<S>(f: (S, seq<Byte>) -> S, init: S, m: seq<Byte>)
    ensures Finish(f, Absorb(f, Start(init), m)) == Hash(f, init, m)
  {
    hide Fold, BigEndian, Zeros, Blocks;
    assert [] + m == m;
    var n, t, pad := Blocks(|m|), Rest(m), Padding(|m|);
    var k := LastBlocks(|t|);
    WrapTwice(|m|);
    assert pad == PadFrom(|t|, |m| % WORD);
    BlocksIs(|m + pad|, n + k);
    FoldPrefix(f, init, m, pad, n);
    FoldSplit(f, init, m + pad, n, k);
    assert (m + pad)[64 * n..] == t + pad;
  }

  /** However a message is cut into pieces, feeding the pieces and finishing gives the
      one-shot hash of the whole message. */
  lemma StreamingIsOneShot<S>(f: (S, seq<Byte>) -> S, init: S, chunks: seq<seq<Byte>>)
    ensures Finish(f, AbsorbAll(f, Start(init), chunks)) == Hash(f, init, Join(chunks))
  {
    hide Absorb, Finish, Hash;
    ChunksJoin(f, init, chunks);
    FinishIsHash(f, init, Join(chunks));
  }

  // ----- The code ---------------------------------------------------------

  class Hasher<S> {
    const compress: (S, seq<Byte>) -> S
    const buffer: array<Byte>
    var state: S
    var bufferLen: nat
    var totalLen: nat

    ghost predicate Valid()
      reads this
    {
      buffer.Length == BLOCK && bufferLen < BLOCK
    }

    ghost function View(): (c: Ctx<S>)
      reads this, buffer
      requires Valid()
      ensures c.Ok()
    {
      Ctx(state, buffer[..bufferLen], totalLen)
    }

    constructor (f: (S, seq<Byte>) -> S, init: S)
      ensures Valid() && fresh(buffer) && compress == f && View() == Start(init)
    {
      compress, state := f, init;
      buffer := new Byte[64](_ => 0);
      bufferLen, totalLen := 0, 0;
    }

    /** `copy_from_slice` into the buffer. */
    method Copy(at: nat, data: seq<Byte>)
      requires buffer.Length == BLOCK && at + |data| <= BLOCK
      modifies buffer
      ensures buffer[..at + |data|] == old(buffer[..at]) + data
    {
      for i := 0 to |data|
        invariant buffer[..at + i] == old(buffer[..at]) + data[..i]
      {
        buffer[at + i] := data[i];
      }
    }

    method Update(data: seq<Byte>)
      requires Valid()
      modifies this, buffer
      ensures Valid() && View() == Absorb(compress, old(View()), data)
    {
      hide Absorb, Fold, Blocks, Rest;
      ghost var c := View();
      totalLen := (totalLen + |data|) % WORD;
      var rest := data;
      if bufferLen > 0 {
        var needed := BLOCK - bufferLen;
        if |data| < needed {
          Copy(bufferLen, data);
          bufferLen := bufferLen + |data|;
          AbsorbShort(compress, c, data);
          return;
        }
        Copy(bufferLen, data[..needed]);
        state := compress(state, buffer[..]);
        assert buffer[..] == c.pending + data[..needed];
        bufferLen := 0;
        rest := data[needed..];
        AbsorbFull(compress, c, data);
      } else {
        AbsorbFresh(compress, c, data);
      }
      UpdateBlocks(rest);
    }

    /** The block loop of `update` and the copy of what is left. */
    method UpdateBlocks(data: seq<Byte>)
      requires Valid() && bufferLen == 0
      modifies this, buffer
      ensures Valid() && totalLen == old(totalLen)
      ensures state == Fold(compress, old(state), data, Blocks(|data|)) && buffer[..bufferLen] == Rest(data)
    {
      hide Blocks;
      var rest := data;
      ghost var k: nat := 0;
      while |rest| >= BLOCK
        invariant 64 * k <= |data| && rest == data[64 * k..]
        invariant bufferLen == 0 && totalLen == old(totalLen)
        invariant state == Fold(compress, old(state), data, k)
      {
        assert rest[..BLOCK] == data[64 * k..64 * k + 64];
        state := compress(state, rest[..BLOCK]);
        rest := rest[BLOCK..];
        k := k + 1;
      }
      BlocksIs(|data|, k);
      if rest != [] {
        Copy(0, rest);
        bufferLen := |rest|;
      }
    }

    /** `finalize`, up to writing out the state's words. */
    method Finalize() returns (digest: S)
      requires Valid()
      modifies this, buffer
      ensures digest == Finish(compress, old(View()))
    {
      hide Fold, Finish, BigEndian;
      ghost var c := View();
      var bitLen := 8 * totalLen % WORD;
      buffer[bufferLen] := 0x80;
      bufferLen := bufferLen + 1;
      assert buffer[..bufferLen] == c.pending + [0x80];
      if bufferLen > 56 {
        Clear(bufferLen, BLOCK);
        assert buffer[..] == c.pending + [0x80] + Zeros(63 - |c.pending|);
        state := compress(state, buffer[..]);
        Clear(0, 56);
        Copy(56, BigEndian(bitLen));
        assert buffer[..] == Zeros(56) + BigEndian(bitLen);
        FinishInTwo(compress, c);
      } else {
        Clear(bufferLen, 56);
        assert buffer[..56] == c.pending + [0x80] + Zeros(55 - |c.pending|);
        Copy(56, BigEndian(bitLen));
        assert buffer[..] == c.pending + [0x80] + Zeros(55 - |c.pending|) + BigEndian(bitLen);
        FinishInOne(compress, c);
      }
      state := compress(state, buffer[..]);
      digest := state;
    }

    method Clear(from: nat, to: nat)
      requires buffer.Length == BLOCK && from <= to <= BLOCK
      modifies buffer
      ensures buffer[..to] == old(buffer[..from]) + Zeros(to - from)
    {
      for i := from to to
        invariant buffer[..i] == old(buffer[..from]) + Zeros(i - from)
      {
        buffer[i] := 0;
      }
    }
  }

  /** `Sha256::digest`. */
  method Digest<S>(f: (S, seq<Byte>) -> S, init: S, data: seq<Byte>) returns (digest: S)
    ensures digest == Hash(f, init, data)
  {
    hide Absorb, Finish, Hash;
    var hasher := new Hasher(f, init);
    hasher.Update(data);
    FinishIsHash(f, init, data);
    digest := hasher.Finalize();
  }

  /** A hasher fed piece by piece. */
  method DigestChunks<S>(f: (S, seq<Byte>) -> S, init: S, chunks: seq<seq<Byte>>) returns (digest: S)
    ensures digest == Hash(f, init, Join(chunks))
  {
    hide Absorb, Finish, Hash;
    var hasher := new Hasher(f, init);
    for i := 0 to |chunks|
      invariant hasher.Valid() && fresh(hasher) && fresh(hasher.buffer) && hasher.compress == f
      invariant hasher.View() == AbsorbAll(f, Start(init), chunks[..i])
    {
      assert chunks[..i + 1][..i] == chunks[..i];
      hasher.Update(chunks[i]);
    }
    assert chunks[..|chunks|] == chunks;
    StreamingIsOneShot(f, init, chunks);
    digest := hasher.Finalize();
  }

  lemma AbsorbShort<S>(f: (S, seq<Byte>) -> S, c: Ctx<S>, data: seq<Byte>)
    requires c.Ok() && |c.pending| + |data| < BLOCK
    ensures Absorb(f, c, data) == Ctx(c.state, c.pending + data, (c.total + |data|) % WORD)
  {
    hide Blocks;
    BlocksIs(|c.pending + data|, 0);
  }

  lemma AbsorbFull<S>(f: (S, seq<Byte>) -> S, c: Ctx<S>, data: seq<Byte>)
    requires c.Ok() && |c.pending| + |data| >= BLOCK
    ensures var n := BLOCK - |c.pending|; var rest := data[n..];
            Absorb(f, c, data) == Consume(f, f(c.state, c.pending + data[..n]), rest, (c.total + |data|) % WORD)
  {
    hide Blocks, Fold;
    var n := BLOCK - |c.pending|;
    var x, rest := c.pending + data[..n], data[n..];
    var k := Blocks(|rest|);
    assert c.pending + data == x + rest;
    BlocksIs(|x + rest|, 1 + k);
    FoldOne(f, c.state, x);
    FoldPrefix(f, c.state, x, rest, 1);
    FoldSplit(f, c.state, x + rest, 1, k);
    assert (x + rest)[64..] == rest;
    assert (x + rest)[64 * (1 + k)..] == rest[64 * k..];
  }

  lemma AbsorbFresh<S>(f: (S, seq<Byte>) -> S, c: Ctx<S>, data: seq<Byte>)
    requires c.pending == []
    ensures Absorb(f, c, data) == Consume(f, c.state, data, (c.total + |data|) % WORD)
  {
    hide Consume;
    assert c.pending + data == data;
  }

  lemma FinishInOne<S>(f: (S, seq<Byte>) -> S, c: Ctx<S>)
    requires |c.pending| <= 55
    ensures Finish(f, c) == f(c.state, c.pending + [0x80] + Zeros(55 - |c.pending|) + BigEndian(8 * c.total % WORD))
  {
    hide Fold, BigEndian, Zeros;
    var last := BigEndian(8 * c.total % WORD);
    var block := c.pending + [0x80] + Zeros(55 - |c.pending|) + last;
    assert c.pending + PadFrom(|c.pending|, c.total) == block;
    FoldOne(f, c.state, block);
  }

  lemma FinishInTwo<S>(f: (S, seq<Byte>) -> S, c: Ctx<S>)
    requires 55 < |c.pending| < BLOCK
    ensures Finish(f, c) == f(f(c.state, c.pending + [0x80] + Zeros(63 - |c.pending|)), Zeros(56) + BigEndian(8 * c.total % WORD))
  {
    hide Fold, BigEndian, Zeros;
    var n, last := |c.pending|, BigEndian(8 * c.total % WORD);
    var first, second := c.pending + [0x80] + Zeros(63 - n), Zeros(56) + last;
    assert Zeros(119 - n) == Zeros(63 - n) + Zeros(56);
    assert c.pending + PadFrom(n, c.total) == first + second;
    FoldOne(f, c.state, first);
    FoldOne(f, f(c.state, first), second);
    FoldPrefix(f, c.state, first, second, 1);
    FoldSplit(f, c.state, first + second, 1, 1);
    assert (first + second)[64..] == second;
  }
}
