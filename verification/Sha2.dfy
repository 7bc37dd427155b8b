/**
 The streaming SHA-2 hashers: a partial-block buffer that compresses as it fills, against compression of
 the padded message. SHA-256 uses 64-byte blocks and a 64-bit length, SHA-512 and SHA-384 128-byte blocks
 and a 128-bit length; the compression function is a parameter.
 */
module Sha2 {
  import Arith
  import opened Words
  import opened Bytes

  type State = s: seq<nat> | |s| == 8 witness seq(8, _ => 0)

  /** Block length in bytes, the bytes of one state word, the starting state and the compression function. */
  datatype Variant = Variant(block: nat, word: nat, initial: State, compress: (State, seq<u8>) -> State) {
    predicate Ok() {
      (block == 64 && word == 4) || (block == 128 && word == 8)
    }

    /** Bytes of the length field. */
    function LengthBytes(): nat {
      2 * word
    }
  }

  /** Compression of consecutive blocks; an incomplete last block is not consumed. */
  function Fold(V: Variant, st: State, s: seq<u8>): State
    requires V.Ok()
    decreases |s|
  {
    if |s| < V.block then st else Fold(V, V.compress(st, s[..V.block]), s[V.block..])
  }

  lemma {:induction false} FoldAppend(V: Variant, st: State, a: seq<u8>, b: seq<u8>)
    requires V.Ok() && |a| % V.block == 0
    ensures Fold(V, st, a + b) == Fold(V, Fold(V, st, a), b)
    decreases |a|
  {
    if |a| < V.block {
      assert a + b == b;
    } else {
      assert (a + b)[..V.block] == a[..V.block] && (a + b)[V.block..] == a[V.block..] + b;
      FoldAppend(V, V.compress(st, a[..V.block]), a[V.block..], b);
    }
  }

  lemma FoldOne(V: Variant, st: State, b: seq<u8>)
    requires V.Ok() && |b| == V.block
    ensures Fold(V, st, b) == V.compress(st, b)
  {
    assert b[..V.block] == b;
  }

  /** The fewest zero bytes that make a message of n bytes, the marker and the length field fill whole blocks. */
  function ZeroCount(V: Variant, n: nat): (k: nat)
    requires V.Ok()
    ensures (n + 1 + k + V.LengthBytes()) % V.block == 0 && k < V.block
  {
    var used := (n + 1 + V.LengthBytes()) % V.block;
    if used == 0 then 0 else V.block - used
  }

  /** Sections 5.1.1 and 5.1.2 of FIPS 180-4; the length is taken modulo the width of its field, as the counter is. */
  function Padded(V: Variant, m: seq<u8>): (p: seq<u8>)
    requires V.Ok()
    ensures |p| % V.block == 0
  {
    m + [0x80] + Zeros(ZeroCount(V, |m|)) + ToBe(8 * |m|, V.LengthBytes())
  }

  function StateBytes(V: Variant, st: State, n: nat): seq<u8>
    requires n <= 8
  {
    if n == 0 then [] else StateBytes(V, st, n - 1) + ToBe(st[n - 1], V.word)
  }

  /** The digest of a message. */
  function Digest(V: Variant, m: seq<u8>): seq<u8>
    requires V.Ok()
  {
    StateBytes(V, Fold(V, V.initial, Padded(V, m)), 8)
  }

  /** Only the low bytes of a number reach its encoding. */
  lemma {:induction false} ToBeWraps(x: nat, y: nat, n: nat)
    requires x % Power256(n) == y % Power256(n)
    ensures ToBe(x, n) == ToBe(y, n)
  {
    if n > 0 {
      HighLow(x, Power256(n - 1));
      HighLow(y, Power256(n - 1));
      ToBeWraps(x / 256, y / 256, n - 1);
    }
  }

  lemma HighLow(x: nat, p: nat)
    requires 0 < p
    ensures x % (256 * p) == 256 * (x / 256 % p) + x % 256
  {
    var q := x / 256 / p;
    assert x == 256 * (x / 256) + x % 256;
    assert x / 256 == p * q + x / 256 % p;
    assert x == (256 * p) * q + (256 * (x / 256 % p) + x % 256);
    Unique(x, 256 * p, q, 256 * (x / 256 % p) + x % 256);
  }

  lemma Unique(x: nat, d: nat, q: nat, r: nat)
    requires 0 < d && r < d && x == d * q + r
    ensures x % d == r
  {
    Arith.DivModUnique(x, d, q, r);
    Arith.ModIs(x, d);
  }

  /** `st` is the state after the whole blocks of `m`, and `pending` the bytes after them. */
  ghost predicate Represents(V: Variant, st: State, pending: seq<u8>, m: seq<u8>) {
    && V.Ok() && |pending| < V.block && |pending| <= |m| && pending == m[|m| - |pending|..]
    && (|m| - |pending|) % V.block == 0
    && st == Fold(V, V.initial, m[..|m| - |pending|])
  }

  lemma NothingYet(V: Variant)
    requires V.Ok()
    ensures Represents(V, V.initial, [], []) && CountsBits(V, 0, [])
  {
    hide Power256;
    Small(0, Power256(V.LengthBytes()));
  }

  /** More bytes that do not fill the block. */
  lemma StillPending(V: Variant, st: State, pending: seq<u8>, m: seq<u8>, piece: seq<u8>)
    requires Represents(V, st, pending, m) && |pending| + |piece| < V.block
    ensures Represents(V, st, pending + piece, m + piece)
  {
    hide Fold;
    assert (m + piece)[..|m| - |pending|] == m[..|m| - |pending|];
  }

  /** Bytes that fill the block exactly. */
  lemma BlockFilled(V: Variant, st: State, pending: seq<u8>, m: seq<u8>, piece: seq<u8>)
    requires Represents(V, st, pending, m) && |pending| + |piece| == V.block
    ensures Represents(V, V.compress(st, pending + piece), [], m + piece)
  {
    hide Fold;
    var consumed := m[..|m| - |pending|];
    assert (m + piece)[..|m| + |piece|] == consumed + (pending + piece);
    FoldAppend(V, V.initial, consumed, pending + piece);
    FoldOne(V, st, pending + piece);
    Whole(|consumed|, V.block);
  }

  lemma Whole(n: nat, block: nat)
    requires (block == 64 || block == 128) && n % block == 0
    ensures (n + block) % block == 0
  {
  }

  /** The last block, when the marker and the length fit after the pending bytes. */
  lemma LastBlock(V: Variant, st: State, pending: seq<u8>, m: seq<u8>, bitLen: nat, last: seq<u8>)
    requires Represents(V, st, pending, m) && CountsBits(V, bitLen, m)
    requires var field := V.block - V.LengthBytes();
             && |pending| + 1 <= field
             && last == pending + [0x80] + Zeros(field - |pending| - 1) + ToBe(bitLen, V.LengthBytes())
    ensures V.compress(st, last) == Fold(V, V.initial, Padded(V, m))
  {
    hide Fold, ToBe, Power256, Padded;
    var consumed := m[..|m| - |pending|];
    assert m == consumed + pending;
    PaddedParts(V, consumed, pending, bitLen);
    FoldAppend(V, V.initial, consumed, last);
    FoldOne(V, st, last);
  }

  /** Otherwise two more blocks. */
  lemma LastTwoBlocks(V: Variant, st: State, pending: seq<u8>, m: seq<u8>, bitLen: nat, first: seq<u8>, last: seq<u8>)
    requires Represents(V, st, pending, m) && CountsBits(V, bitLen, m)
    requires var field := V.block - V.LengthBytes();
             && |pending| + 1 > field
             && first == pending + [0x80] + Zeros(V.block - |pending| - 1)
             && last == Zeros(field) + ToBe(bitLen, V.LengthBytes())
    ensures V.compress(V.compress(st, first), last) == Fold(V, V.initial, Padded(V, m))
  {
    hide Fold, ToBe, Power256, Padded;
    var consumed := m[..|m| - |pending|];
    assert m == consumed + pending;
    PaddedParts(V, consumed, pending, bitLen);
    FoldAppend(V, V.initial, consumed, first);
    FoldOne(V, st, first);
    Whole(|consumed|, V.block);
    FoldAppend(V, V.initial, consumed + first, last);
    FoldOne(V, V.compress(st, first), last);
  }

  /** The bit counter, which wraps as its machine word does. */
  ghost predicate CountsBits(V: Variant, bitLen: nat, m: seq<u8>) {
    V.Ok() && bitLen < Power256(V.LengthBytes()) && bitLen == 8 * |m| % Power256(V.LengthBytes())
  }

  /** `Sha256` and `Sha512`. */
  class Hasher {
    const V: Variant
    var state: State
    var buffer: array<u8>
    var bufferLen: nat
    var bitLen: nat
    ghost var message: seq<u8>

    ghost predicate Valid()
      reads this, buffer
    {
      && V.Ok() && buffer.Length == V.block && bufferLen < V.block
      && Represents(V, state, buffer[..bufferLen], message)
      && CountsBits(V, bitLen, message)
    }

    constructor (variant: Variant)
      requires variant.Ok()
      ensures Valid() && message == [] && V == variant && fresh(buffer)
    {
      hide Represents, CountsBits;
      V := variant;
      state := variant.initial;
      buffer := new u8[variant.block](_ => 0);
      bufferLen, bitLen, message := 0, 0, [];
      new;
      NothingYet(variant);
      assert buffer[..0] == [];
    }

    method Update(data: seq<u8>)
      requires Valid()
      modifies this, buffer
      ensures Valid() && message == old(message) + data && buffer == old(buffer)
    {
      hide Represents, Power256;
      CounterAdds(8 * |message|, 8 * |data|, Power256(V.LengthBytes()));
      bitLen := (bitLen + 8 * |data|) % Power256(V.LengthBytes());
      ghost var whole := message + data;
      assert CountsBits(V, bitLen, whole);
      hide CountsBits;
      var rest := data;
      while rest != []
        invariant V.Ok() && buffer == old(buffer) && buffer.Length == V.block && bufferLen < V.block
        invariant Represents(V, state, buffer[..bufferLen], message) && CountsBits(V, bitLen, whole)
        invariant message + rest == whole
        decreases |rest|
      {
        var toCopy := Min(V.block - bufferLen, |rest|);
        var piece := rest[..toCopy];
        ghost var pending := buffer[..bufferLen];
        CopyInto(buffer, bufferLen, piece);
        assert buffer[..bufferLen + toCopy] == pending + piece;
        bufferLen := bufferLen + toCopy;
        rest := rest[toCopy..];
        if bufferLen == V.block {
          BlockFilled(V, state, pending, message, piece);
          assert buffer[..] == pending + piece;
          state := V.compress(state, buffer[..]);
          bufferLen := 0;
          assert buffer[..0] == [];
        } else {
          StillPending(V, state, pending, message, piece);
        }
        message := message + piece;
      }
      assert message == whole;
    }

    method Finalize() returns (out: seq<u8>)
      requires Valid()
      modifies this, buffer
      ensures out == Digest(V, old(message))
    {
      hide Represents, CountsBits, Padded, Fold, ToBe;
      var field := V.block - V.LengthBytes();
      ghost var pending, st := buffer[..bufferLen], state;
      buffer[bufferLen] := 0x80;
      bufferLen := bufferLen + 1;
      var lengthBytes := ToBe(bitLen, V.LengthBytes());
      if bufferLen > field {
        FillZero(buffer, bufferLen, V.block);
        ghost var first := buffer[..];
        assert first == pending + [0x80] + Zeros(V.block - |pending| - 1);
        state := V.compress(state, buffer[..]);
        bufferLen := 0;
        LastTwoBlocks(V, st, pending, message, bitLen, first, Zeros(field) + lengthBytes);
      } else {
        LastBlock(V, st, pending, message, bitLen, pending + [0x80] + Zeros(field - |pending| - 1) + lengthBytes);
      }
      ghost var head := buffer[..bufferLen];
      assert head == if |pending| + 1 > field then [] else pending + [0x80];
      FinishBlock(buffer, bufferLen, lengthBytes);
      assert [] + Zeros(field) == Zeros(field);
      state := V.compress(state, buffer[..]);
      out := WriteState(V, state);
    }
  }

  method WriteState(V: Variant, state: State) returns (out: seq<u8>)
    ensures out == StateBytes(V, state, 8)
  {
    out := [];
    for i := 0 to 8
      invariant out == StateBytes(V, state, i)
    {
      out := out + ToBe(state[i], V.word);
    }
  }

  /** `sha256`, `sha512`, and with a cut `sha384`. */
  method Sha(V: Variant, data: seq<u8>) returns (out: seq<u8>)
    requires V.Ok()
    ensures out == Digest(V, data)
  {
    hide Represents, CountsBits, Digest;
    var hasher := new Hasher(V);
    hasher.Update(data);
    assert hasher.message == data;
    out := hasher.Finalize();
  }

  lemma CounterAdds(a: nat, b: nat, m: nat)
    requires 0 < m
    ensures (a % m + b) % m == (a + b) % m
  {
    hide Arith.Mul, Arith.Div, Arith.Mod;
    var q, r := Arith.Div(a, m), Arith.Mod(a, m);
    var s, t := Arith.Div(r + b, m), Arith.Mod(r + b, m);
    Arith.DivMod(a, m);
    Arith.DivMod(r + b, m);
    Arith.Distrib(m, q, s);
    Arith.DivModUnique(a + b, m, q + s, t);
    Arith.ModIs(a, m);
    Arith.ModIs(r + b, m);
    Arith.ModIs(a + b, m);
  }

  /** The padded message as whole blocks: with room for the length in the last block, or one block more. */
  lemma PaddedParts(V: Variant, consumed: seq<u8>, tail: seq<u8>, bitLen: nat)
    requires V.Ok() && |consumed| % V.block == 0 && |tail| < V.block
    requires bitLen < Power256(V.LengthBytes()) && bitLen == 8 * |consumed + tail| % Power256(V.LengthBytes())
    ensures var (m, field) := (consumed + tail, V.block - V.LengthBytes());
            && (|tail| + 1 <= field ==>
                  Padded(V, m) == consumed + (tail + [0x80] + Zeros(field - |tail| - 1) + ToBe(bitLen, V.LengthBytes())))
            && (|tail| + 1 > field ==>
                  Padded(V, m) == consumed + (tail + [0x80] + Zeros(V.block - |tail| - 1)) + (Zeros(field) + ToBe(bitLen, V.LengthBytes())))
  {
    hide Power256, ToBe;
    var m := consumed + tail;
    ToBeSame(8 * |m|, bitLen, V.LengthBytes());
    var k := ZeroCount(V, |m|);
    var field := V.block - V.LengthBytes();
    CountIs(V, |consumed|, |tail|);
    if |tail| + 1 > field {
      assert Zeros(k) == Zeros(V.block - |tail| - 1) + Zeros(field);
    }
  }

  lemma ToBeSame(x: nat, y: nat, n: nat)
    requires y < Power256(n) && y == x % Power256(n)
    ensures ToBe(x, n) == ToBe(y, n)
  {
    hide ToBe;
    Small(y, Power256(n));
    ToBeWraps(x, y, n);
  }

  lemma Small(y: nat, p: nat)
    requires y < p
    ensures y % p == y
  {
  }

  lemma CountIs(V: Variant, whole: nat, tail: nat)
    requires V.Ok() && whole % V.block == 0 && tail < V.block
    ensures var field := V.block - V.LengthBytes();
            ZeroCount(V, whole + tail) == if tail + 1 <= field then field - tail - 1 else V.block - tail - 1 + field
  {
    var x := tail + 1 + V.LengthBytes();
    DropWhole(whole, x, V.block);
    Wraps(x, V.block);
  }

  lemma Wraps(x: nat, block: nat)
    requires 0 < block && x <= 2 * block
    ensures x % block == if x < block then x else if x < 2 * block then x - block else 0
  {
    if x < block {
      Arith.QuotientIs(x, block, 0, x);
    } else if x < 2 * block {
      Arith.QuotientIs(x, block, 1, x - block);
    } else {
      Arith.QuotientIs(x, block, 2, 0);
    }
  }

  lemma DropWhole(whole: nat, x: nat, block: nat)
    requires (block == 64 || block == 128) && whole % block == 0
    ensures (whole + x) % block == x % block
  {
    if block == 64 {
      Drop64(whole, x);
    } else {
      Drop128(whole, x);
    }
  }

  lemma Drop64(whole: nat, x: nat)
    requires whole % 64 == 0
    ensures (whole + x) % 64 == x % 64
  {
    Arith.QuotientIs(whole + x, 64, whole / 64 + x / 64, x % 64);
  }

  lemma Drop128(whole: nat, x: nat)
    requires whole % 128 == 0
    ensures (whole + x) % 128 == x % 128
  {
    Arith.QuotientIs(whole + x, 128, whole / 128 + x / 128, x % 128);
  }

  method CopyInto(buffer: array<u8>, at: nat, data: seq<u8>)
    requires at + |data| <= buffer.Length
    modifies buffer
    ensures buffer[..] == old(buffer[..at]) + data + old(buffer[at + |data|..])
  {
    for i := 0 to |data|
      invariant forall k :: 0 <= k < buffer.Length ==> buffer[k] == if at <= k < at + i then data[k - at] else old(buffer[k])
    {
      buffer[at + i] := data[i];
    }
  }

  /** Zeros up to the length field, then the length. */
  method FinishBlock(buffer: array<u8>, from: nat, lengthBytes: seq<u8>)
    requires from + |lengthBytes| <= buffer.Length
    modifies buffer
    ensures buffer[..] == old(buffer[..from]) + Zeros(buffer.Length - |lengthBytes| - from) + lengthBytes
  {
    var field := buffer.Length - |lengthBytes|;
    FillZero(buffer, from, field);
    assert buffer[..field] == old(buffer[..from]) + Zeros(field - from);
    CopyInto(buffer, field, lengthBytes);
  }

  method FillZero(buffer: array<u8>, from: nat, to: nat)
    requires from <= to <= buffer.Length
    modifies buffer
    ensures buffer[..] == old(buffer[..from]) + Zeros(to - from) + old(buffer[to..])
  {
    for i := from to to
      invariant forall k :: 0 <= k < buffer.Length ==> buffer[k] == if from <= k < i then 0 else old(buffer[k])
    {
      buffer[i] := 0;
    }
  }

  /** Padding is injective while the length fits its field: no two messages share padded blocks. */
  lemma PaddingInjective(V: Variant, a: seq<u8>, b: seq<u8>)
    requires V.Ok() && Padded(V, a) == Padded(V, b)
    requires 8 * |a| < Power256(V.LengthBytes()) && 8 * |b| < Power256(V.LengthBytes())
    ensures a == b
  {
    hide Power256, ToBe, ZeroCount;
    var n := V.LengthBytes();
    var p := Padded(V, a);
    assert p[|p| - n..] == ToBe(8 * |a|, n) && p[|p| - n..] == ToBe(8 * |b|, n);
    BeInjective(8 * |a|, 8 * |b|, n);
    assert p[..|a|] == a && p[..|b|] == b;
  }

  // Reading the definitions

  /** The padded message, by position: the message, a one bit, the fewest zeros that fill a block, and its length in bits. */
  lemma PaddedIs(V: Variant, m: seq<u8>)
    requires V.Ok()
    ensures (V.block == 64 && V.word == 4 && V.LengthBytes() == 8) || (V.block == 128 && V.word == 8 && V.LengthBytes() == 16)
    ensures var (p, n, field) := (Padded(V, m), |m|, V.LengthBytes());
            && p[..n] == m && p[n] == 0x80 && |p| % V.block == 0 && n + 1 + field <= |p| < n + 1 + field + V.block
            && (forall i :: n < i < |p| - field ==> p[i] == 0)
            && OfBe(p[|p| - field..]) == 8 * n % Power256(field)
  {
    hide ToBe, OfBe, Power256;
    var (p, n, field) := (Padded(V, m), |m|, V.LengthBytes());
    assert p[|p| - field..] == ToBe(8 * n, field);
    BeWraps(8 * n, field);
  }

  lemma BeWraps(x: nat, n: nat)
    ensures OfBe(ToBe(x, n)) == x % Power256(n)
  {
    hide ToBe, OfBe, Power256;
    var low := x % Power256(n);
    Arith.QuotientIs(low, Power256(n), 0, low);
    ToBeWraps(x, low, n);
    BeRoundTrip(low, n);
  }

  /** Byte i of a digest belongs to word i / word of the final state, most significant byte first. */
  lemma {:induction false} StateByte(V: Variant, st: State, n: nat, i: nat)
    requires V.Ok() && n <= 8 && i < V.word * n
    ensures |StateBytes(V, st, n)| == V.word * n
    ensures StateBytes(V, st, n)[i] == ToBe(st[i / V.word], V.word)[i % V.word]
  {
    hide ToBe;
    StateLength(V, st, n - 1);
    if i < V.word * (n - 1) {
      StateByte(V, st, n - 1, i);
    } else {
      Arith.QuotientIs(i, V.word, n - 1, i - V.word * (n - 1));
    }
  }

  lemma {:induction false} StateLength(V: Variant, st: State, n: nat)
    requires V.Ok() && n <= 8
    ensures |StateBytes(V, st, n)| == V.word * n
  {
    if n > 0 {
      StateLength(V, st, n - 1);
    }
  }

  lemma DigestByte(V: Variant, m: seq<u8>, i: nat)
    requires V.Ok() && i < V.word * 8
    ensures |Digest(V, m)| == V.word * 8
    ensures var st := Fold(V, V.initial, Padded(V, m));
            Digest(V, m)[i] == st[i / V.word] / Power256(V.word - 1 - i % V.word) % 256
  {
    hide Fold, Padded, ToBe, OfBe, StateBytes, Power256;
    var st := Fold(V, V.initial, Padded(V, m));
    StateByte(V, st, 8, i);
    WordDigit(st[i / V.word], V.word, i % V.word);
  }

  lemma {:induction false} WordDigit(x: nat, n: nat, i: nat)
    requires i < n
    ensures ToBe(x, n)[i] == x / Power256(n - 1 - i) % 256
  {
    if i < n - 1 {
      WordDigit(x / 256, n - 1, i);
      DivideTwice(x, Power256(n - 2 - i));
    }
  }
}
