/** The Keccak sponge of SHA-3 and SHAKE: absorbing a padded message and squeezing any length. The permutation is a parameter. */
module Sponge {
  import Arith
  import Bytes
  import opened Words
  import opened Bits

  type Lanes = s: seq<u64> | |s| == 25 witness seq(25, _ => 0)
  type Permutation = Lanes -> Lanes

  /** The rates in use: a whole number of lanes, fewer than 25. */
  predicate Rate(rate: nat) {
    8 <= rate < 200 && rate % 8 == 0
  }

  // Little-endian lanes

  function ToLe(x: nat, n: nat): (s: seq<u8>)
    ensures |s| == n
  {
    if n == 0 then [] else [x % 256] + ToLe(x / 256, n - 1)
  }

  function OfLe(s: seq<u8>): nat {
    if s == [] then 0 else s[0] + 256 * OfLe(s[1..])
  }

  lemma {:induction false} OfLeFits(s: seq<u8>)
    ensures OfLe(s) < Pow2(8 * |s|)
  {
    if s != [] {
      OfLeFits(s[1..]);
      Pow2Eight(8 * |s[1..]|);
    } else {
      Pow2Zero();
    }
  }

  lemma Pow2Eight(k: nat)
    ensures Pow2(k + 8) == 256 * Pow2(k)
  {
    assert Pow2(k + 2) == 4 * Pow2(k);
    assert Pow2(k + 4) == 4 * Pow2(k + 2);
    assert Pow2(k + 6) == 4 * Pow2(k + 4);
  }

  function XorLane(a: u64, bytes: seq<u8>): u64
    requires |bytes| == 8
  {
    hide Xor, Pow2, OfLe;
    OfLeFits(bytes);
    Pow2Is64();
    XorBound(a, OfLe(bytes), 64);
    Xor(a, OfLe(bytes))
  }

  // Absorbing

  /** One block xored into the first lanes, then permuted. */
  function Absorbed(f: Permutation, st: Lanes, rate: nat, block: seq<u8>): Lanes
    requires Rate(rate) && |block| == rate
  {
    f(Mixed(st, rate, block))
  }

  function Mixed(st: Lanes, rate: nat, block: seq<u8>): Lanes
    requires Rate(rate) && |block| == rate
  {
    hide XorLane;
    seq(25, l requires 0 <= l < 25 => if l < rate / 8 then XorLane(st[l], block[8 * l..8 * l + 8]) else st[l])
  }

  function AbsorbAll(f: Permutation, st: Lanes, rate: nat, s: seq<u8>): Lanes
    requires Rate(rate)
    decreases |s|
  {
    if |s| < rate then st else AbsorbAll(f, Absorbed(f, st, rate, s[..rate]), rate, s[rate..])
  }

  lemma {:induction false} AbsorbMore(f: Permutation, st: Lanes, rate: nat, a: seq<u8>, b: seq<u8>)
    requires Rate(rate) && |a| % rate == 0 && |b| == rate
    ensures AbsorbAll(f, st, rate, a + b) == Absorbed(f, AbsorbAll(f, st, rate, a), rate, b)
    decreases |a|
  {
    hide Absorbed;
    if a == [] {
      assert a + b == b && b[..rate] == b;
    } else {
      NonEmptyMultiple(|a|, rate);
      assert (a + b)[..rate] == a[..rate] && (a + b)[rate..] == a[rate..] + b;
      AbsorbMore(f, Absorbed(f, st, rate, a[..rate]), rate, a[rate..], b);
    }
  }

  lemma NonEmptyMultiple(n: nat, rate: nat)
    requires 0 < n && 0 < rate && n % rate == 0
    ensures n >= rate && (n - rate) % rate == 0
  {
    if n < rate {
      SmallMod(n, rate);
      assert false;
    }
    LessOne(n, rate);
  }

  lemma LessOne(n: nat, rate: nat)
    requires 0 < rate <= n && n % rate == 0
    ensures (n - rate) % rate == 0
  {
    var q := n / rate;
    assert n == rate * q;
    assert n - rate == rate * (q - 1) + 0;
    Arith.DivModUnique(n - rate, rate, q - 1, 0);
  }

  // Padding

  /** The domain byte carries the suffix and the first padding bit; the last bit goes into the last byte, which may be the same one. */
  function Padding(n: nat, rate: nat, domain: u8): (p: seq<u8>)
    requires Rate(rate) && domain < 0x80
    ensures 1 <= |p| <= rate && (n + |p|) % rate == 0
  {
    var q := rate - n % rate;
    Aligned(n, rate);
    if q == 1 then [domain + 0x80] else [domain] + seq(q - 2, _ => 0) + [0x80]
  }

  lemma Aligned(n: nat, rate: nat)
    requires 0 < rate
    ensures 0 <= n % rate < rate && (n + (rate - n % rate)) % rate == 0
  {
    var q := n / rate;
    assert n == rate * q + n % rate;
    assert n + (rate - n % rate) == rate * (q + 1) + 0;
    Arith.DivModUnique(n + (rate - n % rate), rate, q + 1, 0);
  }

  function Padded(data: seq<u8>, rate: nat, domain: u8): seq<u8>
    requires Rate(rate) && domain < 0x80
  {
    data + Padding(|data|, rate, domain)
  }

  /** Bits of bytes, least significant first, as FIPS 202 orders them. */
  function BitsOf(s: seq<u8>): (b: seq<nat>)
    ensures |b| == 8 * |s|
  {
    if s == [] then [] else BitsOf(s[..|s| - 1]) + ByteBits(s[|s| - 1])
  }

  function ByteBits(b: u8): (r: seq<nat>)
    ensures |r| == 8
  {
    [b % 2, b / 2 % 2, b / 4 % 2, b / 8 % 2, b / 16 % 2, b / 32 % 2, b / 64 % 2, b / 128]
  }

  lemma {:induction false} BitsOfConcat(a: seq<u8>, b: seq<u8>)
    ensures BitsOf(a + b) == BitsOf(a) + BitsOf(b)
  {
    if b == [] {
      assert a + b == a;
    } else {
      BitsOfConcat(a, b[..|b| - 1]);
      assert (a + b)[..|a + b| - 1] == a + b[..|b| - 1];
    }
  }

  /** SHA-3 appends 01, SHAKE 1111. */
  function Suffix(domain: u8): seq<nat>
    requires domain == 0x06 || domain == 0x1F
  {
    if domain == 0x06 then [0, 1] else [1, 1, 1, 1]
  }

  lemma {:induction false} ZeroBits(n: nat)
    ensures BitsOf(seq(n, _ => 0)) == seq(8 * n, _ => 0)
  {
    if n > 0 {
      ZeroBits(n - 1);
      assert seq(n, _ => 0)[..n - 1] == seq(n - 1, _ => 0);
    }
  }

  lemma OneByteBits(b: u8)
    ensures BitsOf([b]) == ByteBits(b)
  {
    assert [b][..0] == [];
  }

  /** The padding is the suffix, a one, the fewest zeros, and a one: pad10*1, shared last byte included. */
  lemma PaddingIsPad101(n: nat, rate: nat, domain: u8)
    requires Rate(rate) && (domain == 0x06 || domain == 0x1F)
    ensures var (bits, suffix) := (BitsOf(Padding(n, rate, domain)), Suffix(domain));
            bits == suffix + [1] + seq(|bits| - |suffix| - 2, _ => 0) + [1]
  {
    hide BitsOf, ByteBits;
    Aligned(n, rate);
    DomainBits(domain);
    if rate - n % rate == 1 {
      OneByteBits(domain + 0x80);
    } else {
      LongPadding(domain, rate - n % rate - 2);
    }
  }

  lemma DomainBits(domain: u8)
    requires domain == 0x06 || domain == 0x1F
    ensures ByteBits(domain) == Suffix(domain) + [1] + seq(7 - |Suffix(domain)|, _ => 0)
    ensures ByteBits(domain + 0x80) == Suffix(domain) + [1] + seq(6 - |Suffix(domain)|, _ => 0) + [1]
    ensures ByteBits(0x80) == seq(7, _ => 0) + [1]
  {
  }

  lemma LongPadding(domain: u8, zeros: nat)
    requires domain == 0x06 || domain == 0x1F
    ensures BitsOf([domain] + seq(zeros, _ => 0) + [0x80])
         == Suffix(domain) + [1] + seq(14 + 8 * zeros - |Suffix(domain)|, _ => 0) + [1]
  {
    hide BitsOf, ByteBits;
    DomainBits(domain);
    OneByteBits(domain);
    OneByteBits(0x80);
    ZeroBits(zeros);
    BitsOfConcat([domain], seq(zeros, _ => 0));
    BitsOfConcat([domain] + seq(zeros, _ => 0), [0x80]);
  }

  // Squeezing

  function Permuted(f: Permutation, st: Lanes, n: nat): Lanes {
    if n == 0 then st else f(Permuted(f, st, n - 1))
  }

  function LaneByte(st: Lanes, i: nat): u8
    requires i < 200
  {
    ToLe(st[i / 8], 8)[i % 8]
  }

  /** Byte i of the unending output. */
  function StreamByte(f: Permutation, st: Lanes, rate: nat, i: nat): u8
    requires Rate(rate)
  {
    LaneByte(Permuted(f, st, i / rate), i % rate)
  }

  /** What `keccak_sponge` returns. */
  function Output(f: Permutation, rate: nat, n: nat, data: seq<u8>, domain: u8): (r: seq<u8>)
    requires Rate(rate) && domain < 0x80
    ensures |r| == n
  {
    hide StreamByte, AbsorbAll, Padded;
    var st := AbsorbAll(f, seq(25, _ => 0), rate, Padded(data, rate, domain));
    seq(n, i requires 0 <= i < n => StreamByte(f, st, rate, i))
  }

  /** A shorter output is a prefix of a longer one. */
  lemma PrefixLaw(f: Permutation, rate: nat, n: nat, m: nat, data: seq<u8>, domain: u8)
    requires Rate(rate) && domain < 0x80 && n <= m
    ensures Output(f, rate, n, data, domain) == Output(f, rate, m, data, domain)[..n]
  {
    hide StreamByte, AbsorbAll, Padded;
  }

  method AbsorbBlock(f: Permutation, state: array<u64>, rate: nat, block: seq<u8>)
    requires state.Length == 25 && Rate(rate) && |block| == rate
    modifies state
    ensures state[..] == Absorbed(f, old(state[..]), rate, block)
  {
    hide XorLane;
    ghost var was := state[..];
    for lane := 0 to rate / 8
      invariant forall l :: 0 <= l < 25 ==> state[l] == if l < lane then XorLane(was[l], block[8 * l..8 * l + 8]) else was[l]
    {
      state[lane] := XorLane(state[lane], block[8 * lane..8 * lane + 8]);
    }
    assert state[..] == Mixed(was, rate, block);
    Permute(f, state);
  }

  method Permute(f: Permutation, state: array<u64>)
    requires state.Length == 25
    modifies state
    ensures state[..] == f(old(state[..]))
  {
    var next := f(state[..]);
    for l := 0 to 25
      invariant forall k :: 0 <= k < l ==> state[k] == next[k]
    {
      state[l] := next[l];
    }
  }

  /** The zeroed tail buffer with the domain byte and the closing bit xored in. */
  method PadTail(rest: seq<u8>, rate: nat, domain: u8) returns (block: seq<u8>)
    requires Rate(rate) && |rest| < rate && domain < 0x80
    ensures |block| == rate && block == rest + Padding(|rest|, rate, domain)
  {
    hide Xor;
    var tail := new u8[200](i requires 0 <= i < 200 => if i < |rest| then rest[i] else 0);
    ZeroXor(domain);
    tail[|rest|] := XorByte(tail[|rest|], domain);
    ClosingBit(tail[rate - 1]);
    tail[rate - 1] := XorByte(tail[rate - 1], 0x80);
    block := tail[..rate];
    SmallMod(|rest|, rate);
  }

  lemma SmallMod(n: nat, rate: nat)
    requires n < rate
    ensures n % rate == n
  {
  }

  lemma ClosingBit(b: u8)
    ensures b < 0x80 ==> Xor(b, 0x80) == b + 0x80
  {
    if b < 0x80 {
      SmallPowers();
      XorHigh(b, 7);
    }
  }

  lemma {:induction false} XorHigh(a: nat, k: nat)
    requires a < Pow2(k)
    ensures Xor(a, Pow2(k)) == a + Pow2(k)
  {
    hide Xor, Pow2;
    if k > 0 {
      Pow2Twice(k);
      var p := Pow2(k - 1);
      XorHalves(a, 2 * p);
      XorHigh(a / 2, k - 1);
      SumOfHalves(Xor(a, 2 * p), a, p);
    } else {
      Pow2Zero();
      ZeroXor(1);
    }
  }

  lemma SumOfHalves(x: nat, a: nat, p: nat)
    requires x / 2 == a / 2 + p && x % 2 == (a + 2 * p) % 2
    ensures x == a + 2 * p
  {
  }

  /** Absorbs the whole blocks of the data. */
  method AbsorbWhole(f: Permutation, state: array<u64>, rate: nat, data: seq<u8>) returns (cursor: nat)
    requires state.Length == 25 && Rate(rate) && state[..] == seq(25, _ => 0)
    modifies state
    ensures cursor <= |data| < cursor + rate && cursor % rate == 0
    ensures state[..] == AbsorbAll(f, seq(25, _ => 0), rate, data[..cursor])
  {
    hide Absorbed, AbsorbAll;
    ghost var zero := state[..];
    cursor := 0;
    NothingAbsorbed(f, rate);
    MultipleZero(rate);
    while cursor + rate <= |data|
      invariant cursor <= |data| && cursor % rate == 0
      invariant state[..] == AbsorbAll(f, zero, rate, data[..cursor])
    {
      AbsorbMore(f, zero, rate, data[..cursor], data[cursor..cursor + rate]);
      assert data[..cursor + rate] == data[..cursor] + data[cursor..cursor + rate];
      AbsorbBlock(f, state, rate, data[cursor..cursor + rate]);
      NextMultiple(cursor, rate);
      cursor := cursor + rate;
    }
  }

  method KeccakSponge(f: Permutation, rate: nat, n: nat, data: seq<u8>, domain: u8) returns (out: seq<u8>)
    requires Rate(rate) && domain < 0x80
    ensures out == Output(f, rate, n, data, domain)
  {
    hide Absorbed, Padded, Padding, StreamByte, AbsorbAll;
    var state := new u64[25](_ => 0);
    assert state[..] == seq(25, _ => 0);
    var cursor := AbsorbWhole(f, state, rate, data);
    var block := PadTail(data[cursor..], rate, domain);
    LastBlock(f, rate, data, domain, cursor, block);
    AbsorbBlock(f, state, rate, block);
    out := Squeeze(f, state, rate, n);
  }

  /** Whole blocks, then the padded tail. */
  lemma LastBlock(f: Permutation, rate: nat, data: seq<u8>, domain: u8, cursor: nat, block: seq<u8>)
    requires Rate(rate) && domain < 0x80 && cursor <= |data| < cursor + rate && cursor % rate == 0
    requires |block| == rate && block == data[cursor..] + Padding(|data| - cursor, rate, domain)
    ensures AbsorbAll(f, seq(25, _ => 0), rate, Padded(data, rate, domain))
         == Absorbed(f, AbsorbAll(f, seq(25, _ => 0), rate, data[..cursor]), rate, block)
  {
    hide Absorbed, Padding, AbsorbAll;
    SamePadding(cursor, |data| - cursor, rate, domain);
    AbsorbMore(f, seq(25, _ => 0), rate, data[..cursor], block);
    assert Padded(data, rate, domain) == data[..cursor] + block;
  }

  lemma NothingAbsorbed(f: Permutation, rate: nat)
    requires Rate(rate)
    ensures AbsorbAll(f, seq(25, _ => 0), rate, []) == seq(25, _ => 0)
  {
  }

  lemma MultipleZero(rate: nat)
    requires 0 < rate
    ensures 0 % rate == 0
  {
  }

  lemma NextMultiple(n: nat, rate: nat)
    requires 0 < rate && n % rate == 0
    ensures (n + rate) % rate == 0
  {
    var q := n / rate;
    assert n == rate * q;
    assert n + rate == rate * (q + 1) + 0;
    Arith.DivModUnique(n + rate, rate, q + 1, 0);
  }

  /** Whole blocks before the tail do not change the padding. */
  lemma SamePadding(whole: nat, tail: nat, rate: nat, domain: u8)
    requires Rate(rate) && domain < 0x80 && whole % rate == 0 && tail < rate
    ensures Padding(whole + tail, rate, domain) == Padding(tail, rate, domain)
  {
    var q := whole / rate;
    assert whole == rate * q;
    Arith.DivModUnique(whole + tail, rate, q, tail);
    Arith.ModIs(whole + tail, rate);
    SmallMod(tail, rate);
  }

  /** The squeezing loops: lanes of the state, permuting when they run out, and a final cut. */
  method Squeeze(f: Permutation, state: array<u64>, rate: nat, n: nat) returns (out: seq<u8>)
    requires state.Length == 25 && Rate(rate)
    modifies state
    ensures |out| == n && forall i :: 0 <= i < n ==> out[i] == StreamByte(f, old(state[..]), rate, i)
  {
    hide LaneByte, ToLe, StreamByte;
    ghost var start := state[..];
    ghost var round := 0;
    ghost var base := 0;
    out := [];
    while |out| < n
      invariant |out| >= n || |out| == base
      invariant base == rate * round && state[..] == Permuted(f, start, round)
      invariant forall i :: 0 <= i < |out| ==> out[i] == StreamByte(f, start, rate, i)
      decreases n - |out|
    {
      var lane := 0;
      while lane < rate / 8 && |out| < n
        invariant lane <= rate / 8 && |out| == base + 8 * lane
        invariant forall i :: 0 <= i < |out| ==> out[i] == StreamByte(f, start, rate, i)
      {
        ghost var before := out;
        out := out + ToLe(state[lane], 8);
        forall i | |before| <= i < |out| ensures out[i] == StreamByte(f, start, rate, i) {
          LaneOfStream(f, start, rate, round, base, lane, i);
        }
        lane := lane + 1;
      }
      if |out| >= n {
        break;
      }
      Permute(f, state);
      NextRound(f, start, rate, round);
      round := round + 1;
      base := base + rate;
    }
    out := out[..n];
  }

  lemma NextRound(f: Permutation, st: Lanes, rate: nat, round: nat)
    ensures Permuted(f, st, round + 1) == f(Permuted(f, st, round))
    ensures rate * (round + 1) == rate * round + rate
  {
  }

  lemma LaneOfStream(f: Permutation, st: Lanes, rate: nat, round: nat, base: nat, lane: nat, i: nat)
    requires Rate(rate) && base == rate * round && lane < rate / 8 && base + 8 * lane <= i < base + 8 * lane + 8
    ensures StreamByte(f, st, rate, i) == ToLe(Permuted(f, st, round)[lane], 8)[i - base - 8 * lane]
  {
    hide ToLe, Permuted;
    Arith.QuotientIs(i, rate, round, i - base);
    Arith.QuotientIs(i - base, 8, lane, i - base - 8 * lane);
  }

  // Bytes of lanes

  /** Byte i of a lane weighs 256 to the i. */
  lemma {:induction false} LeDigit(x: nat, n: nat, i: nat)
    requires i < n
    ensures ToLe(x, n)[i] == x / Bytes.Power256(i) % 256
  {
    if i > 0 {
      LeDigit(x / 256, n - 1, i - 1);
      Bytes.DivideTwice(x, Bytes.Power256(i - 1));
    }
  }

  lemma {:induction false} LeBack(s: seq<u8>)
    ensures ToLe(OfLe(s), |s|) == s
  {
    if s != [] {
      LeBack(s[1..]);
      Arith.QuotientIs(OfLe(s), 256, OfLe(s[1..]), s[0]);
    }
  }

  lemma {:induction false} XorLe(a: nat, b: nat, n: nat, i: nat)
    requires i < n
    ensures ToLe(Xor(a, b), n)[i] == XorByte(ToLe(a, n)[i], ToLe(b, n)[i])
  {
    hide Xor, XorByte;
    XorBytes(a, b);
    if i > 0 {
      XorLe(a / 256, b / 256, n - 1, i - 1);
    }
  }

  /** Absorbing mixes block byte i into byte i of the state and leaves the rest of the state alone. */
  lemma MixedBytes(st: Lanes, rate: nat, block: seq<u8>, i: nat)
    requires Rate(rate) && |block| == rate && i < 200
    ensures LaneByte(Mixed(st, rate, block), i) == if i < rate then XorByte(LaneByte(st, i), block[i]) else LaneByte(st, i)
  {
    hide XorByte, ToLe, OfLe, Xor;
    var l := i / 8;
    if l < rate / 8 {
      var lane := block[8 * l..8 * l + 8];
      LeBack(lane);
      XorLe(st[l], OfLe(lane), 8, i % 8);
      assert lane[i % 8] == block[i];
    }
  }

  /** The output starts with the bytes of the state, lane by lane, low byte first. */
  lemma StreamStart(f: Permutation, st: Lanes, rate: nat, i: nat)
    requires Rate(rate) && i < rate
    ensures StreamByte(f, st, rate, i) == st[i / 8] / Bytes.Power256(i % 8) % 256
  {
    hide ToLe;
    Arith.QuotientIs(i, rate, 0, i);
    LeDigit(st[i / 8], 8, i % 8);
  }

  /** One rate further on it is the output of the permuted state. */
  lemma StreamNext(f: Permutation, st: Lanes, rate: nat, i: nat)
    requires Rate(rate)
    ensures StreamByte(f, st, rate, i + rate) == StreamByte(f, f(st), rate, i)
  {
    hide LaneByte, Permuted;
    var (q, r) := (i / rate, i % rate);
    NextRate(i, rate);
    PermutedInside(f, st, q);
  }

  lemma NextRate(i: nat, rate: nat)
    requires 0 < rate
    ensures (i + rate) / rate == i / rate + 1 && (i + rate) % rate == i % rate
  {
    hide Arith.Mul, Arith.Div, Arith.Mod;
    Arith.DivMod(i, rate);
    Arith.DivIs(i, rate);
    Arith.ModIs(i, rate);
    Arith.DivIs(i + rate, rate);
    Arith.ModIs(i + rate, rate);
    Arith.Distrib(rate, Arith.Div(i, rate), 1);
    Arith.MulUnit(rate);
    Arith.DivModUnique(i + rate, rate, Arith.Div(i, rate) + 1, Arith.Mod(i, rate));
  }

  lemma {:induction false} PermutedInside(f: Permutation, st: Lanes, n: nat)
    ensures Permuted(f, st, n + 1) == Permuted(f, f(st), n)
  {
    if n > 0 {
      PermutedInside(f, st, n - 1);
    } else {
      assert Permuted(f, st, 0) == st;
    }
  }
}
