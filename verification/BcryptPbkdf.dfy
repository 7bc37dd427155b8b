/** The strided output of `bcrypt_pbkdf`: bytes of each derived block are spread across the whole key. */
module BcryptPbkdf {
  import opened Arith
  import opened Words
  import opened Bits
  import opened Wrappers
  import opened Bytes

  const HASH_LEN: nat := 32
  const MAX_KEY: nat := 1024

  type Block = s: seq<u8> | |s| == 32 witness seq(32, _ => 0)

  /** SHA-512 and the Blowfish-based hash. */
  datatype Hashes = Hashes(sha512: seq<u8> -> seq<u8>, bcrypt: (seq<u8>, seq<u8>) -> Block)

  datatype KdfError = InvalidLength

  /** Result i of the round chain of one block. */
  function Link(H: Hashes, password: seq<u8>, salt: seq<u8>, counter: nat, i: nat): Block {
    var pass := H.sha512(password);
    if i == 0 then H.bcrypt(pass, H.sha512(salt + ToBe(counter, 4)))
    else H.bcrypt(pass, H.sha512(Link(H, password, salt, counter, i - 1)))
  }

  function XorBlocks(a: Block, b: Block): Block {
    hide XorByte;
    seq(32, i requires 0 <= i < 32 => XorByte(a[i], b[i]))
  }

  /** The exclusive or of the first n links. */
  function Mix(H: Hashes, password: seq<u8>, salt: seq<u8>, counter: nat, n: nat): Block
    requires n > 0
  {
    hide XorBlocks, Link;
    if n == 1 then Link(H, password, salt, counter, 0)
    else XorBlocks(Mix(H, password, salt, counter, n - 1), Link(H, password, salt, counter, n - 1))
  }

  function CeilDiv(a: nat, b: nat): (q: nat)
    requires 0 < b
    ensures Mul(b, q) >= a && (a > 0 ==> q > 0 && Mul(b, q - 1) < a)
    ensures a == 0 ==> q == 0
  {
    hide Mul, Div, Mod;
    CeilBounds(a, b);
    Div(a + b - 1, b)
  }

  lemma CeilBounds(a: nat, b: nat)
    requires 0 < b
    ensures var q := Div(a + b - 1, b); 0 <= q && Mul(b, q) >= a && (a > 0 ==> q > 0 && Mul(b, q - 1) < a) && (a == 0 ==> q == 0)
  {
    hide Mul, Div, Mod;
    DivMod(a + b - 1, b);
    var q := Div(a + b - 1, b);
    Distrib(b, q, 1);
    MulUnit(b);
    MulComm(b, q);
    if q <= 0 {
      MulMono(b, q, 0);
    } else if a == 0 {
      MulMono(b, 1, q);
    }
  }

  /** How many key positions fall to pass c: those congruent to c modulo the stride. */
  function Share(len: nat, stride: nat, c: nat): nat
    requires 0 < stride
  {
    if c >= len then 0 else CeilDiv(len - c, stride)
  }

  /** Position i of pass c lies in the key exactly below its share. */
  lemma ShareIs(len: nat, stride: nat, c: nat, i: nat)
    requires 0 < stride
    ensures Mul(stride, i) + c < len <==> i < Share(len, stride, c)
  {
    hide Mul, Div, Mod;
    MulUnit(stride);
    MulSign(stride, i);
    if c < len {
      var q := Share(len, stride, c);
      if i < q {
        MulMono(stride, i, q - 1);
      } else {
        MulMono(stride, q, i);
      }
    }
  }

  /** Later passes have no larger share. */
  lemma SharesFall(len: nat, stride: nat, c: nat, d: nat)
    requires 0 < stride && c <= d
    ensures Share(len, stride, d) <= Share(len, stride, c)
  {
    hide Mul, Div, Mod;
    var q := Share(len, stride, d);
    if q > 0 {
      ShareIs(len, stride, d, q - 1);
      ShareIs(len, stride, c, q - 1);
    }
  }

  /** Positions left for passes c and later. */
  function Left(len: nat, stride: nat, c: nat): nat
    requires 0 < stride && c <= stride
    decreases stride - c
  {
    if c == stride then 0 else Share(len, stride, c) + Left(len, stride, c + 1)
  }

  /** The shares of all passes add up to the key length. */
  lemma {:induction false} SharesCover(len: nat, stride: nat)
    requires 0 < stride
    ensures Left(len, stride, 0) == len
    decreases len
  {
    hide Mul, Div, Mod;
    if len == 0 {
      NothingLeft(stride, 0);
    } else {
      SharesCover(len - 1, stride);
      var c := Mod(len - 1, stride);
      DivMod(len - 1, stride);
      OneMore(len - 1, stride, c, 0);
    }
  }

  lemma {:induction false} NothingLeft(stride: nat, c: nat)
    requires 0 < stride && c <= stride
    ensures Left(0, stride, c) == 0
    decreases stride - c
  {
    if c < stride {
      NothingLeft(stride, c + 1);
    }
  }

  /** One more key byte adds one to the share of its residue. */
  lemma {:induction false} OneMore(len: nat, stride: nat, residue: nat, c: nat)
    requires 0 < stride && residue == Mod(len, stride) && c <= stride
    ensures Left(len + 1, stride, c) == Left(len, stride, c) + if c <= residue then 1 else 0
    decreases stride - c
  {
    hide Mul, Div, Mod, Share;
    DivMod(len, stride);
    if c < stride {
      OneMore(len, stride, residue, c + 1);
      ShareGrows(len, stride, residue, c);
    }
  }

  lemma ShareGrows(len: nat, stride: nat, residue: nat, c: nat)
    requires 0 < stride && residue == Mod(len, stride) && c < stride
    ensures Share(len + 1, stride, c) == Share(len, stride, c) + if c == residue then 1 else 0
  {
    hide Mul, Div, Mod, Share;
    DivMod(len, stride);
    var a, b := Share(len, stride, c), Share(len + 1, stride, c);
    var i := Div(len, stride);
    MulComm(stride, i);
    ShareIs(len, stride, c, a);
    ShareIs(len + 1, stride, c, a);
    ShareIs(len + 1, stride, c, a + 1);
    MulUnit(stride);
    Distrib(stride, a, 1);
    MulSign(stride, a);
    if a > 0 {
      ShareIs(len, stride, c, a - 1);
      ShareIs(len + 1, stride, c, a - 1);
      Distrib(stride, a - 1, 1);
    }
    if b > 0 {
      ShareIs(len + 1, stride, c, b - 1);
    }
    ShareIs(len + 1, stride, c, b);
    if Mul(stride, a) + c == len {
      DivModUnique(len, stride, a, c);
    }
    if c == residue {
      ShareIs(len, stride, c, i);
      ShareIs(len + 1, stride, c, i);
    }
  }

  /** The derived key: byte d comes from block (d mod stride) + 1, at place d / stride. */
  function KeyByte(H: Hashes, password: seq<u8>, salt: seq<u8>, rounds: nat, stride: nat, d: nat): u8
    requires rounds > 0 && 0 < stride
  {
    hide Mix;
    var i := Div(d, stride);
    if 0 <= i < 32 then Mix(H, password, salt, Mod(d, stride) + 1, rounds)[i] else 0
  }

  function Stride(len: nat): (s: nat)
    requires len > 0
    ensures s > 0
  {
    CeilDiv(len, HASH_LEN)
  }

  /** A place in a block never exceeds its 32 bytes. */
  lemma PlacesFit(len: nat)
    requires len > 0
    ensures CeilDiv(len, Stride(len)) <= 32
    ensures Stride(len) <= len
  {
    hide Mul, Div, Mod, CeilDiv;
    var stride := Stride(len);
    MulComm(32, stride);
    ShareIs(len, stride, 0, 32);
    MulUnit(32);
    if stride > len {
      MulMono(32, len, stride - 1);
      Thirty(len);
    }
  }

  lemma Thirty(len: nat)
    ensures Mul(32, len) == 32 * len
  {
  }

  method DeriveBlock(H: Hashes, password: seq<u8>, salt: seq<u8>, rounds: nat, counter: nat) returns (out: Block)
    requires rounds > 0
    ensures out == Mix(H, password, salt, counter, rounds)
  {
    hide XorByte;
    var pass := H.sha512(password);
    var tmp := H.bcrypt(pass, H.sha512(salt + ToBe(counter, 4)));
    out := tmp;
    for i := 1 to rounds
      invariant tmp == Link(H, password, salt, counter, i - 1)
      invariant out == Mix(H, password, salt, counter, i)
    {
      tmp := H.bcrypt(pass, H.sha512(tmp));
      out := XorInto(out, tmp);
    }
  }

  method XorInto(left: Block, right: Block) returns (out: Block)
    ensures out == XorBlocks(left, right)
  {
    hide XorByte;
    var bytes := new u8[32](i requires 0 <= i < 32 => left[i]);
    for i := 0 to 32
      invariant forall k :: 0 <= k < 32 ==> bytes[k] == if k < i then XorByte(left[k], right[k]) else left[k]
    {
      bytes[i] := XorByte(bytes[i], right[i]);
    }
    out := bytes[..];
  }

  /** Position d belongs to a pass before c. */
  predicate Before(d: nat, stride: nat, c: nat)
    requires 0 < stride
  {
    Mod(d, stride) < c
  }

  /** Every position of an earlier pass holds its key byte. */
  ghost predicate WrittenBefore(key: seq<u8>, H: Hashes, password: seq<u8>, salt: seq<u8>, rounds: nat, stride: nat, c: nat)
    requires rounds > 0 && 0 < stride
  {
    forall d: nat :: d < |key| && Before(d, stride, c) ==> key[d] == KeyByte(H, password, salt, rounds, stride, d)
  }

  /**
   One pass: bytes of one block go to every stride-th place, until the key ends. It copies its whole share,
   which is at least one byte, and touches no place of another pass.
   */
  method Scatter(H: Hashes, password: seq<u8>, salt: seq<u8>, rounds: nat, stride: nat, c: nat, amount: nat, out: Block, key: array<u8>)
    returns (copied: nat)
    requires rounds > 0 && 0 < stride && c < stride && amount <= 32
    requires out == Mix(H, password, salt, c + 1, rounds)
    requires Share(key.Length, stride, c) <= amount
    requires WrittenBefore(key[..], H, password, salt, rounds, stride, c)
    modifies key
    ensures copied == Share(key.Length, stride, c)
    ensures WrittenBefore(key[..], H, password, salt, rounds, stride, c + 1)
  {
    hide Mul, Div, Mod, Share, Mix;
    ghost var was := key[..];
    copied := 0;
    forall d: nat | d < key.Length ensures Div(d, stride) >= 0 {
      DivMod(d, stride);
    }
    var i := 0;
    while i < amount
      invariant i <= amount && copied == i <= Share(key.Length, stride, c)
      invariant forall d: nat :: d < key.Length && Before(d, stride, c) ==> key[d] == was[d]
      invariant forall j: nat :: j < i ==> Mul(stride, j) + c < key.Length
      invariant forall d: nat :: d < key.Length && Mod(d, stride) == c && Div(d, stride) < i ==> key[d] == KeyByte(H, password, salt, rounds, stride, d)
    {
      ShareIs(key.Length, stride, c, i);
      MulSign(stride, i);
      var dest := Mul(stride, i) + c;
      if dest >= key.Length {
        break;
      }
      DivModUnique(dest, stride, i, c);
      key[dest] := out[i];
      forall d: nat | d < key.Length && Mod(d, stride) == c && Div(d, stride) < i + 1 ensures key[d] == KeyByte(H, password, salt, rounds, stride, d) {
        DivMod(d, stride);
        MulComm(stride, Div(d, stride));
        if Div(d, stride) >= i {
          assert d == dest;
        }
      }
      copied := copied + 1;
      i := i + 1;
    }
    ShareIs(key.Length, stride, c, copied);
    forall d: nat | d < key.Length && Before(d, stride, c + 1) ensures key[d] == KeyByte(H, password, salt, rounds, stride, d) {
      DivMod(d, stride);
      if Mod(d, stride) == c {
        PlaceInShare(key.Length, stride, c, d);
      } else {
        assert Before(d, stride, c);
        assert was[d] == KeyByte(H, password, salt, rounds, stride, d);
      }
    }
  }

  lemma PlaceInShare(len: nat, stride: nat, c: nat, d: nat)
    requires 0 < stride && d < len && Mod(d, stride) == c
    ensures 0 <= Div(d, stride) < Share(len, stride, c)
  {
    hide Mul, Div, Mod, Share;
    DivMod(d, stride);
    MulComm(stride, Div(d, stride));
    ShareIs(len, stride, c, Div(d, stride));
  }

  /** The loop ends after exactly `Stride(len)` passes with every byte of the key written. */
  method BcryptPbkdfSha512(H: Hashes, password: seq<u8>, salt: seq<u8>, rounds: nat, len: nat) returns (r: Result<seq<u8>, KdfError>, ghost passes: nat)
    ensures r.Ok? <==> rounds != 0 && 0 < len <= 1024 && password != [] && salt != []
    ensures r.Ok? ==> passes == Stride(len) && |r.value| == len
    ensures r.Ok? ==> forall d :: 0 <= d < len ==> r.value[d] == KeyByte(H, password, salt, rounds, Stride(len), d)
  {
    hide Mul, Div, Mod, Share, Mix, CeilDiv, KeyByte;
    passes := 0;
    if rounds == 0 || len == 0 || password == [] || salt == [] || len > MAX_KEY {
      return Err(InvalidLength), 0;
    }
    var key := new u8[len](_ => 0);
    var stride := Stride(len);
    var amount := CeilDiv(len, stride);
    var remaining := len;
    var counter := 1;
    PlacesFit(len);
    SharesCover(len, stride);
    FirstShare(len, stride);
    NoneBefore(key[..], H, password, salt, rounds, stride);
    while remaining > 0
      invariant passes == counter - 1 <= stride
      invariant remaining == Left(len, stride, passes)
      invariant amount <= 32
      invariant forall c :: passes <= c < stride ==> Share(len, stride, c) <= amount
      invariant WrittenBefore(key[..], H, password, salt, rounds, stride, passes)
      decreases stride - passes
    {
      var out := DeriveBlock(H, password, salt, rounds, counter);
      ShareHere(len, stride, passes);
      forall c | passes <= c < stride ensures Share(len, stride, c) <= remaining {
        SharesFall(len, stride, passes, c);
      }
      amount := Min(amount, remaining);
      var copied := Scatter(H, password, salt, rounds, stride, counter - 1, amount, out, key);
      remaining := remaining - copied;
      counter := counter + 1;
      passes := passes + 1;
    }
    AllPasses(len, stride, passes);
    forall d: nat | d < len ensures Before(d, stride, passes) {
      DivMod(d, stride);
    }
    return Ok(key[..]), passes;
  }

  lemma NoneBefore(key: seq<u8>, H: Hashes, password: seq<u8>, salt: seq<u8>, rounds: nat, stride: nat)
    requires rounds > 0 && 0 < stride
    ensures WrittenBefore(key, H, password, salt, rounds, stride, 0)
  {
    hide KeyByte;
  }

  lemma FirstShare(len: nat, stride: nat)
    requires 0 < len && 0 < stride
    ensures forall c :: 0 <= c < stride ==> Share(len, stride, c) <= CeilDiv(len, stride)
  {
    hide CeilDiv;
    forall c | 0 <= c < stride ensures Share(len, stride, c) <= CeilDiv(len, stride) {
      SharesFall(len, stride, 0, c);
    }
  }

  /** While bytes remain there is a pass left, and its share is among them. */
  lemma ShareHere(len: nat, stride: nat, c: nat)
    requires 0 < stride && c <= stride && Left(len, stride, c) > 0
    ensures c < stride && Share(len, stride, c) <= Left(len, stride, c)
    ensures Left(len, stride, c + 1) == Left(len, stride, c) - Share(len, stride, c)
  {
    hide Share;
  }

  /** Every pass of an accepted length has a byte to copy, so none is skipped. */
  lemma AllPasses(len: nat, stride: nat, c: nat)
    requires 0 < len && stride == Stride(len) && c <= stride && Left(len, stride, c) == 0
    ensures c == stride
  {
    hide Mul, Div, Mod, CeilDiv;
    PlacesFit(len);
    if c < stride {
      MulUnit(stride);
      ShareIs(len, stride, c, 0);
    }
  }

  /** No key position reads past a block, and every pass has at least one byte to copy. */
  lemma EveryPassCopies(len: nat, c: nat, d: nat)
    requires 0 < len && c < Stride(len) && d < len
    ensures Share(len, Stride(len), c) >= 1
    ensures 0 <= Div(d, Stride(len)) < 32
  {
    hide Mul, Div, Mod, CeilDiv, Share;
    var stride := Stride(len);
    PlacesFit(len);
    FirstShare(len, stride);
    MulUnit(stride);
    ShareIs(len, stride, c, 0);
    DivMod(d, stride);
    PlaceInShare(len, stride, Mod(d, stride), d);
  }

  // Reading the definitions

  /** The first link hashes the salt with the block counter, big-endian in four bytes; each later one hashes the link before it. */
  lemma LinksAre(H: Hashes, password: seq<u8>, salt: seq<u8>, counter: u32, i: nat)
    ensures Link(H, password, salt, counter, 0)
         == H.bcrypt(H.sha512(password),
                     H.sha512(salt + [counter / 0x100_0000, counter / 0x1_0000 % 256, counter / 0x100 % 256, counter % 256]))
    ensures Link(H, password, salt, counter, i + 1) == H.bcrypt(H.sha512(password), H.sha512(Link(H, password, salt, counter, i)))
  {
    FourBytes(counter);
  }

  lemma FourBytes(x: u32)
    ensures ToBe(x, 4) == [x / 0x100_0000, x / 0x1_0000 % 256, x / 0x100 % 256, x % 256]
  {
    Quotients(x);
    assert ToBe(x / 0x1_0000_0000, 0) == [];
    assert ToBe(x / 0x100_0000, 1) == [x / 0x100_0000 % 256];
    assert ToBe(x / 0x1_0000, 2) == ToBe(x / 0x100_0000, 1) + [x / 0x1_0000 % 256];
    assert ToBe(x / 0x100, 3) == ToBe(x / 0x1_0000, 2) + [x / 0x100 % 256];
  }

  lemma Quotients(x: u32)
    ensures x / 0x100 / 256 == x / 0x1_0000 && x / 0x1_0000 / 256 == x / 0x100_0000 && x / 0x100_0000 % 256 == x / 0x100_0000
  {
  }

  /** Bit t of byte i of a block is the parity of that bit over all its links. */
  lemma {:induction false} MixIs(H: Hashes, password: seq<u8>, salt: seq<u8>, counter: nat, n: nat, i: nat, t: nat)
    requires n > 0 && i < 32
    ensures BitAt(Mix(H, password, salt, counter, n)[i], t) == Ones(H, password, salt, counter, n, i, t) % 2
  {
    hide Link, BitAt, Xor;
    if n > 1 {
      MixIs(H, password, salt, counter, n - 1, i, t);
      BitXor(Mix(H, password, salt, counter, n - 1)[i], Link(H, password, salt, counter, n - 1)[i], t);
    }
  }

  /** In how many of the first n links bit t of byte i is set. */
  function Ones(H: Hashes, password: seq<u8>, salt: seq<u8>, counter: nat, n: nat, i: nat, t: nat): nat
    requires i < 32
  {
    if n == 0 then 0 else Ones(H, password, salt, counter, n - 1, i, t) + BitAt(Link(H, password, salt, counter, n - 1)[i], t)
  }

  /** Byte stride * i + c of a key: place i of the block with counter c + 1, where the stride is the length over 32, rounded up. */
  lemma KeyByteIs(H: Hashes, password: seq<u8>, salt: seq<u8>, rounds: nat, len: nat, stride: nat, i: nat, c: nat)
    requires rounds > 0 && len > 0 && stride == Stride(len) && c < stride && Mul(stride, i) + c < len
    ensures 32 * (stride - 1) < len <= 32 * stride && i < 32 && 0 <= Mul(stride, i)
    ensures KeyByte(H, password, salt, rounds, stride, Mul(stride, i) + c) == Mix(H, password, salt, c + 1, rounds)[i]
    ensures Mix(H, password, salt, c + 1, 1) == Link(H, password, salt, c + 1, 0)
  {
    hide Mul, Div, Mod, CeilDiv, Mix, Link;
    MulSign(stride, i);
    EveryPassCopies(len, 0, Mul(stride, i) + c);
    DivModUnique(Mul(stride, i) + c, stride, i, c);
    StrideIs(len);
    OneLink(H, password, salt, c + 1);
  }

  lemma StrideIs(len: nat)
    requires len > 0
    ensures 32 * (Stride(len) - 1) < len <= 32 * Stride(len)
  {
    hide Div, CeilDiv;
  }

  lemma OneLink(H: Hashes, password: seq<u8>, salt: seq<u8>, counter: nat)
    ensures Mix(H, password, salt, counter, 1) == Link(H, password, salt, counter, 0)
  {
    hide Link;
  }
}
