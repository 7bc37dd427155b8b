/** Shifts, bit length and the byte codecs of `BigUint`. */
module BigShifts {
  import opened Arith
  import opened Words
  import opened Limbs
  import opened LimbOps
  import opened Wrappers
  import opened BigUints

  method Shr1(a: BigUint) returns (r: BigUint)
    ensures Val(r) == Val(a) / 2
  {
    hide Mul, Div, Mod, Val, W, Shl32, Shr32, Pow2, Or, And;
    if |a| == 0 {
      ValEmpty();
      return ZERO;
    }
    var out := new u32[|a|](_ => 0);
    var carry: u32 := 0;
    var idx := |a|;
    SmallPowers();
    ShrStart(2);
    assert a[|a|..] == [] && out[|a|..] == [];
    while idx > 0
      invariant 0 <= idx <= |a| && carry < 2
      invariant Val(a[idx..]) == Mul(2, Val(out[idx..])) + carry
    {
      idx := idx - 1;
      ghost var high := out[idx + 1..];
      ShrDigit(a[idx], 1, carry);
      CarryBit(carry);
      ParityOfLimb(a[idx]);
      ShrStep(high, a[idx + 1..], a[idx], 2, carry, Or(Shr32(a[idx], 1), Shl32(carry, 31)), Mod(a[idx], 2));
      assert a[idx..] == [a[idx]] + a[idx + 1..];
      out[idx] := Or(Shr32(a[idx], 1), Shl32(carry, 31));
      assert out[idx..] == [out[idx]] + high;
      carry := And(a[idx], 1);
    }
    assert a[0..] == a && out[0..] == out[..];
    HalfValue(Val(a), Val(out[..]), carry);
    r := FromLimbs(out[..]);
  }

  lemma CarryBit(c: u32)
    requires c < 2
    ensures Shl32(c, 31) == Mul(c, Pow2(31))
  {
    Pow2Is32();
  }

  lemma ParityOfLimb(x: u32)
    ensures And(x, 1) == Mod(x, 2)
  {
    AndOne(x);
  }

  lemma HalfValue(a: int, h: int, c: int)
    requires 0 <= c < 2 && a == Mul(2, h) + c
    ensures h == a / 2
  {
  }

  /** One limb of a left shift: the low part joins limb `o`, the rest starts limb `o + 1`. */
  lemma ShlLimb(out: seq<u32>, o: nat, v: u32, k: nat)
    requires o + 1 < |out| && k < 32 && out[o] < Pow2(k) && out[o + 1] == 0
    ensures 0 <= Or(out[o], Shl32(v, k)) < B
    ensures k == 0 ==> Val(out[o := Or(out[o], Shl32(v, k))]) == Val(out) + Mul(Mul(v, Pow2(k)), W(o))
    ensures 0 < k ==> Val(out[o := Or(out[o], Shl32(v, k))][o + 1 := Or(out[o + 1], Shr32(v, 32 - k))])
                      == Val(out) + Mul(Mul(v, Pow2(k)), W(o))
    ensures 0 < k ==> 0 <= Or(out[o + 1], Shr32(v, 32 - k)) < B && Or(out[o + 1], Shr32(v, 32 - k)) < Pow2(k)
  {
    hide Mul, Div, Mod, Val, W, Pow2;
    OrCommutes(out[o], Shl32(v, k));
    if k == 0 {
      Pow2Zero();
      MulUnit(v);
      ShlByZero(v);
      ValUpdate(out, o, v);
    } else {
      ShlOr(v, k, out[o]);
      var low, hi: u32 := Or(Shl32(v, k), out[o]), Shr32(v, 32 - k);
      var mid := out[o := low];
      ValUpdate(out, o, low);
      ValUpdate(mid, o + 1, hi);
      var x: int := out[o];
      CarryOn(W(o), low - x, hi, Mul(v, Pow2(k)), o);
    }
  }

  lemma ShlByZero(v: u32)
    ensures Shl32(v, 0) == v && Or(v, 0) == v && Or(0, v) == v
  {
  }

  method ShlBits(a: BigUint, bits: nat) returns (r: BigUint)
    ensures Val(r) == Mul(Val(a), Pow2(bits))
  {
    hide Mul, Div, Mod, Val, W, Pow2, Shl32, Shr32, Or;
    if |a| == 0 {
      ValEmpty();
      MulUnit(Pow2(bits));
      return ZERO;
    }
    var wordShift, bitShift := bits / 32, bits % 32;
    var out := new u32[|a| + wordShift + 1](_ => 0);
    ValZeros(out[..]);
    ShlBegin(a, bitShift, wordShift);
    for idx := 0 to |a|
      invariant Val(out[..]) == Mul(Mul(Val(a[..idx]), Pow2(bitShift)), W(wordShift))
      invariant out[idx + wordShift] < Pow2(bitShift)
      invariant forall k :: idx + wordShift < k < out.Length ==> out[k] == 0
    {
      var outIdx := idx + wordShift;
      ghost var was := out[..];
      ShlLimb(was, outIdx, a[idx], bitShift);
      ShlAdvance(a, idx, bitShift, wordShift);
      out[outIdx] := Or(out[outIdx], Shl32(a[idx], bitShift));
      if bitShift != 0 {
        out[outIdx + 1] := Or(out[outIdx + 1], Shr32(a[idx], 32 - bitShift));
        ghost var mid: seq<u32> := was[outIdx := out[outIdx]];
        assert out[..] == mid[outIdx + 1 := out[outIdx + 1]];
      } else {
        assert out[..] == was[outIdx := out[outIdx]];
      }
    }
    assert a[..|a|] == a;
    ShlTotal(Val(a), bits);
    r := FromLimbs(out[..]);
  }

  lemma ShlBegin(a: seq<u32>, k: nat, n: nat)
    ensures Mul(Mul(Val(a[..0]), Pow2(k)), W(n)) == 0 < Pow2(k)
  {
    hide Mul;
    MulUnit(Pow2(k));
    MulUnit(W(n));
  }

  lemma ShlAdvance(a: seq<u32>, i: nat, k: nat, n: nat)
    requires i < |a|
    ensures Mul(Mul(Val(a[..i + 1]), Pow2(k)), W(n))
         == Mul(Mul(Val(a[..i]), Pow2(k)), W(n)) + Mul(Mul(a[i], Pow2(k)), W(i + n))
  {
    hide Mul, Val, W, Pow2;
    ValPrefix(a, i);
    Distrib(Pow2(k), Val(a[..i]), Mul(a[i], W(i)));
    MulAssoc(a[i], W(i), Pow2(k));
    MulComm(W(i), Pow2(k));
    MulAssoc(a[i], Pow2(k), W(i));
    Distrib(W(n), Mul(Val(a[..i]), Pow2(k)), Mul(Mul(a[i], Pow2(k)), W(i)));
    MulAssoc(Mul(a[i], Pow2(k)), W(i), W(n));
    WAdd(i, n);
  }

  lemma ShlTotal(a: int, bits: nat)
    ensures Mul(Mul(a, Pow2(bits % 32)), W(bits / 32)) == Mul(a, Pow2(bits))
  {
    hide Mul, W, Pow2;
    WIsPow2(bits / 32);
    Pow2Add(bits % 32, 32 * (bits / 32));
    MulAssoc(a, Pow2(bits % 32), W(bits / 32));
  }

  /** Bits up to and including the highest set one. */
  function BitLength(a: BigUint): (n: nat)
    ensures Val(a) < Pow2(n)
    ensures 0 < Val(a) ==> 0 < n && Pow2(n - 1) <= Val(a)
    ensures n == 0 <==> Val(a) == 0
  {
    ZeroIsEmpty(a);
    if |a| == 0 then 0
    else
      BitLengthBounds(a);
      32 * (|a| - 1) + (32 - LeadingZeros(a[|a| - 1]))
  }

  lemma BitLengthBounds(a: BigUint)
    requires |a| > 0
    ensures var n := 32 * (|a| - 1) + (32 - LeadingZeros(a[|a| - 1]));
            0 < n && Pow2(n - 1) <= Val(a) < Pow2(n)
  {
    hide Mul, Val, W, Pow2, LeadingZeros, BitLen;
    var m, top: int := |a| - 1, a[|a| - 1];
    var b := 32 - LeadingZeros(a[m]);
    ValPrefix(a, m);
    assert a[..m + 1] == a;
    ValBound(a[..m]);
    WIsPow2(m);
    MulMono(W(m), top + 1, Pow2(b));
    Distrib(W(m), top, 1);
    MulUnit(W(m));
    Pow2Add(b, 32 * m);
    MulMono(W(m), Pow2(b - 1), top);
    Pow2Add(b - 1, 32 * m);
  }

  /** The natural number of a big-endian byte string. */
  function BeVal(bytes: seq<u8>): nat {
    if |bytes| == 0 then 0 else 256 * BeVal(bytes[..|bytes| - 1]) + bytes[|bytes| - 1]
  }

  lemma BeSnoc(bytes: seq<u8>, x: u8)
    ensures BeVal(bytes + [x]) == 256 * BeVal(bytes) + x
  {
    assert (bytes + [x])[..|bytes|] == bytes;
  }

  lemma {:induction false} BeConcat(a: seq<u8>, b: seq<u8>)
    ensures BeVal(a + b) == Mul(BeVal(a), Pow2(8 * |b|)) + BeVal(b)
  {
    hide Mul;
    if |b| == 0 {
      assert a + b == a;
      Pow2Zero();
      MulUnit(BeVal(a));
    } else {
      var b0 := b[..|b| - 1];
      assert a + b == (a + b0) + [b[|b| - 1]];
      BeSnoc(a + b0, b[|b| - 1]);
      BeConcat(a, b0);
      Pow2Add(8, 8 * |b0|);
      assert Pow2(8) == 256;
      MulSwap(256, BeVal(a), Pow2(8 * |b0|));
      ByteScale(Mul(BeVal(a), Pow2(8 * |b0|)));
    }
  }

  lemma ByteScale(x: int)
    ensures Mul(256, x) == 256 * x
  {
  }

  lemma {:induction false} BeBound(bytes: seq<u8>)
    ensures BeVal(bytes) < Pow2(8 * |bytes|)
  {
    if |bytes| != 0 {
      BeBound(bytes[..|bytes| - 1]);
      hide Mul;
      Pow2Add(8, 8 * (|bytes| - 1));
      assert Pow2(8) == 256;
      ByteScale(Pow2(8 * (|bytes| - 1)));
    }
  }

  /** A leading zero byte does not count; a leading nonzero byte sets a lower bound. */
  lemma BeLead(bytes: seq<u8>)
    requires |bytes| > 0
    ensures bytes[0] == 0 ==> BeVal(bytes) == BeVal(bytes[1..])
    ensures bytes[0] != 0 ==> Pow2(8 * (|bytes| - 1)) <= BeVal(bytes)
  {
    hide Mul, Pow2, BeVal;
    assert bytes == [bytes[0]] + bytes[1..];
    BeConcat([bytes[0]], bytes[1..]);
    BeSingle(bytes[0]);
    MulUnit(Pow2(8 * (|bytes| - 1)));
    if bytes[0] != 0 {
      MulMono(Pow2(8 * (|bytes| - 1)), 1, bytes[0]);
    } else {
      MulUnit(Pow2(8 * (|bytes| - 1)));
    }
  }

  lemma ByteShift(byte: u8, shift: nat)
    requires shift <= 24
    ensures Shl32(byte, shift) == Mul(byte, Pow2(shift))
    ensures Mul(byte, Pow2(shift)) + Pow2(shift) <= Pow2(shift + 8) <= B
    ensures 0 <= Mul(byte, Pow2(shift))
  {
    hide Mul, Pow2;
    MulSign(byte, Pow2(shift));
    MulMono(Pow2(shift), byte, 255);
    Distrib(Pow2(shift), 255, 1);
    MulUnit(Pow2(shift));
    Pow2Add(8, shift);
    PowEight();
    Pow2Monotone(shift + 8, 32);
    Pow2Is32();
  }

  lemma PowEight()
    ensures Pow2(8) == 256
  {
  }

  /** One byte of the big-endian input joins its limb. */
  lemma ByteStep(limbs: seq<u32>, li: nat, byte: u8, shift: nat, tail: seq<u8>)
    requires li < |limbs| && shift <= 24 && limbs[li] < Pow2(shift) && 8 * |tail| == 32 * li + shift
    requires Val(limbs) == BeVal(tail)
    ensures var x := Or(limbs[li], Shl32(byte, shift));
            && 0 <= x < B && x < Pow2(shift + 8)
            && Val(limbs[li := x]) == BeVal([byte] + tail)
  {
    hide Mul, Val, W, Pow2, BeVal;
    var old_: int := limbs[li];
    ByteShift(byte, shift);
    OrCommutes(limbs[li], Shl32(byte, shift));
    OrDisjoint(byte, limbs[li], shift);
    var x := Or(limbs[li], Shl32(byte, shift));
    ValUpdate(limbs, li, x);
    WIsPow2(li);
    Pow2Add(shift, 32 * li);
    MulAssoc(byte, Pow2(shift), W(li));
    BeConcat([byte], tail);
    BeSingle(byte);
  }

  lemma BeSingle(byte: u8)
    ensures BeVal([byte]) == byte && BeVal([]) == 0
  {
    BeSnoc([], byte);
    assert [] + [byte] == [byte];
  }

  method FromBeBytes(bytes: seq<u8>) returns (r: BigUint)
    ensures Val(r) == BeVal(bytes)
  {
    hide Mul, Val, W, Pow2, BeVal, Or, Shl32;
    BeSingle(0);
    if |bytes| == 0 {
      ValEmpty();
      return ZERO;
    }
    var limbLen := (|bytes| + 3) / 4;
    var limbs := new u32[limbLen](_ => 0);
    ValZeros(limbs[..]);
    Pow2Zero();
    assert bytes[|bytes|..] == [];
    for i := 0 to |bytes|
      invariant Val(limbs[..]) == BeVal(bytes[|bytes| - i..])
      invariant i / 4 < limbLen ==> limbs[i / 4] < Pow2(8 * (i % 4))
      invariant forall k :: i / 4 < k < limbLen ==> limbs[k] == 0
    {
      var limbIdx, shift := i / 4, 8 * (i % 4);
      ghost var was := limbs[..];
      var byte := bytes[|bytes| - 1 - i];
      ByteStep(was, limbIdx, byte, shift, bytes[|bytes| - i..]);
      assert bytes[|bytes| - 1 - i..] == [byte] + bytes[|bytes| - i..];
      limbs[limbIdx] := Or(limbs[limbIdx], Shl32(byte, shift));
      assert limbs[..] == was[limbIdx := limbs[limbIdx]];
    }
    assert bytes[0..] == bytes;
    r := FromLimbs(limbs[..]);
  }

  lemma BeEnd(bytes: seq<u8>)
    ensures BeVal(bytes[|bytes|..]) == 0
  {
  }

  function BeBytes4(x: u32): (b: seq<u8>)
    ensures |b| == 4
  {
    [x / 0x100_0000, x / 0x1_0000 % 0x100, x / 0x100 % 0x100, x % 0x100]
  }

  lemma FourBytes(x: u32, b: seq<u8>)
    requires b == BeBytes4(x)
    ensures 256 * (256 * (256 * (b[0] as int) + b[1]) + b[2]) + b[3] == x
  {
    var y, z, w := x / 0x100, x / 0x1_0000, x / 0x100_0000;
    QuotientIs(x, 0x1_0000, y / 256, 256 * (y % 256) + x % 256);
    QuotientIs(x, 0x100_0000, z / 256, 0x1_0000 * (z % 256) + x % 0x1_0000);
  }

  lemma BeBytes4Value(out: seq<u8>, x: u32)
    ensures BeVal(out + BeBytes4(x)) == B * BeVal(out) + x
  {
    hide BeVal, BeBytes4;
    var b := BeBytes4(x);
    FourBytes(x, b);
    assert out + b == (((out + [b[0]]) + [b[1]]) + [b[2]]) + [b[3]];
    BeSnoc(out, b[0]);
    BeSnoc(out + [b[0]], b[1]);
    BeSnoc((out + [b[0]]) + [b[1]], b[2]);
    BeSnoc(((out + [b[0]]) + [b[1]]) + [b[2]], b[3]);
  }

  /** Minimal big-endian bytes; a single zero byte for zero. */
  method ToBeBytes(a: BigUint) returns (r: seq<u8>)
    ensures BeVal(r) == Val(a)
    ensures |r| == 1 || (|r| > 1 && r[0] != 0)
  {
    hide Mul, Val, W, BeVal;
    ZeroIsEmpty(a);
    BeSingle(0);
    if |a| == 0 {
      return [0];
    }
    var out: seq<u8> := [];
    var idx := |a|;
    assert a[|a|..] == [];
    ValEmpty();
    while idx > 0
      invariant 0 <= idx <= |a| && |out| == 4 * (|a| - idx)
      invariant BeVal(out) == Val(a[idx..])
    {
      idx := idx - 1;
      BeBytes4Value(out, a[idx]);
      ValCons(a[idx], a[idx + 1..]);
      assert a[idx..] == [a[idx]] + a[idx + 1..];
      out := out + BeBytes4(a[idx]);
    }
    assert a[0..] == a;
    var first := 0;
    assert out[0..] == out;
    while first < |out| && out[first] == 0
      invariant 0 <= first <= |out| && BeVal(out[first..]) == BeVal(out)
    {
      BeLead(out[first..]);
      assert out[first..][1..] == out[first + 1..];
      first := first + 1;
    }
    BeEnd(out);
    // The fallback of line 103, every byte zero, cannot happen for a nonzero value.
    if first == |out| {
      assert false;
    }
    return out[first..];
  }

  /** Left-padded bytes of a fixed length, when the value fits; a length of zero never does. */
  method ToBeBytesPadded(a: BigUint, len: nat) returns (r: Option<seq<u8>>)
    ensures r.Some? <==> 0 < len && Val(a) < Pow2(8 * len)
    ensures r.Some? ==> |r.value| == len && BeVal(r.value) == Val(a)
  {
    hide Mul, Val, W, BeVal, Pow2;
    var raw := ToBeBytes(a);
    BeBound(raw);
    BeLead(raw);
    if |raw| > len {
      if len > 0 {
        Pow2Monotone(8 * len, 8 * (|raw| - 1));
      }
      return None;
    }
    Pow2Monotone(8 * |raw|, 8 * len);
    var pad: seq<u8> := seq(len - |raw|, _ => 0);
    BeZeros(pad);
    BeConcat(pad, raw);
    MulUnit(Pow2(8 * |raw|));
    return Some(pad + raw);
  }

  lemma {:induction false} BeZeros(pad: seq<u8>)
    requires forall i :: 0 <= i < |pad| ==> pad[i] == 0
    ensures BeVal(pad) == 0
  {
    if |pad| != 0 {
      BeZeros(pad[..|pad| - 1]);
    }
  }

  /** Byte i weighs 256 to the number of bytes after it. */
  lemma {:induction false} BeValDigit(bytes: seq<u8>, i: nat)
    requires i < |bytes|
    ensures 0 <= Div(BeVal(bytes), Pow2(8 * (|bytes| - 1 - i))) && bytes[i] == Mod(Div(BeVal(bytes), Pow2(8 * (|bytes| - 1 - i))), 256)
  {
    hide Mul, Div, Mod, Pow2;
    var (front, last, k) := (bytes[..|bytes| - 1], bytes[|bytes| - 1], |bytes| - 1 - i);
    LastByte(bytes);
    if k == 0 {
      Pow2Zero();
      MulUnit(BeVal(bytes));
      DivModUnique(BeVal(bytes), 1, BeVal(bytes), 0);
    } else {
      BeValDigit(front, i);
      SmallPowers();
      Pow2Add(8, 8 * (k - 1));
      DivDiv(BeVal(bytes), 256, Pow2(8 * (k - 1)));
    }
  }

  lemma LastByte(bytes: seq<u8>)
    requires bytes != []
    ensures Div(BeVal(bytes), 256) == BeVal(bytes[..|bytes| - 1]) && Mod(BeVal(bytes), 256) == bytes[|bytes| - 1]
  {
  }
}
