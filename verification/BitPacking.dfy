/** Bit packing shared by the two lattice schemes: 12- and 10-bit fields in bytes, low field first. */
module BitPacking {
  import Arith
  import opened Words

  /** Two 12-bit values in three bytes. */
  function Pack12(c0: nat, c1: nat): seq<nat> {
    [And(c0, 0xFF), Or(Shr(c0, 8), Shl(And(c1, 0x0F), 4)), Shr(c1, 4)]
  }

  function Unpack12(b0: u8, b1: u8, b2: u8): (nat, nat) {
    (Or(b0, Shl(And(b1, 0x0F), 8)), And(Or(Shr(b1, 4), Shl(b2, 4)), 0x0FFF))
  }

  lemma Pack12Value(c0: nat, c1: nat)
    requires c0 < 4096 && c1 < 4096
    ensures Pack12(c0, c1) == [c0 % 256, c0 / 256 + 16 * (c1 % 16), c1 / 16]
  {
    hide And, Or, Shl, Shr;
    SmallPowers();
    Masks(c0);
    Masks(c1);
    Shifts(c0);
    Shifts(c1);
    Shifts(c1 % 16);
    Join(c1 % 16, c0 / 256, 4);
  }

  lemma Unpack12Value(b0: u8, b1: u8, b2: u8)
    ensures Unpack12(b0, b1, b2) == (b0 + 256 * (b1 % 16), b1 / 16 + 16 * b2)
  {
    hide And, Or, Shl, Shr;
    SmallPowers();
    Masks(b1);
    Shifts(b1);
    Shifts(b1 % 16);
    Shifts(b2);
    Join(b1 % 16, b0, 8);
    Join(b2, b1 / 16, 4);
    var high := b1 / 16 + 16 * b2;
    Masks(high);
    assert high % 4096 == high;
  }

  lemma Pack12RoundTrip(c0: nat, c1: nat)
    requires c0 < 4096 && c1 < 4096
    ensures var b := Pack12(c0, c1);
            b[0] < 256 && b[1] < 256 && b[2] < 256 && Unpack12(b[0], b[1], b[2]) == (c0, c1)
  {
    hide Pack12, Unpack12;
    Pack12Value(c0, c1);
    var b := Pack12(c0, c1);
    Unpack12Value(b[0], b[1], b[2]);
  }

  /** Four 10-bit values in five bytes; each u8 cast keeps the low byte. */
  function Pack10(t0: nat, t1: nat, t2: nat, t3: nat): seq<nat> {
    [ t0 % 256,
      Or(Shr(t0, 8), Shl(t1, 2) % 256),
      Or(Shr(t1, 6), Shl(t2, 4) % 256),
      Or(Shr(t2, 4), Shl(t3, 6) % 256),
      Shr(t3, 2)]
  }

  function Unpack10(b0: u8, b1: u8, b2: u8, b3: u8, b4: u8): (nat, nat, nat, nat) {
    ( Or(b0, Shl(And(b1, 0x03), 8)),
      Or(Shr(b1, 2), Shl(And(b2, 0x0F), 6)),
      Or(Shr(b2, 4), Shl(And(b3, 0x3F), 4)),
      Or(Shr(b3, 6), Shl(b4, 2)))
  }

  /** Dropping the bits above a byte before a join. */
  lemma LowByte(x: nat)
    ensures 4 * x % 256 == 4 * (x % 64) && 16 * x % 256 == 16 * (x % 16) && 64 * x % 256 == 64 * (x % 4)
  {
    ByteOf(4 * x, x / 64, 4 * (x % 64));
    ByteOf(16 * x, x / 16, 16 * (x % 16));
    ByteOf(64 * x, x / 4, 64 * (x % 4));
  }

  lemma ByteOf(a: int, q: int, r: int)
    requires a == 256 * q + r && 0 <= r < 256
    ensures a % 256 == r
  {
  }

  /** A sum of a low field and a scaled high field splits again. */
  lemma Fields(lo: nat, hi: nat)
    ensures lo < 4 ==> (lo + 4 * hi) % 4 == lo && (lo + 4 * hi) / 4 == hi
    ensures lo < 16 ==> (lo + 16 * hi) % 16 == lo && (lo + 16 * hi) / 16 == hi
    ensures lo < 64 ==> (lo + 64 * hi) % 64 == lo && (lo + 64 * hi) / 64 == hi
    ensures hi < 4 && lo < 64 ==> lo + 64 * hi < 256
    ensures hi < 16 && lo < 16 ==> lo + 16 * hi < 256
    ensures hi < 64 && lo < 4 ==> lo + 4 * hi < 256
  {
  }

  lemma Pack10Value(t0: nat, t1: nat, t2: nat, t3: nat)
    requires t0 < 1024 && t1 < 1024 && t2 < 1024 && t3 < 1024
    ensures Pack10(t0, t1, t2, t3)
         == [t0 % 256, t0 / 256 + 4 * (t1 % 64), t1 / 64 + 16 * (t2 % 16), t2 / 16 + 64 * (t3 % 4), t3 / 4]
  {
    hide And, Or, Shl, Shr;
    SmallPowers();
    Shifts(t0);
    Shifts(t1);
    Shifts(t2);
    Shifts(t3);
    LowByte(t1);
    LowByte(t2);
    LowByte(t3);
    Shifts(t1 % 64);
    Shifts(t2 % 16);
    Shifts(t3 % 4);
    Join(t1 % 64, t0 / 256, 2);
    Join(t2 % 16, t1 / 64, 4);
    Join(t3 % 4, t2 / 16, 6);
  }

  lemma Unpack10Value(b0: u8, b1: u8, b2: u8, b3: u8, b4: u8)
    ensures Unpack10(b0, b1, b2, b3, b4)
         == (b0 + 256 * (b1 % 4), b1 / 4 + 64 * (b2 % 16), b2 / 16 + 16 * (b3 % 64), b3 / 64 + 4 * b4)
  {
    hide And, Or, Shl, Shr;
    SmallPowers();
    Masks(b1);
    Masks(b2);
    Masks(b3);
    Shifts(b1);
    Shifts(b2);
    Shifts(b3);
    Shifts(b1 % 4);
    Shifts(b2 % 16);
    Shifts(b3 % 64);
    Shifts(b4);
    Join(b1 % 4, b0, 8);
    Join(b2 % 16, b1 / 4, 6);
    Join(b3 % 64, b2 / 16, 4);
    Join(b4, b3 / 64, 2);
  }

  lemma Pack10RoundTrip(t0: nat, t1: nat, t2: nat, t3: nat)
    requires t0 < 1024 && t1 < 1024 && t2 < 1024 && t3 < 1024
    ensures var b := Pack10(t0, t1, t2, t3);
            && b[0] < 256 && b[1] < 256 && b[2] < 256 && b[3] < 256 && b[4] < 256
            && Unpack10(b[0], b[1], b[2], b[3], b[4]) == (t0, t1, t2, t3)
  {
    hide Pack10, Unpack10;
    Pack10Value(t0, t1, t2, t3);
    var b := Pack10(t0, t1, t2, t3);
    Fields(t0 / 256, t1 % 64);
    Fields(t1 / 64, t2 % 16);
    Fields(t2 / 16, t3 % 4);
    Unpack10Value(b[0], b[1], b[2], b[3], b[4]);
  }

  /** Groups as bytes. */
  function Three(c0: nat, c1: nat): (b: seq<u8>)
    requires c0 < 4096 && c1 < 4096
    ensures |b| == 3 && Unpack12(b[0], b[1], b[2]) == (c0, c1)
  {
    hide Pack12, Unpack12;
    Pack12Value(c0, c1);
    Pack12RoundTrip(c0, c1);
    Pack12(c0, c1)
  }

  function Five(t0: nat, t1: nat, t2: nat, t3: nat): (b: seq<u8>)
    requires t0 < 1024 && t1 < 1024 && t2 < 1024 && t3 < 1024
    ensures |b| == 5 && Unpack10(b[0], b[1], b[2], b[3], b[4]) == (t0, t1, t2, t3)
  {
    hide Pack10, Unpack10;
    Pack10Value(t0, t1, t2, t3);
    Pack10RoundTrip(t0, t1, t2, t3);
    Pack10(t0, t1, t2, t3)
  }

  predicate AllBelow(v: seq<nat>, bound: nat) {
    forall k :: 0 <= k < |v| ==> v[k] < bound
  }

  /** 256 12-bit fields in 384 bytes. */
  function Packed12(v: seq<nat>): (b: seq<u8>)
    requires |v| == 256 && AllBelow(v, 4096)
    ensures |b| == 384
  {
    hide Three;
    seq(384, x requires 0 <= x < 384 => Three(v[2 * (x / 3)], v[2 * (x / 3) + 1])[x % 3])
  }

  function Unpacked12(b: seq<u8>): (v: seq<nat>)
    requires |b| == 384
    ensures |v| == 256 && AllBelow(v, 4096)
  {
    hide Unpack12;
    seq(256, k requires 0 <= k < 256 => Field12(b, k))
  }

  function Field12(b: seq<u8>, k: nat): (t: nat)
    requires |b| == 384 && k < 256
    ensures t < 4096
  {
    hide Unpack12;
    Unpack12Value(b[3 * (k / 2)], b[3 * (k / 2) + 1], b[3 * (k / 2) + 2]);
    var pair := Unpack12(b[3 * (k / 2)], b[3 * (k / 2) + 1], b[3 * (k / 2) + 2]);
    if k % 2 == 0 then pair.0 else pair.1
  }

  lemma Packed12At(v: seq<nat>, j: nat)
    requires |v| == 256 && AllBelow(v, 4096) && j < 128
    ensures Packed12(v)[3 * j..3 * j + 3] == Three(v[2 * j], v[2 * j + 1])
  {
    hide Three;
    var b, g := Packed12(v), Three(v[2 * j], v[2 * j + 1]);
    forall i | 0 <= i < 3 ensures b[3 * j + i] == g[i] {
      Arith.QuotientIs(3 * j + i, 3, j, i);
    }
    assert b[3 * j..3 * j + 3] == g;
  }

  lemma Group12(v: seq<nat>, j: nat)
    requires |v| == 256 && AllBelow(v, 4096) && j < 128
    ensures Packed12(v)[3 * j..3 * j + 3] == Three(v[2 * j], v[2 * j + 1])
    ensures var b := Packed12(v);
            Unpack12(b[3 * j], b[3 * j + 1], b[3 * j + 2]) == (v[2 * j], v[2 * j + 1])
  {
    hide Unpack12, Three, Packed12;
    Packed12At(v, j);
    var b := Packed12(v);
    assert b[3 * j..3 * j + 3] == [b[3 * j], b[3 * j + 1], b[3 * j + 2]];
  }

  lemma Packing12(v: seq<nat>)
    requires |v| == 256 && AllBelow(v, 4096)
    ensures Unpacked12(Packed12(v)) == v
  {
    hide Packed12, Field12;
    forall k | 0 <= k < 256 ensures Unpacked12(Packed12(v))[k] == v[k] {
      FieldBack12(v, k);
    }
  }

  lemma FieldBack12(v: seq<nat>, k: nat)
    requires |v| == 256 && AllBelow(v, 4096) && k < 256
    ensures Field12(Packed12(v), k) == v[k]
  {
    hide Unpack12, Packed12;
    Group12(v, k / 2);
  }

  /** 256 10-bit fields in 320 bytes. */
  function Packed10(v: seq<nat>): (b: seq<u8>)
    requires |v| == 256 && AllBelow(v, 1024)
    ensures |b| == 320
  {
    hide Five;
    seq(320, x requires 0 <= x < 320 =>
      Five(v[4 * (x / 5)], v[4 * (x / 5) + 1], v[4 * (x / 5) + 2], v[4 * (x / 5) + 3])[x % 5])
  }

  function Unpacked10(b: seq<u8>): (v: seq<nat>)
    requires |b| == 320
    ensures |v| == 256 && AllBelow(v, 1024)
  {
    hide Field10;
    seq(256, k requires 0 <= k < 256 => Field10(b, k))
  }

  /** The field of a group of four that index k reads. */
  function Pick(t: (nat, nat, nat, nat), k: nat): nat {
    if k % 4 == 0 then t.0 else if k % 4 == 1 then t.1 else if k % 4 == 2 then t.2 else t.3
  }

  function Field10(b: seq<u8>, k: nat): (t: nat)
    requires |b| == 320 && k < 256
    ensures t < 1024
  {
    hide Unpack10;
    var g := 5 * (k / 4);
    Unpack10Value(b[g], b[g + 1], b[g + 2], b[g + 3], b[g + 4]);
    Pick(Unpack10(b[g], b[g + 1], b[g + 2], b[g + 3], b[g + 4]), k)
  }

  lemma Packed10At(v: seq<nat>, j: nat)
    requires |v| == 256 && AllBelow(v, 1024) && j < 64
    ensures Packed10(v)[5 * j..5 * j + 5] == Five(v[4 * j], v[4 * j + 1], v[4 * j + 2], v[4 * j + 3])
  {
    hide Five;
    var b, g := Packed10(v), Five(v[4 * j], v[4 * j + 1], v[4 * j + 2], v[4 * j + 3]);
    forall i | 0 <= i < 5 ensures b[5 * j + i] == g[i] {
      Arith.QuotientIs(5 * j + i, 5, j, i);
    }
    assert b[5 * j..5 * j + 5] == g;
  }

  lemma Group10(v: seq<nat>, j: nat)
    requires |v| == 256 && AllBelow(v, 1024) && j < 64
    ensures Packed10(v)[5 * j..5 * j + 5] == Five(v[4 * j], v[4 * j + 1], v[4 * j + 2], v[4 * j + 3])
    ensures var b := Packed10(v);
            Unpack10(b[5 * j], b[5 * j + 1], b[5 * j + 2], b[5 * j + 3], b[5 * j + 4])
            == (v[4 * j], v[4 * j + 1], v[4 * j + 2], v[4 * j + 3])
  {
    hide Unpack10, Five, Packed10;
    Packed10At(v, j);
    var b := Packed10(v);
    assert b[5 * j..5 * j + 5] == [b[5 * j], b[5 * j + 1], b[5 * j + 2], b[5 * j + 3], b[5 * j + 4]];
  }

  lemma Packing10(v: seq<nat>)
    requires |v| == 256 && AllBelow(v, 1024)
    ensures Unpacked10(Packed10(v)) == v
  {
    hide Packed10, Field10;
    forall k | 0 <= k < 256 ensures Unpacked10(Packed10(v))[k] == v[k] {
      FieldBack10(v, k);
    }
  }

  lemma FieldBack10(v: seq<nat>, k: nat)
    requires |v| == 256 && AllBelow(v, 1024) && k < 256
    ensures Field10(Packed10(v), k) == v[k]
  {
    hide Unpack10, Packed10;
    Group10(v, k / 4);
    assert k == 4 * (k / 4) + k % 4;
  }

  /** Writes the next group of an encoding already written up to `at`. */
  method WriteThree(buffer: array<u8>, at: nat, group: seq<u8>, ghost whole: seq<u8>)
    requires |group| == 3 && at + 3 <= buffer.Length == |whole|
    requires buffer[..at] == whole[..at] && whole[at..at + 3] == group
    modifies buffer
    ensures buffer[..at + 3] == whole[..at + 3]
  {
    ghost var before := buffer[..at];
    buffer[at], buffer[at + 1], buffer[at + 2] := group[0], group[1], group[2];
    assert buffer[..at + 3] == before + group;
    assert whole[..at + 3] == whole[..at] + whole[at..at + 3];
  }

  method WriteFive(buffer: array<u8>, at: nat, group: seq<u8>, ghost whole: seq<u8>)
    requires |group| == 5 && at + 5 <= buffer.Length == |whole|
    requires buffer[..at] == whole[..at] && whole[at..at + 5] == group
    modifies buffer
    ensures buffer[..at + 5] == whole[..at + 5]
  {
    ghost var before := buffer[..at];
    buffer[at], buffer[at + 1], buffer[at + 2], buffer[at + 3], buffer[at + 4] :=
      group[0], group[1], group[2], group[3], group[4];
    assert buffer[..at + 5] == before + group;
    assert whole[..at + 5] == whole[..at] + whole[at..at + 5];
  }

  // The packed bytes as one number

  /** The number a list of digits spells, lowest first. */
  function Digits(s: seq<nat>, base: nat): nat {
    if s == [] then 0 else s[0] + base * Digits(s[1..], base)
  }

  lemma Three24(c0: nat, c1: nat)
    requires c0 < 4096 && c1 < 4096
    ensures var b := Three(c0, c1); b[0] + 256 * (b[1] as int) + 0x1_0000 * (b[2] as int) == c0 + 4096 * c1
  {
    hide Pack12, Unpack12;
    Pack12Value(c0, c1);
    var b := Three(c0, c1);
    assert c0 == 256 * (c0 / 256) + c0 % 256 && c1 == 16 * (c1 / 16) + c1 % 16;
    assert b == Pack12(c0, c1);
  }

  lemma Five40(t0: nat, t1: nat, t2: nat, t3: nat)
    requires t0 < 1024 && t1 < 1024 && t2 < 1024 && t3 < 1024
    ensures var b := Five(t0, t1, t2, t3);
            b[0] + 256 * (b[1] as int) + 0x1_0000 * (b[2] as int) + 0x100_0000 * (b[3] as int) + 0x1_0000_0000 * (b[4] as int)
            == t0 + 1024 * t1 + 0x10_0000 * t2 + 0x4000_0000 * t3
  {
    hide Pack10, Unpack10;
    Pack10Value(t0, t1, t2, t3);
    var b := Five(t0, t1, t2, t3);
    assert t0 == 256 * (t0 / 256) + t0 % 256 && t1 == 64 * (t1 / 64) + t1 % 64;
    assert t2 == 16 * (t2 / 16) + t2 % 16 && t3 == 4 * (t3 / 4) + t3 % 4;
    assert b == Pack10(t0, t1, t2, t3);
  }

  lemma OneDigit(s: seq<nat>, i: nat, base: nat)
    requires i < |s|
    ensures Digits(s[i..], base) == s[i] + base * Digits(s[i + 1..], base)
  {
    assert s[i..][1..] == s[i + 1..];
  }

  lemma ThreeDigits(s: seq<nat>, i: nat)
    requires i + 3 <= |s|
    ensures Digits(s[i..], 256) == s[i] + 256 * s[i + 1] + 0x1_0000 * s[i + 2] + 0x100_0000 * Digits(s[i + 3..], 256)
  {
    hide Digits;
    OneDigit(s, i, 256);
    OneDigit(s, i + 1, 256);
    OneDigit(s, i + 2, 256);
  }

  lemma TwoDigits(s: seq<nat>, i: nat, base: nat)
    requires i + 2 <= |s|
    ensures Digits(s[i..], base) == s[i] + base * (s[i + 1] + base * Digits(s[i + 2..], base))
  {
    hide Digits;
    OneDigit(s, i, base);
    OneDigit(s, i + 1, base);
  }

  lemma NoDigits(base: nat)
    ensures Digits([], base) == 0
  {
  }

  /** Packed twelve-bit fields are one number, its digits regrouped from base 4096 to bytes. */
  lemma {:induction false} Packed12Number(v: seq<nat>, j: nat)
    requires |v| == 256 && AllBelow(v, 4096) && j <= 128
    ensures Digits(Packed12(v)[3 * j..], 256) == Digits(v[2 * j..], 4096)
    decreases 128 - j
  {
    hide Packed12, Three, Digits;
    var b: seq<nat> := Packed12(v);
    if j == 128 {
      assert b[3 * j..] == [] && v[2 * j..] == [];
      NoDigits(256);
      NoDigits(4096);
    } else {
      Packed12Number(v, j + 1);
      Packed12At(v, j);
      Three24(v[2 * j], v[2 * j + 1]);
      var g := Three(v[2 * j], v[2 * j + 1]);
      assert b[3 * j] == b[3 * j..3 * j + 3][0] == g[0] && b[3 * j + 1] == b[3 * j..3 * j + 3][1] == g[1]
          && b[3 * j + 2] == b[3 * j..3 * j + 3][2] == g[2];
      ThreeDigits(b, 3 * j);
      TwoDigits(v, 2 * j, 4096);
    }
  }

  /** And packed ten-bit fields, from base 1024. */
  lemma {:induction false} Packed10Number(v: seq<nat>, j: nat)
    requires |v| == 256 && AllBelow(v, 1024) && j <= 64
    ensures Digits(Packed10(v)[5 * j..], 256) == Digits(v[4 * j..], 1024)
    decreases 64 - j
  {
    hide Packed10, Five, Digits;
    var b: seq<nat> := Packed10(v);
    if j == 64 {
      assert b[5 * j..] == [] && v[4 * j..] == [];
      NoDigits(256);
      NoDigits(1024);
    } else {
      Packed10Number(v, j + 1);
      Packed10At(v, j);
      Five40(v[4 * j], v[4 * j + 1], v[4 * j + 2], v[4 * j + 3]);
      var (g, s) := (Five(v[4 * j], v[4 * j + 1], v[4 * j + 2], v[4 * j + 3]), b[5 * j..5 * j + 5]);
      assert b[5 * j] == s[0] == g[0] && b[5 * j + 1] == s[1] == g[1] && b[5 * j + 2] == s[2] == g[2]
          && b[5 * j + 3] == s[3] == g[3] && b[5 * j + 4] == s[4] == g[4];
      ThreeDigits(b, 5 * j);
      TwoDigits(b, 5 * j + 3, 256);
      TwoDigits(v, 4 * j, 1024);
      TwoDigits(v, 4 * j + 2, 1024);
    }
  }
}
