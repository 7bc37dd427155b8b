/** The hash functions both lattice schemes take as given. */
module HashPrimitives {
  import opened Words

  type Bytes32 = s: seq<u8> | |s| == 32 witness seq(32, _ => 0)

  /** SHA3-256, and SHAKE256 as a stream: `xof(x, i)` is byte i of the output for input x. */
  datatype Hashes = Hashes(sha3: seq<u8> -> Bytes32, xof: (seq<u8>, nat) -> u8)

  function Shake(H: Hashes, input: seq<u8>, n: nat): (r: seq<u8>)
    ensures |r| == n
  {
    seq(n, i requires 0 <= i < n => XofByte(H, input, i))
  }

  function XofByte(H: Hashes, input: seq<u8>, i: nat): u8 {
    H.xof(input, i)
  }

  function Ascii(s: string): seq<u8> {
    seq(|s|, i requires 0 <= i < |s| => s[i] as int % 256)
  }

  /** These bytes open the SHAKE256 stream of an input. */
  ghost predicate IsShake(H: Hashes, input: seq<u8>, out: seq<u8>) {
    forall i :: 0 <= i < |out| ==> out[i] == H.xof(input, i)
  }

  lemma ShakeIs(H: Hashes, input: seq<u8>, out: seq<u8>)
    ensures out == Shake(H, input, |out|) <==> IsShake(H, input, out)
  {
    var r := Shake(H, input, |out|);
    assert forall i :: 0 <= i < |out| ==> r[i] == H.xof(input, i);
  }

  lemma AsciiIs(s: string)
    requires forall i :: 0 <= i < |s| ==> s[i] as int < 256
    ensures |Ascii(s)| == |s| && forall i :: 0 <= i < |s| ==> Ascii(s)[i] as int == s[i] as int
  {
  }
}
