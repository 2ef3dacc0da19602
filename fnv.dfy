/** The identifier hash: 32-bit FNV-1a, as Go's hash/fnv `New32a` computes it. */
module Fnv {
  import opened Common

  const OffsetBasis: bv32 := 2166136261
  const Prime: bv32 := 16777619

  /** One FNV-1a round: xor the byte in, then multiply by the prime modulo 2^32. */
  function Round(h: bv32, b: bv8): bv32 {
    (h ^ (b as bv32)) * Prime
  }

  /** Feeds the bytes of `s`, first to last, into a hash state `h`. */
  function Absorb(h: bv32, s: Bytes): bv32
    decreases |s|
  {
    if s == [] then h else Absorb(Round(h, s[0]), s[1..])
  }

  /** The identifier of a name: file key for a file name, peer id for "ip:port".
      The empty name hashes to the offset basis; each further byte is one round
      (`HashSnoc`). */
  function Hash(s: Bytes): (r: uint32)
    ensures s == [] ==> r as int == OffsetBasis as int
  {
    Absorb(OffsetBasis, s) as int as uint32
  }

  /** Writing a byte string in two pieces gives the same state as writing it at once,
      so the hash of a name is a fold that can be computed in any chunking. */
  lemma {:induction false} AbsorbAppend(h: bv32, a: Bytes, b: Bytes)
    ensures Absorb(h, a + b) == Absorb(Absorb(h, a), b)
    decreases |a|
  {
    if a == [] {
      assert a + b == b;
    } else {
      assert (a + b)[0] == a[0];
      assert (a + b)[1..] == a[1..] + b;
      AbsorbAppend(Round(h, a[0]), a[1..], b);
    }
  }

  /** Appending one byte performs exactly one more round on the hash of the prefix. */
  lemma HashSnoc(s: Bytes, b: bv8)
    ensures Hash(s + [b]) as int == Round(Absorb(OffsetBasis, s), b) as int
  {
    AbsorbAppend(OffsetBasis, s, [b]);
    assert Absorb(Absorb(OffsetBasis, s), [b]) == Round(Absorb(OffsetBasis, s), b);
  }

  /** Published FNV-1a 32-bit test vectors: "" , "a" and "foobar". */
  lemma HashVectors()
    ensures Hash([]) == 0x811c9dc5
    ensures Hash([97]) == 0xe40c292c
    ensures Hash([102, 111, 111, 98, 97, 114]) == 0xbf9cf968
  {
  }

  /** A peer's identifier: the hash of its "ip:port" address. */
  function PeerId(ip: Bytes, port: Bytes): (r: uint32)
    ensures r as int == Absorb(Round(Absorb(OffsetBasis, ip), Colon), port) as int
  {
    AbsorbAppend(OffsetBasis, ip + [Colon], port);
    AbsorbAppend(OffsetBasis, ip, [Colon]);
    Hash(ip + [Colon] + port)
  }
}
