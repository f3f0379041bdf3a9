/** The 32-bit FNV-1a hash of Go's `hash/fnv` package (`fnv.New32a`): for every byte,
    exclusive-or it into the state, then multiply by the FNV prime modulo 2^32. */
module Fnv {
  import opened Utf8

  const OffsetBasis32: bv32 := 2166136261
  const Prime32: bv32 := 16777619

  /** One FNV-1a round; `bv32` multiplication wraps modulo 2^32 like Go's `uint32`. */
  function Round(h: bv32, b: Byte): bv32 {
    (h ^ (b as bv32)) * Prime32
  }

  /** The FNV-1a digest of `data`, folding `Round` from the first byte to the last. */
  function Hash32(data: seq<Byte>): bv32 {
    if |data| == 0 then OffsetBasis32 else Round(Hash32(data[..|data| - 1]), data[|data| - 1])
  }

  /** `h.Write(data); h.Sum32()` on a fresh `fnv.New32a()`: the byte loop of the package. */
  method Sum32(data: seq<Byte>) returns (h: bv32)
    ensures h == Hash32(data)
  {
    h := OffsetBasis32;
    for i := 0 to |data|
      invariant h == Hash32(data[..i])
    {
      assert data[..i + 1][..i] == data[..i];
      h := Round(h, data[i]);
    }
    assert data[..|data|] == data;
  }

  /** The published FNV-1a test vectors for "" and "a". */
  lemma TestVectors()
    ensures Hash32([]) == 0x811c9dc5
    ensures Hash32([0x61]) == 0xe40c292c
  {
    assert [0x61 as Byte][..0] == [];
    assert Round(OffsetBasis32, 0x61) == 0xe40c292c;
  }

  /** Hashing one more byte is one more round on the digest so far. */
  lemma Extend(data: seq<Byte>, b: Byte)
    ensures Hash32(data + [b]) == Round(Hash32(data), b)
  {
    assert (data + [b])[..|data|] == data;
  }

  /** The published FNV-1a test vector for "foobar", round by round. */
  lemma FoobarVector()
    ensures Hash32([0x66, 0x6f, 0x6f, 0x62, 0x61, 0x72]) == 0xbf9cf968
  {
    var s0: seq<Byte> := [];
    var s1 := s0 + [0x66];
    var s2 := s1 + [0x6f];
    var s3 := s2 + [0x6f];
    var s4 := s3 + [0x62];
    var s5 := s4 + [0x61];
    var s6 := s5 + [0x72];
    Extend(s0, 0x66);
    assert Round(0x811c9dc5, 0x66) == 0xe30c2799;
    Extend(s1, 0x6f);
    assert Round(0xe30c2799, 0x6f) == 0x6222e842;
    Extend(s2, 0x6f);
    assert Round(0x6222e842, 0x6f) == 0xa9f37ed7;
    Extend(s3, 0x62);
    assert Round(0xa9f37ed7, 0x62) == 0x3f5076ef;
    Extend(s4, 0x61);
    assert Round(0x3f5076ef, 0x61) == 0x39aaa18a;
    Extend(s5, 0x72);
    assert Round(0x39aaa18a, 0x72) == 0xbf9cf968;
    assert s6 == [0x66, 0x6f, 0x6f, 0x62, 0x61, 0x72];
  }
}
