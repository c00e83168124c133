/** The 32-bit FNV-1a hash of a byte string: start from the offset basis and,
    for every byte, xor it into the accumulator and multiply by the FNV prime,
    both modulo 2^32 (bv32 arithmetic wraps). */
module Fnv {

  const OffsetBasis: bv32 := 2166136261
  const FnvPrime: bv32 := 16777619

  /** One round: xor the byte (as an unsigned value), then multiply. */
  function Mix(h: bv32, b: bv8): bv32 {
    (h ^ (b as bv32)) * FnvPrime
  }

  /** The hash of a whole key, folding Mix over its bytes from first to last. */
  function Fnv1a(key: seq<bv8>): bv32 {
    if key == [] then OffsetBasis else Mix(Fnv1a(key[..|key| - 1]), key[|key| - 1])
  }

  /** Hashing a longer key continues from the hash of its prefix: the hash
      depends on every byte, in order. */
  lemma {:induction false} Fnv1aAppend(key: seq<bv8>, b: bv8)
    ensures Fnv1a(key + [b]) == Mix(Fnv1a(key), b)
  {
    assert (key + [b])[..|key + [b]| - 1] == key;
  }

  /** Fnv1a agrees with the published FNV-1a 32-bit test vectors for "", "a" and "foobar". */
  lemma StandardVectors()
    ensures Fnv1a([]) == 0x811c9dc5
    ensures Fnv1a([0x61]) == 0xe40c292c
    ensures Fnv1a([0x66, 0x6f, 0x6f, 0x62, 0x61, 0x72]) == 0xbf9cf968
  {
    assert [0x61] == [] + [0x61 as bv8];
    Fnv1aAppend([], 0x61);
    // "foobar", one byte at a time, with the accumulator after each byte.
    var prefixes: seq<seq<bv8>> := [[], [0x66], [0x66, 0x6f], [0x66, 0x6f, 0x6f],
      [0x66, 0x6f, 0x6f, 0x62], [0x66, 0x6f, 0x6f, 0x62, 0x61], [0x66, 0x6f, 0x6f, 0x62, 0x61, 0x72]];
    var hashes: seq<bv32> := [0x811c9dc5, 0xe30c2799, 0x6222e842, 0xa9f37ed7, 0x3f5076ef, 0x39aaa18a, 0xbf9cf968];
    for i := 0 to 6
      invariant Fnv1a(prefixes[i]) == hashes[i]
    {
      assert prefixes[i + 1] == prefixes[i] + [prefixes[6][i]];
      Fnv1aAppend(prefixes[i], prefixes[6][i]);
    }
  }
}
