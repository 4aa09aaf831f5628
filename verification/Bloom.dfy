/** The Bloom filter of a table file. */
module Bloom {
  import opened Values
  import opened Codec
  import opened Versions

  const HASHES: nat := 3
  const WORD: nat := 0x1_0000_0000_0000_0000

  /** 64-bit FNV-1a; the second hash mixes every byte with 0x5A first. */
  function Fnv64(h: nat, key: Bytes, salt: nat): nat
    decreases |key|
  {
    if key == [] then h else Fnv64(Xor(h, Xor(key[0] as nat, salt)) * 1099511628211 % WORD, key[1..], salt)
  }

  /** The `i`-th bit of a key in a filter of `size` bits. */
  function BitOf(key: Bytes, i: nat, size: nat): (bit: nat)
    requires size > 0
    ensures bit < size
  {
    var h1 := Fnv64(14695981039346656037, key, 0);
    var h2 := Fnv64(14695981039346656037, key, 0x5A);
    (h1 + i * h2) % WORD % size
  }

  /** Some key has this bit. */
  ghost predicate SetBy(keys: set<Bytes>, bit: nat, size: nat) {
    size > 0 && exists k, i :: k in keys && 0 <= i < HASHES && BitOf(k, i, size) == bit
  }

  class BloomFilter {
    var size: nat
    var bits: seq<bool>
    ghost var keys: set<Bytes>

    /** Every key that was put in has all its bits set, and no other bit is. */
    ghost predicate Valid() reads this {
      && |bits| == size && (size == 0 ==> keys == {})
      && (size > 0 ==> forall k, i | k in keys && 0 <= i < HASHES :: bits[BitOf(k, i, size)])
      && (forall x | 0 <= x < size && bits[x] :: SetBy(keys, x, size))
    }

    constructor ()
      ensures Valid() && keys == {} && size == 0
    {
      size, bits, keys := 0, [], {};
    }

    /** `build`: eight bits per key, at least 64, in 32-bit arithmetic. */
    method Build(ks: seq<Bytes>)
      requires Valid()
      modifies this
      ensures Valid()
      ensures if ks == [] then keys == old(keys) else keys == set k | k in ks
    {
      if ks == [] { return; }
      size := |ks| * 8 % 0x1_0000_0000;
      if size < 64 { size := 64; }
      bits := seq(size, _ => false);
      keys := {};
      for n := 0 to |ks|
        invariant size > 0 && |bits| == size && keys == set k | k in ks[..n]
        invariant forall k, i | k in keys && 0 <= i < HASHES :: bits[BitOf(k, i, size)]
        invariant forall x | 0 <= x < size && bits[x] :: SetBy(keys, x, size)
      {
        ghost var before, width := keys, size;
        for i := 0 to HASHES
          invariant size == width && |bits| == size && keys == before
          invariant forall k, j | k in keys && 0 <= j < HASHES :: bits[BitOf(k, j, size)]
          invariant forall j | 0 <= j < i :: bits[BitOf(ks[n], j, size)]
          invariant forall x | 0 <= x < size && bits[x] :: SetBy(keys + {ks[n]}, x, size)
        {
          bits := bits[BitOf(ks[n], i, size) := true];
        }
        assert ks[..n + 1] == ks[..n] + [ks[n]];
        keys := keys + {ks[n]};
      }
      assert ks[..|ks|] == ks;
    }

    /** `maybe_contains`: a negative answer is always true. */
    method MaybeContains(key: Bytes) returns (maybe: bool)
      requires Valid()
      ensures !maybe ==> key !in keys
      ensures size == 0 ==> maybe
      ensures size > 0 ==> (maybe <==>
        SetBy(keys, BitOf(key, 0, size), size) && SetBy(keys, BitOf(key, 1, size), size) && SetBy(keys, BitOf(key, 2, size), size))
    {
      if size == 0 { return true; }
      for i := 0 to HASHES
        invariant forall j | 0 <= j < i :: bits[BitOf(key, j, size)]
      {
        if !bits[BitOf(key, i, size)] {
          assert !SetBy(keys, BitOf(key, i, size), size);
          return false;
        }
      }
      return true;
    }
  }

  /** The filter was built over the keys of this file. */
  ghost predicate Covers(f: BloomFilter, file: seq<Version>)
    reads f
  {
    f.Valid() && forall v | v in file :: EncodeValue(v.pk) in f.keys
  }
}
