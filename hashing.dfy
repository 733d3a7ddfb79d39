/**
 * The three string hashes of the map (`hashDJB2`, `hashSDBM`, `hashFNV1a`
 * and the dispatcher `calculateHash`).  Each reads the bytes of a C string up
 * to its terminating zero byte and folds them into a 64-bit accumulator; all
 * arithmetic is on `bv64`, so it wraps modulo 2^64 exactly as `U64` does.
 */
module Hashing {

  /** The library's hash selector (`algorithms::Hash`). */
  datatype HashAlgorithm = FNV1a | DJB2 | SDBM

  const FNV_OFFSET: bv64 := 14695981039346656037
  const FNV_PRIME: bv64 := 1099511628211
  const DJB2_SEED: bv64 := 5381

  /** The value the accumulator starts from. */
  function Seed(alg: HashAlgorithm): bv64 {
    match alg
    case FNV1a => FNV_OFFSET
    case DJB2 => DJB2_SEED
    case SDBM => 0
  }

  /** One round of the loop body for byte `c`. */
  function Step(alg: HashAlgorithm, h: bv64, c: bv8): bv64 {
    match alg
    case FNV1a => (h ^ c as bv64) * FNV_PRIME
    case DJB2 => ((h << 5) + h) + c as bv64
    case SDBM => c as bv64 + (h << 6) + (h << 16) - h
  }

  /** The accumulator after folding the bytes `s` into `h`, first byte first. */
  function Fold(alg: HashAlgorithm, h: bv64, s: seq<bv8>): bv64
    decreases |s|
  {
    if |s| == 0 then h else Step(alg, Fold(alg, h, s[..|s| - 1]), s[|s| - 1])
  }

  /** What is returned for the final accumulator: SDBM clears the top bit and
      sets the lowest one, the others return it unchanged. */
  function Finish(alg: HashAlgorithm, h: bv64): (r: bv64)
    ensures alg.SDBM? ==> r & 1 == 1 && r < 0x8000_0000_0000_0000
    ensures !alg.SDBM? ==> r == h
  {
    if alg.SDBM? then (h & 0x7FFF_FFFF_FFFF_FFFF) | 1 else h
  }

  /** The bytes of a C string: everything before the first zero byte. */
  function CBytes(s: seq<bv8>): (r: seq<bv8>)
    ensures r <= s && 0 !in r
    ensures |r| < |s| ==> s[|r|] == 0
  {
    if |s| == 0 || s[0] == 0 then [] else [s[0]] + CBytes(s[1..])
  }

  /** The hash of the C string held in `key`. */
  function Hash(alg: HashAlgorithm, key: seq<bv8>): bv64 {
    Finish(alg, Fold(alg, Seed(alg), CBytes(key)))
  }

  /** A prefix free of zero bytes that ends at a zero byte (or at the end) is the C string. */
  lemma {:induction false} CBytesAt(key: seq<bv8>, i: nat)
    requires i <= |key| && 0 !in key[..i] && (i == |key| || key[i] == 0)
    ensures CBytes(key) == key[..i]
    decreases i
  {
    if i > 0 {
      assert key[0] == key[..i][0];
      assert key[1..][..i - 1] == key[1..i] == key[..i][1..];
      CBytesAt(key[1..], i - 1);
      assert key[..i] == [key[0]] + key[1..i];
    }
  }

  /** Adding a byte to the input adds one round: the hashes can be computed
      incrementally, and hashing a concatenation resumes from the first part. */
  lemma {:induction false} FoldConcat(alg: HashAlgorithm, h: bv64, a: seq<bv8>, b: seq<bv8>)
    ensures Fold(alg, h, a + b) == Fold(alg, Fold(alg, h, a), b)
    decreases |b|
  {
    if |b| == 0 {
      assert a + b == a;
    } else {
      var b' := b[..|b| - 1];
      assert (a + b)[..|a + b| - 1] == a + b';
      FoldConcat(alg, h, a, b');
    }
  }

  /** Reference values: the empty string hashes to each seed (SDBM forces the
      low bit), and `"a"` (byte 97) gives 5381 * 33 + 97 = 177670 under DJB2
      and 0xaf63dc4c8601ec8c under FNV-1a, the published FNV-1a 64-bit value. */
  lemma HashExamples()
    ensures Hash(FNV1a, []) == FNV_OFFSET && Hash(DJB2, []) == DJB2_SEED && Hash(SDBM, []) == 1
    ensures Hash(DJB2, [97]) == 177670
    ensures Hash(FNV1a, [97, 0, 98]) == 0xaf63dc4c8601ec8c
  {
    assert CBytes([97]) == [97];
    assert CBytes([97, 0, 98]) == [97];
    assert Fold(DJB2, DJB2_SEED, [97]) == Step(DJB2, DJB2_SEED, 97);
    assert Fold(FNV1a, FNV_OFFSET, [97]) == Step(FNV1a, FNV_OFFSET, 97);
  }

  /** The loop shared by the three hash functions: fold every byte up to the
      terminating zero byte, first byte first. */
  method FoldCString(alg: HashAlgorithm, key: seq<bv8>) returns (h: bv64)
    ensures h == Fold(alg, Seed(alg), CBytes(key))
  {
    h := Seed(alg);
    var i := 0;
    while i < |key| && key[i] != 0
      invariant 0 <= i <= |key| && 0 !in key[..i]
      invariant h == Fold(alg, Seed(alg), key[..i])
    {
      assert key[..i + 1][..i] == key[..i];
      h := Step(alg, h, key[i]);
      i := i + 1;
    }
    CBytesAt(key, i);
  }

  /** `hashDJB2`: start at 5381, `hash = (hash << 5) + hash + c` per byte. */
  method HashDJB2(key: seq<bv8>) returns (h: bv64)
    ensures h == Hash(DJB2, key)
  {
    h := FoldCString(DJB2, key);
  }

  /** `hashSDBM`: start at 0, `hash = c + (hash << 6) + (hash << 16) - hash`
      per byte; the result has its top bit cleared and its low bit set. */
  method HashSDBM(key: seq<bv8>) returns (h: bv64)
    ensures h == Hash(SDBM, key)
    ensures h & 1 == 1 && h < 0x8000_0000_0000_0000
  {
    var acc := FoldCString(SDBM, key);
    h := (acc & 0x7FFF_FFFF_FFFF_FFFF) | 1;
  }

  /** `hashFNV1a`: start at the FNV offset basis, `hash = (hash ^ c) * prime`. */
  method HashFNV1a(key: seq<bv8>) returns (h: bv64)
    ensures h == Hash(FNV1a, key)
  {
    h := FoldCString(FNV1a, key);
  }

  /** `calculateHash`: dispatch on the map's algorithm. */
  method CalculateHash(alg: HashAlgorithm, key: seq<bv8>) returns (h: bv64)
    ensures h == Hash(alg, key)
  {
    match alg {
      case FNV1a => h := HashFNV1a(key);
      case DJB2 => h := HashDJB2(key);
      case SDBM => h := HashSDBM(key);
    }
  }
}
