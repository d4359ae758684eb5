/**
 * raz::hash (include/raz/hash.hpp), a recursive DJB2 variant over a C
 * string, and the identical stringhash of include/raz/event.hpp.
 *
 * A C string is given as the bytes of its storage: scanning stops at the
 * first NUL or at the end of the sequence, which stands for the terminator.
 * char is signed on the targets the library is written for, so a byte b of
 * 128 or more contributes b - 256, which the conversion to uint64_t turns
 * into b - 256 + 2^64.
 */
module Hash {
  import opened Codec

  /** uint64_t arithmetic is modulo 2^64. */
  const U64Modulus: nat := 0x1_0000_0000_0000_0000

  type u64 = x: int | 0 <= x < U64Modulus

  /** The default seed of both functions. */
  const DefaultSeed: u64 := 5381

  /** The value of a (signed) char holding byte b. */
  function SignedChar(b: byte): (c: int)
    ensures -128 <= c < 128 && c % 256 == b
  {
    if b < 128 then b else b - 256
  }

  /** One step of the hash: h * 33 + c in uint64_t arithmetic. */
  function Step(h: u64, b: byte): u64
  {
    (h * 33 + SignedChar(b)) % U64Modulus
  }

  /** hash(str, h) */
  function HashOf(s: seq<byte>, h: u64 := DefaultSeed): u64
  {
    if |s| == 0 || s[0] == 0 then h else HashOf(s[1..], Step(h, s[0]))
  }

  /** Event::stringhash(str, h), written out separately as in event.hpp. */
  function StringHash(s: seq<byte>, h: u64 := DefaultSeed): u64
  {
    if |s| == 0 || s[0] == 0 then h else StringHash(s[1..], (h * 33 + SignedChar(s[0])) % U64Modulus)
  }

  /** The characters before the first NUL. */
  function BeforeNul(s: seq<byte>): (r: seq<byte>)
    ensures r <= s && 0 !in r
    ensures |r| < |s| ==> s[|r|] == 0
  {
    if |s| == 0 || s[0] == 0 then [] else [s[0]] + BeforeNul(s[1..])
  }

  /** A left fold of Step over a sequence, taken from its last element. */
  function Fold(s: seq<byte>, h: u64): u64
  {
    if |s| == 0 then h else Step(Fold(s[..|s| - 1], h), s[|s| - 1])
  }

  /** The empty string hashes to the seed. */
  lemma EmptyIsSeed(h: u64)
    ensures HashOf([], h) == h && HashOf([0], h) == h
    ensures HashOf([]) == 5381
  {
  }

  /** A non-NUL character c takes the accumulator h to h * 33 + c modulo 2^64. */
  lemma HashStep(b: byte, s: seq<byte>, h: u64)
    requires b != 0
    ensures HashOf([b] + s, h) == HashOf(s, (h * 33 + SignedChar(b)) % U64Modulus)
  {
    assert ([b] + s)[1..] == s;
  }

  /** Folding one more character onto the front. */
  lemma {:induction false} FoldFront(b: byte, s: seq<byte>, h: u64)
    ensures Fold([b] + s, h) == Fold(s, Step(h, b))
    decreases |s|
  {
    if |s| > 0 {
      var t := [b] + s;
      assert t[..|t| - 1] == [b] + s[..|s| - 1];
      FoldFront(b, s[..|s| - 1], h);
    } else {
      assert ([b] + s)[..0] == [];
    }
  }

  /** The hash is the left fold of Step over the characters before the first NUL. */
  lemma {:induction false} HashIsFold(s: seq<byte>, h: u64)
    ensures HashOf(s, h) == Fold(BeforeNul(s), h)
    decreases |s|
  {
    if |s| > 0 && s[0] != 0 {
      HashIsFold(s[1..], Step(h, s[0]));
      FoldFront(s[0], BeforeNul(s[1..]), h);
    }
  }

  /** Whatever follows the first NUL does not change the hash. */
  lemma AfterNulIgnored(s: seq<byte>, t: seq<byte>, h: u64)
    requires 0 !in s
    ensures HashOf(s + [0] + t, h) == HashOf(s, h)
  {
    assert s + [0] + t == s + ([0] + t);
    Concatenation(s, [0] + t, h);
  }

  /** Concatenation: for a NUL-free s, hashing s ++ t continues from the hash of s. */
  lemma {:induction false} Concatenation(s: seq<byte>, t: seq<byte>, h: u64)
    requires 0 !in s
    ensures HashOf(s + t, h) == HashOf(t, HashOf(s, h))
    decreases |s|
  {
    if |s| == 0 {
      assert s + t == t;
    } else {
      assert (s + t)[0] == s[0] && (s + t)[1..] == s[1..] + t;
      Concatenation(s[1..], t, Step(h, s[0]));
    }
  }

  /** event.hpp's stringhash and hash.hpp's hash agree on every string and seed. */
  lemma {:induction false} StringHashIsHash(s: seq<byte>, h: u64)
    ensures StringHash(s, h) == HashOf(s, h)
    decreases |s|
  {
    if |s| > 0 && s[0] != 0 {
      StringHashIsHash(s[1..], Step(h, s[0]));
    }
  }
}
