/*
 * The 32-bit FNV-1 hash of byte strings (`mrb_byte_hash_step` and
 * `mrb_byte_hash` in src/string.c).  Arithmetic is on `bv32`, so the
 * wrap-around of `uint32_t` is the type's own.
 */
module StrHash {
  import opened StrBytes

  const FNV1_32_INIT: bv32 := 0x811c_9dc5

  /** One FNV-1 round as the default build computes it: the
      multiplication by the FNV prime 0x01000193 is spelled as a sum of
      shifts (bits 0, 1, 4, 7, 8 and 24 of the prime), then the octet is
      xored in. */
  function Round(h: bv32, c: byte): bv32
  {
    (h + ((h << 1) + (h << 4) + (h << 7) + (h << 8) + (h << 24))) ^ (c as bv32)
  }

  /** The FNV-1 hash of `s`, continued from the value `h`. */
  function Fnv(s: seq<byte>, h: bv32): bv32
    decreases |s|
  {
    if s == [] then h else Round(Fnv(s[..|s| - 1], h), s[|s| - 1])
  }

  lemma FnvSnoc(s: seq<byte>, i: nat, h: bv32)
    requires i < |s|
    ensures Fnv(s[..i + 1], h) == Round(Fnv(s[..i], h), s[i])
  {
    assert s[..i + 1][..i] == s[..i];
  }

  /** `mrb_byte_hash_step`: hash every octet of `s` into `hval`. */
  method ByteHashStep(s: seq<byte>, hval: bv32) returns (r: bv32)
    ensures r == Fnv(s, hval)
  {
    r := hval;
    var i := 0;
    while i < |s|
      invariant 0 <= i <= |s|
      invariant r == Fnv(s[..i], hval)
    {
      FnvSnoc(s, i, hval);
      r := Round(r, s[i]);
      i := i + 1;
    }
    assert s[..|s|] == s;
  }

  /** `mrb_byte_hash`: the hash from the FNV-1 offset basis. */
  method ByteHash(s: seq<byte>) returns (r: bv32)
    ensures r == Fnv(s, FNV1_32_INIT)
  {
    r := ByteHashStep(s, FNV1_32_INIT);
  }

  /** Hashing in pieces, each step continuing from the last value, is
      hashing the concatenation. */
  lemma {:induction false} FnvConcat(a: seq<byte>, b: seq<byte>, h: bv32)
    ensures Fnv(a + b, h) == Fnv(b, Fnv(a, h))
    decreases |b|
  {
    if b == [] {
      assert a + b == a;
    } else {
      var b' := b[..|b| - 1];
      assert (a + b)[..|a + b| - 1] == a + b';
      FnvConcat(a, b', h);
    }
  }

  /** The published FNV-1 test values for "" and "a". */
  lemma FnvExamples()
    ensures Fnv([], FNV1_32_INIT) == 0x811c_9dc5
    ensures Fnv([97], FNV1_32_INIT) == 0x050c_5d7e
  {
    assert [97 as byte][..0] == [];
    FoobarRounds();
  }

  /** The published FNV-1 test value for "foobar". */
  lemma FnvFoobar()
    ensures Fnv([102, 111, 111, 98, 97, 114], FNV1_32_INIT) == 0x31f0_b262
  {
    var s: seq<byte> := [102, 111, 111, 98, 97, 114];
    FoobarRounds();
    assert s[..0] == [];
    FnvSnoc(s, 0, FNV1_32_INIT);
    assert Fnv(s[..1], FNV1_32_INIT) == 0x050c_5d79;
    FnvSnoc(s, 1, FNV1_32_INIT);
    assert Fnv(s[..2], FNV1_32_INIT) == 0x6b77_2514;
    FnvSnoc(s, 2, FNV1_32_INIT);
    assert Fnv(s[..3], FNV1_32_INIT) == 0x408f_5e13;
    FnvSnoc(s, 3, FNV1_32_INIT);
    assert Fnv(s[..4], FNV1_32_INIT) == 0xb4b1_178b;
    FnvSnoc(s, 4, FNV1_32_INIT);
    assert Fnv(s[..5], FNV1_32_INIT) == 0xfdc8_0fb0;
    FnvSnoc(s, 5, FNV1_32_INIT);
    assert s[..6] == s;
  }

  lemma FoobarRounds()
    ensures Round(FNV1_32_INIT, 97) == 0x050c_5d7e
    ensures Round(FNV1_32_INIT, 102) == 0x050c_5d79
    ensures Round(0x050c_5d79, 111) == 0x6b77_2514
    ensures Round(0x6b77_2514, 111) == 0x408f_5e13
    ensures Round(0x408f_5e13, 98) == 0xb4b1_178b
    ensures Round(0xb4b1_178b, 97) == 0xfdc8_0fb0
    ensures Round(0xfdc8_0fb0, 114) == 0x31f0_b262
  {
  }
}
