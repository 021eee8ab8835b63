/** The 64-bit FNV-1a hash, the mixing function `next_id` feeds the parent's
    state through (`fnv::FnvHasher`).

    Constants and the per-byte step are those of the IETF Internet-Draft
    draft-eastlake-fnv, section 2 ("FNV Basics"): start from the offset basis,
    then for each byte XOR it into the low bits and multiply by the prime,
    wrapping modulo 2^64. */
module Fnv {
  import opened Uint

  const OffsetBasis: bv64 := 0xcbf29ce484222325
  const Prime: bv64 := 0x100000001b3

  /** One FNV-1a round: absorb one byte into the state. */
  function Mix(h: bv64, b: u8): bv64 {
    (h ^ (b as bv64)) * Prime
  }

  /** The state after absorbing `bytes` in order, starting from state `h`. */
  function Absorb(h: bv64, bytes: seq<u8>): bv64
    decreases |bytes|
  {
    if |bytes| == 0 then h else Absorb(Mix(h, bytes[0]), bytes[1..])
  }

  /** FNV-1a of a whole byte string. */
  function Fnv1a(bytes: seq<u8>): bv64 {
    Absorb(OffsetBasis, bytes)
  }

  /** Absorbing two strings one after the other is absorbing their concatenation:
      feeding a hasher in several `write` calls gives the hash of all bytes. */
  lemma {:induction false} AbsorbAppend(h: bv64, a: seq<u8>, b: seq<u8>)
    ensures Absorb(h, a + b) == Absorb(Absorb(h, a), b)
    decreases |a|
  {
    if |a| == 0 {
      assert a + b == b;
    } else {
      assert (a + b)[1..] == a[1..] + b;
      AbsorbAppend(Mix(h, a[0]), a[1..], b);
    }
  }

  /** Absorbing one more byte is one more round. */
  lemma AbsorbSnoc(h: bv64, a: seq<u8>, b: u8)
    ensures Absorb(h, a + [b]) == Mix(Absorb(h, a), b)
  {
    AbsorbAppend(h, a, [b]);
  }

  /** Published FNV-1a 64 test vectors: the empty string and "a". */
  lemma TestVectorsShort()
    ensures Fnv1a([]) == 0xcbf29ce484222325
    ensures Fnv1a([0x61]) == 0xaf63dc4c8601ec8c
  {
    var s: seq<u8> := [0x61];
    assert Mix(OffsetBasis, 0x61) == 0xaf63dc4c8601ec8c by { assert (0x61 as u8) as bv64 == 0x61; }
    assert s[1..] == [];
  }

  /** Three rounds, one byte each. */
  lemma Absorb3(h: bv64, x: u8, y: u8, z: u8)
    ensures Absorb(h, [x, y, z]) == Mix(Mix(Mix(h, x), y), z)
  {
    var s := [x, y, z];
    assert s[1..] == [y, z] && [y, z][1..] == [z] && [z][1..] == [];
    assert Absorb(h, s) == Absorb(Mix(h, x), [y, z]);
    assert Absorb(Mix(h, x), [y, z]) == Absorb(Mix(Mix(h, x), y), [z]);
  }

  /** The state after "foo", halfway through the "foobar" test vector. */
  lemma HashOfFoo()
    ensures Fnv1a([0x66, 0x6f, 0x6f]) == 0xdcb27518fed9d577
  {
    Absorb3(OffsetBasis, 0x66, 0x6f, 0x6f);
    assert Mix(OffsetBasis, 0x66) == 0xaf63db4c8601ead9 by { assert (0x66 as u8) as bv64 == 0x66; }
    assert Mix(0xaf63db4c8601ead9, 0x6f) == 0x08985907b541d342 by { assert (0x6f as u8) as bv64 == 0x6f; }
    assert Mix(0x08985907b541d342, 0x6f) == 0xdcb27518fed9d577 by { assert (0x6f as u8) as bv64 == 0x6f; }
  }

  /** Published FNV-1a 64 test vector: "foobar". */
  lemma TestVectorFoobar()
    ensures Fnv1a([0x66, 0x6f, 0x6f, 0x62, 0x61, 0x72]) == 0x85944171f73967e8
  {
    var foo: seq<u8>, bar: seq<u8> := [0x66, 0x6f, 0x6f], [0x62, 0x61, 0x72];
    assert foo + bar == [0x66, 0x6f, 0x6f, 0x62, 0x61, 0x72];
    AbsorbAppend(OffsetBasis, foo, bar);
    HashOfFoo();
    Absorb3(0xdcb27518fed9d577, 0x62, 0x61, 0x72);
    assert Mix(0xdcb27518fed9d577, 0x62) == 0xdd120e790c2512af by { assert (0x62 as u8) as bv64 == 0x62; }
    assert Mix(0xdd120e790c2512af, 0x61) == 0xcac165afa2fef40a by { assert (0x61 as u8) as bv64 == 0x61; }
    assert Mix(0xcac165afa2fef40a, 0x72) == 0x85944171f73967e8 by { assert (0x72 as u8) as bv64 == 0x72; }
  }

  /** The streaming hasher (`FnvHasher`): `Default` starts at the offset basis,
      `Write` absorbs bytes one at a time, `Finish` reads the state. */
  class Hasher {
    var state: bv64
    /** Everything written so far. */
    ghost var written: seq<u8>

    ghost predicate Valid()
      reads this
    {
      state == Absorb(OffsetBasis, written)
    }

    constructor Default()
      ensures Valid() && written == []
      ensures Finish() == OffsetBasis
    {
      state := OffsetBasis;
      written := [];
    }

    method Write(bytes: seq<u8>)
      requires Valid()
      modifies this
      ensures Valid()
      ensures written == old(written) + bytes
    {
      var i := 0;
      while i < |bytes|
        invariant 0 <= i <= |bytes|
        invariant written == old(written)
        invariant state == Absorb(old(state), bytes[..i])
      {
        assert bytes[..i + 1] == bytes[..i] + [bytes[i]];
        AbsorbSnoc(old(state), bytes[..i], bytes[i]);
        state := Mix(state, bytes[i]);
        i := i + 1;
      }
      assert bytes[..i] == bytes;
      AbsorbAppend(OffsetBasis, written, bytes);
      written := written + bytes;
    }

    /** The hash of everything written, in order. */
    function Finish(): (h: bv64)
      reads this
      requires Valid()
      ensures h == Fnv1a(written)
    {
      state
    }
  }
}
