# gens: hierarchical identifiers, modelled in Dafny

This project models the `Id` type of the Rust crate `gens` (src/lib.rs). `Id` is a
deterministic generator of hierarchical identifiers. Each identifier holds four
fixed-width integers:

- `id`: the local hash, a `u64`
- `parent`: the parent's value when this identifier was created, a `u128`
- `depth`: the number of ancestors, a `u32`
- `gen`: the number of children produced so far, a `u32`

From these it derives a 128-bit value, `(depth + 1) * (parent ^ id)`, wrapping
modulo 2^128. Equality, hashing and printing all go through that value. Ordering
compares depths only. `next_id` bumps the receiver's counter. It then hashes the
receiver's four fields with 64-bit FNV-1a to give the child its local id. The child
records the receiver's value as its parent, sits one level deeper and starts with
no children.

Files and modules:

- `uint.dfy`, module `Uint`: `u32`/`u64`/`u128` as integer subranges. It holds
  the wrapping increment and the wrapping 128-bit multiplication, and bitwise XOR
  with its bit-level specification. It also holds the little-endian byte encoding
  `LeBytes` and its inverse `FromLe`.
- `fnv.dfy`, module `Fnv`: FNV-1a 64 as a fold over bytes (`Fnv1a`), and the
  streaming hasher `Hasher` (`FnvHasher`) as a class whose `Write` loop is proved
  against the fold. The offset basis, the prime and the per-byte step follow the
  IETF Internet-Draft draft-eastlake-fnv, section 2 ("FNV Basics").
- `hex.dfy`, module `Hex`: Rust's `{:x}` rendering, with a parser as its inverse.
- `id.dfy`, module `Gens`: the `Id` datatype, `Root`, `Value` (the source's `id()`)
  and the accessors. It also holds `next_id`, in two forms. `NextId` is the
  specification: a function from the receiver's state to the updated receiver
  and the child. `DeriveChild` runs the source's statements, with the four hasher
  writes, and is proved equal to `NextId`. The module also models repeated
  derivation (`DeriveMany`), `PartialEq`, `Hash`, `Ord`/`PartialOrd` and
  `Display`/`Debug`.

`Id` is a Rust value type. It is neither shared nor aliased, and `next_id` takes
it by `&mut self`. So the model keeps `Id` a datatype, and a `next_id` call
returns the receiver's new state together with the child.

Two properties of the source come out of the proofs:

- `==` and `cmp` disagree. Equal values at different depths are `==`, yet
  `cmp` orders them `Less` (`EqualButOrdered`: `Id(2,0,0,0)` against
  `Id(1,0,1,0)`, both of value 2). Conversely, identifiers at one depth compare
  `Equal` without being `==` (`SameDepthNotEqual`). The model keeps the
  source's depth-only `cmp` (src/lib.rs:96-98) as written.
- `==` does not determine what `next_id` produces. An identifier and itself after
  one `next_id` call are `==`. Yet their next children are hashed from different
  inputs (`EqualIdsDeriveDifferently`).

Assumption about the hash input: Rust's `Hash` for integers writes each integer's
native-endian bytes, and `FnvHasher` only implements `write`. The model fixes the
input of `next_id` to 32 bytes, little-endian: `id` (8 bytes), then `parent` (16),
then `depth` (4), then `gen` (4). `Hash for Id` calls `write_u128` on the value.
A hasher that keeps the default `write_u128`, such as `FnvHasher`, then receives
the value's 16 bytes, which the model takes as little-endian. A hasher that
overrides `write_u128` may receive something else.

## Model

| member | source | states |
|---|---|---|
| `Uint.WrappingInc` | src/lib.rs:64 | `gen.wrapping_add(1)` is `gen + 1` modulo 2^32; it wraps to 0 only at `u32::MAX` |
| `Uint.WrappingMul128IsProduct` | src/lib.rs:44 | the modelled `wrapping_mul` (repeated wrapping addition) equals the product modulo 2^128 |
| `Uint.XorBits` | src/lib.rs:44 | every bit of the modelled `^` is the exclusive or of the operands' bits |
| `Uint.FromLeLeBytes` | src/lib.rs:67-70 | decoding the little-endian bytes of a number that fits in `n` bytes gives the number back |
| `Uint.LeBytesFromLe` | src/lib.rs:67-70 | every byte string is the encoding of its decoding, so the encoding is onto |
| `Uint.LeBytesInjective` | src/lib.rs:67-70 | two numbers of the same width write the same bytes iff they are equal |
| `Fnv.AbsorbAppend` | src/lib.rs:66-70 | feeding bytes in several writes gives the same state as feeding their concatenation at once |
| `Fnv.TestVectorsShort` | src/lib.rs:66-73 | the hash function gives the published FNV-1a 64 values for "" and "a" |
| `Fnv.TestVectorFoobar` | src/lib.rs:66-73 | the hash function gives the published FNV-1a 64 value for "foobar" |
| `Fnv.Hasher.Default` | src/lib.rs:66 | a new hasher has absorbed nothing, and its state is the offset basis |
| `Fnv.Hasher.Write` | src/lib.rs:67-70 | a write appends the bytes to what the hasher has absorbed, keeping state equal to the fold |
| `Fnv.Hasher.Finish` | src/lib.rs:73 | `finish()` is FNV-1a of everything written, in order |
| `Hex.LowerHex` | src/lib.rs:109 | `{:x}` prints only lower-case hex digits, with no leading zero, and prints "0" exactly for zero |
| `Hex.ParseLowerHex` | src/lib.rs:115 | parsing the printed digits gives the number back |
| `Hex.LowerHexInjective` | src/lib.rs:109 | different numbers print differently |
| `Gens.RootIsZero` | src/lib.rs:31-45 | `root()` has id, parent, depth and num_children 0, its value is 0 and it prints as "0x0" |
| `Gens.ValueClosedForm` | src/lib.rs:43-45 | `id()` is `(depth + 1) * (parent ^ id)` modulo 2^128 |
| `Gens.ValueIgnoresGen` | src/lib.rs:43-45 | the value does not depend on the generation counter |
| `Gens.HashKeyRoundTrip` | src/lib.rs:66-70 | the hash input is 32 bytes, and all four fields can be read back from it |
| `Gens.HashKeyInjective` | src/lib.rs:66-70 | two receiver states give the same hash input iff all four fields are equal |
| `Gens.DeriveChild` | src/lib.rs:63-78 | running `next_id`'s statements (bump, four hasher writes, finish, build) yields the updated receiver and child that `NextId` specifies |
| `Gens.NextIdReceiver` | src/lib.rs:63-64 | `next_id` leaves id, parent and depth unchanged and advances gen by 1 modulo 2^32, so the receiver's value is unchanged |
| `Gens.NextIdChild` | src/lib.rs:72-77 | the child has depth + 1, no children, the receiver's value as parent, and FNV-1a of the bumped receiver's fields as local id |
| `Gens.TwoChildrenAndGrandchild` | src/lib.rs:63-78 | two calls on one receiver give two children one level down under its value, hashed from different inputs, with the counter up by 2; a call on the first child gives a grandchild two levels down under that child's value |
| `Gens.RootScenario` | src/lib.rs:28-38 | two children of the root have depth 1 and parent 0, they hash different inputs, the root counts 2, and a grandchild has depth 2 and the first child's value as parent |
| `Gens.EqualIdsDeriveDifferently` | src/lib.rs:81-84 | an id and its post-`next_id` self are `==` yet hash different inputs for their next child |
| `Gens.BumpNIsBumped` | src/lib.rs:64 | `n` successive `wrapping_add(1)` bumps advance the counter by `n` modulo 2^32 and change no other field |
| `Gens.DeriveManyLength` | src/lib.rs:63-78 | `n` calls produce exactly `n` children |
| `Gens.DeriveManyReceiver` | src/lib.rs:63-64 | after `n` calls the receiver is its original state bumped `n` times |
| `Gens.DeriveManyCounts` | src/lib.rs:57-64 | after n calls there are n children, and gen has advanced by n modulo 2^32 with nothing else changed |
| `Gens.FreshCount` | src/lib.rs:57-60 | from a fresh id, `num_children()` after n calls is n modulo 2^32 |
| `Gens.DeriveManyChildAt` | src/lib.rs:63-78 | the `k`-th child of a run is the child built from the receiver after its `k + 1`-th bump |
| `Gens.DeriveManyChildren` | src/lib.rs:72-77 | every child of a run has the receiver's original value as parent, depth + 1 and no children, and hashes the receiver after the matching bump |
| `Gens.SiblingHashInputsDistinct` | src/lib.rs:64-70 | two children of one receiver produced fewer than 2^32 calls apart are derived from distinct hash inputs |
| `Gens.EqIffSameHashBytes` | src/lib.rs:101-105 | `a == b` iff `Hash` feeds a hasher with the default `write_u128` the same bytes for both, so equal ids leave any FNV state alike |
| `Gens.CmpIsDepthOrder` | src/lib.rs:89-98 | `cmp`, `<` and `<=` are the comparisons of the depths, in both directions |
| `Gens.CmpTotalPreorder` | src/lib.rs:95-98 | `<=` is reflexive, total and transitive, and swapping the arguments reverses `cmp` |
| `Gens.SameDepthNotEqual` | src/lib.rs:81-98 | two ids at one depth compare `Equal` although they are not `==` |
| `Gens.EqualButOrdered` | src/lib.rs:81-98 | two `==` ids at different depths compare `Less` |
| `Gens.DisplayIsValue` | src/lib.rs:107-117 | the text is "0x" and digits that parse back to the value, and two ids print alike iff they are `==` |

## Left out

- NextId: requires `depth < 0xFFFF_FFFF`. The source computes `self.depth + 1` with a plain `+` (src/lib.rs:75), which panics in a debug build and wraps in a release build; the model picks neither.
- DeriveChild: has the same precondition on `depth` as `NextId`, for the same reason.
- DeriveManyCounts: has the same precondition on `depth` as `NextId`, for the same reason.
- DeriveManyChildren: has the same precondition on `depth` as `NextId`, for the same reason.
- DeriveManyLength: has the same precondition on `depth` as `NextId`, for the same reason.
- DeriveManyReceiver: has the same precondition on `depth` as `NextId`, for the same reason.
- DeriveManyChildAt: has the same precondition on `depth` as `NextId`, for the same reason.
- TwoChildrenAndGrandchild: requires `depth < 0xFFFF_FFFE`, so that the first child can itself call `next_id` under the same precondition.
- Native-endian byte order: the input of `next_id`'s hash is fixed to little-endian. On a big-endian target the source hashes other bytes, so `next_id` derives other children there. This is at odds with the doc comment at src/lib.rs:17, which calls all algorithms deterministic and platform-independent.
- FNV-1a itself is restated from the Internet-Draft. The `fnv` crate and the default `Hasher::write_u64`/`write_u128`/`write_u32` methods are not part of this model.
- Uniqueness: the model does not prove that generated values are distinct, not even for siblings. This depends on FNV-1a collisions. The model proves only that siblings are hashed from distinct inputs (`SiblingHashInputsDistinct`).
- `Display` and `Debug` are modelled as the string they produce. The `fmt::Formatter` machinery is left out.
- The `serde` derive, the `no_std` and clippy attributes, and the README include are build configuration and documentation.
- The `test` module is left out. It checks for collisions over tens of millions of generated values, which is a property of the hash, not of this model.
- Concurrency: `next_id` needs exclusive access through `&mut self`. The model has no shared state.
