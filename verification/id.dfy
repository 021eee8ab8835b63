/** The hierarchical identifier `Id` of src/lib.rs and its derivation step.

    An `Id` is a plain value of four fixed-width fields. Its numeric identity,
    `Value()` (the source's `id()` method), is derived from three of them; it
    drives equality, hashing and display. `next_id` takes the receiver by
    `&mut self`, so it is modelled as a step that returns the updated receiver
    together with the new child: `NextId` is the specification, and
    `DeriveChild` performs the source's statements, including the four writes
    into an FNV-1a hasher, and is proved to agree with it. */
module Gens {
  import opened Uint
  import opened Fnv
  import Hex

  /** `core::cmp::Ordering`. */
  datatype Ordering = Less | Equal | Greater {
    function Reverse(): Ordering {
      match this
      case Less => Greater
      case Equal => Equal
      case Greater => Less
    }
  }

  datatype Option<T> = None | Some(value: T)

  /** `struct Id`: the local hash, the parent's value at creation, the number
      of ancestors and the number of children produced so far. */
  datatype Id = Id(id: u64, parent: u128, depth: u32, gen: u32) {

    /** `id()`: `(depth + 1) * (parent ^ id)`, wrapping modulo 2^128. */
    function Value(): u128 {
      WrappingMul128(depth as int + 1, Xor(parent as nat, id as nat))
    }

    /** `parent()`. */
    function Parent(): u128 {
      parent
    }

    /** `depth()`. */
    function Depth(): u32 {
      depth
    }

    /** `num_children()`. */
    function NumChildren(): u32 {
      gen
    }
  }

  /** `Id::root()`. */
  function Root(): Id {
    Id(0, 0, 0, 0)
  }

  lemma RootIsZero()
    ensures Root().id == 0 && Root().Parent() == 0 && Root().Depth() == 0 && Root().NumChildren() == 0
    ensures Root().Value() == 0
    ensures Display(Root()) == "0x0"
  {}

  /** `id()` is `(depth + 1) * (parent ^ id)` reduced modulo 2^128. */
  lemma ValueClosedForm(a: Id)
    ensures a.Value() as int == ((a.depth as int + 1) * Xor(a.parent as nat, a.id as nat)) % TwoTo128
  {
    WrappingMul128IsProduct(a.depth as int + 1, Xor(a.parent as nat, a.id as nat));
  }

  /** The value never reads the generation counter. */
  lemma ValueIgnoresGen(a: Id, g: u32)
    ensures a.(gen := g).Value() == a.Value()
  {}

  // ---------------------------------------------------------------------
  // The hash input of `next_id`

  /** The bytes `next_id` writes into its hasher for a receiver in state `a`:
      `id`, `parent`, `depth` and `gen`, each as its little-endian bytes. */
  function HashKey(a: Id): seq<u8> {
    LeBytes(a.id as nat, 8) + LeBytes(a.parent as nat, 16) + LeBytes(a.depth as nat, 4) + LeBytes(a.gen as nat, 4)
  }

  /** Reads the four fields back out of a 32-byte hash input. */
  function DecodeKey(s: seq<u8>): Id
    requires |s| == 32
  {
    Pow256Widths();
    Id(FromLe(s[..8]) as u64, FromLe(s[8..24]) as u128, FromLe(s[24..28]) as u32, FromLe(s[28..]) as u32)
  }

  /** The hash input is 32 bytes long and records all four fields. */
  lemma HashKeyRoundTrip(a: Id)
    ensures |HashKey(a)| == 32 && DecodeKey(HashKey(a)) == a
  {
    Pow256Widths();
    var k := HashKey(a);
    FieldSlices(LeBytes(a.id as nat, 8), LeBytes(a.parent as nat, 16), LeBytes(a.depth as nat, 4), LeBytes(a.gen as nat, 4));
    FromLeLeBytes(a.id as nat, 8);
    FromLeLeBytes(a.parent as nat, 16);
    FromLeLeBytes(a.depth as nat, 4);
    FromLeLeBytes(a.gen as nat, 4);
  }

  lemma FieldSlices(w: seq<u8>, x: seq<u8>, y: seq<u8>, z: seq<u8>)
    requires |w| == 8 && |x| == 16 && |y| == 4 && |z| == 4
    ensures var k := w + x + y + z;
      k[..8] == w && k[8..24] == x && k[24..28] == y && k[28..] == z
  {}

  /** Two receiver states feed the same bytes to the hasher only if all four
      fields agree. */
  lemma HashKeyInjective(a: Id, b: Id)
    ensures HashKey(a) == HashKey(b) <==> a == b
  {
    HashKeyRoundTrip(a);
    HashKeyRoundTrip(b);
  }

  // ---------------------------------------------------------------------
  // `next_id`

  /** The result of one `next_id` call: the receiver afterwards and the child. */
  datatype Derivation = Derivation(receiver: Id, child: Id)

  /** `next_id`, as a function of the receiver's state. `depth + 1` is a plain
      addition in the source, so the receiver must not be at the deepest depth. */
  function NextId(self: Id): Derivation
    requires self.depth < 0xFFFF_FFFF
  {
    var receiver := Bump(self);
    Derivation(receiver, ChildOf(receiver))
  }

  /** `self.gen = self.gen.wrapping_add(1)`. */
  function Bump(a: Id): Id {
    a.(gen := WrappingInc(a.gen))
  }

  /** The child `next_id` builds once the receiver's counter has been bumped. */
  function ChildOf(receiver: Id): Id
    requires receiver.depth < 0xFFFF_FFFF
  {
    Id(Fnv1a(HashKey(receiver)) as u64, receiver.Value(), receiver.depth + 1, 0)
  }

  /** `next_id`, statement by statement: bump `gen`, hash the four fields of
      the bumped receiver with a fresh FNV hasher, build the child. */
  method DeriveChild(self: Id) returns (receiver: Id, child: Id)
    requires self.depth < 0xFFFF_FFFF
    ensures Derivation(receiver, child) == NextId(self)
  {
    receiver := self.(gen := WrappingInc(self.gen));
    var state := new Hasher.Default();
    state.Write(LeBytes(receiver.id as nat, 8));
    assert state.written == LeBytes(receiver.id as nat, 8);
    state.Write(LeBytes(receiver.parent as nat, 16));
    state.Write(LeBytes(receiver.depth as nat, 4));
    state.Write(LeBytes(receiver.gen as nat, 4));
    assert state.written == HashKey(receiver);
    child := Id(state.Finish() as u64, receiver.Value(), receiver.depth + 1, 0);
  }

  /** `next_id` changes only the receiver's counter, by one modulo 2^32; in
      particular the receiver's value is unchanged. */
  lemma NextIdReceiver(self: Id)
    requires self.depth < 0xFFFF_FFFF
    ensures var r := NextId(self).receiver;
      && r.id == self.id && r.parent == self.parent && r.depth == self.depth
      && r.NumChildren() as int == (self.NumChildren() as int + 1) % TwoTo32
      && r.Value() == self.Value()
  {}

  /** The child sits one level deeper, has produced nothing yet, records the
      receiver's value as its parent, and its local id is the FNV-1a hash of the
      receiver's bumped state. */
  lemma NextIdChild(self: Id)
    requires self.depth < 0xFFFF_FFFF
    ensures var d := NextId(self);
      && d.child.Depth() == self.Depth() + 1
      && d.child.NumChildren() == 0
      && d.child.Parent() == self.Value() == d.receiver.Value()
      && d.child.id as bv64 == Fnv1a(HashKey(d.receiver))
  {}

  /** Two calls on one receiver, then one call on the first child: both
      children sit one level down under the receiver's value and were hashed
      from different inputs, the receiver has counted two children, and the
      grandchild sits two levels down under the first child's value. */
  lemma TwoChildrenAndGrandchild(a: Id)
    requires a.depth < 0xFFFF_FFFE
    ensures var d1 := NextId(a);
      var d2 := NextId(d1.receiver);
      var gc := NextId(d1.child).child;
      && d2.receiver.NumChildren() as int == (a.NumChildren() as int + 2) % TwoTo32
      && d1.child.Depth() == a.Depth() + 1 && d2.child.Depth() == a.Depth() + 1
      && d1.child.Parent() == a.Value() && d2.child.Parent() == a.Value()
      && HashKey(d1.receiver) != HashKey(d2.receiver)
      && gc.Depth() == a.Depth() + 2 && gc.Parent() == d1.child.Value()
  {
    var d1 := NextId(a);
    NextIdReceiver(a);
    NextIdChild(a);
    var d2 := NextId(d1.receiver);
    NextIdReceiver(d1.receiver);
    NextIdChild(d1.receiver);
    NextIdChild(d1.child);
    HashKeyInjective(d1.receiver, d2.receiver);
    ModStep(a.gen as int, 1);
  }

  /** The scenario from the root: two children at depth 1 with parent 0, the
      root counting 2, and a grandchild at depth 2. */
  lemma RootScenario()
    ensures var d1 := NextId(Root());
      var d2 := NextId(d1.receiver);
      var gc := NextId(d1.child).child;
      && d2.receiver.NumChildren() == 2
      && d1.child.Depth() == 1 && d2.child.Depth() == 1
      && d1.child.Parent() == 0 && d2.child.Parent() == 0
      && HashKey(d1.receiver) != HashKey(d2.receiver)
      && gc.Depth() == 2 && gc.Parent() == d1.child.Value()
  {
    RootIsZero();
    TwoChildrenAndGrandchild(Root());
  }

  /** `==` does not determine what `next_id` produces: an identifier and the
      same identifier after a `next_id` call are `==`, yet their next children
      are hashed from different inputs. */
  lemma EqualIdsDeriveDifferently(a: Id)
    requires a.depth < 0xFFFF_FFFF
    ensures var b := NextId(a).receiver;
      Eq(a, b) && HashKey(NextId(a).receiver) != HashKey(NextId(b).receiver)
  {
    var b := NextId(a).receiver;
    HashKeyInjective(NextId(a).receiver, NextId(b).receiver);
  }

  // ---------------------------------------------------------------------
  // Repeated derivation

  /** The result of `n` successive `next_id` calls on one receiver: the
      receiver afterwards and the children in the order they were produced. */
  datatype Run = Run(receiver: Id, children: seq<Id>)

  function DeriveMany(self: Id, n: nat): Run
    requires self.depth < 0xFFFF_FFFF
    decreases n
  {
    if n == 0 then Run(self, [])
    else
      var d := NextId(self);
      var rest := DeriveMany(d.receiver, n - 1);
      Run(rest.receiver, [d.child] + rest.children)
  }

  /** The receiver's state after `n` successive bumps. */
  function BumpN(a: Id, n: nat): (r: Id)
    ensures r.id == a.id && r.parent == a.parent && r.depth == a.depth
    decreases n
  {
    if n == 0 then a else BumpN(Bump(a), n - 1)
  }

  /** The same state in closed form: the counter advanced by `n` modulo 2^32. */
  function Bumped(a: Id, n: nat): Id {
    a.(gen := ((a.gen as int + n) % TwoTo32) as u32)
  }

  lemma ModStep(g: int, n: nat)
    ensures ((g + 1) % TwoTo32 + n) % TwoTo32 == (g + 1 + n) % TwoTo32
  {}

  /** `n` bumps advance the counter by `n` modulo 2^32 and change nothing else. */
  lemma {:induction false} BumpNIsBumped(a: Id, n: nat)
    ensures BumpN(a, n) == Bumped(a, n)
    decreases n
  {
    if n > 0 {
      BumpNIsBumped(Bump(a), n - 1);
      ModStep(a.gen as int, n - 1);
    }
  }

  lemma {:induction false} DeriveManyLength(self: Id, n: nat)
    requires self.depth < 0xFFFF_FFFF
    ensures |DeriveMany(self, n).children| == n
    decreases n
  {
    if n > 0 {
      DeriveManyLength(Bump(self), n - 1);
    }
  }

  lemma {:induction false} DeriveManyReceiver(self: Id, n: nat)
    requires self.depth < 0xFFFF_FFFF
    ensures DeriveMany(self, n).receiver == BumpN(self, n)
    decreases n
  {
    if n > 0 {
      DeriveManyReceiver(Bump(self), n - 1);
    }
  }

  /** After `n` calls the receiver has produced `n` children and its counter has
      advanced by `n` modulo 2^32; nothing else about it has changed. */
  lemma DeriveManyCounts(self: Id, n: nat)
    requires self.depth < 0xFFFF_FFFF
    ensures |DeriveMany(self, n).children| == n
    ensures DeriveMany(self, n).receiver == Bumped(self, n)
  {
    DeriveManyLength(self, n);
    DeriveManyReceiver(self, n);
    BumpNIsBumped(self, n);
  }

  /** Starting from a fresh identifier, `num_children()` after `n` calls is `n`
      modulo 2^32. */
  lemma FreshCount(self: Id, n: nat)
    requires self.depth < 0xFFFF_FFFF && self.NumChildren() == 0
    ensures DeriveMany(self, n).receiver.NumChildren() as int == n % TwoTo32
  {
    DeriveManyCounts(self, n);
  }

  /** The `k`-th child of a run (from 0) is the child of the receiver's state
      after its `k + 1`-th counter bump. */
  lemma {:induction false} DeriveManyChildAt(self: Id, n: nat, k: nat)
    requires self.depth < 0xFFFF_FFFF && k < n
    ensures |DeriveMany(self, n).children| == n
    ensures DeriveMany(self, n).children[k] == ChildOf(BumpN(self, k + 1))
    decreases n
  {
    DeriveManyLength(self, n);
    if k > 0 {
      var rest := DeriveMany(Bump(self), n - 1).children;
      DeriveManyLength(Bump(self), n - 1);
      DeriveManyChildAt(Bump(self), n - 1, k - 1);
      assert DeriveMany(self, n).children[k] == rest[k - 1];
    }
  }

  /** Every child of a run records the same parent value, sits one level below
      the receiver, starts with no children, and has as local id the FNV-1a hash
      of the receiver's state after the matching counter bump. */
  lemma DeriveManyChildren(self: Id, n: nat, k: nat)
    requires self.depth < 0xFFFF_FFFF && k < n
    ensures |DeriveMany(self, n).children| == n
    ensures var c := DeriveMany(self, n).children[k];
      && c.Parent() == self.Value()
      && c.Depth() == self.Depth() + 1
      && c.NumChildren() == 0
      && c.id as bv64 == Fnv1a(HashKey(Bumped(self, k + 1)))
  {
    DeriveManyChildAt(self, n, k);
    BumpNIsBumped(self, k + 1);
    ValueIgnoresGen(self, Bumped(self, k + 1).gen);
  }

  /** Two children of one receiver produced less than one wrap-around of the
      counter apart are derived from distinct hash inputs. (Whether the hashes
      themselves differ depends on FNV-1a and is not a property of this model.) */
  lemma SiblingHashInputsDistinct(self: Id, i: nat, j: nat)
    requires i < j && j - i < TwoTo32
    ensures HashKey(Bumped(self, i + 1)) != HashKey(Bumped(self, j + 1))
  {
    var g := self.gen as int;
    assert (g + i + 1) % TwoTo32 != (g + j + 1) % TwoTo32;
    HashKeyInjective(Bumped(self, i + 1), Bumped(self, j + 1));
  }

  // ---------------------------------------------------------------------
  // `PartialEq` and `Hash`

  /** `a == b`: equality of the derived values. */
  function Eq(a: Id, b: Id): bool {
    a.Value() == b.Value()
  }

  /** What `Hash::hash` feeds a hasher that keeps the default `write_u128`
      (as `FnvHasher` does) on a little-endian target: the value's 16 bytes. */
  function HashBytes(a: Id): seq<u8> {
    LeBytes(a.Value() as nat, 16)
  }

  /** Equal identifiers hash identically, and only equal identifiers write the
      same bytes; so any FNV state absorbs them alike. */
  lemma EqIffSameHashBytes(a: Id, b: Id, h: bv64)
    ensures Eq(a, b) <==> HashBytes(a) == HashBytes(b)
    ensures Eq(a, b) ==> Absorb(h, HashBytes(a)) == Absorb(h, HashBytes(b))
  {
    Pow256Widths();
    LeBytesInjective(a.Value() as nat, b.Value() as nat, 16);
  }

  // ---------------------------------------------------------------------
  // `Ord` and `PartialOrd`

  function CmpU32(x: u32, y: u32): Ordering {
    if x < y then Less else if x == y then Equal else Greater
  }

  /** `a.cmp(b)`: by depth only. */
  function Cmp(a: Id, b: Id): Ordering {
    CmpU32(a.depth, b.depth)
  }

  /** `a.partial_cmp(b)`. */
  function PartialCmp(a: Id, b: Id): Option<Ordering> {
    Some(Cmp(a, b))
  }

  /** `a < b` and `a <= b`, as Rust derives them from `partial_cmp`. */
  function Lt(a: Id, b: Id): bool {
    PartialCmp(a, b) == Some(Less)
  }

  function Le(a: Id, b: Id): bool {
    PartialCmp(a, b) == Some(Less) || PartialCmp(a, b) == Some(Equal)
  }

  /** The ordering is the order of the depths, whatever the values. */
  lemma CmpIsDepthOrder(a: Id, b: Id)
    ensures Cmp(a, b) == Less <==> a.Depth() < b.Depth()
    ensures Cmp(a, b) == Equal <==> a.Depth() == b.Depth()
    ensures Cmp(a, b) == Greater <==> a.Depth() > b.Depth()
    ensures Lt(a, b) <==> a.Depth() < b.Depth()
    ensures Le(a, b) <==> a.Depth() <= b.Depth()
  {}

  /** `<=` is a total preorder, and `cmp` is antisymmetric in the sense of
      `Ordering::reverse`. */
  lemma CmpTotalPreorder(a: Id, b: Id, c: Id)
    ensures Le(a, a)
    ensures Le(a, b) || Le(b, a)
    ensures Le(a, b) && Le(b, c) ==> Le(a, c)
    ensures Cmp(b, a) == Cmp(a, b).Reverse()
  {}

  /** Identifiers at the same depth compare `Equal` although they are not `==`. */
  lemma SameDepthNotEqual()
    ensures var a, b := Id(1, 0, 0, 0), Root();
      Cmp(a, b) == Equal && !Eq(a, b)
  {
    assert Id(1, 0, 0, 0).Value() == 1;
  }

  /** Conversely, `==` identifiers may compare `Less`: equal values at
      different depths (2 = 1 * (0 ^ 2) = 2 * (0 ^ 1)). */
  lemma EqualButOrdered()
    ensures var a, b := Id(2, 0, 0, 0), Id(1, 0, 1, 0);
      Eq(a, b) && Cmp(a, b) == Less
  {
    assert Id(2, 0, 0, 0).Value() == 2;
    assert Id(1, 0, 1, 0).Value() == 2;
  }

  // ---------------------------------------------------------------------
  // `Display` and `Debug`

  /** `format!("{}", a)` and `format!("{:?}", a)`: `0x` and the value in
      lower-case hexadecimal. */
  function Display(a: Id): string {
    "0x" + Hex.LowerHex(a.Value() as nat)
  }

  /** The text names the value exactly: it parses back to it, and two
      identifiers print alike exactly when they are `==`. */
  lemma DisplayIsValue(a: Id, b: Id)
    ensures Display(a)[..2] == "0x"
    ensures Hex.ParseHex(Display(a)[2..]) == a.Value() as nat
    ensures Display(a) == Display(b) <==> Eq(a, b)
  {
    Hex.ParseLowerHex(a.Value() as nat);
    assert Display(a)[2..] == Hex.LowerHex(a.Value() as nat);
    assert Display(b)[2..] == Hex.LowerHex(b.Value() as nat);
    Hex.LowerHexInjective(a.Value() as nat, b.Value() as nat);
  }
}
