/** Structural identity of a rendered node: the sequence of sibling indices and
    component types met on the way down from the root (src/appy/appy.rs). */
module Paths {

  /** An abstract runtime type identity, standing for Rust's `TypeId`. */
  datatype TypeTag = TypeTag(id: nat)

  /** One step of a component path: a position among the siblings of a
      fragment, or the type of the component rendered there. */
  datatype PathComponent = Index(i: int) | TypeId(t: TypeTag)

  type Path = seq<PathComponent>

  const I32Modulus: int := 0x1_0000_0000
  const I32Max: int := 0x7fff_ffff

  /** Rust's `i as i32` for a `usize` sibling position: keeps the low 32 bits
      and reads them as a two's-complement signed integer. */
  function AsI32(n: nat): (r: int)
    ensures -I32Max - 1 <= r <= I32Max
    ensures (n - r) % I32Modulus == 0
  {
    var low := n % I32Modulus;
    if low <= I32Max then low else low - I32Modulus
  }

  /** Positions that fit in an `i32` are kept as they are. */
  lemma AsI32Exact(n: nat)
    requires n <= I32Max
    ensures AsI32(n) == n
  {
  }

  /** Distinct positions below 2^32 give distinct `Index` components; only a
      fragment of more than 2^32 children could make two siblings collide. */
  lemma AsI32Injective(m: nat, n: nat)
    requires m < I32Modulus && n < I32Modulus
    ensures AsI32(m) == AsI32(n) <==> m == n
  {
    if AsI32(m) == AsI32(n) {
      assert (m - n) % I32Modulus == 0;
      assert -I32Modulus < m - n < I32Modulus;
    }
  }

  /** The path of the `i`-th child of a fragment rendered under `parent`
      (`this_path.push(Index(i as i32))`). */
  function AtIndex(parent: Path, i: nat): (p: Path)
  {
    parent + [Index(AsI32(i))]
  }

  /** The path of a component of type `t` rendered at `prefix`: each
      component type has its own identity. (The code pushes the `TypeId` of
      the boxed element, the same for every component; see the `Identity`
      module.) */
  function OfType(prefix: Path, t: TypeTag): (p: Path)
  {
    prefix + [TypeId(t)]
  }

  /** `prefix` is an initial segment of `p`. */
  predicate IsPrefix(prefix: Path, p: Path)
  {
    |prefix| <= |p| && p[..|prefix|] == prefix
  }

  lemma PrefixTransitive(x: Path, y: Path, z: Path)
    requires IsPrefix(x, y) && IsPrefix(y, z)
    ensures IsPrefix(x, z)
  {
    assert z[..|x|] == z[..|y|][..|x|];
  }
}
