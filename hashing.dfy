/** The keys of the collision scratch state (engine/ecs_world.h): the 64-bit key of a
    grid cell, and the ordered pair of entity ids recorded in the tested-pairs set. */
module Hashing {
  import opened Wrappers
  import opened Components

  /** CELL_SIZE: the side of a grid cell, in world units. */
  const CELL_SIZE: int := 128

  const TWO_32: int := 0x1_0000_0000

  /** A C `int`: 32 bits, two's complement. */
  predicate IsInt32(x: int) {
    -0x8000_0000 <= x < 0x8000_0000
  }

  /** `(uint32_t)x`: the low 32 bits of x, read as an unsigned number. */
  function U32(x: int): (r: int)
    ensures 0 <= r < TWO_32
    ensures IsInt32(x) ==> (x >= 0 ==> r == x) && (x < 0 ==> r == x + TWO_32)
  {
    x % TWO_32
  }

  /** hashCellGlobal: the 32-bit pattern of x in the upper half of a 64-bit key and the
      pattern of y in the lower half. */
  function HashCell(x: int, y: int): (k: int)
    ensures 0 <= k < TWO_32 * TWO_32
  {
    U32(x) * TWO_32 + U32(y)
  }

  /** The upper 32 bits of a cell key are x's bit pattern and the lower 32 bits y's. */
  lemma HashCellHalves(x: int, y: int)
    ensures HashCell(x, y) / TWO_32 == U32(x)
    ensures HashCell(x, y) % TWO_32 == U32(y)
  {
    var k := HashCell(x, y);
    assert k == U32(x) * TWO_32 + U32(y);
    DivModUnique(k, U32(x), U32(y));
  }

  /** k = q * 2^32 + r with 0 <= r < 2^32 fixes q and r. */
  lemma DivModUnique(k: int, q: int, r: int)
    requires 0 <= r < TWO_32 && k == q * TWO_32 + r
    ensures k / TWO_32 == q && k % TWO_32 == r
  {
  }

  /** Two cells with C-int coordinates have the same key exactly when they are the same
      cell. */
  lemma HashCellInjective(x1: int, y1: int, x2: int, y2: int)
    requires IsInt32(x1) && IsInt32(y1) && IsInt32(x2) && IsInt32(y2)
    ensures HashCell(x1, y1) == HashCell(x2, y2) <==> x1 == x2 && y1 == y2
  {
    if HashCell(x1, y1) == HashCell(x2, y2) {
      HashCellHalves(x1, y1);
      HashCellHalves(x2, y2);
    }
  }

  // ---------------------------------------------------------------------------
  // Pair keys
  // ---------------------------------------------------------------------------

  /** PairKey: equality is fieldwise, so (a, b) and (b, a) are different keys. */
  datatype PairKey = PairKey(a: Id, b: Id)

  /** The key tryMarkPair records for two ids: none for an entity paired with itself,
      otherwise the smaller id first. */
  function MakePair(a: Id, b: Id): (r: Option<PairKey>)
    ensures r.None? <==> a == b
    ensures r.Some? ==> r.value.a < r.value.b
    ensures r.Some? ==> {r.value.a, r.value.b} == {a, b}
  {
    if a == b then None
    else if a > b then Some(PairKey(b, a))
    else Some(PairKey(a, b))
  }

  /** The recorded key does not depend on the order the two ids come in, and it tells
      the unordered pair apart from every other. */
  lemma MakePairSymmetric(a: Id, b: Id, c: Id, d: Id)
    ensures MakePair(a, b) == MakePair(b, a)
    ensures a != b ==> (MakePair(a, b) == MakePair(c, d) <==> (a == c && b == d) || (a == d && b == c))
  {
    if a != b && MakePair(a, b) == MakePair(c, d) {
      assert {a, b} == {c, d};
      assert c in {a, b} && d in {a, b};
    }
  }

  /** PairHash, with std::hash<uint64_t> the identity (as in the GNU and LLVM standard
      libraries), so h1 and h2 are the ids' 64-bit patterns:
      h1 ^ (h2 + 0x9e3779b97f4a7c15 + (h1 << 6) + (h1 >> 2)), modulo 2^64. As a function
      of the key, equal keys hash equally. */
  function PairHash(p: PairKey): bv64
  {
    var h1 := p.a as bv64;
    var h2 := p.b as bv64;
    h1 ^ (h2 + 0x9e3779b97f4a7c15 + (h1 << 6) + (h1 >> 2))
  }
}
