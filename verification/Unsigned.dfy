/** C's unsigned integers as values. Arithmetic that wraps is written out with `%`. */
module Unsigned {

  type Uint8 = x: int | 0 <= x < 0x100

  type Uint16 = x: int | 0 <= x < 0x1_0000

  type Uint32 = x: int | 0 <= x < 0x1_0000_0000

  function Pair(hi: Uint8, lo: Uint8): Uint16
  {
    0x100 * hi as int + lo as int
  }

  /** The four bytes at p, lowest address least significant. */
  function Load32(mem: seq<Uint8>, p: nat): Uint32
    requires p + 4 <= |mem|
  {
    Pair(mem[p + 1], mem[p]) as int + 0x1_0000 * Pair(mem[p + 3], mem[p + 2]) as int
  }

  /** The four bytes by their weights. */
  lemma WordOfBytes(mem: seq<Uint8>, p: nat)
    requires p + 4 <= |mem|
    ensures Load32(mem, p)
         == mem[p] as int + 0x100 * mem[p + 1] as int + 0x1_0000 * mem[p + 2] as int + 0x100_0000 * mem[p + 3] as int
  {}

  /** The bytes after storing x at p, lowest address least significant. */
  function Store32(mem: seq<Uint8>, p: nat, x: Uint32): (r: seq<Uint8>)
    requires p + 4 <= |mem|
    ensures |r| == |mem| && forall i :: 0 <= i < |r| && !(p <= i < p + 4) ==> r[i] == mem[i]
  {
    mem[p := x % 0x100][p + 1 := x / 0x100 % 0x100][p + 2 := x / 0x1_0000 % 0x100][p + 3 := x / 0x100_0000]
  }

  lemma FourBytes(x: Uint32)
    ensures x == x % 0x100 + 0x100 * (x / 0x100 % 0x100) + 0x1_0000 * (x / 0x1_0000 % 0x100)
                 + 0x100_0000 * (x / 0x100_0000)
  {
    var y, z := x / 0x100, x / 0x1_0000;
    assert y / 0x100 == z;
    assert z / 0x100 == x / 0x100_0000;
  }

  lemma LoadStored(mem: seq<Uint8>, p: nat, x: Uint32)
    requires p + 4 <= |mem|
    ensures Load32(Store32(mem, p, x), p) == x
  {
    FourBytes(x);
    StoredBytes(mem, p, x);
    hide Store32;
  }

  lemma StoredBytes(mem: seq<Uint8>, p: nat, x: Uint32)
    requires p + 4 <= |mem|
    ensures var r := Store32(mem, p, x);
            && r[p] == x % 0x100 && r[p + 1] == x / 0x100 % 0x100
            && r[p + 2] == x / 0x1_0000 % 0x100 && r[p + 3] == x / 0x100_0000
  {}

  lemma QuotientUnique(x: int, d: int, q: int, r: int)
    requires d > 0 && x == q * d + r && 0 <= r < d
    ensures x / d == q
  {
    var q', r' := x / d, x % d;
    assert q' * d + r' == q * d + r && 0 <= r' < d;
    if q > q' {
      SmallerQuotient(d, q', q);
      assert false;
    } else if q < q' {
      SmallerQuotient(d, q, q');
      assert false;
    }
  }

  lemma SmallerQuotient(d: int, q: int, q': int)
    requires d > 0 && q < q'
    ensures q * d + d <= q' * d
  {
    assert q' * d == (q + 1) * d + (q' - q - 1) * d;
  }
}
