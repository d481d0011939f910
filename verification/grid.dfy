/** Geometry of the padded 3-D grid: a flat row-major buffer of n1*n2*n3 cells,
    x fastest, then y, then z (the layout every ISO3DFD routine indexes). */
module Grid3 {
  import opened Numeric

  datatype Grid = Grid(n1: nat, n2: nat, n3: nat) {

    /** Number of cells of one z-plane (`dimn1n2` in the kernels). */
    function Plane(): nat { n1 * n2 }

    /** Number of cells of the whole padded grid. */
    function Size(): nat { Plane() * n3 }

    /** Flat offset of cell (x, y, z): `z * dimn1n2 + y * n1 + x`. */
    function Idx(x: int, y: int, z: int): int { z * Plane() + y * n1 + x }

    predicate InGrid(x: int, y: int, z: int) {
      0 <= x < n1 && 0 <= y < n2 && 0 <= z < n3
    }

    /** The coordinates of a flat offset. */
    function Z(c: int): int requires Plane() > 0 { c / Plane() }
    function Y(c: int): int requires Plane() > 0 { (c % Plane()) / n1 }
    function X(c: int): int requires Plane() > 0 { (c % Plane()) % n1 }

    /** Every cell of the grid has an offset inside the buffer. */
    lemma IdxInRange(x: int, y: int, z: int)
      requires InGrid(x, y, z)
      ensures 0 <= Idx(x, y, z) < Size()
    {
      RowBound(x, y, n1, n2);
      RowBound(y * n1 + x, z, Plane(), n3);
    }

    /** Decoding the offset of a cell gives back its coordinates. */
    lemma DecodeIdx(x: int, y: int, z: int)
      requires InGrid(x, y, z)
      ensures X(Idx(x, y, z)) == x && Y(Idx(x, y, z)) == y && Z(Idx(x, y, z)) == z
    {
      RowBound(x, y, n1, n2);
      DivModUnique(Idx(x, y, z), Plane(), z, y * n1 + x);
      DivModUnique(y * n1 + x, n1, y, x);
    }

    /** Every offset of the buffer is the offset of exactly the cell it decodes to. */
    lemma IdxDecode(c: int)
      requires 0 <= c < Size()
      ensures Plane() > 0
      ensures InGrid(X(c), Y(c), Z(c)) && Idx(X(c), Y(c), Z(c)) == c
    {
      var p := Plane();
      var r := c % p;
      assert c == Z(c) * p + r;
      assert r == Y(c) * n1 + X(c);
      QuotientBelow(c, p, n3);
      QuotientBelow(r, n1, n2);
    }

    /** The offset of a cell is the only offset of the buffer that decodes to that cell. */
    lemma OnlyCell(x: int, y: int, z: int)
      requires InGrid(x, y, z)
      ensures Plane() > 0
      ensures forall d :: 0 <= d < Size() && X(d) == x && Y(d) == y && Z(d) == z ==> d == Idx(x, y, z)
    {
      IdxInRange(x, y, z);
      forall d | 0 <= d < Size() && X(d) == x && Y(d) == y && Z(d) == z
        ensures d == Idx(x, y, z)
      {
        IdxDecode(d);
      }
    }

    /** Offsets of distinct cells differ. */
    lemma IdxInjective(x: int, y: int, z: int, x': int, y': int, z': int)
      requires InGrid(x, y, z) && InGrid(x', y', z')
      requires Idx(x, y, z) == Idx(x', y', z')
      ensures x == x' && y == y' && z == z'
    {
      DecodeIdx(x, y, z);
      DecodeIdx(x', y', z');
    }
  }
}
