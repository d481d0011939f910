/** What one ISO3DFD time step computes, independent of how the kernels schedule it,
    and what a sequence of steps leaves in the two pressure buffers. */
module Iso3dfdSpec {
  import opened Grid3
  import opened Iso3dfdHeader
  import opened Numeric

  /** Sizes shared by the three fields of a run. */
  predicate Fields(g: Grid, coeff: seq<real>, prev: seq<real>, vel: seq<real>, next: seq<real>) {
    |coeff| == COEFF_COUNT && |prev| == g.Size() && |vel| == g.Size() && |next| == g.Size()
  }

  /** Every radius of an interior cell reads inside the buffer. */
  lemma LookupsInBounds(g: Grid, c: int)
    requires 0 <= c < g.Size() && InteriorCell(g, c)
    ensures var n, n1, d := g.Size(), g.n1, g.Plane();
      LookupInBounds(n, c, 1, n1, d) && LookupInBounds(n, c, 2, n1, d) &&
      LookupInBounds(n, c, 3, n1, d) && LookupInBounds(n, c, 4, n1, d) &&
      LookupInBounds(n, c, 5, n1, d) && LookupInBounds(n, c, 6, n1, d) &&
      LookupInBounds(n, c, 7, n1, d) && LookupInBounds(n, c, 8, n1, d)
  {
    g.IdxDecode(c);
    var x, y, z := g.X(c), g.Y(c), g.Z(c);
    StencilInBounds(g, x, y, z, 1);
    StencilInBounds(g, x, y, z, 2);
    StencilInBounds(g, x, y, z, 3);
    StencilInBounds(g, x, y, z, 4);
    StencilInBounds(g, x, y, z, 5);
    StencilInBounds(g, x, y, z, 6);
    StencilInBounds(g, x, y, z, 7);
    StencilInBounds(g, x, y, z, 8);
  }

  /** `value` of the kernels: the self term plus the eight STENCIL_LOOKUP terms, added in order. */
  function CellValue(g: Grid, coeff: seq<real>, prev: seq<real>, c: int): real
    requires |coeff| == COEFF_COUNT && |prev| == g.Size()
    requires 0 <= c < g.Size() && InteriorCell(g, c)
  {
    LookupsInBounds(g, c);
    var n1, d := g.n1, g.Plane();
    prev[c] * coeff[0]
      + StencilLookup(prev, coeff, c, 1, n1, d) + StencilLookup(prev, coeff, c, 2, n1, d)
      + StencilLookup(prev, coeff, c, 3, n1, d) + StencilLookup(prev, coeff, c, 4, n1, d)
      + StencilLookup(prev, coeff, c, 5, n1, d) + StencilLookup(prev, coeff, c, 6, n1, d)
      + StencilLookup(prev, coeff, c, 7, n1, d) + StencilLookup(prev, coeff, c, 8, n1, d)
  }

  /** The leapfrog write `2*prev - next + value*vel` at one cell, `cur` being what `next` held there. */
  function Leapfrog(prev: real, cur: real, value: real, vel: real): real {
    2.0 * prev - cur + value * vel
  }

  /** The new value of interior cell `c` of `next`, where `cur` is the value it holds before the write. */
  function Update(g: Grid, coeff: seq<real>, prev: seq<real>, vel: seq<real>, c: int, cur: real): real
    requires |coeff| == COEFF_COUNT && |prev| == g.Size() && |vel| == g.Size()
    requires 0 <= c < g.Size() && InteriorCell(g, c)
  {
    Leapfrog(prev[c], cur, CellValue(g, coeff, prev, c), vel[c])
  }

  /** One time step: each interior cell of `next` gets its leapfrog update, the halo keeps its value. */
  function StepAt(g: Grid, coeff: seq<real>, prev: seq<real>, vel: seq<real>, next: seq<real>, c: int): real
    requires Fields(g, coeff, prev, vel, next) && 0 <= c < g.Size()
  {
    if InteriorCell(g, c) then Update(g, coeff, prev, vel, c, next[c]) else next[c]
  }

  function Step(g: Grid, coeff: seq<real>, prev: seq<real>, vel: seq<real>, next: seq<real>): (r: seq<real>)
    requires Fields(g, coeff, prev, vel, next)
    ensures |r| == g.Size()
  {
    seq(g.Size(), c requires 0 <= c < g.Size() => StepAt(g, coeff, prev, vel, next, c))
  }

  /** The cells of `next` visited one after another in `order`, each getting its leapfrog update. */
  function ApplyInOrder(g: Grid, coeff: seq<real>, prev: seq<real>, vel: seq<real>, next: seq<real>, order: seq<int>): (r: seq<real>)
    requires Fields(g, coeff, prev, vel, next)
    requires forall k :: 0 <= k < |order| ==> 0 <= order[k] < g.Size() && InteriorCell(g, order[k])
    ensures |r| == g.Size()
    decreases |order|
  {
    if order == [] then next
    else
      var c := order[|order| - 1];
      var before := ApplyInOrder(g, coeff, prev, vel, next, order[..|order| - 1]);
      before[c := Update(g, coeff, prev, vel, c, before[c])]
  }

  /** Visiting cells in any order, each at most once, updates exactly the visited cells,
      each from its own value in `next`: an update never reads a neighbour's new value. */
  lemma {:induction false} ApplyInOrderAt(g: Grid, coeff: seq<real>, prev: seq<real>, vel: seq<real>, next: seq<real>, order: seq<int>, c: int)
    requires Fields(g, coeff, prev, vel, next)
    requires forall k :: 0 <= k < |order| ==> 0 <= order[k] < g.Size() && InteriorCell(g, order[k])
    requires forall k, k' :: 0 <= k < k' < |order| ==> order[k] != order[k']
    requires 0 <= c < g.Size()
    ensures ApplyInOrder(g, coeff, prev, vel, next, order)[c] ==
      if c in order then Update(g, coeff, prev, vel, c, next[c]) else next[c]
    decreases |order|
  {
    if order != [] {
      var front := order[..|order| - 1];
      var last := order[|order| - 1];
      ApplyInOrderAt(g, coeff, prev, vel, next, front, c);
      if c == last {
        ApplyInOrderAt(g, coeff, prev, vel, next, front, last);
        assert forall k :: 0 <= k < |front| ==> front[k] != last;
      } else {
        assert c in order <==> c in front by {
          assert order == front + [last];
        }
      }
    }
  }

  /** Order independence: any visiting order that touches every interior cell exactly once yields Step. */
  lemma AnyOrderGivesStep(g: Grid, coeff: seq<real>, prev: seq<real>, vel: seq<real>, next: seq<real>, order: seq<int>)
    requires Fields(g, coeff, prev, vel, next)
    requires forall k :: 0 <= k < |order| ==> 0 <= order[k] < g.Size() && InteriorCell(g, order[k])
    requires forall k, k' :: 0 <= k < k' < |order| ==> order[k] != order[k']
    requires forall c :: 0 <= c < g.Size() && InteriorCell(g, c) ==> c in order
    ensures ApplyInOrder(g, coeff, prev, vel, next, order) == Step(g, coeff, prev, vel, next)
  {
    var r := ApplyInOrder(g, coeff, prev, vel, next, order);
    forall c | 0 <= c < g.Size()
      ensures r[c] == Step(g, coeff, prev, vel, next)[c]
    {
      ApplyInOrderAt(g, coeff, prev, vel, next, order, c);
    }
  }

  /** The roles of the two pressure buffers at some time: `prev` holds the newest field,
      `next` the one before it (and is what the next step overwrites). */
  datatype Roles = Roles(prev: seq<real>, next: seq<real>)

  /** The roles after `k` steps that each write the `next` role and then swap the roles. */
  function Evolve(g: Grid, coeff: seq<real>, vel: seq<real>, start: Roles, k: nat): (r: Roles)
    requires Fields(g, coeff, start.prev, vel, start.next)
    ensures Fields(g, coeff, r.prev, vel, r.next)
  {
    if k == 0 then start
    else
      var r := Evolve(g, coeff, vel, start, k - 1);
      Roles(Step(g, coeff, r.prev, vel, r.next), r.prev)
  }

  /** Where the two caller buffers stand after `k` steps of a driver that alternates the buffer it
      writes: after an odd number of steps the newest field is in `nextBuf`, after an even number in `prevBuf`. */
  predicate InBuffers(nextBuf: seq<real>, prevBuf: seq<real>, r: Roles, k: nat) {
    if k % 2 == 1 then nextBuf == r.prev && prevBuf == r.next
    else prevBuf == r.prev && nextBuf == r.next
  }

  /** A half-open box of cells `[x0, x1) x [y0, y1) x [z0, z1)`. */
  datatype Box = Box(x0: int, x1: int, y0: int, y1: int, z0: int, z1: int)

  /** A non-empty box inside the interior. */
  predicate BoxInInterior(g: Grid, b: Box) {
    b.x0 < b.x1 && b.y0 < b.y1 && b.z0 < b.z1 &&
    HALF_LENGTH <= b.x0 && b.x1 <= g.n1 - HALF_LENGTH &&
    HALF_LENGTH <= b.y0 && b.y1 <= g.n2 - HALF_LENGTH &&
    HALF_LENGTH <= b.z0 && b.z1 <= g.n3 - HALF_LENGTH
  }

  predicate InBox(g: Grid, c: int, b: Box)
    requires g.Plane() > 0
  {
    b.x0 <= g.X(c) < b.x1 && b.y0 <= g.Y(c) < b.y1 && b.z0 <= g.Z(c) < b.z1
  }

  /** The blocking loops along one axis: tiles `[s, MIN(s + b, end))` for `s = start, start + b, ...` below `end`. */
  function Tiles(start: int, end: int, b: nat): seq<(int, int)>
    requires b > 0
    decreases end - start
  {
    if start >= end then [] else [(start, Min(start + b, end))] + Tiles(start + b, end, b)
  }

  /** Tile k starts at `start + k*b`, is non-empty, ends at `MIN(start + (k+1)*b, end)`,
      and the next tile starts where it ends. */
  lemma {:induction false} TilesShape(start: int, end: int, b: nat)
    requires b > 0
    ensures |Tiles(start, end, b)| == 0 <==> start >= end
    ensures forall k :: 0 <= k < |Tiles(start, end, b)| ==>
      Tiles(start, end, b)[k].0 == start + k * b &&
      Tiles(start, end, b)[k].0 < Tiles(start, end, b)[k].1 == Min(start + k * b + b, end)
    ensures forall k :: 0 <= k < |Tiles(start, end, b)| - 1 ==> Tiles(start, end, b)[k].1 == Tiles(start, end, b)[k + 1].0
    ensures |Tiles(start, end, b)| > 0 ==> Tiles(start, end, b)[|Tiles(start, end, b)| - 1].1 == end
    decreases end - start
  {
    if start < end {
      var ts := Tiles(start, end, b);
      var rest := Tiles(start + b, end, b);
      TilesShape(start + b, end, b);
      assert ts == [(start, Min(start + b, end))] + rest;
      forall k | 1 <= k < |ts|
        ensures ts[k].0 == start + k * b
      {
        assert ts[k] == rest[k - 1];
        assert start + b + (k - 1) * b == start + k * b;
      }
    }
  }

  predicate InTile(ts: seq<(int, int)>, k: int, x: int) {
    0 <= k < |ts| && ts[k].0 <= x < ts[k].1
  }

  /** Later tiles lie strictly after earlier ones, and all of them inside `[start, end)`. */
  lemma TilesOrdered(start: int, end: int, b: nat)
    requires b > 0
    ensures forall k :: 0 <= k < |Tiles(start, end, b)| ==> start <= Tiles(start, end, b)[k].0 && Tiles(start, end, b)[k].1 <= end
    ensures forall k, k' :: 0 <= k < k' < |Tiles(start, end, b)| ==> Tiles(start, end, b)[k].1 <= Tiles(start, end, b)[k'].0
  {
    var ts := Tiles(start, end, b);
    TilesShape(start, end, b);
    forall k | 0 <= k < |ts| ensures start <= ts[k].0 && ts[k].1 <= end {
      MulMono(0, k, b);
    }
    forall k, k' | 0 <= k < k' < |ts| ensures ts[k].1 <= ts[k'].0 {
      MulMono(k + 1, k', b);
      assert (k + 1) * b == k * b + b;
    }
  }

  /** The tiles partition `[start, end)`: a cell lies in some tile exactly when it is in the range, and in at most one. */
  lemma TilesPartition(start: int, end: int, b: nat, x: int)
    requires b > 0
    ensures start <= x < end <==> exists k :: InTile(Tiles(start, end, b), k, x)
    ensures forall k, k' :: InTile(Tiles(start, end, b), k, x) && InTile(Tiles(start, end, b), k', x) ==> k == k'
  {
    var ts := Tiles(start, end, b);
    TilesShape(start, end, b);
    TilesOrdered(start, end, b);
    if start <= x < end {
      // the first tile whose end passes x
      var k := 0;
      while ts[k].1 <= x
        invariant 0 <= k < |ts| && ts[k].0 <= x
        decreases |ts| - k
      {
        k := k + 1;
      }
      assert InTile(ts, k, x);
    }
  }
}
