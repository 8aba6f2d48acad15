/**
 * The flat grid both versions of the game work on. A C two-dimensional array
 * `int grid[X][Y]` is laid out row after row, so the cell `grid[x][y]` is the
 * element `x * Y + y` of one flat array, and a pointer into the grid is an
 * index into that array. Ship cells are computed from the ship's centre by
 * stepping a signed stride through this flat index space.
 */
module Board {

  datatype Option<T> = None | Some(value: T)

  /** The four cell codes the grids hold. */
  const EMPTY := 0
  const SHIP := 1
  const MISS := 2
  const HIT := 3

  /** The flat index of `grid[x][y]` in a grid whose rows hold `stride` cells. */
  function Index(x: int, y: int, stride: int): int
  {
    x * stride + y
  }

  /** The product of two non-negative numbers is non-negative. */
  lemma {:induction false} ProductNonNegative(a: int, b: int)
    requires a >= 0 && b >= 0
    ensures a * b >= 0
  {
    if a > 0 {
      ProductNonNegative(a - 1, b);
      assert a * b == (a - 1) * b + b;
    }
  }

  /** Dividing a flat index by the row length recovers its two coordinates. */
  lemma IndexDivMod(x: int, y: int, stride: int)
    requires 0 <= y < stride
    ensures Index(x, y, stride) / stride == x
    ensures Index(x, y, stride) % stride == y
  {
    var c := Index(x, y, stride);
    var q, r := c / stride, c % stride;
    assert c == q * stride + r && 0 <= r < stride;
    assert (x - q) * stride == r - y;
    if x > q {
      ProductNonNegative(x - q - 1, stride);
    } else if x < q {
      ProductNonNegative(q - x - 1, stride);
    }
  }

  /** Two cells with in-row second coordinates have the same flat index only
      if they are the same cell. */
  lemma IndexInjective(x1: int, y1: int, x2: int, y2: int, stride: int)
    requires 0 <= y1 < stride && 0 <= y2 < stride
    requires Index(x1, y1, stride) == Index(x2, y2, stride)
    ensures x1 == x2 && y1 == y2
  {
    IndexDivMod(x1, y1, stride);
    IndexDivMod(x2, y2, stride);
  }

  /** Every cell of an `sx` by `sy` grid has a flat index inside the array. */
  lemma IndexInGrid(x: int, y: int, sx: int, sy: int)
    requires 0 <= x < sx && 0 <= y < sy
    ensures 0 <= Index(x, y, sy) < sx * sy
  {
    ProductNonNegative(x, sy);
    ProductNonNegative(sx - x - 1, sy);
    assert sx * sy == x * sy + (sx - x - 1) * sy + sy;
  }

  /** The `i`-th cell of a ship whose cell number `centerIdx` sits at flat
      index `center`, laid out along `stride`: `center - (centerIdx - i) * stride`. */
  function CellAt(center: int, centerIdx: int, i: int, stride: int): int
  {
    center - (centerIdx - i) * stride
  }

  /** The cells a ship occupies are contiguous along its stride and its centre
      cell is the given centre. */
  lemma {:induction false} CellAtContiguous(center: int, centerIdx: int, i: int, stride: int)
    ensures CellAt(center, centerIdx, centerIdx, stride) == center
    ensures CellAt(center, centerIdx, i + 1, stride) == CellAt(center, centerIdx, i, stride) + stride
    ensures CellAt(center, centerIdx, i, stride) == center + (i - centerIdx) * stride
  {
    assert (centerIdx - (i + 1)) * stride == (centerIdx - i) * stride - stride;
    assert (centerIdx - i) * stride == -((i - centerIdx) * stride);
  }

  /** Distinct cell numbers of a ship with a non-zero stride are distinct cells. */
  lemma CellAtInjective(center: int, centerIdx: int, i: int, j: int, stride: int)
    requires stride != 0 && i != j
    ensures CellAt(center, centerIdx, i, stride) != CellAt(center, centerIdx, j, stride)
  {
    CellAtContiguous(center, centerIdx, i, stride);
    CellAtContiguous(center, centerIdx, j, stride);
    assert (i - centerIdx) * stride - (j - centerIdx) * stride == (i - j) * stride;
    assert (i - j) * stride != 0;
  }

  /** `after` is `before` with the cells of `ones` set to SHIP and the cells of
      `zeros` set to EMPTY, where a cell in both sets ends up as one of the two
      (which one depends on the order of the writes) and every other cell keeps
      its value. */
  ghost predicate Painted(before: seq<int>, after: seq<int>, ones: set<int>, zeros: set<int>)
  {
    |after| == |before| &&
    forall c :: 0 <= c < |after| ==>
      (c in ones && c !in zeros ==> after[c] == SHIP) &&
      (c in zeros && c !in ones ==> after[c] == EMPTY) &&
      (c in ones && c in zeros ==> after[c] == SHIP || after[c] == EMPTY) &&
      (c !in ones && c !in zeros ==> after[c] == before[c])
  }

  /** Painting is compositional: two successive paintings are one painting
      with the unions of the sets. */
  lemma PaintedCompose(g0: seq<int>, g1: seq<int>, g2: seq<int>,
                       ones1: set<int>, zeros1: set<int>, ones2: set<int>, zeros2: set<int>)
    requires Painted(g0, g1, ones1, zeros1) && Painted(g1, g2, ones2, zeros2)
    ensures Painted(g0, g2, ones1 + ones2, zeros1 + zeros2)
  {
    forall c | 0 <= c < |g2|
      ensures c in ones1 + ones2 && c !in zeros1 + zeros2 ==> g2[c] == SHIP
      ensures c in zeros1 + zeros2 && c !in ones1 + ones2 ==> g2[c] == EMPTY
      ensures c in ones1 + ones2 && c in zeros1 + zeros2 ==> g2[c] == SHIP || g2[c] == EMPTY
      ensures c !in ones1 + ones2 && c !in zeros1 + zeros2 ==> g2[c] == g0[c]
    {
    }
  }

  /** One write of SHIP, as a painting. */
  lemma PaintedMark(g: seq<int>, c: int)
    requires 0 <= c < |g|
    ensures Painted(g, g[c := SHIP], {c}, {})
  {
  }

  /** One write of SHIP over one write of EMPTY, as a painting. */
  lemma PaintedMove(g: seq<int>, old_: int, new_: int)
    requires 0 <= old_ < |g| && 0 <= new_ < |g|
    ensures Painted(g, g[old_ := EMPTY][new_ := SHIP], {new_}, {old_})
  {
  }
}
