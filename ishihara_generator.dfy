/** The circle-packing engine of `src/ishihara_generator.rs`: a coarse grid of
    distance cells over the canvas, a set of cells still open for sampling,
    and the loop that places circles and floods each one's influence through
    the grid. */
module IshiharaGenerator {
  import opened Outcomes
  import opened Roots
  import opened FloatImage

  /** An accepted circle: integer centre and radius. */
  datatype Circle = Circle(x: nat, y: nat, radius: nat)

  /** A grid cell: never reached by any circle, or the smallest distance
      from its centre to the edge of a circle seen so far (negative inside
      a circle). The Rust code stores `-1.0` for the first case. */
  datatype Value = Unset | Dist(d: real)

  /** The random draws of one iteration: the two offsets `rand::random::<f32>()`
      takes in `[0, 1)` and the raw `rand::random::<usize>()` the radius is
      reduced from. */
  type Unit = r: real | 0.0 <= r < 1.0

  datatype Draw = Draw(ox: Unit, oy: Unit, raw: nat)

  // ---------------------------------------------------------------------
  // Grid arithmetic

  /** `(n as f32 / d as f32).ceil() as usize` */
  function CeilDiv(n: nat, d: nat): (q: nat)
    requires d > 0
    ensures n <= q * d
    ensures q == 0 || (q - 1) * d < n
  {
    var r := n as real / d as real;
    var c := -((-r).Floor);
    CeilOfQuotient(n, d, c);
    c
  }

  /** The ceiling of `n / d` in the reals bounds `n` by whole multiples of
      `d`. */
  lemma CeilOfQuotient(n: nat, d: nat, c: int)
    requires d > 0 && c == -((-(n as real / d as real)).Floor)
    ensures c >= 0 && n <= c * d && (c == 0 || (c - 1) * d < n)
  {
    var r := n as real / d as real;
    var f := (-r).Floor;
    assert f as real <= -r < f as real + 1.0;
    QuotientBelow(n, d, c);
    QuotientAbove(n, d, c - 1);
  }

  lemma QuotientBelow(n: nat, d: nat, c: int)
    requires d > 0 && n as real / d as real <= c as real
    ensures n <= c * d
  {
    ScaleReal(n as real / d as real, c as real, d as real);
    IntProduct(c, d);
  }

  lemma QuotientAbove(n: nat, d: nat, c: int)
    requires d > 0 && c as real < n as real / d as real
    ensures c * d < n
  {
    ScaleRealStrict(c as real, n as real / d as real, d as real);
    IntProduct(c, d);
  }

  lemma ScaleReal(a: real, b: real, d: real)
    requires d > 0.0 && a <= b
    ensures a * d <= b * d
  {
  }

  lemma ScaleRealStrict(a: real, b: real, d: real)
    requires d > 0.0 && a < b
    ensures a * d < b * d
  {
  }

  lemma IntProduct(a: int, b: int)
    ensures (a * b) as real == a as real * b as real
  {
  }

  lemma MulLe(a: nat, b: nat, n: nat)
    requires a <= b
    ensures a * n <= b * n
  {
  }

  /** The slot of grid cell `(gx, gy)` in the row-major cell array. */
  function GridIndex(gridWidth: nat, gx: nat, gy: nat): nat
  {
    gx + gy * gridWidth
  }

  /** The cell that slot `k` holds. */
  function CellAt(gridWidth: nat, k: nat): (nat, nat)
    requires gridWidth > 0
  {
    (k % gridWidth, k / gridWidth)
  }

  predicate InGrid(gridWidth: nat, gridHeight: nat, c: (nat, nat))
  {
    c.0 < gridWidth && c.1 < gridHeight
  }

  /** Every cell of a `gridWidth × gridHeight` grid. */
  function AllCells(gridWidth: nat, gridHeight: nat): (cells: set<(nat, nat)>)
    ensures forall c :: c in cells <==> InGrid(gridWidth, gridHeight, c)
  {
    set gx: nat, gy: nat | gx < gridWidth && gy < gridHeight :: (gx, gy)
  }

  /** The slots of the cells of a grid are exactly the indices of its array,
      one slot per cell. */
  lemma GridIndexIsSlot(gridWidth: nat, gridHeight: nat, c: (nat, nat))
    requires InGrid(gridWidth, gridHeight, c)
    ensures GridIndex(gridWidth, c.0, c.1) < gridWidth * gridHeight
    ensures CellAt(gridWidth, GridIndex(gridWidth, c.0, c.1)) == c
  {
    MulLe(c.1 + 1, gridHeight, gridWidth);
    assert (c.1 + 1) * gridWidth == c.1 * gridWidth + gridWidth;
    ResidueUnique(c.0 + c.1 * gridWidth, gridWidth, c.1, c.0);
  }

  /** Each slot of the array is the slot of one cell of the grid. */
  lemma SlotIsGridIndex(gridWidth: nat, gridHeight: nat, k: nat)
    requires gridWidth > 0 && k < gridWidth * gridHeight
    ensures InGrid(gridWidth, gridHeight, CellAt(gridWidth, k))
    ensures GridIndex(gridWidth, CellAt(gridWidth, k).0, CellAt(gridWidth, k).1) == k
  {
    var gx, gy := k % gridWidth, k / gridWidth;
    assert k == gx + gy * gridWidth;
    if gy >= gridHeight {
      assert gy * gridWidth >= gridHeight * gridWidth;
    }
  }

  /** Two cells of the grid share a slot only when they are the same cell. */
  lemma GridIndexInjective(gridWidth: nat, gridHeight: nat, a: (nat, nat), b: (nat, nat))
    requires InGrid(gridWidth, gridHeight, a) && InGrid(gridWidth, gridHeight, b)
    ensures GridIndex(gridWidth, a.0, a.1) == GridIndex(gridWidth, b.0, b.1) <==> a == b
  {
    GridIndexIsSlot(gridWidth, gridHeight, a);
    GridIndexIsSlot(gridWidth, gridHeight, b);
  }

  /** The cell of a point: `(x / grid_size, y / grid_size)`. */
  function CellOf(gridSize: nat, x: nat, y: nat): (nat, nat)
    requires gridSize > 0
  {
    (x / gridSize, y / gridSize)
  }

  /** The coarse distance grid. */
  class CircleGrid {
    const width: nat
    const height: nat
    const gridWidth: nat
    const gridHeight: nat
    const gridSize: nat
    const data: array<Value>

    ghost predicate Valid()
      reads this
    {
      gridSize > 0
      && gridWidth == CeilDiv(width, gridSize) && gridHeight == CeilDiv(height, gridSize)
      && data.Length == gridWidth * gridHeight
    }

    /** `CircleGrid::new`: `ceil(width / grid_size) × ceil(height / grid_size)`
        cells, all unset. */
    constructor (width: nat, height: nat, gridSize: nat)
      requires gridSize > 0
      ensures Valid()
      ensures this.width == width && this.height == height && this.gridSize == gridSize
      ensures fresh(data)
      ensures forall k :: 0 <= k < data.Length ==> data[k] == Unset
    {
      this.width := width;
      this.height := height;
      this.gridSize := gridSize;
      var gw := CeilDiv(width, gridSize);
      var gh := CeilDiv(height, gridSize);
      gridWidth := gw;
      gridHeight := gh;
      data := new Value[gw * gh](_ => Unset);
    }

    /** `get_grid(gx, gy)` */
    function GetGrid(gx: nat, gy: nat): (v: Value)
      requires Valid() && gx < gridWidth && gy < gridHeight
      reads this, data
      ensures GridIndex(gridWidth, gx, gy) < data.Length && v == data[GridIndex(gridWidth, gx, gy)]
    {
      GridIndexIsSlot(gridWidth, gridHeight, (gx, gy));
      data[gx + gy * gridWidth]
    }

    /** `get(x, y)`: the cell holding the point `(x, y)`. */
    function Get(x: nat, y: nat): (v: Value)
      requires Valid() && InGrid(gridWidth, gridHeight, CellOf(gridSize, x, y))
      reads this, data
      ensures v == GetGrid(x / gridSize, y / gridSize)
    {
      GridIndexIsSlot(gridWidth, gridHeight, CellOf(gridSize, x, y));
      data[x / gridSize + (y / gridSize) * gridWidth]
    }

    /** `set_grid(gx, gy, value)`: only the slot of `(gx, gy)` changes. */
    method SetGrid(gx: nat, gy: nat, value: Value)
      requires Valid() && gx < gridWidth && gy < gridHeight
      modifies data
      ensures GridIndex(gridWidth, gx, gy) < data.Length
      ensures data[..] == old(data[..])[GridIndex(gridWidth, gx, gy) := value]
    {
      GridIndexIsSlot(gridWidth, gridHeight, (gx, gy));
      data[gx + gy * gridWidth] := value;
    }

    /** `set(x, y, value)`: only the slot of the cell holding `(x, y)`
        changes, so every point of that cell reads `value` afterwards
        (`SameCellSameSlot`). */
    method Set(x: nat, y: nat, value: Value)
      requires Valid() && InGrid(gridWidth, gridHeight, CellOf(gridSize, x, y))
      modifies data
      ensures GridIndex(gridWidth, x / gridSize, y / gridSize) < data.Length
      ensures data[..] == old(data[..])[GridIndex(gridWidth, x / gridSize, y / gridSize) := value]
      ensures forall x': nat, y': nat :: CellOf(gridSize, x', y') == CellOf(gridSize, x, y) ==> Get(x', y') == value
      ensures forall x': nat, y': nat ::
                InGrid(gridWidth, gridHeight, CellOf(gridSize, x', y')) && CellOf(gridSize, x', y') != CellOf(gridSize, x, y)
                ==> Get(x', y') == old(Get(x', y'))
    {
      GridIndexIsSlot(gridWidth, gridHeight, CellOf(gridSize, x, y));
      data[x / gridSize + (y / gridSize) * gridWidth] := value;
      forall x': nat, y': nat | InGrid(gridWidth, gridHeight, CellOf(gridSize, x', y'))
        ensures Get(x', y') == if CellOf(gridSize, x', y') == CellOf(gridSize, x, y) then value else old(Get(x', y'))
      {
        SameCellSameSlot(gridWidth, gridHeight, gridSize, x, y, x', y');
      }
    }
  }

  /** Two points of the grid address the same slot exactly when they lie in
      the same cell. */
  lemma SameCellSameSlot(gridWidth: nat, gridHeight: nat, gridSize: nat, x: nat, y: nat, x': nat, y': nat)
    requires gridSize > 0
    requires InGrid(gridWidth, gridHeight, CellOf(gridSize, x, y))
    requires InGrid(gridWidth, gridHeight, CellOf(gridSize, x', y'))
    ensures GridIndex(gridWidth, x / gridSize, y / gridSize) == GridIndex(gridWidth, x' / gridSize, y' / gridSize)
        <==> x / gridSize == x' / gridSize && y / gridSize == y' / gridSize
  {
    GridIndexInjective(gridWidth, gridHeight, CellOf(gridSize, x, y), CellOf(gridSize, x', y'));
  }

  // ---------------------------------------------------------------------
  // pick_point

  /** `((g as f32 + o) * grid_size as f32) as usize` */
  function Scaled(g: nat, o: Unit, gridSize: nat): (v: nat)
    requires gridSize > 0
    ensures g * gridSize <= v < (g + 1) * gridSize
  {
    var r := (g as real + o) * gridSize as real;
    OffsetInCell(g, o, gridSize);
    FloorBetween(r, g * gridSize, (g + 1) * gridSize);
    r.Floor
  }

  lemma OffsetInCell(g: nat, o: Unit, gridSize: nat)
    requires gridSize > 0
    ensures (g * gridSize) as real <= (g as real + o) * gridSize as real < ((g + 1) * gridSize) as real
  {
    ScaleReal(g as real, g as real + o, gridSize as real);
    ScaleRealStrict(g as real + o, (g + 1) as real, gridSize as real);
    IntProduct(g, gridSize);
    IntProduct(g + 1, gridSize);
  }

  lemma FloorBetween(r: real, lo: int, hi: int)
    requires lo as real <= r < hi as real
    ensures lo <= r.Floor < hi
  {
  }

  /** The point `pick_point` places in cell `c` for the offsets of `draw`. */
  function PointIn(c: (nat, nat), draw: Draw, gridSize: nat): (p: (nat, nat))
    requires gridSize > 0
    ensures CellOf(gridSize, p.0, p.1) == c
  {
    var x, y := Scaled(c.0, draw.ox, gridSize), Scaled(c.1, draw.oy, gridSize);
    ResidueUnique(x, gridSize, c.0, x - c.0 * gridSize);
    ResidueUnique(y, gridSize, c.1, y - c.1 * gridSize);
    (x, y)
  }

  /** `pick_point`: some available cell (the Rust code takes the element at
      a random position of the `HashSet`'s iteration order) and a point
      inside it. */
  method PickPoint(grid: CircleGrid, available: set<(nat, nat)>, draw: Draw) returns (x: nat, y: nat, ghost c: (nat, nat))
    requires grid.Valid() && available != {}
    ensures c in available && (x, y) == PointIn(c, draw, grid.gridSize)
    ensures c.0 * grid.gridSize <= x < (c.0 + 1) * grid.gridSize
    ensures c.1 * grid.gridSize <= y < (c.1 + 1) * grid.gridSize
  {
    var g :| g in available;
    c := g;
    var p := PointIn(g, draw, grid.gridSize);
    x, y := p.0, p.1;
  }

  // ---------------------------------------------------------------------
  // The radius of a new circle

  /** `v as usize` on an `f32`: negative values saturate to 0, the rest
      truncate. */
  function ToUsize(v: real): (n: nat)
    ensures v >= 0.0 ==> n as real <= v < n as real + 1.0
    ensures v < 0.0 ==> n == 0
  {
    if v < 0.0 then 0 else v.Floor
  }

  /** The radius ceiling `max` at a point whose cell holds `cell`:
      `max_radius` where no circle reached it, `dist as usize - padding`
      otherwise; that subtraction underflows below zero. */
  function Ceiling(cell: Value, maxRadius: nat, padding: nat): (r: Result<nat>)
    ensures cell.Unset? ==> r == Ok(maxRadius)
    ensures cell.Dist? ==> (r.Ok? <==> ToUsize(cell.d) >= padding)
    ensures cell.Dist? && r.Ok? ==> r.value + padding == ToUsize(cell.d)
    ensures r.Err? ==> r.panic == UsizeUnderflow
  {
    if cell.Unset? then Ok(maxRadius)
    else if ToUsize(cell.d) < padding then Err(UsizeUnderflow)
    else Ok(ToUsize(cell.d) - padding)
  }

  /** `raw % (max - min_radius) + min_radius`: a radius in
      `[min_radius, max)`, or the panic of `max - min_radius` underflowing
      or of a modulo by zero. */
  function PickRadius(raw: nat, max: nat, minRadius: nat): (r: Result<nat>)
    ensures r.Ok? <==> max > minRadius
    ensures r.Ok? ==> minRadius <= r.value < max
    ensures max < minRadius ==> r == Err(UsizeUnderflow)
    ensures max == minRadius ==> r == Err(ModuloByZero)
  {
    if max < minRadius then Err(UsizeUnderflow)
    else if max == minRadius then Err(ModuloByZero)
    else Ok(raw % (max - minRadius) + minRadius)
  }

  // ---------------------------------------------------------------------
  // Propagation of a new circle through the grid

  /** `((g as f32 + 0.5) * grid_size as f32) as i32`: the centre of column
      (or row) `g` of the grid. */
  function Centre(g: nat, gridSize: nat): (v: nat)
    requires gridSize > 0
    ensures g * gridSize <= v < (g + 1) * gridSize
  {
    var r := (g as real + 0.5) * gridSize as real;
    OffsetInCell(g, 0.5, gridSize);
    FloorBetween(r, g * gridSize, (g + 1) * gridSize);
    r.Floor
  }

  /** The squared distance, in whole pixels, from the circle's centre to the
      centre of `cell`; it is 0 exactly when the two coincide. */
  function Gap(gridSize: nat, c: Circle, cell: (nat, nat)): (g: nat)
    requires gridSize > 0
    ensures g == 0 <==> c.x == Centre(cell.0, gridSize) && c.y == Centre(cell.1, gridSize)
  {
    var dx, dy := c.x - Centre(cell.0, gridSize), c.y - Centre(cell.1, gridSize);
    SumOfSquaresZero(dx, dy);
    dx * dx + dy * dy
  }

  lemma SumOfSquaresZero(dx: int, dy: int)
    ensures dx * dx + dy * dy >= 0
    ensures dx * dx + dy * dy == 0 <==> dx == 0 && dy == 0
  {
    if dx != 0 {
      assert dx * dx > 0;
    }
    if dy != 0 {
      assert dy * dy > 0;
    }
  }

  /** The signed distance from the centre of `cell` to the circle's edge. */
  function Influence(sqrt: nat -> real, gridSize: nat, c: Circle, cell: (nat, nat)): real
    requires gridSize > 0
  {
    sqrt(Gap(gridSize, c, cell)) - c.radius as real
  }

  /** A cell lies within `k` of the circle's edge exactly when its centre
      lies within `radius + k` of the circle's centre; for `k = 0`, inside
      the circle. */
  lemma InfluenceWithin(sqrt: nat -> real, gridSize: nat, c: Circle, cell: (nat, nat), k: nat)
    requires RootLaw(sqrt) && gridSize > 0
    ensures Influence(sqrt, gridSize, c, cell) <= k as real <==> Gap(gridSize, c, cell) <= (c.radius + k) * (c.radius + k)
    ensures Influence(sqrt, gridSize, c, cell) < k as real <==> Gap(gridSize, c, cell) < (c.radius + k) * (c.radius + k)
  {
    RootAtMost(sqrt, Gap(gridSize, c, cell), c.radius + k);
    RootBelow(sqrt, Gap(gridSize, c, cell), c.radius + k);
  }

  /** The stored value after a visit at distance `d`: the Rust code replaces
      it when it is unset or `d` is strictly smaller. */
  function Tighten(v: Value, d: real): (t: Value)
    ensures t.Dist? && (v.Dist? ==> t.d <= v.d) && t.d <= d
    ensures t == v || t == Dist(d)
  {
    if v.Unset? || d < v.d then Dist(d) else v
  }

  /** The cell values after visiting the cells `visited`: each visited cell
      whose distance is at most `reach` is tightened; every other cell keeps
      its value. */
  function Spread(s: seq<Value>, gridWidth: nat, visited: set<(nat, nat)>,
                  sqrt: nat -> real, gridSize: nat, c: Circle, reach: nat): (t: seq<Value>)
    requires gridWidth > 0 && gridSize > 0
    ensures |t| == |s|
  {
    seq(|s|, k requires 0 <= k < |s| =>
      var cell := CellAt(gridWidth, k);
      var d := Influence(sqrt, gridSize, c, cell);
      if cell in visited && d <= reach as real then Tighten(s[k], d) else s[k])
  }

  /** The visited cells that the circle takes out of sampling: reached, and
      nearer than `room`. */
  function Evicted(visited: set<(nat, nat)>, sqrt: nat -> real, gridSize: nat, c: Circle,
                   reach: nat, room: nat): (e: set<(nat, nat)>)
    requires gridSize > 0
    ensures e <= visited
  {
    set cell | cell in visited && Influence(sqrt, gridSize, c, cell) <= reach as real
                               && Influence(sqrt, gridSize, c, cell) < room as real
  }

  /** The in-bounds 4-neighbours of `cell`, in the order the Rust code
      pushes them: right, down, left, up. */
  function Neighbours(cell: (nat, nat), gridWidth: nat, gridHeight: nat): (ns: seq<(nat, nat)>)
    requires InGrid(gridWidth, gridHeight, cell)
    ensures forall n :: n in ns <==>
      InGrid(gridWidth, gridHeight, n)
      && (n == (cell.0 + 1, cell.1) || n == (cell.0, cell.1 + 1)
          || (cell.0 > 0 && n == (cell.0 - 1, cell.1)) || (cell.1 > 0 && n == (cell.0, cell.1 - 1)))
  {
    (if cell.0 + 1 < gridWidth then [(cell.0 + 1, cell.1)] else [])
    + (if cell.1 + 1 < gridHeight then [(cell.0, cell.1 + 1)] else [])
    + (if cell.0 > 0 then [(cell.0 - 1, cell.1)] else [])
    + (if cell.1 > 0 then [(cell.0, cell.1 - 1)] else [])
  }

  /** Visiting one more cell updates only its own slot. */
  lemma SpreadVisit(s: seq<Value>, gridWidth: nat, gridHeight: nat, visited: set<(nat, nat)>,
                    sqrt: nat -> real, gridSize: nat, c: Circle, reach: nat, p: (nat, nat))
    requires gridWidth > 0 && gridSize > 0 && |s| == gridWidth * gridHeight
    requires InGrid(gridWidth, gridHeight, p) && p !in visited
    ensures GridIndex(gridWidth, p.0, p.1) < |s|
    ensures Spread(s, gridWidth, visited, sqrt, gridSize, c, reach)[GridIndex(gridWidth, p.0, p.1)]
         == s[GridIndex(gridWidth, p.0, p.1)]
    ensures var k, d := GridIndex(gridWidth, p.0, p.1), Influence(sqrt, gridSize, c, p);
      Spread(s, gridWidth, visited + {p}, sqrt, gridSize, c, reach)
      == Spread(s, gridWidth, visited, sqrt, gridSize, c, reach)[k := if d <= reach as real then Tighten(s[k], d) else s[k]]
  {
    var k := GridIndex(gridWidth, p.0, p.1);
    GridIndexIsSlot(gridWidth, gridHeight, p);
    var before := Spread(s, gridWidth, visited, sqrt, gridSize, c, reach);
    var after := Spread(s, gridWidth, visited + {p}, sqrt, gridSize, c, reach);
    forall m | 0 <= m < |s| && m != k
      ensures after[m] == before[m]
    {
      SlotIsGridIndex(gridWidth, gridHeight, m);
    }
  }

  /** The pushes of lines 132-143: the neighbours of `p` that lie in the
      grid. */
  method Queue(p: (nat, nat), gridWidth: nat, gridHeight: nat) returns (pushed: seq<(nat, nat)>)
    requires InGrid(gridWidth, gridHeight, p)
    ensures pushed == Neighbours(p, gridWidth, gridHeight)
  {
    pushed := [];
    if p.0 + 1 < gridWidth {
      pushed := pushed + [(p.0 + 1, p.1)];
    }
    if p.1 + 1 < gridHeight {
      pushed := pushed + [(p.0, p.1 + 1)];
    }
    if p.0 > 0 {
      pushed := pushed + [(p.0 - 1, p.1)];
    }
    if p.1 > 0 {
      pushed := pushed + [(p.0, p.1 - 1)];
    }
  }

  /** One visit of the flood, lines 119-149: compute the cell's distance;
      within `reach` tighten its value, queue its neighbours, and evict it
      when it is nearer than `room`. */
  method Visit(grid: CircleGrid, c: Circle, p: (nat, nat), reach: nat, room: nat, sqrt: nat -> real,
               ghost s0: seq<Value>, ghost visited: set<(nat, nat)>, available: set<(nat, nat)>)
    returns (available': set<(nat, nat)>, pushed: seq<(nat, nat)>)
    requires grid.Valid() && InGrid(grid.gridWidth, grid.gridHeight, p) && p !in visited
    requires |s0| == grid.data.Length
    requires grid.data[..] == Spread(s0, grid.gridWidth, visited, sqrt, grid.gridSize, c, reach)
    modifies grid.data
    ensures grid.data[..] == Spread(s0, grid.gridWidth, visited + {p}, sqrt, grid.gridSize, c, reach)
    ensures var d := Influence(sqrt, grid.gridSize, c, p);
      available' == (if d <= reach as real && d < room as real then available - {p} else available)
      && pushed == (if d <= reach as real then Neighbours(p, grid.gridWidth, grid.gridHeight) else [])
  {
    SpreadVisit(s0, grid.gridWidth, grid.gridHeight, visited, sqrt, grid.gridSize, c, reach, p);
    var dist := Influence(sqrt, grid.gridSize, c, p);
    available' := available;
    pushed := [];
    if dist <= reach as real {
      var v := grid.GetGrid(p.0, p.1);
      if v.Unset? || dist < v.d {
        grid.SetGrid(p.0, p.1, Dist(dist));
      }
      pushed := Queue(p, grid.gridWidth, grid.gridHeight);
      if dist < room as real {
        available' := available' - {p};
      }
    }
  }

  /** Every reached cell among `visited` has each neighbour visited or
      still queued. */
  ghost predicate Frontier(visited: set<(nat, nat)>, q: seq<(nat, nat)>, sqrt: nat -> real, gridSize: nat,
                           c: Circle, reach: nat, gridWidth: nat, gridHeight: nat)
    requires gridSize > 0
  {
    forall cell, n :: cell in visited && InGrid(gridWidth, gridHeight, cell)
      && Influence(sqrt, gridSize, c, cell) <= reach as real && n in Neighbours(cell, gridWidth, gridHeight)
      ==> n in visited || n in q
  }

  /** Popping a cell that was already visited keeps the frontier. */
  lemma FrontierSkip(visited: set<(nat, nat)>, rest: seq<(nat, nat)>, p: (nat, nat), sqrt: nat -> real,
                     gridSize: nat, c: Circle, reach: nat, gridWidth: nat, gridHeight: nat)
    requires gridSize > 0 && p in visited
    requires Frontier(visited, rest + [p], sqrt, gridSize, c, reach, gridWidth, gridHeight)
    ensures Frontier(visited, rest, sqrt, gridSize, c, reach, gridWidth, gridHeight)
  {
    forall cell, n | cell in visited && InGrid(gridWidth, gridHeight, cell)
      && Influence(sqrt, gridSize, c, cell) <= reach as real && n in Neighbours(cell, gridWidth, gridHeight)
      ensures n in visited || n in rest
    {
      assert n in visited || n in rest + [p];
    }
  }

  /** Visiting a popped cell and queueing its neighbours when it is reached
      keeps the frontier. */
  lemma FrontierVisit(visited: set<(nat, nat)>, rest: seq<(nat, nat)>, p: (nat, nat), pushed: seq<(nat, nat)>,
                      sqrt: nat -> real, gridSize: nat, c: Circle, reach: nat, gridWidth: nat, gridHeight: nat)
    requires gridSize > 0 && InGrid(gridWidth, gridHeight, p)
    requires Frontier(visited, rest + [p], sqrt, gridSize, c, reach, gridWidth, gridHeight)
    requires pushed == if Influence(sqrt, gridSize, c, p) <= reach as real then Neighbours(p, gridWidth, gridHeight) else []
    ensures Frontier(visited + {p}, rest + pushed, sqrt, gridSize, c, reach, gridWidth, gridHeight)
  {
    forall cell, n | cell in visited + {p} && InGrid(gridWidth, gridHeight, cell)
      && Influence(sqrt, gridSize, c, cell) <= reach as real && n in Neighbours(cell, gridWidth, gridHeight)
      ensures n in visited + {p} || n in rest + pushed
    {
      if cell != p {
        assert n in visited || n in rest + [p];
      }
    }
  }

  /** The flood of lines 111-151 from the cell of the new circle's centre:
      a stack of cells, each processed once. Afterwards the grid holds
      `Spread` over the visited cells, the evicted cells have left the
      available set, and the visited region is closed: every reached cell
      has all its neighbours visited. */
  method Propagate(grid: CircleGrid, available: set<(nat, nat)>, c: Circle, reach: nat, room: nat, sqrt: nat -> real)
    returns (available': set<(nat, nat)>, visited: set<(nat, nat)>)
    requires grid.Valid() && InGrid(grid.gridWidth, grid.gridHeight, CellOf(grid.gridSize, c.x, c.y))
    modifies grid.data
    ensures visited <= AllCells(grid.gridWidth, grid.gridHeight)
    ensures CellOf(grid.gridSize, c.x, c.y) in visited
    ensures grid.data[..] == Spread(old(grid.data[..]), grid.gridWidth, visited, sqrt, grid.gridSize, c, reach)
    ensures available' == available - Evicted(visited, sqrt, grid.gridSize, c, reach, room)
    ensures Frontier(visited, [], sqrt, grid.gridSize, c, reach, grid.gridWidth, grid.gridHeight)
  {
    var gw, gh, gs := grid.gridWidth, grid.gridHeight, grid.gridSize;
    var start := CellOf(gs, c.x, c.y);
    ghost var s0 := grid.data[..];
    assert Spread(s0, gw, {}, sqrt, gs, c, reach) == s0;
    available' := available;
    visited := {};
    var q := [start];
    while |q| > 0
      invariant visited <= AllCells(gw, gh) && forall n :: n in q ==> InGrid(gw, gh, n)
      invariant start in visited || (visited == {} && q == [start])
      invariant grid.data[..] == Spread(s0, gw, visited, sqrt, gs, c, reach)
      invariant available' == available - Evicted(visited, sqrt, gs, c, reach, room)
      invariant Frontier(visited, q, sqrt, gs, c, reach, gw, gh)
      decreases AllCells(gw, gh) - visited, |q|
    {
      ghost var q0 := q;
      var p := q[|q| - 1];
      q := q[..|q| - 1];
      assert q + [p] == q0;
      if p !in visited {
        var pushed;
        ghost var e := Evicted(visited, sqrt, gs, c, reach, room);
        available', pushed := Visit(grid, c, p, reach, room, sqrt, s0, visited, available');
        FrontierVisit(visited, q, p, pushed, sqrt, gs, c, reach, gw, gh);
        visited := visited + {p};
        q := q + pushed;
        assert Evicted(visited, sqrt, gs, c, reach, room)
            == e + (Evicted(visited, sqrt, gs, c, reach, room) * {p});
      } else {
        FrontierSkip(visited, q, p, sqrt, gs, c, reach, gw, gh);
      }
    }
  }

  // ---------------------------------------------------------------------
  // The `-1.0` sentinel

  /** The `f32` the Rust grid holds for a cell: `-1.0` for a cell never
      reached, the distance otherwise. */
  function Stored(v: Value): real
  {
    match v
    case Unset => -1.0
    case Dist(d) => d
  }

  /** Lines 128-130 as written, on stored values: replace the stored value
      when it equals the sentinel or the new distance is smaller. */
  function UpdateAsWritten(stored: real, dist: real): real
  {
    if stored == -1.0 || dist < stored then dist else stored
  }

  /** As long as no real distance equals the sentinel, the update as
      written is `Tighten` read through `Stored`. */
  lemma UpdateAsWrittenAgrees(v: Value, dist: real)
    requires v.Dist? ==> v.d != -1.0
    ensures UpdateAsWritten(Stored(v), dist) == Stored(Tighten(v, dist))
  {
  }

  /** A cell whose true distance is exactly `-1.0` reads as never reached:
      a later, farther circle overwrites it with a larger distance, where
      `Tighten` keeps the minimum. */
  lemma SentinelLoosens()
    ensures Stored(Dist(-1.0)) == Stored(Unset)
    ensures UpdateAsWritten(Stored(Dist(-1.0)), 5.0) == 5.0
    ensures Tighten(Dist(-1.0), 5.0) == Dist(-1.0)
  {
  }

  /** The distance `-1.0` occurs: with `min_radius` 10 the cells are 5
      pixels wide, and a circle of radius 10 centred at (11, 2) lies exactly
      9 pixels from the centre (2, 2) of cell (0, 0). */
  lemma SentinelDistanceOccurs()
    ensures Influence(HalfStepRoot, 5, Circle(11, 2, 10), (0, 0)) == -1.0
  {
    assert Centre(0, 5) == 2;
    assert Gap(5, Circle(11, 2, 10), (0, 0)) == 81;
    assert CeilRootFrom(81, 9) == 9;
    assert CeilRootFrom(81, 5) == CeilRootFrom(81, 6) == CeilRootFrom(81, 7) == CeilRootFrom(81, 8) == 9;
    assert CeilRootFrom(81, 0) == CeilRootFrom(81, 1) == CeilRootFrom(81, 2) == CeilRootFrom(81, 3)
        == CeilRootFrom(81, 4) == CeilRootFrom(81, 5);
    assert CeilRoot(81) == 9;
  }

  // ---------------------------------------------------------------------
  // What propagation preserves

  /** Slot `k` of a grid holds a distance no smaller than the one in `t`'s
      slot: every value of `t` is at least as tight as `s`'s. */
  predicate Tighter(t: seq<Value>, s: seq<Value>)
  {
    |t| == |s| && forall k :: 0 <= k < |s| && s[k].Dist? ==> t[k].Dist? && t[k].d <= s[k].d
  }

  /** Every stored distance is at most `reach`. */
  predicate Bounded(s: seq<Value>, reach: nat)
  {
    forall k :: 0 <= k < |s| && s[k].Dist? ==> s[k].d <= reach as real
  }

  /** Cell `cell` has room for the smallest circle: unset, or at least
      `room` from every circle placed so far. */
  predicate Open(s: seq<Value>, gridWidth: nat, cell: (nat, nat), room: nat)
  {
    var k := GridIndex(gridWidth, cell.0, cell.1);
    k < |s| && (s[k].Unset? || s[k].d >= room as real)
  }

  /** Every available cell lies in the grid and is open. */
  predicate Roomy(s: seq<Value>, gridWidth: nat, gridHeight: nat, available: set<(nat, nat)>, room: nat)
  {
    forall cell :: cell in available ==> InGrid(gridWidth, gridHeight, cell) && Open(s, gridWidth, cell, room)
  }

  /** Distances only ever tighten. */
  lemma SpreadTightens(s: seq<Value>, gridWidth: nat, visited: set<(nat, nat)>,
                       sqrt: nat -> real, gridSize: nat, c: Circle, reach: nat)
    requires gridWidth > 0 && gridSize > 0
    ensures Tighter(Spread(s, gridWidth, visited, sqrt, gridSize, c, reach), s)
  {
    var t := Spread(s, gridWidth, visited, sqrt, gridSize, c, reach);
    forall k | 0 <= k < |s| && s[k].Dist?
      ensures t[k].Dist? && t[k].d <= s[k].d
    {
    }
  }

  /** Only distances up to `reach` are ever stored. */
  lemma SpreadBounded(s: seq<Value>, gridWidth: nat, visited: set<(nat, nat)>,
                      sqrt: nat -> real, gridSize: nat, c: Circle, reach: nat)
    requires gridWidth > 0 && gridSize > 0 && Bounded(s, reach)
    ensures Bounded(Spread(s, gridWidth, visited, sqrt, gridSize, c, reach), reach)
  {
    var t := Spread(s, gridWidth, visited, sqrt, gridSize, c, reach);
    forall k | 0 <= k < |t| && t[k].Dist?
      ensures t[k].d <= reach as real
    {
    }
  }

  /** A cell that stays available after propagation is still open: a visit
      that stores a distance below `room` evicts the cell. */
  lemma SpreadKeepsRoom(s: seq<Value>, gridWidth: nat, gridHeight: nat, available: set<(nat, nat)>,
                        visited: set<(nat, nat)>, sqrt: nat -> real, gridSize: nat, c: Circle, reach: nat, room: nat)
    requires gridWidth > 0 && gridSize > 0 && |s| == gridWidth * gridHeight
    requires Roomy(s, gridWidth, gridHeight, available, room)
    ensures Roomy(Spread(s, gridWidth, visited, sqrt, gridSize, c, reach), gridWidth, gridHeight,
                  available - Evicted(visited, sqrt, gridSize, c, reach, room), room)
  {
    var t := Spread(s, gridWidth, visited, sqrt, gridSize, c, reach);
    forall cell | cell in available - Evicted(visited, sqrt, gridSize, c, reach, room)
      ensures Open(t, gridWidth, cell, room)
    {
      GridIndexIsSlot(gridWidth, gridHeight, cell);
    }
  }

  /** The cell of the new circle's centre lies inside the circle, since the
      centre is less than a cell away from the cell's centre and the radius
      spans at least two cells. */
  lemma StartInside(sqrt: nat -> real, gridSize: nat, c: Circle)
    requires RootLaw(sqrt) && gridSize > 0 && c.radius >= 2 * gridSize
    ensures Influence(sqrt, gridSize, c, CellOf(gridSize, c.x, c.y)) < 0.0
  {
    var cell := CellOf(gridSize, c.x, c.y);
    var g2 := gridSize * gridSize;
    NearCentre(c.x, gridSize);
    NearCentre(c.y, gridSize);
    assert Gap(gridSize, c, cell) < 2 * g2;
    SquareMonotone(2 * gridSize, c.radius);
    assert 2 * gridSize * (2 * gridSize) == 4 * g2;
    RootBelow(sqrt, Gap(gridSize, c, cell), c.radius);
  }

  /** A coordinate lies less than a cell away from the centre of its cell. */
  lemma NearCentre(v: nat, gridSize: nat)
    requires gridSize > 0
    ensures var d: int := v - Centre(v / gridSize, gridSize); d * d < gridSize * gridSize
  {
    var g := v / gridSize;
    assert v == g * gridSize + v % gridSize;
    assert (g + 1) * gridSize == g * gridSize + gridSize;
    var d: int := v - Centre(g, gridSize);
    assert d + gridSize > 0 && d < gridSize;
    if d >= 0 {
      SquareMonotone(d, gridSize);
    } else {
      SquareMonotone(-d, gridSize);
    }
  }

  // ---------------------------------------------------------------------
  // generate_circles

  /** `std::f32::consts::PI`, as the `f32` value it denotes. */
  const PI: real := 3.1415927410125732

  /** The cells of column `gx` with row below `rows`. */
  function Column(gx: nat, rows: nat): set<(nat, nat)>
  {
    set gy: nat | gy < rows :: (gx, gy)
  }

  /** Lines 85-91: every cell of the grid, inserted column by column. */
  method AllSpaces(gridWidth: nat, gridHeight: nat) returns (spaces: set<(nat, nat)>)
    ensures spaces == AllCells(gridWidth, gridHeight)
  {
    spaces := {};
    for x := 0 to gridWidth
      invariant spaces == AllCells(x, gridHeight)
    {
      for y := 0 to gridHeight
        invariant spaces == AllCells(x, gridHeight) + Column(x, y)
      {
        spaces := spaces + {(x, y)};
        assert Column(x, y + 1) == Column(x, y) + {(x, y)};
      }
      assert AllCells(x + 1, gridHeight) == AllCells(x, gridHeight) + Column(x, gridHeight);
    }
  }

  /** A subset has no more elements than its superset. */
  lemma SubsetNoLarger<T>(small: set<T>, large: set<T>)
    requires small <= large
    ensures |small| <= |large|
  {
    assert large == small + (large - small);
  }

  /** One round of lines 94-151: sample a point of an available cell, take
      the room stored there as the largest radius, draw a radius below it,
      and propagate the new circle. The round panics exactly when
      `max_radius <= min_radius`, because an available cell that holds a
      distance has room for a radius above `min_radius`; otherwise it
      takes at least the sampled cell out of the available set and keeps
      every remaining cell open. */
  method PlaceCircle(grid: CircleGrid, available: set<(nat, nat)>, draw: Draw,
                     minRadius: nat, maxRadius: nat, padding: nat, sqrt: nat -> real)
    returns (r: Result<Circle>, available': set<(nat, nat)>, ghost cell: (nat, nat), ghost visited: set<(nat, nat)>)
    requires grid.Valid() && grid.gridSize == minRadius / 2 && minRadius >= 2 && RootLaw(sqrt)
    requires available != {}
    requires Roomy(grid.data[..], grid.gridWidth, grid.gridHeight, available, minRadius + padding + 1)
    requires Bounded(grid.data[..], maxRadius + padding)
    modifies grid.data
    ensures r.Err? <==> maxRadius <= minRadius
    ensures r.Err? ==> r.panic == (if maxRadius < minRadius then UsizeUnderflow else ModuloByZero)
    ensures r.Ok? ==> cell in available && (r.value.x, r.value.y) == PointIn(cell, draw, grid.gridSize)
    ensures r.Ok? ==> minRadius <= r.value.radius < maxRadius
    ensures available' <= available && (r.Ok? ==> |available'| < |available|)
    ensures r.Ok? ==> Roomy(grid.data[..], grid.gridWidth, grid.gridHeight, available', minRadius + padding + 1)
    ensures r.Ok? ==> Bounded(grid.data[..], maxRadius + padding)
    ensures r.Ok? ==> Round(r.value, cell, old(grid.data[..]), grid.data[..], visited, draw, grid.gridWidth, grid.gridHeight,
                            grid.gridSize, minRadius, maxRadius, padding, sqrt)
    ensures r.Ok? ==> (cell !in available' &&
                       available' == available - Evicted(visited, sqrt, grid.gridSize, r.value, maxRadius + padding,
                                                         minRadius + padding + 1))
    ensures r.Err? ==> grid.data[..] == old(grid.data[..]) && available' == available
  {
    var gw, gh, gs := grid.gridWidth, grid.gridHeight, grid.gridSize;
    var reach, room := maxRadius + padding, minRadius + padding + 1;
    r, cell := NewCircle(grid, available, draw, minRadius, maxRadius, padding);
    if r.Err? {
      return r, available, cell, {};
    }
    ghost var s := grid.data[..];
    available', visited := Flood(grid, available, r.value, reach, room, sqrt, cell);
    assert Round(r.value, cell, s, grid.data[..], visited, draw, gw, gh, gs, minRadius, maxRadius, padding, sqrt);
  }

  /** Lines 94-109 of a round: sample a point of an available cell, take the
      room stored there as the largest radius and draw a radius below it.
      An open cell that holds a distance holds at least
      `min_radius + padding + 1`, so the subtraction of line 105 never
      underflows and the ceiling exceeds `min_radius`; the round panics
      exactly when `max_radius <= min_radius`. */
  method NewCircle(grid: CircleGrid, available: set<(nat, nat)>, draw: Draw,
                   minRadius: nat, maxRadius: nat, padding: nat)
    returns (r: Result<Circle>, ghost cell: (nat, nat))
    requires grid.Valid() && available != {}
    requires Roomy(grid.data[..], grid.gridWidth, grid.gridHeight, available, minRadius + padding + 1)
    requires Bounded(grid.data[..], maxRadius + padding)
    ensures r.Err? <==> maxRadius <= minRadius
    ensures r.Err? ==> r.panic == (if maxRadius < minRadius then UsizeUnderflow else ModuloByZero)
    ensures cell in available && InGrid(grid.gridWidth, grid.gridHeight, cell)
    ensures r.Ok? ==> (r.value.x, r.value.y) == PointIn(cell, draw, grid.gridSize)
    ensures r.Ok? ==> minRadius <= r.value.radius < maxRadius
    ensures GridIndex(grid.gridWidth, cell.0, cell.1) < grid.data.Length
    ensures r.Ok? ==> (var ceiling := Ceiling(grid.data[GridIndex(grid.gridWidth, cell.0, cell.1)], maxRadius, padding);
                       ceiling.Ok? && PickRadius(draw.raw, ceiling.value, minRadius) == Ok(r.value.radius))
  {
    var gw := grid.gridWidth;
    var reach, room := maxRadius + padding, minRadius + padding + 1;
    var x, y, c := PickPoint(grid, available, draw);
    cell := c;
    var dist := grid.Get(x, y);
    assert dist == grid.data[GridIndex(gw, cell.0, cell.1)];
    assert dist.Dist? ==> room as real <= dist.d <= reach as real;
    var max := Ceiling(dist, maxRadius, padding);
    assert max.Ok?;
    assert max.value <= maxRadius && (dist.Unset? || max.value > minRadius);
    var radius := PickRadius(draw.raw, max.value, minRadius);
    if radius.Err? {
      return Err(radius.panic), cell;
    }
    r := Ok(Circle(x, y, radius.value));
  }

  /** The propagation of a circle whose centre lies in the open cell
      `cell`: the grid becomes `Spread` over the flooded cells, the open
      set loses the evicted ones, among them `cell`, and every cell still
      open keeps its room. */
  method Flood(grid: CircleGrid, available: set<(nat, nat)>, c: Circle, reach: nat, room: nat, sqrt: nat -> real,
               ghost cell: (nat, nat))
    returns (available': set<(nat, nat)>, ghost visited: set<(nat, nat)>)
    requires grid.Valid() && RootLaw(sqrt) && c.radius >= 2 * grid.gridSize && room > 0
    requires Roomy(grid.data[..], grid.gridWidth, grid.gridHeight, available, room) && Bounded(grid.data[..], reach)
    requires cell in available && cell == CellOf(grid.gridSize, c.x, c.y)
    modifies grid.data
    ensures cell in visited
    ensures grid.data[..] == Spread(old(grid.data[..]), grid.gridWidth, visited, sqrt, grid.gridSize, c, reach)
    ensures available' == available - Evicted(visited, sqrt, grid.gridSize, c, reach, room)
    ensures cell !in available' && |available'| < |available|
    ensures Roomy(grid.data[..], grid.gridWidth, grid.gridHeight, available', room) && Bounded(grid.data[..], reach)
  {
    ghost var s := grid.data[..];
    assert InGrid(grid.gridWidth, grid.gridHeight, cell);
    available', visited := Propagate(grid, available, c, reach, room, sqrt);
    Placed(s, grid.gridWidth, grid.gridHeight, available, visited, sqrt, grid.gridSize, c, reach, room, cell);
  }

  /** One round of the loop drew `draw` and placed circle `c` in `cell`,
      turning the grid `before` into `after` by flooding `visited`: the
      centre is the drawn point of that cell, the radius is what
      `PickRadius` makes of the cell's ceiling, and the flood started from
      that cell. */
  ghost predicate Round(c: Circle, cell: (nat, nat), before: seq<Value>, after: seq<Value>, visited: set<(nat, nat)>,
                        draw: Draw, gridWidth: nat, gridHeight: nat, gridSize: nat,
                        minRadius: nat, maxRadius: nat, padding: nat, sqrt: nat -> real)
    requires gridSize > 0
  {
    && InGrid(gridWidth, gridHeight, cell) && GridIndex(gridWidth, cell.0, cell.1) < |before|
    && (c.x, c.y) == PointIn(cell, draw, gridSize)
    && (var ceiling := Ceiling(before[GridIndex(gridWidth, cell.0, cell.1)], maxRadius, padding);
        ceiling.Ok? && PickRadius(draw.raw, ceiling.value, minRadius) == Ok(c.radius))
    && cell in visited
    && after == Spread(before, gridWidth, visited, sqrt, gridSize, c, maxRadius + padding)
  }

  /** What one propagation leaves behind: the remaining cells are open, the
      stored distances stay within reach, and the sampled cell, which lies
      inside the new circle, is gone. */
  lemma Placed(s: seq<Value>, gridWidth: nat, gridHeight: nat, available: set<(nat, nat)>,
               visited: set<(nat, nat)>, sqrt: nat -> real, gridSize: nat, c: Circle, reach: nat, room: nat,
               cell: (nat, nat))
    requires gridWidth > 0 && gridSize > 0 && |s| == gridWidth * gridHeight && RootLaw(sqrt)
    requires Roomy(s, gridWidth, gridHeight, available, room) && Bounded(s, reach)
    requires c.radius >= 2 * gridSize && room > 0
    requires cell in available && cell == CellOf(gridSize, c.x, c.y) && cell in visited
    ensures var t, rest := Spread(s, gridWidth, visited, sqrt, gridSize, c, reach),
                           available - Evicted(visited, sqrt, gridSize, c, reach, room);
            Roomy(t, gridWidth, gridHeight, rest, room) && Bounded(t, reach) && cell !in rest && |rest| < |available|
  {
    SpreadKeepsRoom(s, gridWidth, gridHeight, available, visited, sqrt, gridSize, c, reach, room);
    SpreadBounded(s, gridWidth, visited, sqrt, gridSize, c, reach);
    StartInside(sqrt, gridSize, c);
    var e := Evicted(visited, sqrt, gridSize, c, reach, room);
    assert cell in e;
    SubsetNoLarger(available - e, available - {cell});
  }

  /** `generate_circles`: place circles at sampled points of available cells
      until their summed area reaches `coverage` of the canvas or no cell is
      left. `draws(k)` holds the random draws of the `k`-th circle. Every
      radius lies in `[min_radius, max_radius)`; the run panics exactly
      when `max_radius <= min_radius` and a first circle is due, and then on
      the first circle; each circle removes at least its own cell from the
      available set, so there are at most as many circles as cells. */
  method GenerateCircles(width: nat, height: nat, minRadius: nat, maxRadius: nat, padding: nat, coverage: real,
                         draws: nat -> Draw, sqrt: nat -> real)
    returns (r: Result<seq<Circle>>, ghost cells: seq<(nat, nat)>, ghost grids: seq<seq<Value>>,
             ghost visiteds: seq<set<(nat, nat)>>)
    requires minRadius >= 2 && RootLaw(sqrt)
    ensures r.Err? ==> maxRadius <= minRadius
    ensures r.Err? ==> r.panic == (if maxRadius < minRadius then UsizeUnderflow else ModuloByZero)
    ensures maxRadius <= minRadius && width > 0 && height > 0 && coverage > 0.0 ==> r.Err?
    ensures r.Ok? ==> forall circle :: circle in r.value ==> minRadius <= circle.radius < maxRadius
    ensures r.Ok? ==> |r.value| <= |AllCells(CeilDiv(width, minRadius / 2), CeilDiv(height, minRadius / 2))|
    ensures r.Ok? ==> var gw, gh := CeilDiv(width, minRadius / 2), CeilDiv(height, minRadius / 2);
      && Rounds(r.value, cells, grids, visiteds, AllCells(gw, gh), draws, gw, gh, minRadius / 2,
                minRadius, maxRadius, padding, sqrt)
      && grids[0] == seq(gw * gh, _ => Unset)
  {
    var grid := new CircleGrid(width, height, minRadius / 2);
    var totalArea := (width * height) as real;
    var available := AllSpaces(grid.gridWidth, grid.gridHeight);
    Unstarted(width, height, coverage, totalArea, grid);
    BlankRoomy(grid.data[..], grid.gridWidth, grid.gridHeight, minRadius + padding + 1);
    assert grid.data[..] == seq(grid.gridWidth * grid.gridHeight, _ => Unset);
    r, cells, grids, visiteds := PlaceAll(grid, available, minRadius, maxRadius, padding, totalArea * coverage, draws, sqrt);
  }

  /** The loop of lines 93-152 from a grid whose available cells are all
      open: it runs until the area reaches `target` or the cells run out,
      and panics exactly when a first circle is due and `max_radius <=
      min_radius`. */
  method PlaceAll(grid: CircleGrid, available: set<(nat, nat)>, minRadius: nat, maxRadius: nat, padding: nat,
                  target: real, draws: nat -> Draw, sqrt: nat -> real)
    returns (r: Result<seq<Circle>>, ghost cells: seq<(nat, nat)>, ghost grids: seq<seq<Value>>,
             ghost visiteds: seq<set<(nat, nat)>>)
    requires grid.Valid() && grid.gridSize == minRadius / 2 && minRadius >= 2 && RootLaw(sqrt)
    requires Roomy(grid.data[..], grid.gridWidth, grid.gridHeight, available, minRadius + padding + 1)
    requires Bounded(grid.data[..], maxRadius + padding)
    modifies grid.data
    ensures r.Err? ==> maxRadius <= minRadius
    ensures r.Err? ==> r.panic == (if maxRadius < minRadius then UsizeUnderflow else ModuloByZero)
    ensures maxRadius <= minRadius && 0.0 < target && available != {} ==> r.Err?
    ensures r.Ok? ==> forall circle :: circle in r.value ==> minRadius <= circle.radius < maxRadius
    ensures r.Ok? ==> |r.value| <= |available|
    ensures r.Ok? ==> Rounds(r.value, cells, grids, visiteds, available, draws, grid.gridWidth, grid.gridHeight,
                             grid.gridSize, minRadius, maxRadius, padding, sqrt)
    ensures r.Ok? ==> grids[0] == old(grid.data[..]) && grids[|r.value|] == grid.data[..]
  {
    var circles: seq<Circle> := [];
    var area := 0.0;
    var open := available;
    cells, grids, visiteds := [], [grid.data[..]], [];
    while area < target
      invariant grid.Valid() && grid.gridSize == minRadius / 2
      invariant Run(circles, cells, grids, visiteds, available, open, draws, grid.gridWidth, grid.gridHeight,
                    grid.gridSize, minRadius, maxRadius, padding, sqrt)
      invariant grids[0] == old(grid.data[..]) && grids[|circles|] == grid.data[..]
      invariant Roomy(grid.data[..], grid.gridWidth, grid.gridHeight, open, minRadius + padding + 1)
      invariant Bounded(grid.data[..], maxRadius + padding)
      invariant |circles| + |open| <= |available|
      invariant forall circle :: circle in circles ==> minRadius <= circle.radius < maxRadius
      invariant maxRadius <= minRadius ==> area == 0.0 && open == available
      decreases |open|
    {
      if |open| == 0 {
        break;
      }
      var next; ghost var cell, visited;
      ghost var open0 := open;
      next, open, cell, visited := PlaceCircle(grid, open, draws(|circles|), minRadius, maxRadius, padding, sqrt);
      if next.Err? {
        return Err(next.panic), cells, grids, visiteds;
      }
      var radius := next.value.radius;
      area := area + PI * (radius as real * radius as real);
      RunSnoc(circles, cells, grids, visiteds, available, open0, draws, grid.gridWidth, grid.gridHeight,
              grid.gridSize, minRadius, maxRadius, padding, sqrt, next.value, cell, grid.data[..], visited, open);
      circles, cells, grids, visiteds := circles + [next.value], cells + [cell], grids + [grid.data[..]], visiteds + [visited];
    }
    return Ok(circles), cells, grids, visiteds;
  }

  /** The circles of a run, round by round: circle `k` came from the `k`-th
      draw in the cell `cells[k]` of the available set, which turned grid
      `grids[k]` into `grids[k + 1]`; no cell was sampled twice. */
  ghost predicate Rounds(circles: seq<Circle>, cells: seq<(nat, nat)>, grids: seq<seq<Value>>,
                         visiteds: seq<set<(nat, nat)>>, available: set<(nat, nat)>, draws: nat -> Draw,
                         gridWidth: nat, gridHeight: nat, gridSize: nat,
                         minRadius: nat, maxRadius: nat, padding: nat, sqrt: nat -> real)
    requires gridSize > 0
  {
    && |cells| == |circles| && |grids| == |circles| + 1 && |visiteds| == |circles|
    && (forall k :: 0 <= k < |circles| ==>
          cells[k] in available
          && Round(circles[k], cells[k], grids[k], grids[k + 1], visiteds[k], draws(k), gridWidth, gridHeight,
                   gridSize, minRadius, maxRadius, padding, sqrt))
    && (forall k, m :: 0 <= k < m < |cells| ==> cells[k] != cells[m])
  }

  /** A further round from an open cell extends the record of the run. */
  lemma RoundsSnoc(circles: seq<Circle>, cells: seq<(nat, nat)>, grids: seq<seq<Value>>,
                   visiteds: seq<set<(nat, nat)>>, available: set<(nat, nat)>, draws: nat -> Draw,
                   gridWidth: nat, gridHeight: nat, gridSize: nat,
                   minRadius: nat, maxRadius: nat, padding: nat, sqrt: nat -> real,
                   c: Circle, cell: (nat, nat), after: seq<Value>, visited: set<(nat, nat)>, open: set<(nat, nat)>)
    requires gridSize > 0
    requires Rounds(circles, cells, grids, visiteds, available, draws, gridWidth, gridHeight,
                    gridSize, minRadius, maxRadius, padding, sqrt)
    requires open <= available && cell in open && forall k :: 0 <= k < |cells| ==> cells[k] !in open
    requires Round(c, cell, grids[|circles|], after, visited, draws(|circles|), gridWidth, gridHeight,
                   gridSize, minRadius, maxRadius, padding, sqrt)
    ensures Rounds(circles + [c], cells + [cell], grids + [after], visiteds + [visited], available, draws,
                   gridWidth, gridHeight, gridSize, minRadius, maxRadius, padding, sqrt)
  {
    var circles', cells', grids', visiteds' := circles + [c], cells + [cell], grids + [after], visiteds + [visited];
    forall k | 0 <= k < |circles'|
      ensures cells'[k] in available
      ensures Round(circles'[k], cells'[k], grids'[k], grids'[k + 1], visiteds'[k], draws(k), gridWidth, gridHeight,
                    gridSize, minRadius, maxRadius, padding, sqrt)
    {
      if k < |circles| {
        assert circles'[k] == circles[k] && cells'[k] == cells[k] && visiteds'[k] == visiteds[k];
        assert grids'[k] == grids[k] && grids'[k + 1] == grids[k + 1];
      } else {
        assert circles'[k] == c && cells'[k] == cell && visiteds'[k] == visited;
        assert grids'[k] == grids[|circles|] && grids'[k + 1] == after;
      }
    }
    forall k, m | 0 <= k < m < |cells'|
      ensures cells'[k] != cells'[m]
    {
      if m == |cells| {
        assert cells'[k] == cells[k] && cells[k] !in open;
      } else {
        assert cells'[k] == cells[k] && cells'[m] == cells[m];
      }
    }
  }

  /** A run so far, with the cells still open: none of them was sampled
      yet. */
  ghost predicate Run(circles: seq<Circle>, cells: seq<(nat, nat)>, grids: seq<seq<Value>>,
                      visiteds: seq<set<(nat, nat)>>, available: set<(nat, nat)>, open: set<(nat, nat)>,
                      draws: nat -> Draw, gridWidth: nat, gridHeight: nat, gridSize: nat,
                      minRadius: nat, maxRadius: nat, padding: nat, sqrt: nat -> real)
    requires gridSize > 0
  {
    && Rounds(circles, cells, grids, visiteds, available, draws, gridWidth, gridHeight,
              gridSize, minRadius, maxRadius, padding, sqrt)
    && open <= available && (forall k :: 0 <= k < |cells| ==> cells[k] !in open)
  }

  /** A round from an open cell that leaves fewer open cells, without the
      sampled one, extends the run. */
  lemma RunSnoc(circles: seq<Circle>, cells: seq<(nat, nat)>, grids: seq<seq<Value>>,
                visiteds: seq<set<(nat, nat)>>, available: set<(nat, nat)>, open: set<(nat, nat)>,
                draws: nat -> Draw, gridWidth: nat, gridHeight: nat, gridSize: nat,
                minRadius: nat, maxRadius: nat, padding: nat, sqrt: nat -> real,
                c: Circle, cell: (nat, nat), after: seq<Value>, visited: set<(nat, nat)>, open': set<(nat, nat)>)
    requires gridSize > 0
    requires Run(circles, cells, grids, visiteds, available, open, draws, gridWidth, gridHeight,
                 gridSize, minRadius, maxRadius, padding, sqrt)
    requires cell in open && open' <= open && cell !in open'
    requires Round(c, cell, grids[|circles|], after, visited, draws(|circles|), gridWidth, gridHeight,
                   gridSize, minRadius, maxRadius, padding, sqrt)
    ensures Run(circles + [c], cells + [cell], grids + [after], visiteds + [visited], available, open', draws,
                gridWidth, gridHeight, gridSize, minRadius, maxRadius, padding, sqrt)
  {
    RoundsSnoc(circles, cells, grids, visiteds, available, draws, gridWidth, gridHeight,
               gridSize, minRadius, maxRadius, padding, sqrt, c, cell, after, visited, open);
    var cells' := cells + [cell];
    forall k | 0 <= k < |cells'|
      ensures cells'[k] !in open'
    {
      if k < |cells| {
        assert cells'[k] == cells[k];
      }
    }
  }

  /** On a blank grid every cell is open. */
  lemma BlankRoomy(s: seq<Value>, gridWidth: nat, gridHeight: nat, room: nat)
    requires |s| == gridWidth * gridHeight && forall k :: 0 <= k < |s| ==> s[k] == Unset
    ensures Roomy(s, gridWidth, gridHeight, AllCells(gridWidth, gridHeight), room)
  {
    forall cell | cell in AllCells(gridWidth, gridHeight)
      ensures Open(s, gridWidth, cell, room)
    {
      GridIndexIsSlot(gridWidth, gridHeight, cell);
    }
  }

  /** A canvas with pixels and a positive coverage starts the loop with a
      non-empty grid. */
  lemma Unstarted(width: nat, height: nat, coverage: real, totalArea: real, grid: CircleGrid)
    requires grid.Valid() && grid.width == width && grid.height == height && totalArea == (width * height) as real
    ensures width > 0 && height > 0 && coverage > 0.0 ==> 0.0 < totalArea * coverage && (0, 0) in AllCells(grid.gridWidth, grid.gridHeight)
  {
    if width > 0 && height > 0 && coverage > 0.0 {
      assert width * height >= 1 * height >= 1;
      PositiveProduct(totalArea, coverage);
      NonEmptyAxis(width, grid.gridSize, grid.gridWidth);
      NonEmptyAxis(height, grid.gridSize, grid.gridHeight);
      assert InGrid(grid.gridWidth, grid.gridHeight, (0, 0));
    }
  }

  /** A canvas side with pixels has at least one cell. */
  lemma NonEmptyAxis(n: nat, gridSize: nat, cells: nat)
    requires n > 0 && n <= cells * gridSize
    ensures cells > 0
  {
  }

  lemma PositiveProduct(a: real, b: real)
    requires a > 0.0 && b > 0.0
    ensures a * b > 0.0
  {
  }
}
