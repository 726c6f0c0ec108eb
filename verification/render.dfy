/**
  The integer side of the four `IntegratedStrategy.render` loops: which cells
  are visited, in which order, which of them are drawn with which atlas
  region, and the two counters `tilesRendered` and `quadsRendered`. Draw
  positions and sizes are floats and are not modelled; a draw is recorded as
  the cell it is for and the region index it uses.
*/
module Render {
  import opened AutoTile
  import opened TileGrid

  datatype IntegratedStrategy =
    | AllTilesAllQuads
    | AllTilesViewQuads
    | ViewTilesAllQuads
    | ViewTilesViewQuads
  {
    /** VIEW_TILES: only the cells of the view window are visited. */
    predicate ViewTiles() {
      this == ViewTilesAllQuads || this == ViewTilesViewQuads
    }

    /** VIEW_QUADS: a cell holding the zero variant is visited but not drawn. */
    predicate ViewQuads() {
      this == AllTilesViewQuads || this == ViewTilesViewQuads
    }
  }

  /** The range of a Java `int`. */
  const IntMin: int := -0x8000_0000
  const IntMax: int := 0x7fff_ffff

  type JavaInt = i: int | IntMin <= i <= IntMax

  /** Java's `i + 1` on an `int`: `Integer.MAX_VALUE + 1` wraps around to
      `Integer.MIN_VALUE`. */
  function Succ(i: JavaInt): JavaInt {
    if i == IntMax then IntMin else i + 1
  }

  /** The four `(int)` casts of the view quotients: the first column and row
      the view touches (`left`, `bottom`) and the last (`right`, `top`). A
      cast saturates, so each lies in the `int` range. */
  datatype View = View(left: JavaInt, right: JavaInt, bottom: JavaInt, top: JavaInt)

  /** The half-open cell range `[col1, col2) × [row1, row2)` a strategy visits. */
  datatype Window = Window(col1: int, col2: int, row1: int, row2: int) {
    predicate Contains(x: int, y: int) {
      col1 <= x < col2 && row1 <= y < row2
    }
  }

  /** One `batch.draw` call: the cell and the atlas region it draws. */
  datatype Draw = Draw(x: int, y: int, index: int)

  /** What a render call leaves behind: the draws in order and the counters. */
  datatype Frame = Frame(draws: seq<Draw>, tilesRendered: int, quadsRendered: int)

  function Max(a: int, b: int): int {
    if a >= b then a else b
  }

  function Min(a: int, b: int): int {
    if a <= b then a else b
  }

  /** The window a strategy visits: the whole grid for ALL_TILES; for
      VIEW_TILES the view range with one column and row of slack at the far
      end (`+ 1`), clamped to the grid with `Math.max` / `Math.min`. When the
      last column or row is `Integer.MAX_VALUE`, the `+ 1` wraps around and
      the window is empty. */
  function WindowOf(l: Layer, s: IntegratedStrategy, v: View): (w: Window)
    ensures 0 <= w.col1 && w.col2 <= l.tilesX && 0 <= w.row1 && w.row2 <= l.tilesY
    ensures !s.ViewTiles() ==> w == Window(0, l.tilesX, 0, l.tilesY)
    ensures s.ViewTiles() ==> forall x, y :: w.Contains(x, y) <==>
              && !l.IsOutOfBounds(x, y) && v.left <= x <= v.right && v.bottom <= y <= v.top
              && v.right < IntMax && v.top < IntMax
  {
    if s.ViewTiles() then
      Window(Max(0, v.left), Min(l.tilesX, Succ(v.right)), Max(0, v.bottom), Min(l.tilesY, Succ(v.top)))
    else
      Window(0, l.tilesX, 0, l.tilesY)
  }

  /** `a` comes before `b` in the loop order: `x` outer, `y` inner. */
  predicate Before(a: Cell, b: Cell) {
    a.0 < b.0 || (a.0 == b.0 && a.1 < b.1)
  }

  predicate Ascending(cs: seq<Cell>) {
    forall i, j :: 0 <= i < j < |cs| ==> Before(cs[i], cs[j])
  }

  /** The cells the draws are for. */
  function DrawCells(ds: seq<Draw>): (cs: seq<Cell>)
    ensures |cs| == |ds| && forall i :: 0 <= i < |ds| ==> cs[i] == (ds[i].x, ds[i].y)
  {
    seq(|ds|, i requires 0 <= i < |ds| => (ds[i].x, ds[i].y))
  }

  /** The loop order lists cells in ascending order. */
  lemma {:induction false} ColumnAscending(x: int, y1: int, y2: int)
    ensures Ascending(Column(x, y1, y2))
    decreases y2 - y1
  {
    if y1 < y2 {
      ColumnAscending(x, y1 + 1, y2);
    }
  }

  lemma {:induction false} CellsAscending(x1: int, x2: int, y1: int, y2: int)
    ensures Ascending(Cells(x1, x2, y1, y2))
    decreases x2 - x1
  {
    if x1 < x2 {
      ColumnAscending(x1, y1, y2);
      CellsAscending(x1 + 1, x2, y1, y2);
      var col, rest := Column(x1, y1, y2), Cells(x1 + 1, x2, y1, y2);
      var cs := col + rest;
      forall i, j | 0 <= i < j < |cs|
        ensures Before(cs[i], cs[j])
      {
        if i < |col| && j >= |col| {
          assert cs[i] in col && cs[j] in rest;
        } else if i >= |col| {
          assert cs[i] == rest[i - |col|] && cs[j] == rest[j - |col|];
        }
      }
    }
  }

  /** The body of the nested loops, run over `cells` in order: count the
      occupied cells, skip the zero variant when `skipZero`, draw the rest. */
  function Visit(l: Layer, zero: int, skipZero: bool, cells: seq<Cell>): (f: Frame)
    requires l.Valid() && AllInBounds(l, cells)
    ensures f.quadsRendered == |f.draws| && 0 <= f.tilesRendered <= |cells|
    ensures !skipZero ==> |f.draws| == |cells|
    ensures forall d :: d in f.draws ==>
              (d.x, d.y) in cells && d.index == l.indices[d.x][d.y] && !(skipZero && d.index == zero)
    ensures forall c :: c in cells && !(skipZero && l.indices[c.0][c.1] == zero) ==>
              Draw(c.0, c.1, l.indices[c.0][c.1]) in f.draws
    ensures Ascending(cells) ==> Ascending(DrawCells(f.draws))
    decreases |cells|
  {
    if cells == [] then Frame([], 0, 0)
    else
      var (x, y) := cells[0];
      assert forall c :: c in cells[1..] ==> c in cells;
      var rest := Visit(l, zero, skipZero, cells[1..]);
      var tiles := Bit(l.tiles[x][y]) + rest.tilesRendered;
      var index := l.indices[x][y];
      if skipZero && index == zero then
        Frame(rest.draws, tiles, rest.quadsRendered)
      else
        var f := Frame([Draw(x, y, index)] + rest.draws, tiles, rest.quadsRendered + 1);
        assert Ascending(cells) ==> Ascending(DrawCells(f.draws)) by {
          if Ascending(cells) {
            PrependKeepsAscending(cells, rest.draws, index);
          }
        }
        f
  }

  /** Drawing the first cell ahead of draws for later cells keeps the draws
      in loop order. */
  lemma PrependKeepsAscending(cells: seq<Cell>, draws: seq<Draw>, index: int)
    requires cells != [] && Ascending(cells) && Ascending(DrawCells(draws))
    requires forall d :: d in draws ==> (d.x, d.y) in cells[1..]
    ensures Ascending(DrawCells([Draw(cells[0].0, cells[0].1, index)] + draws))
  {
    var all := [Draw(cells[0].0, cells[0].1, index)] + draws;
    forall d | d in draws
      ensures Before(cells[0], (d.x, d.y))
    {
      var k :| 0 <= k < |cells[1..]| && cells[1..][k] == (d.x, d.y);
      assert cells[k + 1] == (d.x, d.y);
    }
    var ds := DrawCells(all);
    forall i, j | 0 <= i < j < |ds|
      ensures Before(ds[i], ds[j])
    {
      assert all[j] in draws;
      if i > 0 {
        assert ds[i] == DrawCells(draws)[i - 1] && ds[j] == DrawCells(draws)[j - 1];
      }
    }
  }

  /** The occupied cells among `cells`. */
  function OccupiedAmong(l: Layer, cells: seq<Cell>): set<Cell>
    requires l.Valid()
  {
    set c | c in cells && !l.IsOutOfBounds(c.0, c.1) && l.tiles[c.0][c.1]
  }

  /** The cells among `cells` that are drawn. */
  function DrawnAmong(l: Layer, zero: int, skipZero: bool, cells: seq<Cell>): set<Cell>
    requires l.Valid()
  {
    set c | c in cells && !l.IsOutOfBounds(c.0, c.1) && !(skipZero && l.indices[c.0][c.1] == zero)
  }

  /** The head of an ascending list does not occur in its tail. */
  lemma HeadNotInTail(cells: seq<Cell>)
    requires cells != [] && Ascending(cells)
    ensures cells[0] !in cells[1..]
  {
    forall k | 0 <= k < |cells| - 1
      ensures cells[1..][k] != cells[0]
    {
      assert Before(cells[0], cells[k + 1]);
    }
  }

  lemma OccupiedAmongCons(l: Layer, cells: seq<Cell>)
    requires l.Valid() && AllInBounds(l, cells) && cells != []
    ensures OccupiedAmong(l, cells) ==
              OccupiedAmong(l, cells[1..]) + (if l.tiles[cells[0].0][cells[0].1] then {cells[0]} else {})
  {
    assert forall d :: d in cells <==> d == cells[0] || d in cells[1..];
  }

  lemma DrawnAmongCons(l: Layer, zero: int, skipZero: bool, cells: seq<Cell>)
    requires l.Valid() && AllInBounds(l, cells) && cells != []
    ensures DrawnAmong(l, zero, skipZero, cells) ==
              DrawnAmong(l, zero, skipZero, cells[1..]) +
              (if !(skipZero && l.indices[cells[0].0][cells[0].1] == zero) then {cells[0]} else {})
  {
    assert forall d :: d in cells <==> d == cells[0] || d in cells[1..];
  }

  /** Over distinct cells, `tilesRendered` is the number of occupied ones. */
  lemma {:induction false} VisitCountsTiles(l: Layer, zero: int, skipZero: bool, cells: seq<Cell>)
    requires l.Valid() && AllInBounds(l, cells) && Ascending(cells)
    ensures Visit(l, zero, skipZero, cells).tilesRendered == |OccupiedAmong(l, cells)|
    decreases |cells|
  {
    if cells != [] {
      var c, rest := cells[0], cells[1..];
      assert forall d :: d in rest ==> d in cells;
      VisitCountsTiles(l, zero, skipZero, rest);
      HeadNotInTail(cells);
      OccupiedAmongCons(l, cells);
    }
  }

  /** Over distinct cells, `quadsRendered` is the number of drawn ones. */
  lemma {:induction false} VisitCountsQuads(l: Layer, zero: int, skipZero: bool, cells: seq<Cell>)
    requires l.Valid() && AllInBounds(l, cells) && Ascending(cells)
    ensures Visit(l, zero, skipZero, cells).quadsRendered == |DrawnAmong(l, zero, skipZero, cells)|
    decreases |cells|
  {
    if cells != [] {
      var c, rest := cells[0], cells[1..];
      assert forall d :: d in rest ==> d in cells;
      VisitCountsQuads(l, zero, skipZero, rest);
      HeadNotInTail(cells);
      DrawnAmongCons(l, zero, skipZero, cells);
    }
  }

  /** The occupied cells of the window. */
  function OccupiedIn(l: Layer, w: Window): set<Cell>
    requires l.Valid()
  {
    set x, y | w.col1 <= x < w.col2 && w.row1 <= y < w.row2 && !l.IsOutOfBounds(x, y) && l.tiles[x][y] :: (x, y)
  }

  /** The cells of the window whose index is not the zero variant. */
  function NonZeroIn(l: Layer, zero: int, w: Window): set<Cell>
    requires l.Valid()
  {
    set x, y | w.col1 <= x < w.col2 && w.row1 <= y < w.row2 && !l.IsOutOfBounds(x, y) && l.indices[x][y] != zero :: (x, y)
  }

  /** The number of cells of a window. */
  function Area(w: Window): nat {
    if w.col1 < w.col2 && w.row1 < w.row2 then (w.col2 - w.col1) * (w.row2 - w.row1) else 0
  }

  lemma {:induction false} CellsLength(x1: int, x2: int, y1: int, y2: int)
    ensures |Cells(x1, x2, y1, y2)| == Area(Window(x1, x2, y1, y2))
    decreases x2 - x1
  {
    if x1 < x2 {
      CellsLength(x1 + 1, x2, y1, y2);
      ColumnLength(x1, y1, y2);
      assert |Cells(x1, x2, y1, y2)| == |Column(x1, y1, y2)| + |Cells(x1 + 1, x2, y1, y2)|;
      if y1 < y2 {
        var cols, rows := x2 - x1, y2 - y1;
        MulSucc(cols - 1, rows);
        assert Area(Window(x1 + 1, x2, y1, y2)) == (cols - 1) * rows;
        assert Area(Window(x1, x2, y1, y2)) == cols * rows;
      }
    }
  }

  lemma {:induction false} ColumnLength(x: int, y1: int, y2: int)
    ensures |Column(x, y1, y2)| == if y1 < y2 then y2 - y1 else 0
    decreases y2 - y1
  {
    if y1 < y2 {
      ColumnLength(x, y1 + 1, y2);
    }
  }

  /** `IntegratedStrategy.render`: reset both counters, then run the nested
      loops over the strategy's window. */
  function RenderFrame(l: Layer, cfg: Config, s: IntegratedStrategy, v: View): (f: Frame)
    requires l.Valid() && cfg.Valid()
    ensures f.quadsRendered == |f.draws|
    ensures forall d :: d in f.draws ==> WindowOf(l, s, v).Contains(d.x, d.y) && d.index == l.indices[d.x][d.y]
  {
    var w := WindowOf(l, s, v);
    var cells := Cells(w.col1, w.col2, w.row1, w.row2);
    var f := Visit(l, cfg.zeroIndex, s.ViewQuads(), cells);
    assert forall d :: d in f.draws ==> (d.x, d.y) in cells;
    f
  }

  /** The counters: `tilesRendered` counts the occupied cells of the window;
      `quadsRendered` counts every cell of the window under ALL_QUADS and the
      cells not holding the zero variant under VIEW_QUADS. */
  lemma RenderCounters(l: Layer, cfg: Config, s: IntegratedStrategy, v: View)
    requires l.Valid() && cfg.Valid()
    ensures var w := WindowOf(l, s, v);
            var f := RenderFrame(l, cfg, s, v);
            && f.tilesRendered == |OccupiedIn(l, w)|
            && f.quadsRendered == |f.draws|
            && (!s.ViewQuads() ==> f.quadsRendered == Area(w))
            && (s.ViewQuads() ==> f.quadsRendered == |NonZeroIn(l, cfg.zeroIndex, w)|)
  {
    var w := WindowOf(l, s, v);
    var cells := Cells(w.col1, w.col2, w.row1, w.row2);
    CellsAscending(w.col1, w.col2, w.row1, w.row2);
    CellsLength(w.col1, w.col2, w.row1, w.row2);
    VisitCountsTiles(l, cfg.zeroIndex, s.ViewQuads(), cells);
    VisitCountsQuads(l, cfg.zeroIndex, s.ViewQuads(), cells);
    assert OccupiedAmong(l, cells) == OccupiedIn(l, w);
    if s.ViewQuads() {
      assert DrawnAmong(l, cfg.zeroIndex, true, cells) == NonZeroIn(l, cfg.zeroIndex, w);
    }
  }

  /** The draws: in loop order, each for a cell of the window with that
      cell's index, and every cell of the window drawn except, under
      VIEW_QUADS, those holding the zero variant. */
  lemma RenderDraws(l: Layer, cfg: Config, s: IntegratedStrategy, v: View)
    requires l.Valid() && cfg.Valid()
    ensures var w := WindowOf(l, s, v);
            var f := RenderFrame(l, cfg, s, v);
            && Ascending(DrawCells(f.draws))
            && (forall d :: d in f.draws ==>
                  w.Contains(d.x, d.y) && !l.IsOutOfBounds(d.x, d.y) && d.index == l.indices[d.x][d.y] &&
                  (s.ViewQuads() ==> d.index != cfg.zeroIndex))
            && (forall x, y :: w.Contains(x, y) && !(s.ViewQuads() && l.indices[x][y] == cfg.zeroIndex) ==>
                  Draw(x, y, l.indices[x][y]) in f.draws)
  {
    var w := WindowOf(l, s, v);
    var cells := Cells(w.col1, w.col2, w.row1, w.row2);
    var f := RenderFrame(l, cfg, s, v);
    CellsAscending(w.col1, w.col2, w.row1, w.row2);
    forall x, y | w.Contains(x, y) && !(s.ViewQuads() && l.indices[x][y] == cfg.zeroIndex)
      ensures Draw(x, y, l.indices[x][y]) in f.draws
    {
      assert (x, y) in cells;
    }
  }

  /** In cell units, a view range that misses the grid on some side leaves a
      VIEW_TILES strategy nothing to visit. */
  lemma ViewOutsideGridVisitsNothing(l: Layer, cfg: Config, s: IntegratedStrategy, v: View)
    requires l.Valid() && cfg.Valid() && s.ViewTiles()
    requires v.right < 0 || v.left >= l.tilesX || v.top < 0 || v.bottom >= l.tilesY
    ensures RenderFrame(l, cfg, s, v) == Frame([], 0, 0)
  {
  }

  /** When the last visible column or row saturates at `Integer.MAX_VALUE`, as
      it does for a view quotient of `2^31` or more, the end bound's `+ 1`
      wraps around to `Integer.MIN_VALUE` and a VIEW_TILES strategy visits
      nothing, however much of the grid the view covers. */
  lemma SaturatedViewVisitsNothing(l: Layer, cfg: Config, s: IntegratedStrategy, v: View)
    requires l.Valid() && cfg.Valid() && s.ViewTiles()
    requires v.right == IntMax || v.top == IntMax
    ensures RenderFrame(l, cfg, s, v) == Frame([], 0, 0)
  {
    var w := WindowOf(l, s, v);
    assert w.col2 < 0 || w.row2 < 0;
    assert Cells(w.col1, w.col2, w.row1, w.row2) == [] by {
      CellsLength(w.col1, w.col2, w.row1, w.row2);
    }
  }

  /** A 4 × 4 layer, fresh from `fill(false)`, with only `(1, 1)` set. */
  function Example(cfg: Config): (l: Layer)
    requires cfg.Valid()
    ensures l.Valid() && l.tilesX == 4 && l.tilesY == 4
  {
    var l0 := NewLayer(4, 4, cfg, false).value;
    Set(l0, cfg, 1, 1, true)
  }

  /** Its occupancy: `(1, 1)` and nothing else. */
  lemma ExampleTiles(cfg: Config, x: int, y: int)
    requires cfg.Valid()
    ensures Example(cfg).TileAt(x, y) == (x == 1 && y == 1)
  {
    var l0 := NewLayer(4, 4, cfg, false).value;
    if 0 <= x < 4 && 0 <= y < 4 {
      SetTiles(l0, cfg, 1, 1, true, x, y);
    }
  }

  /** Its indices: the four cells around `(1, 1)` get the entries of masks
      `0b0100`, `0b1000`, `0b0001` and `0b0010`; every other cell keeps the
      entry of mask 0. */
  lemma ExampleIndices(cfg: Config, x: int, y: int)
    requires cfg.Valid() && 0 <= x < 4 && 0 <= y < 4
    ensures Example(cfg).indices[x][y] == cfg.Lookup(
              if (x, y) == (1, 1) then 4 else if (x, y) == (2, 1) then 8
              else if (x, y) == (1, 2) then 1 else if (x, y) == (2, 2) then 2 else 0)
  {
    var l0 := NewLayer(4, 4, cfg, false).value;
    var l := Example(cfg);
    if InBlock(1, 1, x, y) {
      SetIndicesRefreshed(l0, cfg, 1, 1, true, x, y);
      ExampleTiles(cfg, x, y);
      ExampleTiles(cfg, x - 1, y);
      ExampleTiles(cfg, x, y - 1);
      ExampleTiles(cfg, x - 1, y - 1);
    } else {
      SetIndicesLocal(l0, cfg, 1, 1, true, x, y);
    }
  }

  lemma ExampleOccupied(cfg: Config)
    requires cfg.Valid()
    ensures OccupiedIn(Example(cfg), Window(0, 4, 0, 4)) == {(1, 1)}
  {
    var l := Example(cfg);
    forall x, y | 0 <= x < 4 && 0 <= y < 4
      ensures l.tiles[x][y] == (x == 1 && y == 1)
    {
      ExampleTiles(cfg, x, y);
    }
  }

  lemma ExampleNonZero(cfg: Config)
    requires cfg.Valid() && Injective(cfg.table)
    ensures NonZeroIn(Example(cfg), cfg.zeroIndex, Window(0, 4, 0, 4)) == {(1, 1), (1, 2), (2, 1), (2, 2)}
  {
    var l := Example(cfg);
    forall x, y | 0 <= x < 4 && 0 <= y < 4
      ensures l.indices[x][y] != cfg.zeroIndex <==> InBlock(1, 1, x, y)
    {
      ExampleIndices(cfg, x, y);
    }
  }

  /** Viewed over the whole grid, one tile is occupied; with a table that
      tells masks apart, VIEW_QUADS draws the four quads around it and
      ALL_QUADS all sixteen cells. */
  lemma ExampleRender(cfg: Config, s: IntegratedStrategy)
    requires cfg.Valid() && Injective(cfg.table)
    ensures RenderFrame(Example(cfg), cfg, s, View(0, 3, 0, 3)).tilesRendered == 1
    ensures RenderFrame(Example(cfg), cfg, s, View(0, 3, 0, 3)).quadsRendered == if s.ViewQuads() then 4 else 16
  {
    var l, v := Example(cfg), View(0, 3, 0, 3);
    var w := WindowOf(l, s, v);
    assert w == Window(0, 4, 0, 4);
    var f := RenderFrame(l, cfg, s, v);
    RenderCounters(l, cfg, s, v);
    assert f.tilesRendered == |OccupiedIn(l, w)|;
    ExampleOccupied(cfg);
    if s.ViewQuads() {
      assert f.quadsRendered == |NonZeroIn(l, cfg.zeroIndex, w)|;
      ExampleNonZero(cfg);
      CardFour();
    } else {
      assert f.quadsRendered == Area(w);
    }
  }

  /** The four cells around `(1, 1)` are distinct. */
  lemma CardFour()
    ensures |{(1, 1), (1, 2), (2, 1), (2, 2)}| == 4
  {
    var a: set<Cell> := {(1, 1)};
    assert |a + {(1, 2)}| == 2;
    assert |a + {(1, 2)} + {(2, 1)}| == 3;
  }

  /** The same under the default table. */
  lemma ExampleRenderDefault(s: IntegratedStrategy)
    ensures RenderFrame(Example(Default()), Default(), s, View(0, 3, 0, 3)).tilesRendered == 1
    ensures RenderFrame(Example(Default()), Default(), s, View(0, 3, 0, 3)).quadsRendered == if s.ViewQuads() then 4 else 16
  {
    ExampleRender(Default(), s);
  }
}
