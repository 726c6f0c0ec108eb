/**
  The occupancy grid `tiles` and its cached variant grid `indices`, both
  indexed `[x][y]` with `x` in `0..tilesX` and `y` in `0..tilesY`, and the
  operations that read and change them: `isOutOfBounds`, both `tileAt`
  methods, `fill` and the constructor.

  The cache is meant to satisfy `Inv`: every index is the table entry of the
  mask computed from the occupancy around it. `Set` keeps it, `Fill(false)`
  establishes it, `Fill(true)` breaks it on column 0 and row 0.
*/
module TileGrid {
  import opened AutoTile
  import opened Results

  /** A cell coordinate `(x, y)`. */
  type Cell = (int, int)

  /** `g` has the shape of `new T[w][h]`. */
  predicate IsGrid<T>(g: seq<seq<T>>, w: nat, h: nat) {
    |g| == w && forall x :: 0 <= x < w ==> |g[x]| == h
  }

  /** A `w` × `h` grid holding `v` everywhere (`Arrays.fill` on each row). */
  function Constant<T>(w: nat, h: nat, v: T): (g: seq<seq<T>>)
    ensures IsGrid(g, w, h)
    ensures forall x, y :: 0 <= x < w && 0 <= y < h ==> g[x][y] == v
  {
    seq(w, _ => seq(h, _ => v))
  }

  /** `g[x][y] = v` */
  function Put<T>(g: seq<seq<T>>, w: nat, h: nat, x: int, y: int, v: T): (r: seq<seq<T>>)
    requires IsGrid(g, w, h) && 0 <= x < w && 0 <= y < h
    ensures IsGrid(r, w, h)
    ensures forall i, j :: 0 <= i < w && 0 <= j < h ==>
              r[i][j] == if i == x && j == y then v else g[i][j]
  {
    g[x := g[x][y := v]]
  }

  datatype Layer = Layer(tilesX: nat, tilesY: nat, tiles: seq<seq<bool>>, indices: seq<seq<int>>) {

    /** Both grids have the layer's dimensions. */
    predicate Valid() {
      IsGrid(tiles, tilesX, tilesY) && IsGrid(indices, tilesX, tilesY)
    }

    /** `isOutOfBounds(x, y)` */
    predicate IsOutOfBounds(x: int, y: int) {
      x < 0 || y < 0 || x >= tilesX || y >= tilesY
    }

    /** `tileAt(x, y)`: the occupancy of a cell, with everything outside the
        grid read as empty. */
    function TileAt(x: int, y: int): (r: bool)
      requires Valid()
      ensures r ==> !IsOutOfBounds(x, y)
      ensures !IsOutOfBounds(x, y) ==> r == tiles[x][y]
    {
      if IsOutOfBounds(x, y) then false else tiles[x][y]
    }
  }

  /** The two layers have the same dimensions and the same occupancy. */
  predicate SameTiles(l: Layer, l': Layer)
    requires l.Valid() && l'.Valid()
  {
    l.tilesX == l'.tilesX && l.tilesY == l'.tilesY &&
    forall x, y :: 0 <= x < l.tilesX && 0 <= y < l.tilesY ==> l.tiles[x][y] == l'.tiles[x][y]
  }

  function Bit(b: bool): int {
    if b then 1 else 0
  }

  /** The neighbour mask of cell `(x, y)`: bit 3 is cell `(x-1, y)`, bit 2 is
      `(x, y)`, bit 1 is `(x-1, y-1)` and bit 0 is `(x, y-1)`. */
  function Mask(l: Layer, x: int, y: int): (m: int)
    requires l.Valid()
    ensures 0 <= m < 16
    ensures m == 0 <==> !l.TileAt(x - 1, y) && !l.TileAt(x, y) && !l.TileAt(x - 1, y - 1) && !l.TileAt(x, y - 1)
    ensures m == 0xF <==> l.TileAt(x - 1, y) && l.TileAt(x, y) && l.TileAt(x - 1, y - 1) && l.TileAt(x, y - 1)
  {
    8 * Bit(l.TileAt(x - 1, y)) + 4 * Bit(l.TileAt(x, y)) + 2 * Bit(l.TileAt(x - 1, y - 1)) + Bit(l.TileAt(x, y - 1))
  }

  /** A mask reads nothing but the occupancy. */
  lemma MaskReadsTiles(l: Layer, l': Layer, x: int, y: int)
    requires l.Valid() && l'.Valid() && SameTiles(l, l')
    ensures Mask(l, x, y) == Mask(l', x, y)
  {
    assert l.TileAt(x - 1, y) == l'.TileAt(x - 1, y);
    assert l.TileAt(x, y) == l'.TileAt(x, y);
    assert l.TileAt(x - 1, y - 1) == l'.TileAt(x - 1, y - 1);
    assert l.TileAt(x, y - 1) == l'.TileAt(x, y - 1);
  }

  /** The cached index of in-bounds cell `(x, y)` agrees with the table. */
  predicate IndexCorrect(l: Layer, cfg: Config, x: int, y: int)
    requires l.Valid() && cfg.Valid() && !l.IsOutOfBounds(x, y)
  {
    l.indices[x][y] == cfg.Lookup(Mask(l, x, y))
  }

  /** The cache invariant: `indices[c] == table[mask(c)]` for every cell. */
  predicate Inv(l: Layer, cfg: Config)
    requires l.Valid() && cfg.Valid()
  {
    forall x, y :: 0 <= x < l.tilesX && 0 <= y < l.tilesY ==> IndexCorrect(l, cfg, x, y)
  }

  /** Cell `(i, j)` is one of the four cells `(x..x+1, y..y+1)` whose mask
      samples cell `(x, y)`. */
  predicate InBlock(x: int, y: int, i: int, j: int) {
    x <= i <= x + 1 && y <= j <= y + 1
  }

  /** One iteration of the neighbour loop of `tileAt(x, y, state)`: an
      out-of-bounds neighbour is skipped, any other gets its index recomputed. */
  function Refresh(l: Layer, cfg: Config, nx: int, ny: int): (r: Layer)
    requires l.Valid() && cfg.Valid()
    ensures r.Valid() && r.tilesX == l.tilesX && r.tilesY == l.tilesY && r.tiles == l.tiles
    ensures forall i, j :: 0 <= i < l.tilesX && 0 <= j < l.tilesY ==>
              r.indices[i][j] == if i == nx && j == ny then cfg.Lookup(Mask(l, i, j)) else l.indices[i][j]
  {
    if l.IsOutOfBounds(nx, ny) then l
    else l.(indices := Put(l.indices, l.tilesX, l.tilesY, nx, ny, cfg.Lookup(Mask(l, nx, ny))))
  }

  /** `tileAt(x, y, state)`: store the occupancy, then recompute the indices of
      the neighbours `(0,0)`, `(1,0)`, `(0,1)`, `(1,1)` away, in that order.
      Out-of-bounds writes are dropped. What changes is stated by `SetTiles`,
      `SetIndicesLocal` and `SetIndicesRefreshed`. */
  function Set(l: Layer, cfg: Config, x: int, y: int, state: bool): (r: Layer)
    requires l.Valid() && cfg.Valid()
    ensures r.Valid() && r.tilesX == l.tilesX && r.tilesY == l.tilesY
    ensures l.IsOutOfBounds(x, y) ==> r == l
  {
    if l.IsOutOfBounds(x, y) then l
    else RefreshBlock(Store(l, x, y, state), cfg, x, y)
  }

  /** `tiles[x][y] = state` */
  function Store(l: Layer, x: int, y: int, state: bool): (r: Layer)
    requires l.Valid() && !l.IsOutOfBounds(x, y)
    ensures r.Valid() && r.tilesX == l.tilesX && r.tilesY == l.tilesY && r.indices == l.indices
  {
    l.(tiles := Put(l.tiles, l.tilesX, l.tilesY, x, y, state))
  }

  /** The neighbour loop of `tileAt(x, y, state)`. */
  function RefreshBlock(l: Layer, cfg: Config, x: int, y: int): (r: Layer)
    requires l.Valid() && cfg.Valid()
    ensures r.Valid() && r.tilesX == l.tilesX && r.tilesY == l.tilesY && r.tiles == l.tiles
  {
    Refresh(Refresh(Refresh(Refresh(l, cfg, x, y), cfg, x + 1, y), cfg, x, y + 1), cfg, x + 1, y + 1)
  }

  /** `tileAt(x, y, state)` changes the occupancy of `(x, y)` and of no other cell. */
  lemma SetTiles(l: Layer, cfg: Config, x: int, y: int, state: bool, i: int, j: int)
    requires l.Valid() && cfg.Valid() && !l.IsOutOfBounds(i, j)
    ensures Set(l, cfg, x, y, state).tiles[i][j] == if i == x && j == y then state else l.tiles[i][j]
  {
  }

  /** Reading after a write: `tileAt(i, j)` returns the stored `state` at the
      written cell when it is inside the grid, and what it returned before
      everywhere else, outside cells included. */
  lemma TileAtAfterSet(l: Layer, cfg: Config, x: int, y: int, state: bool, i: int, j: int)
    requires l.Valid() && cfg.Valid()
    ensures Set(l, cfg, x, y, state).TileAt(i, j) ==
              if i == x && j == y && !l.IsOutOfBounds(x, y) then state else l.TileAt(i, j)
  {
    if !l.IsOutOfBounds(i, j) {
      SetTiles(l, cfg, x, y, state, i, j);
    }
  }

  /** Only the four cells whose mask samples `(x, y)` can get a new index. */
  lemma SetIndicesLocal(l: Layer, cfg: Config, x: int, y: int, state: bool, i: int, j: int)
    requires l.Valid() && cfg.Valid() && !l.IsOutOfBounds(i, j) && !InBlock(x, y, i, j)
    ensures Set(l, cfg, x, y, state).indices[i][j] == l.indices[i][j]
  {
  }

  /** Each of those four cells that lies inside the grid ends up with the
      table entry of its mask over the new occupancy. */
  lemma SetIndicesRefreshed(l: Layer, cfg: Config, x: int, y: int, state: bool, i: int, j: int)
    requires l.Valid() && cfg.Valid() && !l.IsOutOfBounds(x, y) && !l.IsOutOfBounds(i, j) && InBlock(x, y, i, j)
    ensures IndexCorrect(Set(l, cfg, x, y, state), cfg, i, j)
  {
    var l0 := Store(l, x, y, state);
    var l1 := Refresh(l0, cfg, x, y);
    var l2 := Refresh(l1, cfg, x + 1, y);
    var l3 := Refresh(l2, cfg, x, y + 1);
    var r := Refresh(l3, cfg, x + 1, y + 1);
    assert r == Set(l, cfg, x, y, state);
    MaskReadsTiles(r, l0, i, j);
    MaskReadsTiles(l1, l0, i, j);
    MaskReadsTiles(l2, l0, i, j);
    MaskReadsTiles(l3, l0, i, j);
  }

  /** `set` keeps the cache invariant. */
  lemma SetPreservesInv(l: Layer, cfg: Config, x: int, y: int, state: bool)
    requires l.Valid() && cfg.Valid() && Inv(l, cfg)
    ensures Inv(Set(l, cfg, x, y, state), cfg)
  {
    var r := Set(l, cfg, x, y, state);
    forall i, j | 0 <= i < l.tilesX && 0 <= j < l.tilesY
      ensures IndexCorrect(r, cfg, i, j)
    {
      if !l.IsOutOfBounds(x, y) && InBlock(x, y, i, j) {
        SetIndicesRefreshed(l, cfg, x, y, state, i, j);
      } else {
        forall a, b | !l.IsOutOfBounds(a, b) && (a != x || b != y)
          ensures r.tiles[a][b] == l.tiles[a][b]
        {
          SetTiles(l, cfg, x, y, state, a, b);
        }
        if !l.IsOutOfBounds(x, y) { SetIndicesLocal(l, cfg, x, y, state, i, j); }
        // none of the four cells the mask of (i, j) samples is (x, y)
        assert r.TileAt(i - 1, j) == l.TileAt(i - 1, j);
        assert r.TileAt(i, j) == l.TileAt(i, j);
        assert r.TileAt(i - 1, j - 1) == l.TileAt(i - 1, j - 1);
        assert r.TileAt(i, j - 1) == l.TileAt(i, j - 1);
        assert IndexCorrect(l, cfg, i, j);
      }
    }
  }

  /** `fill(state)`: every tile becomes `state` and every index the entry of
      the uniform mask `0b1111` or `0b0000`, edges included. */
  function Fill(l: Layer, cfg: Config, state: bool): (r: Layer)
    requires l.Valid() && cfg.Valid()
    ensures r.Valid() && r.tilesX == l.tilesX && r.tilesY == l.tilesY
    ensures forall x, y :: 0 <= x < l.tilesX && 0 <= y < l.tilesY ==>
              r.tiles[x][y] == state && r.indices[x][y] == cfg.Lookup(if state then 0xF else 0)
  {
    l.(tiles := Constant(l.tilesX, l.tilesY, state),
       indices := Constant(l.tilesX, l.tilesY, cfg.Lookup(if state then 0xF else 0)))
  }

  /** The constructor `TileLayer(tilesX, tilesY, ..., fill)`: allocate both
      grids, which fails on a negative dimension, then `fill(fill)`. */
  function NewLayer(tilesX: int, tilesY: int, cfg: Config, fill: bool): (r: Result<Layer>)
    requires cfg.Valid()
    ensures r.Ok? <==> tilesX >= 0 && tilesY >= 0
    ensures r.Err? ==> r.error == NegativeArraySize
    ensures r.Ok? ==> r.value.Valid() && r.value.tilesX == tilesX && r.value.tilesY == tilesY
    ensures r.Ok? ==> forall x, y :: 0 <= x < tilesX && 0 <= y < tilesY ==>
              r.value.tiles[x][y] == fill && r.value.indices[x][y] == cfg.Lookup(if fill then 0xF else 0)
  {
    if tilesX < 0 || tilesY < 0 then Err(NegativeArraySize)
    else
      var blank := Layer(tilesX, tilesY, Constant(tilesX, tilesY, false), Constant(tilesX, tilesY, 0));
      Ok(Fill(blank, cfg, fill))
  }

  /** `tileAt(x, y)` answers `false` just outside each edge, whatever the grid holds. */
  lemma BoundaryReadsEmpty(l: Layer)
    requires l.Valid()
    ensures !l.TileAt(-1, 0) && !l.TileAt(l.tilesX, 0) && !l.TileAt(0, -1) && !l.TileAt(0, l.tilesY)
  {
  }

  /** An empty layer satisfies the invariant: every mask is 0. */
  lemma FillFalseEstablishesInv(l: Layer, cfg: Config)
    requires l.Valid() && cfg.Valid()
    ensures Inv(Fill(l, cfg, false), cfg)
  {
    var r := Fill(l, cfg, false);
    forall x, y | 0 <= x < l.tilesX && 0 <= y < l.tilesY
      ensures IndexCorrect(r, cfg, x, y)
    {
      assert Mask(r, x, y) == 0;
    }
  }

  /** After `fill(true)` the masks are not uniform: cells of column 0 miss
      bits 3 and 1, cells of row 0 miss bits 1 and 0. */
  lemma FillTrueMask(l: Layer, cfg: Config, x: int, y: int)
    requires l.Valid() && cfg.Valid() && !l.IsOutOfBounds(x, y)
    ensures Mask(Fill(l, cfg, true), x, y) == 8 * Bit(x > 0) + 4 + 2 * Bit(x > 0 && y > 0) + Bit(y > 0)
  {
  }

  /** With a table that tells masks apart, `fill(true)` leaves exactly the
      cells of column 0 and row 0 with an index that disagrees with their mask. */
  lemma FillTrueIndexCorrectIff(l: Layer, cfg: Config, x: int, y: int)
    requires l.Valid() && cfg.Valid() && Injective(cfg.table) && !l.IsOutOfBounds(x, y)
    ensures IndexCorrect(Fill(l, cfg, true), cfg, x, y) <==> x > 0 && y > 0
  {
    FillTrueMask(l, cfg, x, y);
    var m := Mask(Fill(l, cfg, true), x, y);
    if !(x > 0 && y > 0) {
      assert m != 0xF;
      assert cfg.table[m] != cfg.table[0xF];
    }
  }

  /** So the invariant does not survive `fill(true)` on a non-empty grid. */
  lemma FillTrueBreaksInv(l: Layer, cfg: Config)
    requires l.Valid() && cfg.Valid() && Injective(cfg.table) && l.tilesX > 0 && l.tilesY > 0
    ensures !Inv(Fill(l, cfg, true), cfg)
  {
    FillTrueIndexCorrectIff(l, cfg, 0, 0);
  }

  /** The cells `[x1, x2) × [y1, y2)`, column by column (`x` outer, `y` inner),
      the order of the nested loops in `read` and in the render strategies. */
  function Cells(x1: int, x2: int, y1: int, y2: int): (cs: seq<Cell>)
    ensures forall c :: c in cs <==> x1 <= c.0 < x2 && y1 <= c.1 < y2
    decreases x2 - x1
  {
    if x1 >= x2 then [] else Column(x1, y1, y2) + Cells(x1 + 1, x2, y1, y2)
  }

  /** The cells `(x, y1) .. (x, y2 - 1)`. */
  function Column(x: int, y1: int, y2: int): (cs: seq<Cell>)
    ensures forall c :: c in cs <==> c.0 == x && y1 <= c.1 < y2
    decreases y2 - y1
  {
    if y1 >= y2 then [] else [(x, y1)] + Column(x, y1 + 1, y2)
  }

  /** One more column adds one column's worth of cells: `(a + 1) * b == a * b + b`. */
  lemma MulSucc(a: int, b: int)
    ensures (a + 1) * b == a * b + b
  {
  }

  /** Every listed cell lies inside the layer. */
  predicate AllInBounds(l: Layer, cells: seq<Cell>) {
    forall c :: c in cells ==> !l.IsOutOfBounds(c.0, c.1)
  }

  /** `tileAt(c.x, c.y, g[c.x][c.y])` for each listed cell in turn. */
  function LoadCells(l: Layer, cfg: Config, g: seq<seq<bool>>, cells: seq<Cell>): (r: Layer)
    requires l.Valid() && cfg.Valid() && IsGrid(g, l.tilesX, l.tilesY) && AllInBounds(l, cells)
    ensures r.Valid() && r.tilesX == l.tilesX && r.tilesY == l.tilesY
    ensures forall x, y :: 0 <= x < l.tilesX && 0 <= y < l.tilesY ==>
              r.tiles[x][y] == if (x, y) in cells then g[x][y] else l.tiles[x][y]
    ensures Inv(l, cfg) ==> Inv(r, cfg)
    decreases |cells|
  {
    if cells == [] then l
    else
      var (x, y) := cells[0];
      var l' := Set(l, cfg, x, y, g[x][y]);
      assert Inv(l, cfg) ==> Inv(l', cfg) by {
        if Inv(l, cfg) { SetPreservesInv(l, cfg, x, y, g[x][y]); }
      }
      assert forall c :: c in cells[1..] ==> c in cells;
      forall i, j | 0 <= i < l.tilesX && 0 <= j < l.tilesY
        ensures l'.tiles[i][j] == if i == x && j == y then g[x][y] else l.tiles[i][j]
      {
        SetTiles(l, cfg, x, y, g[x][y], i, j);
      }
      LoadCells(l', cfg, g, cells[1..])
  }

  /** The invariant leaves no freedom: the occupancy determines the cache. */
  lemma InvDeterminesIndices(l: Layer, l': Layer, cfg: Config)
    requires l.Valid() && l'.Valid() && cfg.Valid() && SameTiles(l, l')
    requires Inv(l, cfg) && Inv(l', cfg)
    ensures l == l'
  {
    forall x | 0 <= x < l.tilesX
      ensures l.tiles[x] == l'.tiles[x] && l.indices[x] == l'.indices[x]
    {
      forall y | 0 <= y < l.tilesY
        ensures l.indices[x][y] == l'.indices[x][y]
      {
        assert IndexCorrect(l, cfg, x, y) && IndexCorrect(l', cfg, x, y);
        MaskReadsTiles(l, l', x, y);
      }
    }
  }
}
