/**
  What `write` stores and `read` rebuilds, apart from the UBJson container
  and the float fields: the grid dimensions, the render strategy's name and
  the packed occupancy. The cached indices are not stored; `read` recomputes
  them by setting every cell of a freshly emptied layer.
*/
module Serialization {
  import opened Results
  import opened AutoTile
  import opened TileGrid
  import opened BitPacker
  import opened Render

  /** A layer's render strategy: one of the enum constants, or an instance of
      some other class implementing `RenderStrategy`. */
  datatype Strategy = Builtin(constant: IntegratedStrategy) | Custom(simpleName: string)

  /** `Enum.name()` of each constant. */
  function Name(s: IntegratedStrategy): string {
    match s
    case AllTilesAllQuads => "ALL_TILES_ALL_QUADS"
    case AllTilesViewQuads => "ALL_TILES_VIEW_QUADS"
    case ViewTilesAllQuads => "VIEW_TILES_ALL_QUADS"
    case ViewTilesViewQuads => "VIEW_TILES_VIEW_QUADS"
  }

  /** `IntegratedStrategy.nameOf`: the constant's name, or else the class's
      simple name; nothing is refused. */
  function NameOf(s: Strategy): (r: string)
    ensures s.Builtin? ==> ValueOf(r) == Ok(s.constant)
    ensures s.Custom? ==> r == s.simpleName
  {
    match s
    case Builtin(c) => Name(c)
    case Custom(n) => n
  }

  /** `IntegratedStrategy.valueOf`: the constant of that name, or an
      `IllegalArgumentException`. */
  function ValueOf(name: string): (r: Result<IntegratedStrategy>)
    ensures r.Ok? ==> Name(r.value) == name
    ensures r.Err? ==> r.error == UnknownStrategy(name) && forall s: IntegratedStrategy :: Name(s) != name
  {
    if name == "ALL_TILES_ALL_QUADS" then Ok(AllTilesAllQuads)
    else if name == "ALL_TILES_VIEW_QUADS" then Ok(AllTilesViewQuads)
    else if name == "VIEW_TILES_ALL_QUADS" then Ok(ViewTilesAllQuads)
    else if name == "VIEW_TILES_VIEW_QUADS" then Ok(ViewTilesViewQuads)
    else Err(UnknownStrategy(name))
  }

  /** Every built-in strategy is read back as itself. */
  lemma ValueOfNameOf(s: IntegratedStrategy)
    ensures ValueOf(NameOf(Builtin(s))) == Ok(s)
  {
  }

  /** A custom strategy is written under its simple name, and reading that
      name back fails unless it happens to spell one of the constants. */
  lemma ValueOfCustom(n: string)
    ensures ValueOf(NameOf(Custom(n))).Ok? <==> exists s: IntegratedStrategy :: Name(s) == n
  {
    if exists s: IntegratedStrategy :: Name(s) == n {
      var s: IntegratedStrategy :| Name(s) == n;
      ValueOfNameOf(s);
    }
  }

  /** The fields of the persisted record that the model keeps. */
  datatype Record = Record(tilesX: int, tilesY: int, renderStrategy: string, tiles: seq<bv8>)

  /** `write`: dimensions, `nameOf(renderStrategy)`, `_compress(tiles)`. */
  function Write(l: Layer, s: Strategy): (r: Record)
    requires l.Valid()
    ensures |r.tiles| == (l.tilesX * l.tilesY + 7) / 8
    ensures r.tilesX == l.tilesX && r.tilesY == l.tilesY && r.renderStrategy == NameOf(s)
    ensures Decompress(r.tiles, r.tilesX, r.tilesY) == l.tiles
  {
    DecompressCompress(l.tiles, l.tilesX, l.tilesY);
    Record(l.tilesX, l.tilesY, NameOf(s), Compress(l.tiles, l.tilesX, l.tilesY))
  }

  /** The exception `read` raises on a record it cannot load: the checks run
      in the order constructor, `valueOf`, `_decompress`, so the first one
      that fails decides. */
  function FirstFailure(r: Record): Error {
    if r.tilesX < 0 || r.tilesY < 0 then NegativeArraySize
    else if ValueOf(r.renderStrategy).Err? then UnknownStrategy(r.renderStrategy)
    else TruncatedTiles
  }

  /** The loop of `read`: setting every cell of an empty layer from `g` yields
      occupancy `g` and a layer that satisfies the cache invariant. */
  lemma LoadAll(empty: Layer, cfg: Config, g: seq<seq<bool>>)
    requires empty.Valid() && cfg.Valid() && IsGrid(g, empty.tilesX, empty.tilesY)
    requires empty == Fill(empty, cfg, false)
    ensures var l := LoadCells(empty, cfg, g, Cells(0, empty.tilesX, 0, empty.tilesY));
            l.Valid() && l.tilesX == empty.tilesX && l.tilesY == empty.tilesY && l.tiles == g && Inv(l, cfg)
  {
    var w, h := empty.tilesX, empty.tilesY;
    var l := LoadCells(empty, cfg, g, Cells(0, w, 0, h));
    FillFalseEstablishesInv(empty, cfg);
    forall x | 0 <= x < w
      ensures l.tiles[x] == g[x]
    {
      assert forall y :: 0 <= y < h ==> (x, y) in Cells(0, w, 0, h);
    }
  }

  /** A layer rebuilt by `read`, with the strategy it is to render with. */
  datatype Loaded = Loaded(layer: Layer, strategy: IntegratedStrategy)

  /** `read`: construct an empty layer (fails on a negative dimension), look up
      the strategy name (fails on an unknown one), unpack the occupancy (fails
      when the buffer is too short; extra bytes are ignored), then
      `tileAt(x, y, tiles[x][y])` for every cell, `x` outer, `y` inner. */
  function Read(r: Record, cfg: Config): (res: Result<Loaded>)
    requires cfg.Valid()
    ensures res.Ok? <==>
              r.tilesX >= 0 && r.tilesY >= 0 && ValueOf(r.renderStrategy).Ok? &&
              |r.tiles| >= (r.tilesX * r.tilesY + 7) / 8
    ensures res.Ok? ==>
              var l := res.value.layer;
              && l.Valid() && l.tilesX == r.tilesX && l.tilesY == r.tilesY
              && l.tiles == Decompress(r.tiles, l.tilesX, l.tilesY)
              && Inv(l, cfg)
              && Name(res.value.strategy) == r.renderStrategy
    ensures res.Err? ==> res.error == FirstFailure(r)
  {
    match NewLayer(r.tilesX, r.tilesY, cfg, false)
    case Err(e) => Err(e)
    case Ok(empty) =>
      match ValueOf(r.renderStrategy)
      case Err(e) => Err(e)
      case Ok(s) =>
        var w, h := empty.tilesX, empty.tilesY;
        if |r.tiles| < (w * h + 7) / 8 then Err(TruncatedTiles)
        else
          var g := Decompress(r.tiles, w, h);
          var l := LoadCells(empty, cfg, g, Cells(0, w, 0, h));
          assert empty == Fill(empty, cfg, false);
          LoadAll(empty, cfg, g);
          Ok(Loaded(l, s))
  }

  /** Writing a layer that satisfies the cache invariant with a built-in
      strategy and reading it back gives the same layer, indices included. */
  lemma ReadWrite(l: Layer, cfg: Config, s: IntegratedStrategy)
    requires l.Valid() && cfg.Valid() && Inv(l, cfg)
    ensures Read(Write(l, Builtin(s)), cfg) == Ok(Loaded(l, s))
  {
    var rec := Write(l, Builtin(s));
    ValueOfNameOf(s);
    DecompressCompress(l.tiles, l.tilesX, l.tilesY);
    var res := Read(rec, cfg);
    InvDeterminesIndices(res.value.layer, l, cfg);
  }

  /** For any layer, invariant or not, writing with a built-in strategy and
      reading back restores the occupancy, and the rebuilt indices satisfy
      the cache invariant. */
  lemma ReadWriteRestoresTiles(l: Layer, cfg: Config, s: IntegratedStrategy)
    requires l.Valid() && cfg.Valid()
    ensures var res := Read(Write(l, Builtin(s)), cfg);
            res.Ok? && res.value.layer.tiles == l.tiles && Inv(res.value.layer, cfg) && res.value.strategy == s
  {
    ValueOfNameOf(s);
  }

  /** So a layer fresh from `fill(true)` does not survive the round trip
      unchanged: `read` rebuilds the indices of column 0 and row 0 that
      `fill(true)` left out of step with their masks. */
  lemma ReadWriteRepairsFillTrue(l: Layer, cfg: Config, s: IntegratedStrategy)
    requires l.Valid() && cfg.Valid() && Injective(cfg.table) && l.tilesX > 0 && l.tilesY > 0
    ensures Read(Write(Fill(l, cfg, true), Builtin(s)), cfg).value.layer != Fill(l, cfg, true)
  {
    var f := Fill(l, cfg, true);
    ReadWriteRestoresTiles(f, cfg, s);
    FillTrueBreaksInv(l, cfg);
  }

  /** A custom strategy is accepted by `write` but its record cannot be read
      back, unless its simple name spells one of the constants. */
  lemma ReadWriteCustom(l: Layer, cfg: Config, n: string)
    requires l.Valid() && cfg.Valid()
    requires forall s: IntegratedStrategy :: Name(s) != n
    ensures Read(Write(l, Custom(n)), cfg) == Err(UnknownStrategy(n))
  {
  }
}
