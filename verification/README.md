# TileLayer auto-tiling grid, in Dafny

A model of the core of `TileLayer`, the auto-tiling tile layer of
GwtAdvTilemaps. A layer has a boolean occupancy grid `tiles[x][y]` and a
cached grid `indices[x][y]`. Each index is one of 16 tile variants. The
auto-tile table picks the variant from a 4-bit neighbour mask.

The model covers:

- the auto-tile table and its cached `zeroIndex`;
- `isOutOfBounds`, both `tileAt` methods, `fill` and the constructor;
- the bit packing done by `_compress` and `_decompress`;
- grid reconstruction in `read`, and the strategy name stored by `write`;
- the integer side of the four `IntegratedStrategy.render` loops: cells visited, draws made, and the two counters;
- `nameOf` and `valueOf`.

Modules, one file each:

- `results.dfy` (`Results`): the Java exceptions the modelled operations raise, as a `Result`.
- `autotile.dfy` (`AutoTile`): the table as a value `Config(table, zeroIndex)`. It is passed explicitly instead of living in static fields.
- `grid.dfy` (`TileGrid`): the `Layer` datatype, neighbour masks, `Set` (`tileAt(x, y, state)`), `Fill`, and the cache invariant `Inv`. `Inv` says `indices[c] == table[mask(c)]` for every cell.
- `bitpacker.dfy` (`BitPacker`): bytes as `bv8`, with cell `(x, y)` at bit `y * tilesX + x`, least significant bit first.
- `render.dfy` (`Render`): the four strategies. A render yields the sequence of draws and the two counters.
- `serialization.dfy` (`Serialization`): strategy names, and the `read`/`write` of the packed grid.

Three behaviours of the code worth knowing, all kept in the model:

- `write` does not refuse a strategy that is not one of the four constants. It stores the class's simple name, and `read` later fails on that name unless it spells a constant (`ReadWriteCustom`, `ValueOfCustom`).
- A packed buffer of the wrong length is not always rejected. One that is too short makes `_decompress` index past its end, which is an error. Extra bytes are accepted (`Read`) and never read (`DecompressIgnoresExtra`).
- The cache invariant does not survive `fill(true)`. It writes the entry of mask `0b1111` everywhere, but the cells of column 0 and row 0 have masks with missing bits, because `tileAt` reads outside cells as empty. The model proves exactly where the invariant fails (`FillTrueIndexCorrectIff`).

## Model

| member | source | states |
|---|---|---|
| AutoTile.Default | core/src/main/java/me/nulldoubt/advancedtilemaps/gwt/TileLayer.java:33-50 | the default table covers all 16 masks and maps 0..15 one-to-one onto 0..15; `zeroIndex` equals the entry of mask 0, which is 12; mask `0b1111` maps to 6 |
| AutoTile.SetAutoTileConfiguration | core/src/main/java/me/nulldoubt/advancedtilemaps/gwt/TileLayer.java:62-66 | replacing the table takes every entry from the given map; `zeroIndex` is re-read as the new entry of mask 0 |
| TileGrid.NewLayer | core/src/main/java/me/nulldoubt/advancedtilemaps/gwt/TileLayer.java:192-210 | construction fails exactly when a dimension is negative; otherwise both grids have the given shape and hold the `fill(fill)` values |
| TileGrid.Mask | core/src/main/java/me/nulldoubt/advancedtilemaps/gwt/TileLayer.java:344-348 | the mask lies in 0..15; it is 0 exactly when none of the four sampled cells is occupied, and 15 exactly when all four are |
| TileGrid.Layer.TileAt | core/src/main/java/me/nulldoubt/advancedtilemaps/gwt/TileLayer.java:324-332 | `tileAt(x, y)` is true only inside the grid (`isOutOfBounds` is false) and there reads the occupancy; `TileAtAfterSet` ties it to the setter |
| TileGrid.TileAtAfterSet | core/src/main/java/me/nulldoubt/advancedtilemaps/gwt/TileLayer.java:324-337 | after `tileAt(x, y, state)`, `tileAt(x, y)` returns `state` if `(x, y)` is inside the grid; every other read, outside cells included, is unchanged |
| TileGrid.BoundaryReadsEmpty | core/src/main/java/me/nulldoubt/advancedtilemaps/gwt/TileLayer.java:324-332 | `tileAt` reads false one step outside each edge, whatever the grid holds |
| TileGrid.Set | core/src/main/java/me/nulldoubt/advancedtilemaps/gwt/TileLayer.java:334-336 | an out-of-bounds `tileAt(x, y, state)` leaves the layer unchanged; any write keeps the dimensions and the grid shapes |
| TileGrid.SetTiles | core/src/main/java/me/nulldoubt/advancedtilemaps/gwt/TileLayer.java:334-337 | a write changes the occupancy of `(x, y)` to `state` and of no other cell |
| TileGrid.SetIndicesLocal | core/src/main/java/me/nulldoubt/advancedtilemaps/gwt/TileLayer.java:338-350 | indices outside the block `(x..x+1, y..y+1)` are unchanged |
| TileGrid.SetIndicesRefreshed | core/src/main/java/me/nulldoubt/advancedtilemaps/gwt/TileLayer.java:338-349 | each in-bounds cell of that block gets the table entry of its mask over the new occupancy |
| TileGrid.Refresh | core/src/main/java/me/nulldoubt/advancedtilemaps/gwt/TileLayer.java:339-349 | one iteration of the neighbour loop changes at most the index of that neighbour, to the entry of its mask, and never the occupancy |
| TileGrid.SetPreservesInv | core/src/main/java/me/nulldoubt/advancedtilemaps/gwt/TileLayer.java:334-351 | if every index agrees with its mask before a write, it does after |
| TileGrid.Fill | core/src/main/java/me/nulldoubt/advancedtilemaps/gwt/TileLayer.java:316-322 | every tile becomes `state`; every index becomes the entry of mask `0b1111` or `0b0000`, edges included |
| TileGrid.FillFalseEstablishesInv | core/src/main/java/me/nulldoubt/advancedtilemaps/gwt/TileLayer.java:316-322 | after `fill(false)` every index agrees with its mask |
| TileGrid.FillTrueMask | core/src/main/java/me/nulldoubt/advancedtilemaps/gwt/TileLayer.java:316-322 | after `fill(true)`, column 0 lacks mask bits 3 and 1, row 0 lacks bits 1 and 0, and interior cells have mask 15 |
| TileGrid.FillTrueIndexCorrectIff | core/src/main/java/me/nulldoubt/advancedtilemaps/gwt/TileLayer.java:316-322 | with an injective table, after `fill(true)` a cell's index agrees with its mask if and only if it is off column 0 and row 0 |
| TileGrid.FillTrueBreaksInv | core/src/main/java/me/nulldoubt/advancedtilemaps/gwt/TileLayer.java:316-322 | with an injective table, `fill(true)` on a non-empty grid violates the cache invariant |
| TileGrid.Cells | core/src/main/java/me/nulldoubt/advancedtilemaps/gwt/TileLayer.java:105-106 | the nested `x`/`y` loops visit exactly the cells of the rectangle |
| TileGrid.LoadCells | core/src/main/java/me/nulldoubt/advancedtilemaps/gwt/TileLayer.java:105-107 | writing a source grid cell by cell sets exactly the listed cells to the source values and keeps the cache invariant |
| TileGrid.InvDeterminesIndices | core/src/main/java/me/nulldoubt/advancedtilemaps/gwt/TileLayer.java:185-186 | two layers with the same occupancy that both satisfy the cache invariant are equal |
| BitPacker.Byte | core/src/main/java/me/nulldoubt/advancedtilemaps/gwt/TileLayer.java:145 | bit `j` of a packed byte is input bit `j`; bits past the input are zero |
| BitPacker.BitIndexIsRowMajor | core/src/main/java/me/nulldoubt/advancedtilemaps/gwt/TileLayer.java:141-147 | the stream position `BitIndex(tilesX, x, y)` the loops give cell `(x, y)` is `y * tilesX + x` |
| BitPacker.BitIndexInRange | core/src/main/java/me/nulldoubt/advancedtilemaps/gwt/TileLayer.java:137-138 | every cell's position lies below `tilesX * tilesY`, so it falls inside the `(tilesX * tilesY + 7) / 8` bytes |
| BitPacker.CellOfBitIndex | core/src/main/java/me/nulldoubt/advancedtilemaps/gwt/TileLayer.java:155-161 | every position below `tilesX * tilesY` is the position of some cell |
| BitPacker.Flatten | core/src/main/java/me/nulldoubt/advancedtilemaps/gwt/TileLayer.java:141-148 | the loop order puts cell `(x, y)` at its stream position `BitIndex(tilesX, x, y)` |
| BitPacker.Pack | core/src/main/java/me/nulldoubt/advancedtilemaps/gwt/TileLayer.java:137-149 | packing gives `(n + 7) / 8` bytes; stream bit `k` is input bit `k`; the unused high bits of the last byte are zero |
| BitPacker.Compress | core/src/main/java/me/nulldoubt/advancedtilemaps/gwt/TileLayer.java:136-150 | `_compress` output has length `(tilesX * tilesY + 7) / 8`; cell `(x, y)` is stream bit `BitIndex(tilesX, x, y)`, that is bit `p % 8` of byte `p / 8`; every bit past the grid is zero |
| BitPacker.Decompress | core/src/main/java/me/nulldoubt/advancedtilemaps/gwt/TileLayer.java:152-163 | `_decompress` yields a `tilesX` × `tilesY` grid; it undoes `_compress` and is undone by it (`DecompressCompress`, `CompressDecompress`) |
| BitPacker.DecompressIgnoresExtra | core/src/main/java/me/nulldoubt/advancedtilemaps/gwt/TileLayer.java:152-163 | bytes past the grid's `tilesX * tilesY` bits do not change what `_decompress` returns |
| BitPacker.DecompressCompress | core/src/main/java/me/nulldoubt/advancedtilemaps/gwt/TileLayer.java:136-163 | `_decompress(_compress(g)) == g` for every grid |
| BitPacker.CompressDecompress | core/src/main/java/me/nulldoubt/advancedtilemaps/gwt/TileLayer.java:136-163 | a buffer of exactly the packed length with zero padding bits is rebuilt by `_compress(_decompress(bytes))` |
| Render.WindowOf | core/src/main/java/me/nulldoubt/advancedtilemaps/gwt/TileLayer.java:444-447 | the visited window lies inside the grid; it is the whole grid for ALL_TILES; for VIEW_TILES it is exactly the in-bounds cells between the view's first and last column and row, and empty when the last column or row is `Integer.MAX_VALUE`, because the `+ 1` wraps around |
| Render.Visit | core/src/main/java/me/nulldoubt/advancedtilemaps/gwt/TileLayer.java:477-491 | the loop body draws each visited cell with its own index, except the zero variant under VIEW_QUADS; it draws nothing else; draws keep the visiting order; `quadsRendered` counts the draws |
| Render.CellsAscending | core/src/main/java/me/nulldoubt/advancedtilemaps/gwt/TileLayer.java:450-451 | the loops visit cells in strictly increasing (x, then y) order |
| Render.VisitCountsTiles | core/src/main/java/me/nulldoubt/advancedtilemaps/gwt/TileLayer.java:479-480 | over distinct cells, `tilesRendered` is the number of occupied ones |
| Render.VisitCountsQuads | core/src/main/java/me/nulldoubt/advancedtilemaps/gwt/TileLayer.java:481-484 | over distinct cells, `quadsRendered` is the number of cells not skipped |
| Render.RenderFrame | core/src/main/java/me/nulldoubt/advancedtilemaps/gwt/TileLayer.java:389-493 | `render` resets both counters and runs the strategy's loops: `quadsRendered` counts the draws, and each draw is for a window cell with that cell's index; `RenderCounters` and `RenderDraws` give the counts and the order |
| Render.RenderCounters | core/src/main/java/me/nulldoubt/advancedtilemaps/gwt/TileLayer.java:389-493 | after reset, `tilesRendered` is the number of occupied window cells; `quadsRendered` is the window area under ALL_QUADS and the number of window cells whose index is not `zeroIndex` under VIEW_QUADS |
| Render.RenderDraws | core/src/main/java/me/nulldoubt/advancedtilemaps/gwt/TileLayer.java:389-493 | draws come in x-outer, y-inner order; each is for a window cell with that cell's index; every window cell is drawn except zero-variant cells under VIEW_QUADS |
| Render.ViewOutsideGridVisitsNothing | core/src/main/java/me/nulldoubt/advancedtilemaps/gwt/TileLayer.java:444-451 | if the view's cell range misses the grid on some side, a VIEW_TILES strategy draws and counts nothing |
| Render.SaturatedViewVisitsNothing | core/src/main/java/me/nulldoubt/advancedtilemaps/gwt/TileLayer.java:444-451 | when the view's last column or row saturates at `Integer.MAX_VALUE`, a VIEW_TILES strategy draws and counts nothing, however much of the grid the view covers |
| Render.ExampleIndices | core/src/main/java/me/nulldoubt/advancedtilemaps/gwt/TileLayer.java:338-349 | on a fresh 4×4 layer with only (1,1) set, the four cells around it get the table entries of masks 4, 8, 1 and 2; all other cells keep the entry of mask 0 |
| Render.ExampleRender | core/src/main/java/me/nulldoubt/advancedtilemaps/gwt/TileLayer.java:465-491 | viewed whole with an injective table, that layer gives `tilesRendered = 1`, 4 quads under VIEW_QUADS and 16 under ALL_QUADS |
| Render.ExampleRenderDefault | core/src/main/java/me/nulldoubt/advancedtilemaps/gwt/TileLayer.java:391-493 | the same counts hold under the default table |
| Serialization.ValueOf | core/src/main/java/me/nulldoubt/advancedtilemaps/gwt/TileLayer.java:102 | `valueOf` returns the constant with that name; it fails with an unknown-strategy error exactly when no constant has that name |
| Serialization.NameOf | core/src/main/java/me/nulldoubt/advancedtilemaps/gwt/TileLayer.java:495-499 | a constant's name reads back through `valueOf` as that constant; any other strategy is named by its simple class name |
| Serialization.ValueOfNameOf | core/src/main/java/me/nulldoubt/advancedtilemaps/gwt/TileLayer.java:495-499 | `valueOf(nameOf(s)) == s` for each of the four constants |
| Serialization.ValueOfCustom | core/src/main/java/me/nulldoubt/advancedtilemaps/gwt/TileLayer.java:495-499 | a custom strategy's stored name reads back if and only if it spells a constant's name |
| Serialization.Write | core/src/main/java/me/nulldoubt/advancedtilemaps/gwt/TileLayer.java:116-134 | the record holds the layer's dimensions and `nameOf(renderStrategy)`; the tile buffer has length `(tilesX * tilesY + 7) / 8` and unpacks to the layer's occupancy |
| Serialization.Read | core/src/main/java/me/nulldoubt/advancedtilemaps/gwt/TileLayer.java:93-107 | `read` succeeds exactly when the dimensions are non-negative, the strategy name is known and the buffer is long enough; otherwise it raises the first failure in source order: negative array size, then unknown strategy, then a read past the buffer; on success the layer has the unpacked occupancy, satisfies the cache invariant and carries the named strategy |
| Serialization.LoadAll | core/src/main/java/me/nulldoubt/advancedtilemaps/gwt/TileLayer.java:104-107 | setting every cell of an empty layer from the unpacked grid yields that occupancy and a layer satisfying the cache invariant |
| Serialization.ReadWriteRestoresTiles | core/src/main/java/me/nulldoubt/advancedtilemaps/gwt/TileLayer.java:93-127 | for every layer, with or without the cache invariant, writing with a built-in strategy and reading back succeeds, restores the occupancy and the strategy, and yields indices that satisfy the invariant |
| Serialization.ReadWriteRepairsFillTrue | core/src/main/java/me/nulldoubt/advancedtilemaps/gwt/TileLayer.java:93-127 | with an injective table, a non-empty layer fresh from `fill(true)` comes back from the round trip with different indices, because `read` rebuilds the ones `fill(true)` left wrong |
| Serialization.ReadWrite | core/src/main/java/me/nulldoubt/advancedtilemaps/gwt/TileLayer.java:93-127 | writing a layer that satisfies the invariant, with a built-in strategy, and reading it back gives the same layer, indices included, and the same strategy |
| Serialization.ReadWriteCustom | core/src/main/java/me/nulldoubt/advancedtilemaps/gwt/TileLayer.java:102-126 | a custom strategy whose name spells no constant is written without complaint, but its record fails to read |

## Left out

- The UBJson container of `read`/`write`, and the float fields it carries (`tileWidth`, `tileHeight`, `unitScale`, `overlayScale`). These are library I/O and float values. Only the dimensions, the strategy name and the packed bytes are modelled.
- Float arithmetic. This covers draw positions and sizes, the atlas UV and inset computation in `setTileSet`, `setView`, `overlayScale` and `u_scale`. A draw is recorded as its cell and its atlas region index.
- Render.WindowOf: takes the four `(int)` casts of the view quotients as inputs in the `int` range. It does not model the float division, the cast's truncation toward zero and saturation, or the `offsetX`/`offsetY` that appear only in the start bounds. For that reason `ViewOutsideGridVisitsNothing` and `SaturatedViewVisitsNothing` are stated in cell units, not for view rectangles.
- Shader and texture binding in `render` and `setOverlay`. These are GPU calls.
- Custom `RenderStrategy` implementations. Their `render` is code outside this class; only their name is modelled (`Strategy.Custom`).
- The static `defaultRenderStrategy` and the inset tolerances. The table and `zeroIndex` are passed explicitly as a `Config` value.
- AutoTile.SetAutoTileConfiguration: requires an entry in 0..15 for every mask. In Java, a table missing mask 0 throws a null-unboxing exception at once; a table missing another mask throws on the first `tileAt` that needs it, or at `fill(true)` (the constructor included) when mask 15 is missing; a value outside 0..15 makes `render` index past the 16-region atlas.
- Java `int` overflow in the grid size: layers with 2^31 − 7 or more cells are out of scope, because `_compress` computes `tilesX * tilesY` and then `totalBits + 7` in `int`, and one of them wraps around. On such a layer `write` throws (a negative array size, or an index past the wrapped buffer length when an occupied cell lies beyond it) or stores a truncated buffer, while `Serialization.Write` succeeds. `bitIndex` and the render counters are unbounded integers here for the same reason.
- Missing or mistyped fields in a stored record. Null handling in `valueOf` is left out too.
- The getters and setters that only read or assign a field, for example `getTilesX` and `setRenderStrategy`.
- `GwtAdvTilemaps.java`, the demo application: input handling, camera movement, texture loading and the frame loop.
