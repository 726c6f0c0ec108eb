/**
  The auto-tile table: a map from a 4-bit neighbour mask to one of the 16
  tile variants of the atlas, together with the cached variant of mask 0
  (`zeroIndex`), which the VIEW_QUADS strategies treat as "nothing to draw".
  The Java layer keeps both in static fields; here they are one value that
  is passed to every operation that needs it.
*/
module AutoTile {

  /** A total table: one variant index in 0..15 for every mask in 0..15. */
  predicate IsTable(t: seq<int>) {
    |t| == 16 && forall m :: 0 <= m < 16 ==> 0 <= t[m] < 16
  }

  /** No two masks share a variant. */
  predicate Injective(t: seq<int>)
    requires IsTable(t)
  {
    forall m, m' :: 0 <= m < 16 && 0 <= m' < 16 && m != m' ==> t[m] != t[m']
  }

  /** Every variant is used by some mask. */
  predicate Surjective(t: seq<int>)
    requires IsTable(t)
  {
    forall v :: 0 <= v < 16 ==> v in t
  }

  datatype Config = Config(table: seq<int>, zeroIndex: int) {

    /** The table is total and `zeroIndex` is the entry of mask 0. */
    predicate Valid() {
      IsTable(table) && zeroIndex == table[0]
    }

    /** `configuration.get(bitmask)` */
    function Lookup(mask: int): (v: int)
      requires Valid() && 0 <= mask < 16
      ensures 0 <= v < 16
    {
      table[mask]
    }
  }

  /** The table the static initialiser installs. */
  function Default(): (c: Config)
    ensures c.Valid()
    ensures c.zeroIndex == c.Lookup(0) == 12
    ensures c.Lookup(0xF) == 6
    ensures Injective(c.table) && Surjective(c.table)
  {
    //            0000 0001 0010 0011 0100 0101 0110 0111
    var table := [12,  13,  0,   3,   8,   1,   14,  5,
    //            1000 1001 1010 1011 1100 1101 1110 1111
                  15,  4,   11,  2,   9,   10,  7,   6];
    Config(table, 12)
  }

  /** The maps `setAutoTileConfiguration` accepts without a later null unboxing:
      an entry in 0..15 for each of the 16 masks (other keys are never read). */
  predicate CoversAllMasks(m: map<int, int>) {
    forall k :: 0 <= k < 16 ==> k in m && 0 <= m[k] < 16
  }

  /** `setAutoTileConfiguration`: the table is replaced as a whole and
      `zeroIndex` is re-read from the new entry of mask 0. */
  function SetAutoTileConfiguration(m: map<int, int>): (c: Config)
    requires CoversAllMasks(m)
    ensures c.Valid()
    ensures forall k :: 0 <= k < 16 ==> c.Lookup(k) == m[k]
    ensures c.zeroIndex == m[0]
  {
    Config(seq(16, k requires 0 <= k < 16 && CoversAllMasks(m) => m[k]), m[0])
  }
}
