/** The 32-bit index by which AtomicHashMap names a cell of any of its sub-maps (AtomicHashMap-inl.h). */
module MapIndices {

  const SECONDARY_MAP_BIT: bv32 := 0x8000_0000
  const SUB_MAP_INDEX_MASK: bv32 := 0x07FF_FFFF
  const NUM_SUB_MAPS: bv32 := 16

  datatype CellRef = CellRef(subMap: bv32, offset: bv32)

  /** encodeIndex: the primary map's offsets stand for themselves. */
  function Encode(cell: CellRef): bv32 {
    if cell.subMap == 0 then cell.offset
    else cell.offset | (cell.subMap << 27) | SECONDARY_MAP_BIT
  }

  /** findAtInternal. */
  function Decode(index: bv32): CellRef {
    if index & SECONDARY_MAP_BIT != 0 then
      var rest := index & !SECONDARY_MAP_BIT;
      CellRef(rest >> 27, rest & SUB_MAP_INDEX_MASK)
    else
      CellRef(0, index)
  }

  /** The sizes an index can name: 2^31 cells of the primary map, 2^27 of each of the fifteen others. */
  predicate Nameable(cell: CellRef) {
    if cell.subMap == 0 then cell.offset < 0x8000_0000
    else cell.subMap < NUM_SUB_MAPS && cell.offset < 0x0800_0000
  }

  /** A cell's index names it exactly when the cell is within those sizes. */
  lemma IndexNamesCell(cell: CellRef)
    ensures Decode(Encode(cell)) == cell <==> Nameable(cell)
  {
    var m, o := cell.subMap, cell.offset;
    if m != 0 {
      var index := Encode(cell);
      assert index & SECONDARY_MAP_BIT != 0;
      var rest := index & !SECONDARY_MAP_BIT;
      assert rest >> 27 < NUM_SUB_MAPS && rest & SUB_MAP_INDEX_MASK < 0x0800_0000;
    }
  }
}
