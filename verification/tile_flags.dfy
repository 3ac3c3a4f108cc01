/** The tile-flag encoder `AdjustTileId`: a Pyxel Edit tile index, rotation
    class and horizontal-flip flag packed into one TMX global tile id whose
    top three bits are Tiled's flip flags. The tileset's firstgid is 1. */
module TileFlags {
  import opened ByteOrder

  const FlippedHorizontally: bv32 := 0x8000_0000   // bit 31
  const FlippedVertically: bv32 := 0x4000_0000     // bit 30
  const FlippedDiagonally: bv32 := 0x2000_0000     // bit 29
  /** The three flag bits together, and the 29 id bits below them. */
  const FlagMask: bv32 := 0xE000_0000
  const IdMask: bv32 := 0x1FFF_FFFF
  const FirstGid: bv32 := 1

  /** The flag word chosen by the two `switch` statements. A rotation
      outside 0..3 matches no case and leaves the word at zero. */
  function FlipState(rot: bv32, flipX: bool): (f: bv32)
    ensures f & IdMask == 0
    ensures rot > 3 ==> f == 0
  {
    if flipX then
      if rot == 0 then FlippedHorizontally
      else if rot == 1 then FlippedHorizontally | FlippedVertically | FlippedDiagonally
      else if rot == 2 then FlippedVertically
      else if rot == 3 then FlippedDiagonally
      else 0
    else
      if rot == 0 then 0
      else if rot == 1 then FlippedHorizontally | FlippedDiagonally
      else if rot == 2 then FlippedHorizontally | FlippedVertically
      else if rot == 3 then FlippedVertically | FlippedDiagonally
      else 0
  }

  /** The flag words of the eight (rotation, flip) classes, as hex. */
  lemma FlipStateTable()
    ensures FlipState(0, false) == 0
    ensures FlipState(1, false) == 0xA000_0000
    ensures FlipState(2, false) == 0xC000_0000
    ensures FlipState(3, false) == 0x6000_0000
    ensures FlipState(0, true) == 0x8000_0000
    ensures FlipState(1, true) == 0xE000_0000
    ensures FlipState(2, true) == 0x4000_0000
    ensures FlipState(3, true) == 0x2000_0000
  {
  }

  /** The packed global id: `tileId + 1` (unchecked, so 0xFFFF_FFFF wraps to
      0) with the flag word OR-ed in. */
  function PackedId(tileId: bv32, rot: bv32, flipX: bool): (p: bv32)
    ensures p & IdMask == (tileId + FirstGid) & IdMask
    ensures tileId < IdMask ==> p & IdMask == tileId + FirstGid && p & FlagMask == FlipState(rot, flipX)
    ensures p & FlagMask == ((tileId + FirstGid) & FlagMask) | FlipState(rot, flipX)
  {
    (tileId + FirstGid) | FlipState(rot, flipX)
  }

  /** The largest index wraps around to gid 0, leaving only the flags. */
  lemma PackedIdWraps(rot: bv32, flipX: bool)
    ensures PackedId(0xFFFF_FFFF, rot, flipX) == FlipState(rot, flipX)
  {
  }

  /** `AdjustTileId`: the packed id as the four bytes the TMX data blob
      stores, least significant first. */
  function AdjustTileId(tileId: bv32, rot: bv32, flipX: bool): (r: seq<bv8>)
    ensures |r| == 4
    ensures FromLittleEndian(r) == PackedId(tileId, rot, flipX)
  {
    DecodeEncode(PackedId(tileId, rot, flipX));
    ToLittleEndian(PackedId(tileId, rot, flipX))
  }

  /** Recovers the (rotation, flip) class from the top three bits of a word;
      the inverse of `FlipState` on the eight classes. */
  function DecodeFlags(p: bv32): (c: (bv32, bool))
    ensures c.0 <= 3
  {
    var f := p & FlagMask;
    if f == 0 then (0, false)
    else if f == 0xA000_0000 then (1, false)
    else if f == 0xC000_0000 then (2, false)
    else if f == 0x6000_0000 then (3, false)
    else if f == 0x8000_0000 then (0, true)
    else if f == 0xE000_0000 then (1, true)
    else if f == 0x4000_0000 then (2, true)
    else (3, true)
  }

  /** Distinct classes get distinct flag words: decoding recovers the class. */
  lemma DecodeFlipState(rot: bv32, flipX: bool)
    requires rot <= 3
    ensures DecodeFlags(FlipState(rot, flipX)) == (rot, flipX)
  {
  }

  /** Every combination of the three flag bits is the word of some class. */
  lemma FlipStateOfDecode(p: bv32)
    ensures FlipState(DecodeFlags(p).0, DecodeFlags(p).1) == p & FlagMask
  {
  }

  /** Decoding a packed id (low 29 bits minus firstgid, class from the top
      three bits) and packing again reproduces it, whenever the id fits in
      the 29 id bits. */
  lemma PackedIdRoundTrip(tileId: bv32, rot: bv32, flipX: bool)
    requires tileId < IdMask && rot <= 3
    ensures (PackedId(tileId, rot, flipX) & IdMask) - FirstGid == tileId
    ensures DecodeFlags(PackedId(tileId, rot, flipX)) == (rot, flipX)
    ensures var p := PackedId(tileId, rot, flipX);
            PackedId((p & IdMask) - FirstGid, DecodeFlags(p).0, DecodeFlags(p).1) == p
  {
    DecodeFlipState(rot, flipX);
  }

  /** The four bytes decode back, little-endian, to the id and flags. */
  lemma AdjustTileIdRoundTrip(tileId: bv32, rot: bv32, flipX: bool)
    requires tileId < IdMask && rot <= 3
    ensures var w := FromLittleEndian(AdjustTileId(tileId, rot, flipX));
            (w & IdMask) - FirstGid == tileId && DecodeFlags(w) == (rot, flipX)
  {
    PackedIdRoundTrip(tileId, rot, flipX);
  }
}
