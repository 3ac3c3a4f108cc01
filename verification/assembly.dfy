/** The main loop of the converter: a fold over the start elements of the
    Pyxel Edit document (`tilemap`, `layer`, `tile`) that keeps the map size,
    the attributes of the last tile and layer, one shared tile buffer, a tile
    counter, and the list of finished layers. */
module Assembly {
  import opened Common
  import opened TileFlags

  /** One attribute as the reader reports it: not on the element, present
      with an empty value, or present with a value already parsed. A value
      read from a document is never empty, since an empty one is `Empty`, so
      a `Given` string is non-empty in every event a document produces. */
  datatype Attr<+T> = Absent | Empty | Given(v: T) {

    /** The parsed value, or `previous` when the attribute is not given. */
    function Or(previous: T): T {
      if Given? then v else previous
    }
  }

  /** A start element with the attributes the converter reads; `otherEmpty`
      records whether some other attribute of the element had an empty value
      (every attribute of these three elements is checked for emptiness,
      known or not). Elements with other names produce no event: their
      attributes are never looked at.

      The reader stays on an element's last attribute after the attribute
      loop, and the next branch tests that attribute's name. So a `tilemap`
      or `layer` element whose last attribute is named `tile` stands for two
      events: its own, then `TileStart(Absent, Absent, Absent, false)`, a
      tile placed with the values in force. A `tilemap` element whose last
      attribute is named `layer` also enters the layer branch, which then
      finds no attributes and changes nothing. */
  datatype Event =
    | TilemapStart(tilesWide: Attr<u32>, tilesHigh: Attr<u32>,
                   tileWidth: Attr<u32>, tileHeight: Attr<u32>, otherEmpty: bool)
    | LayerStart(number: Attr<bv32>, name: Attr<string>, otherEmpty: bool)
    | TileStart(tile: Attr<bv32>, rot: Attr<bv32>, flipX: Attr<bool>, otherEmpty: bool)

  /** Some attribute of the element is present with an empty value. */
  predicate HasEmptyAttribute(e: Event) {
    match e
    case TilemapStart(w, h, tw, th, other) => w.Empty? || h.Empty? || tw.Empty? || th.Empty? || other
    case LayerStart(number, name, other) => number.Empty? || name.Empty? || other
    case TileStart(tile, rot, flipX, other) => tile.Empty? || rot.Empty? || flipX.Empty? || other
  }

  /** A layer pushed onto the layer list: its id, its name (null when no
      layer element ever named one) and the compressed snapshot of the
      shared tile buffer taken when its last tile was written. */
  datatype FinishedLayer = FinishedLayer(id: bv32, name: Option<string>, compressed: seq<bv8>)

  /** The loop's variables. `tileData` is null until a tilemap element. */
  datatype State = State(
    mapWidth: u32, mapHeight: u32, tileWidth: u32, tileHeight: u32,
    mapTileCount: u32, currentTile: u32,
    tileId: bv32, rotation: bv32, flipX: bool,
    layerId: bv32, layerName: Option<string>,
    tileData: Option<seq<bv8>>,
    layers: seq<FinishedLayer>)

  const Initial: State := State(0, 0, 0, 0, 0, 0, 0, 0, false, 0, None, None, [])

  /** How the loop can stop early: `return 1` on an empty attribute, or an
      exception nobody catches. */
  datatype Failure = Malformed | Unhandled(exception: Exception)

  /** The layer id written for the editor's layer `number` (unchecked, so
      the largest number wraps to id 0). */
  function LayerIdOfNumber(number: bv32): (id: bv32)
    ensures id - 1 == number
    ensures number < 0xFFFF_FFFF ==> id > number
    ensures number == 0xFFFF_FFFF ==> id == 0
  {
    number + 1
  }

  /** A freshly allocated byte array. */
  function Zeros(n: nat): (r: seq<bv8>)
    ensures |r| == n
    ensures forall i :: 0 <= i < n ==> r[i] == 0
  {
    seq(n, _ => 0)
  }

  /** `Buffer.BlockCopy(src, 0, dst, offset, src.Length)`. */
  function BlockCopy(src: seq<bv8>, dst: Option<seq<bv8>>, offset: int): (r: Result<seq<bv8>, Exception>)
    ensures dst.None? <==> r == Failure(ArgumentNull)
    ensures dst.Some? ==> (r.Success? <==> 0 <= offset && offset + |src| <= |dst.value|)
    ensures r.Success? ==>
      && |r.value| == |dst.value|
      && r.value[offset..offset + |src|] == src
      && (forall k :: 0 <= k < |dst.value| && !(offset <= k < offset + |src|) ==> r.value[k] == dst.value[k])
  {
    if dst.None? then Failure(ArgumentNull)
    else if offset < 0 then Failure(ArgumentOutOfRange)
    else if offset + |src| > |dst.value| then Failure(Argument)
    else
      var r := dst.value[..offset] + src + dst.value[offset + |src|..];
      assert r[offset..offset + |src|] == src;
      Success(r)
  }

  /** A tilemap element: the sizes it gives replace the old ones, and a new
      zeroed buffer of `mapTileCount * 4` bytes (unchecked products) replaces
      the old buffer. The tile counter is left as it was. */
  function ReadTilemap(st: State, w: Attr<u32>, h: Attr<u32>, tw: Attr<u32>, th: Attr<u32>): (st': State)
    ensures st'.(mapWidth := st.mapWidth, mapHeight := st.mapHeight, tileWidth := st.tileWidth,
                 tileHeight := st.tileHeight, mapTileCount := st.mapTileCount, tileData := st.tileData) == st
    ensures st'.mapWidth == w.Or(st.mapWidth) && st'.mapHeight == h.Or(st.mapHeight)
    ensures st'.tileWidth == tw.Or(st.tileWidth) && st'.tileHeight == th.Or(st.tileHeight)
    ensures st'.mapTileCount == Wrap32(st'.mapWidth * st'.mapHeight)
    ensures st'.tileData.Some? && |st'.tileData.value| == Wrap32(st'.mapTileCount * 4)
    ensures forall i :: 0 <= i < |st'.tileData.value| ==> st'.tileData.value[i] == 0
  {
    var width := w.Or(st.mapWidth);
    var height := h.Or(st.mapHeight);
    var count := Wrap32(width * height);
    st.(mapWidth := width, mapHeight := height,
        tileWidth := tw.Or(st.tileWidth), tileHeight := th.Or(st.tileHeight),
        mapTileCount := count, tileData := Some(Zeros(Wrap32(count * 4))))
  }

  /** A layer element: the id and name it gives replace the old ones. */
  function ReadLayer(st: State, number: Attr<bv32>, name: Attr<string>): (st': State)
    ensures st'.(layerId := st.layerId, layerName := st.layerName) == st
  {
    st.(layerId := if number.Given? then LayerIdOfNumber(number.v) else st.layerId,
        layerName := if name.Given? then Some(name.v) else st.layerName)
  }

  /** A tile element: the attributes it gives replace the old ones, the
      encoded tile is copied into the buffer at `currentTile * 4`, and the
      counter advances or, at the map's last tile, resets while the layer is
      pushed with a compressed snapshot of the buffer. */
  function PlaceTile(st: State, tile: Attr<bv32>, rot: Attr<bv32>, flipX: Attr<bool>,
                     compress: seq<bv8> -> seq<bv8>): (r: Result<State, Failure>)
    ensures r.Success? ==>
      r.value.(tileData := st.tileData, currentTile := st.currentTile, layers := st.layers)
      == st.(tileId := tile.Or(st.tileId), rotation := rot.Or(st.rotation), flipX := flipX.Or(st.flipX))
  {
    var st1 := st.(tileId := tile.Or(st.tileId), rotation := rot.Or(st.rotation),
                   flipX := flipX.Or(st.flipX));
    var bytes := AdjustTileId(st1.tileId, st1.rotation, st1.flipX);
    // `(int)currentTile * 4`: both the cast and the product are unchecked.
    match BlockCopy(bytes, st.tileData, ToInt32(Wrap32(st.currentTile * 4)))
    case Failure(x) => Failure(Unhandled(x))
    case Success(data) =>
      if st.currentTile == Wrap32(st.mapTileCount - 1) then
        Success(st1.(tileData := Some(data), currentTile := 0,
                     layers := st.layers + [FinishedLayer(st.layerId, st.layerName, compress(data))]))
      else
        Success(st1.(tileData := Some(data), currentTile := Wrap32(st.currentTile + 1)))
  }

  /** One start element. `compress` stands for the gzip wrapper. Any empty
      attribute value stops the conversion before anything else happens. */
  function Step(st: State, e: Event, compress: seq<bv8> -> seq<bv8>): Result<State, Failure> {
    if HasEmptyAttribute(e) then Failure(Malformed)
    else
      match e
      case TilemapStart(w, h, tw, th, _) => Success(ReadTilemap(st, w, h, tw, th))
      case LayerStart(number, name, _) => Success(ReadLayer(st, number, name))
      case TileStart(tile, rot, flipX, _) => PlaceTile(st, tile, rot, flipX, compress)
  }

  /** The loop's outcome after reading `events`, in document order. */
  function Assemble(events: seq<Event>, compress: seq<bv8> -> seq<bv8>): Result<State, Failure>
    decreases |events|
  {
    if events == [] then Success(Initial)
    else
      match Assemble(events[..|events| - 1], compress)
      case Failure(f) => Failure(f)
      case Success(st) => Step(st, events[|events| - 1], compress)
  }

  /** A tile element in a map with tiles left to fill writes its four
      encoded bytes at `4 * currentTile` and changes no other byte; the
      counter then either moves one on, still below the tile count, or,
      after the map's last tile, goes back to 0 while the layer list grows
      by one layer holding the compressed buffer. */
  lemma TileStep(st: State, e: Event, compress: seq<bv8> -> seq<bv8>)
    requires e.TileStart? && !HasEmptyAttribute(e)
    requires st.tileData.Some? && |st.tileData.value| == 4 * st.mapTileCount
    requires st.currentTile < st.mapTileCount && 4 * st.mapTileCount < 0x8000_0000
    ensures Step(st, e, compress).Success?
    ensures var st' := Step(st, e, compress).value;
      var before := st.tileData.value;
      var data := st'.tileData.value;
      var c: nat := st.currentTile;
      && st'.tileData.Some? && |data| == |before|
      && data[4 * c..4 * c + 4] == AdjustTileId(st'.tileId, st'.rotation, st'.flipX)
      && (forall k :: 0 <= k < |before| && !(4 * c <= k < 4 * c + 4) ==> data[k] == before[k])
      && st'.mapTileCount == st.mapTileCount
      && (if c + 1 == st.mapTileCount
          then st'.currentTile == 0 &&
               st'.layers == st.layers + [FinishedLayer(st'.layerId, st'.layerName, compress(data))]
          else st'.currentTile == c + 1 < st.mapTileCount && st'.layers == st.layers)
  {
  }

  /** One more element: the loop's outcome so far, stepped once more. */
  lemma AssembleSnoc(events: seq<Event>, e: Event, compress: seq<bv8> -> seq<bv8>)
    ensures Assemble(events + [e], compress) ==
      match Assemble(events, compress)
      case Failure(f) => Failure(f)
      case Success(st) => Step(st, e, compress)
  {
    assert (events + [e])[..|events|] == events;
  }

  /** After a failure the rest of the document is never looked at. */
  lemma {:induction false} FailureIsFinal(events: seq<Event>, more: seq<Event>, compress: seq<bv8> -> seq<bv8>)
    requires Assemble(events, compress).Failure?
    ensures Assemble(events + more, compress) == Assemble(events, compress)
    decreases |more|
  {
    if more != [] {
      var init := more[..|more| - 1];
      FailureIsFinal(events, init, compress);
      assert (events + more)[..|events + more| - 1] == events + init;
    } else {
      assert events + more == events;
    }
  }

  /** An element with an empty attribute, reached without an earlier
      failure, ends the conversion with return code 1 whatever follows. */
  lemma EmptyAttributeRejects(events: seq<Event>, i: nat, compress: seq<bv8> -> seq<bv8>)
    requires i < |events| && HasEmptyAttribute(events[i])
    requires Assemble(events[..i], compress).Success?
    ensures Assemble(events, compress) == Failure(Malformed)
  {
    assert events[..i + 1][..i] == events[..i];
    assert Assemble(events[..i + 1], compress) == Failure(Malformed);
    FailureIsFinal(events[..i + 1], events[i + 1..], compress);
    assert events[..i + 1] + events[i + 1..] == events;
  }
}
