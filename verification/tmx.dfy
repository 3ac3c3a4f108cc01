/** The TMX document the converter writes, as data: one datatype per
    element, one field per attribute, in the order the attributes are
    written. XML syntax and indentation are the writer's business and are
    not modelled; `base64` stands for `Convert.ToBase64String`. */
module Tmx {
  import opened Common
  import opened ByteOrder
  import opened TileFlags
  import opened Assembly
  import opened LayerSpec
  import opened PngHeader

  /** `<map>`. */
  datatype MapElement = MapElement(version: string, width: u32, height: u32,
                                   tileWidth: u32, tileHeight: u32, orientation: string)

  /** `<image>`: the pixel size is written only for a PNG image. */
  datatype ImageElement = ImageElement(source: string, size: Option<(u32, u32)>)

  /** `<tileset>` with its `<image>` child; `tilecount` only for a PNG image.
      `firstgid` is the gid of the tileset's first tile, the number every
      packed tile id is offset by. */
  datatype TilesetElement = TilesetElement(firstGid: bv32, name: string, tileWidth: u32, tileHeight: u32,
                                           tileCount: Option<u32>, image: ImageElement)

  /** `<layer>` with its `<data>` child and the child's text. */
  datatype LayerElement = LayerElement(width: u32, height: u32, id: bv32, name: string,
                                       encoding: string, compression: string, data: string)

  datatype TmxDocument = TmxDocument(tilemap: MapElement, tileset: TilesetElement, layers: seq<LayerElement>)

  /** The tileset's `tilecount`: whole tiles across times whole tiles down
      (an unchecked `uint` product); a zero tile size divides by zero. */
  function TileCount(pngWidth: u32, pngHeight: u32, tileWidth: u32, tileHeight: u32): (r: Result<u32, Exception>)
    ensures r.Failure? <==> tileWidth == 0 || tileHeight == 0
    ensures r.Failure? ==> r.error == DivideByZero
  {
    if tileWidth == 0 || tileHeight == 0 then Failure(DivideByZero)
    else Success(Wrap32((pngWidth / tileWidth) * (pngHeight / tileHeight)))
  }

  /** When `cols` tiles fit across the image but not one more, and `rows`
      down, the tile count is `cols * rows`, as long as that fits a `uint`. */
  lemma TileCountCountsWholeTiles(pngWidth: u32, pngHeight: u32, tileWidth: u32, tileHeight: u32,
                                  cols: nat, rows: nat)
    requires tileWidth > 0 && tileHeight > 0
    requires cols * tileWidth <= pngWidth < cols * tileWidth + tileWidth
    requires rows * tileHeight <= pngHeight < rows * tileHeight + tileHeight
    requires cols * rows < TwoTo32
    ensures TileCount(pngWidth, pngHeight, tileWidth, tileHeight) == Success(cols * rows)
  {
    DivUnique(pngWidth, tileWidth, cols);
    DivUnique(pngHeight, tileHeight, rows);
  }

  /** One finished layer as written. A layer never named gets the empty
      name the writer puts for a null value. */
  function EmitLayer(st: State, layer: FinishedLayer, base64: seq<bv8> -> string): LayerElement {
    LayerElement(st.mapWidth, st.mapHeight, layer.id, layer.name.GetOr(""),
                 "base64", "gzip", base64(layer.compressed))
  }

  /** The TMX document for the loop's final state and the probed image;
      `imageBase` is the input file name without directory and extension. */
  function Emit(st: State, image: ImageInfo, imageBase: string, base64: seq<bv8> -> string)
    : (r: Result<TmxDocument, Exception>)
    ensures r.Failure? <==> image.Png? && (st.tileWidth == 0 || st.tileHeight == 0)
    ensures r.Failure? ==> r.error == DivideByZero
    ensures r.Success? ==>
      var doc := r.value;
      && doc.tilemap.version == "1.1" && doc.tilemap.orientation == "orthogonal"
      && doc.tileset.firstGid == FirstGid && doc.tileset.name == "Converted by pyxel2tiled"
      && doc.tilemap.width == st.mapWidth && doc.tilemap.height == st.mapHeight
      && doc.tileset.tileWidth == doc.tilemap.tileWidth == st.tileWidth
      && doc.tileset.tileHeight == doc.tilemap.tileHeight == st.tileHeight
      && doc.tileset.image.source == imageBase + ".png"
      && (doc.tileset.tileCount.Some? <==> image.Png?)
      && (doc.tileset.image.size.Some? <==> image.Png?)
      && (image.Png? ==>
            && doc.tileset.image.size == Some((image.width, image.height))
            && doc.tileset.tileCount == Some(TileCount(image.width, image.height, st.tileWidth, st.tileHeight).value))
      && |doc.layers| == |st.layers|
      && forall i :: 0 <= i < |st.layers| ==>
           && doc.layers[i].id == st.layers[i].id
           && doc.layers[i].encoding == "base64" && doc.layers[i].compression == "gzip"
           && doc.layers[i].name == (if st.layers[i].name.Some? then st.layers[i].name.value else "")
           && doc.layers[i].width == st.mapWidth && doc.layers[i].height == st.mapHeight
           && doc.layers[i].data == base64(st.layers[i].compressed)
  {
    var tilemap := MapElement("1.1", st.mapWidth, st.mapHeight, st.tileWidth, st.tileHeight, "orthogonal");
    var layers := seq(|st.layers|, i requires 0 <= i < |st.layers| => EmitLayer(st, st.layers[i], base64));
    var source := imageBase + ".png";
    match image
    case Png(width, height) =>
      (match TileCount(width, height, st.tileWidth, st.tileHeight)
       case Failure(e) => Failure(e)
       case Success(count) =>
         var img := ImageElement(source, Some((width, height)));
         Success(TmxDocument(tilemap, TilesetElement(FirstGid, "Converted by pyxel2tiled", st.tileWidth, st.tileHeight,
                                                     Some(count), img), layers)))
    case _ =>
      var img := ImageElement(source, None);
      Success(TmxDocument(tilemap, TilesetElement(FirstGid, "Converted by pyxel2tiled", st.tileWidth, st.tileHeight,
                                                  None, img), layers))
  }

  /** How a run of the converter ends: a document written (return code 0),
      `return 1` on a malformed element, or an uncaught exception. */
  datatype Conversion = Converted(document: TmxDocument) | Rejected | Crashed(exception: Exception)

  /** The whole conversion: read the document, probe the image (`png` is
      `None` when the file does not exist), write the TMX document. */
  function Convert(events: seq<Event>, png: Option<seq<bv8>>, imageBase: string,
                   compress: seq<bv8> -> seq<bv8>, base64: seq<bv8> -> string): Conversion
  {
    match Assemble(events, compress)
    case Failure(Malformed) => Rejected
    case Failure(Unhandled(e)) => Crashed(e)
    case Success(st) =>
      match ProbeImage(png)
      case Failure(e) => Crashed(e)
      case Success(image) =>
        match Emit(st, image, imageBase, base64)
        case Failure(e) => Crashed(e)
        case Success(document) => Converted(document)
  }

  /** An empty attribute value reached before any other failure makes the
      run return 1 and write no document. */
  lemma EmptyAttributeReturnsOne(events: seq<Event>, i: nat, png: Option<seq<bv8>>, imageBase: string,
                                 compress: seq<bv8> -> seq<bv8>, base64: seq<bv8> -> string)
    requires i < |events| && HasEmptyAttribute(events[i])
    requires Assemble(events[..i], compress).Success?
    ensures Convert(events, png, imageBase, compress, base64) == Rejected
  {
    EmptyAttributeRejects(events, i, compress);
  }

  /** A well-formed document with no companion image converts; the tileset
      has no tile count, the image no size, and there is one layer element
      per full run of tiles, in order, holding that run's encoded bytes,
      compressed and base64-encoded. */
  lemma ConvertWithoutImage(events: seq<Event>, imageBase: string,
                            compress: seq<bv8> -> seq<bv8>, base64: seq<bv8> -> string)
    requires WellFormed(events)
    ensures Convert(events, None, imageBase, compress, base64).Converted?
    ensures var doc := Convert(events, None, imageBase, compress, base64).document;
            var ts := Placements(events);
            var n := MapTiles(events);
            && doc.tileset.tileCount.None? && doc.tileset.image.size.None?
            && doc.tilemap.width == events[0].tilesWide.v && doc.tilemap.height == events[0].tilesHigh.v
            && doc.tilemap.tileWidth == doc.tileset.tileWidth == events[0].tileWidth.Or(0)
            && doc.tilemap.tileHeight == doc.tileset.tileHeight == events[0].tileHeight.Or(0)
            && |doc.layers| * n <= |ts| < |doc.layers| * n + n
            && forall j :: 0 <= j < |doc.layers| ==>
                 j * n + n <= |ts| && doc.layers[j].data == base64(compress(ConcatBytes(ts[j * n..j * n + n])))
  {
    LayersAreFullRuns(events, compress);
    SizesFromHeader(events, |events|, compress);
    assert events[..|events|] == events;
  }

  /** With a PNG companion image `cols` tiles wide and `rows` tiles high
      (partial tiles ignored), the tileset states that tile count and the
      image's own size. */
  lemma ConvertWithPng(events: seq<Event>, png: seq<bv8>, imageBase: string,
                       compress: seq<bv8> -> seq<bv8>, base64: seq<bv8> -> string, cols: nat, rows: nat)
    requires Assemble(events, compress).Success?
    requires |png| >= 24 && png[..8] == PngSignature
    requires var st := Assemble(events, compress).value;
      var width := BigEndianU32(png[16..20]);
      var height := BigEndianU32(png[20..24]);
      && st.tileWidth > 0 && st.tileHeight > 0
      && cols * st.tileWidth <= width < cols * st.tileWidth + st.tileWidth
      && rows * st.tileHeight <= height < rows * st.tileHeight + st.tileHeight
      && cols * rows < TwoTo32
    ensures Convert(events, Some(png), imageBase, compress, base64).Converted?
    ensures var doc := Convert(events, Some(png), imageBase, compress, base64).document;
      && doc.tileset.tileCount == Some(cols * rows)
      && doc.tileset.image.size == Some((BigEndianU32(png[16..20]), BigEndianU32(png[20..24])))
  {
    var st := Assemble(events, compress).value;
    TileCountCountsWholeTiles(BigEndianU32(png[16..20]), BigEndianU32(png[20..24]),
                              st.tileWidth, st.tileHeight, cols, rows);
  }

  /** A PNG companion image with a zero tile size in the document ends the
      run with a division by zero, before any document is complete. */
  lemma ZeroTileSizeCrashes(events: seq<Event>, png: seq<bv8>, imageBase: string,
                            compress: seq<bv8> -> seq<bv8>, base64: seq<bv8> -> string)
    requires Assemble(events, compress).Success?
    requires |png| >= 24 && png[..8] == PngSignature
    requires Assemble(events, compress).value.tileWidth == 0 || Assemble(events, compress).value.tileHeight == 0
    ensures Convert(events, Some(png), imageBase, compress, base64) == Crashed(DivideByZero)
  {
  }

  /** A two-tile map: tile 5 as placed, then tile 5 flipped and turned
      twice, in the layer numbered 0 and named "bg". */
  const ExampleEvents: seq<Event> := [
    TilemapStart(Given(2), Given(1), Given(8), Given(8), false),
    LayerStart(Given(0), Given("bg"), false),
    TileStart(Given(5), Given(0), Given(false), false),
    TileStart(Given(5), Given(2), Given(true), false)]

  /** The loop's state after the example's tilemap and layer elements. */
  const ExampleReady: State := State(2, 1, 8, 8, 2, 0, 0, 0, false, 1, Some("bg"), Some([0, 0, 0, 0, 0, 0, 0, 0]), [])

  /** The loop's state after the example's first tile. */
  const ExampleHalfway: State := State(2, 1, 8, 8, 2, 1, 5, 0, false, 1, Some("bg"), Some([6, 0, 0, 0, 0, 0, 0, 0]), [])

  lemma ExampleHeader(compress: seq<bv8> -> seq<bv8>)
    ensures Assemble(ExampleEvents[..2], compress) == Success(ExampleReady)
  {
    var e := ExampleEvents;
    var s1 := ReadTilemap(Initial, Given(2), Given(1), Given(8), Given(8));
    assert e[..1][..0] == [];
    assert Assemble(e[..1], compress) == Success(s1);
    assert e[..2][..1] == e[..1];
    assert Wrap32(2 * 1) == 2 && Wrap32(2 * 4) == 8;
    assert Zeros(8) == [0, 0, 0, 0, 0, 0, 0, 0];
  }

  /** The first tile, unflipped, lands in bytes 0 to 3. */
  lemma ExampleFirstTile(compress: seq<bv8> -> seq<bv8>)
    ensures PlaceTile(ExampleReady, Given(5), Given(0), Given(false), compress) == Success(ExampleHalfway)
  {
    var zeros: seq<bv8> := [0, 0, 0, 0, 0, 0, 0, 0];
    assert AdjustTileId(5, 0, false) == [6, 0, 0, 0];
    assert ToInt32(Wrap32(0 * 4)) == 0 && Wrap32(2 - 1) == 1 && Wrap32(0 + 1) == 1;
    assert zeros[..0] + [6, 0, 0, 0] + zeros[4..] == [6, 0, 0, 0, 0, 0, 0, 0];
  }

  /** The second tile, flipped and turned twice, fills bytes 4 to 7 and
      finishes the layer. */
  lemma ExampleSecondTile(compress: seq<bv8> -> seq<bv8>)
    ensures var d: seq<bv8> := [6, 0, 0, 0, 6, 0, 0, 0x40];
      PlaceTile(ExampleHalfway, Given(5), Given(2), Given(true), compress) ==
      Success(State(2, 1, 8, 8, 2, 0, 5, 2, true, 1, Some("bg"), Some(d), [FinishedLayer(1, Some("bg"), compress(d))]))
  {
    var d3: seq<bv8> := [6, 0, 0, 0, 0, 0, 0, 0];
    var d4: seq<bv8> := [6, 0, 0, 0, 6, 0, 0, 0x40];
    assert AdjustTileId(5, 2, true) == [6, 0, 0, 0x40];
    assert ToInt32(Wrap32(1 * 4)) == 4 && Wrap32(2 - 1) == 1;
    assert d3[..4] + [6, 0, 0, 0x40] + d3[8..] == d4;
    assert [] + [FinishedLayer(1, Some("bg"), compress(d4))] == [FinishedLayer(1, Some("bg"), compress(d4))];
  }

  /** The example gives one layer, id 1 and name "bg", whose buffer holds
      the packed ids 6 and 6 | 0x4000_0000, little-endian. */
  lemma ExampleConversion(compress: seq<bv8> -> seq<bv8>)
    ensures Assemble(ExampleEvents, compress).Success?
    ensures Assemble(ExampleEvents, compress).value.layers ==
      [FinishedLayer(1, Some("bg"), compress([6, 0, 0, 0, 6, 0, 0, 0x40]))]
  {
    var e := ExampleEvents;
    ExampleHeader(compress);
    ExampleFirstTile(compress);
    AssembleSnoc(e[..2], e[2], compress);
    assert e[..2] + [e[2]] == e[..3];
    ExampleSecondTile(compress);
    AssembleSnoc(e[..3], e[3], compress);
    assert e[..3] + [e[3]] == e;
  }
}
