# pyxel2tiled in Dafny

A verified model of the core of `pyxel2tiled`, a command-line converter that
reads a tilemap exported by Pyxel Edit (XML) and writes a Tiled map (TMX).
The model covers:

- the tile-flag encoder `AdjustTileId`: a tile index, a rotation class
  `rot` and a horizontal flip `flipX`, packed into one 32-bit TMX global
  tile id (`tileId + 1`, with Tiled's flip flags in bits 31, 30 and 29),
  written as four little-endian bytes;
- `ReverseArray` and the companion PNG image probe: the eight-byte PNG
  signature check, then the IHDR width and height read as big-endian
  `uint`s (PNG Specification, Second Edition, sections 5.2 and 11.2.2);
- the main loop over the document's `tilemap`, `layer` and `tile` start
  elements, each given as an event. An element whose last attribute is
  named `tile` also counts as a tile; "## Left out" gives the rule. The loop
  keeps one shared tile buffer of `mapTileCount * 4` bytes and a tile
  counter. It pushes a layer, holding the compressed buffer, each time the
  counter reaches the map's last tile;
- the layer id (`number + 1`), the tileset's `tilecount`
  (`(pngWidth / tileWidth) * (pngHeight / tileHeight)`, written only for a
  PNG image), and the TMX document built from all of this.

The modules follow the program's structure:

| file | module | contents |
|---|---|---|
| `common.dfy` | `Common` | `Option`, `Result`, the `uint` range `u32` with unchecked wrap-around, the uncaught .NET exceptions |
| `byte_order.dfy` | `ByteOrder` | `BitConverter` little-endian layout, `ReverseArray`, big-endian reading |
| `tile_flags.dfy` | `TileFlags` | the flag table, the packed id, `AdjustTileId`, and a decoder used to state round trips |
| `orientation.dfy` | `Orientation` | what the flag table means geometrically: the eight tile symmetries |
| `png_header.dfy` | `PngHeader` | the signature loop and the width/height probe |
| `assembly.dfy` | `Assembly` | the main loop as a fold over start-element events |
| `layer_spec.dfy` | `LayerSpec` | a reference description of the loop's result, and the proof that the loop computes it |
| `tmx.dfy` | `Tmx` | `tilecount`, the emitted TMX document, and the whole conversion |

Machine integers are modelled explicitly. Sizes, counters and image
dimensions are `u32` (an `int` range), reduced with `Wrap32` wherever
the C# arithmetic is unchecked. Tile ids, rotations, layer numbers and flag
words are `bv32`. An exception the converter does not catch is an
outcome (`Unhandled`, `Crashed`). So is `return 1` on an empty attribute
(`Malformed`, `Rejected`).

Where the converter's written description and its code disagree, the model
follows the code:

- a `tile` element without `tile`, `rot` or `flipX` keeps the previous
  tile's value (declared once, before the loop); nothing is defaulted;
- a layer's id and name carry over from the previous `layer` element, and
  a layer takes the id and name in force at its last tile;
- a map already full does not raise an error: the counter wraps to 0 and the
  next tiles overwrite the same buffer, so they start the next layer,
  whatever `layer` element they sit under;
- a `tile` before any `tilemap` is not a configuration error. It is an
  uncaught `ArgumentNullException` from `Buffer.BlockCopy` into the null
  buffer;
- the map `version` and layer `id` attributes are always written;
- a companion file shorter than the PNG signature, but agreeing with it so
  far, crashes the probe (index out of range). This includes an empty file;
- with a PNG image and a zero tile size, `tilecount` divides by zero.

## Model

| member | source | states |
|---|---|---|
| Common.Wrap32 | pyxel2tiled.cs:146-147 | unchecked `uint` arithmetic: the result equals the mathematical value when it is in range, and is congruent to it modulo 2^32 |
| Common.ToInt32 | pyxel2tiled.cs:199 | the `(int)` cast of a `uint` lies in the signed 32-bit range and is congruent to the original value modulo 2^32 |
| ByteOrder.DecodeEncode | pyxel2tiled.cs:50 | reading back the four little-endian bytes of a word gives that word |
| ByteOrder.EncodeDecode | pyxel2tiled.cs:50 | every four bytes are the little-endian encoding of the word they decode to |
| ByteOrder.ToUInt32 | pyxel2tiled.cs:243-244 | `BitConverter.ToUInt32(b, 0)` fails with ArgumentOutOfRange exactly on an empty array and with Argument exactly on 1 to 3 bytes; otherwise it reads the first four bytes little-endian |
| ByteOrder.Reverse | pyxel2tiled.cs:64-73 | the reference reversal keeps the length and puts element `len-1-i` at position `i` |
| ByteOrder.ReverseInvolution | pyxel2tiled.cs:64-73 | reversing twice gives the original sequence |
| ByteOrder.ReverseArray | pyxel2tiled.cs:64-73 | the swap loop over the first half returns a sequence of the same length whose element `i` is input element `len-1-i`; this is the reference reversal |
| ByteOrder.ReversedLittleEndianIsBigEndian | pyxel2tiled.cs:243-244 | reversing four bytes and reading them little-endian gives `b0*2^24 + b1*2^16 + b2*2^8 + b3` |
| TileFlags.FlipState | pyxel2tiled.cs:12-47 | the flag word has no bit among the 29 id bits, and a rotation above 3 gives no flags (neither switch has a default case) |
| TileFlags.FlipStateTable | pyxel2tiled.cs:13-47 | unflipped rotations 0..3 give 0, 0xA0000000, 0xC0000000, 0x60000000; flipped ones give 0x80000000, 0xE0000000, 0x40000000, 0x20000000 |
| TileFlags.PackedId | pyxel2tiled.cs:48-49 | the low 29 bits are those of `tileId + 1` (unchecked); when `tileId + 1` fits in 29 bits they equal it and the top three bits are exactly the table's flags |
| TileFlags.PackedIdWraps | pyxel2tiled.cs:48-49 | index 0xFFFFFFFF wraps to gid 0 and leaves only the flags |
| TileFlags.AdjustTileId | pyxel2tiled.cs:48-50 | exactly four bytes, whose little-endian reading is the packed id |
| TileFlags.DecodeFlags | pyxel2tiled.cs:12-47 | the class read back from a word's top three bits has a rotation in 0..3 |
| TileFlags.DecodeFlipState | pyxel2tiled.cs:12-47 | the eight classes get eight different flag words: decoding recovers the class |
| TileFlags.FlipStateOfDecode | pyxel2tiled.cs:12-47 | each of the eight flag-bit combinations is the word of some class, so the table is a bijection onto them |
| TileFlags.PackedIdRoundTrip | pyxel2tiled.cs:48-49 | for ids that fit in 29 bits, unpacking the gid (minus firstgid) and the class, then packing again, gives the same word |
| TileFlags.AdjustTileIdRoundTrip | pyxel2tiled.cs:10-51 | the four bytes of a tile decode back to its index, rotation and flip |
| Orientation.Then | pyxel2tiled.cs:12-47 | composing two tile symmetries as data applies the first and then the second to every point |
| Orientation.FlipStateRealisesEditorTransform | pyxel2tiled.cs:12-47 | Tiled renders the table's flags (diagonal, then horizontal, then vertical flip) as an optional horizontal flip followed by `rot` clockwise quarter turns; this is the reading of `rot` and `flipX` under which the table is correct, since the converter does not state the turning direction |
| Orientation.EditorTransformInjective | pyxel2tiled.cs:12-47 | the eight (rotation, flip) classes are eight different symmetries |
| PngHeader.CheckSignatureFrom | pyxel2tiled.cs:227-238 | the signature loop reports a match exactly when eight bytes equal the signature; a break exactly when some read byte differs; running off the end exactly when a short read agrees as far as it goes |
| PngHeader.ReadAt | pyxel2tiled.cs:242-244 | `ReadBytes(n)` yields at most `n` bytes: exactly the next `n` when that many remain, all that remain when fewer do, and none at the end of the file |
| PngHeader.ReadBigEndian | pyxel2tiled.cs:243-244 | the reversed four-byte read succeeds exactly when four bytes remain, and yields their big-endian value |
| PngHeader.ProbeImage | pyxel2tiled.cs:216-254 | no file means no PNG; a differing signature byte means not a PNG; a PNG result exactly for a file of at least 24 bytes with the signature, with width from bytes 16..19 and height from bytes 20..23, big-endian; an existing file is never reported missing; the probe crashes exactly on a file shorter than 24 bytes that agrees with the signature as far as it goes: IndexOutOfRange below 8 bytes, ArgumentOutOfRange at 8 to 16 or 20 bytes (nothing left to read), Argument at 17 to 19 or 21 to 23 bytes (a short read) |
| PngHeader.TruncatedSignatureCrashes | pyxel2tiled.cs:227-231 | a companion file shorter than eight bytes that agrees with the signature crashes the probe with IndexOutOfRange |
| Assembly.LayerIdOfNumber | pyxel2tiled.cs:163 | the layer id is `number + 1`, unchecked: greater than `number` except for 0xFFFFFFFF, which wraps to 0 |
| Assembly.Zeros | pyxel2tiled.cs:147 | a fresh buffer has the requested length and is all zero |
| Assembly.BlockCopy | pyxel2tiled.cs:199 | copying into a null buffer throws ArgumentNull; it succeeds exactly when the four bytes fit at a non-negative offset, writes them there and changes no other byte |
| Assembly.ReadTilemap | pyxel2tiled.cs:120-148 | a tilemap element sets each size it gives and keeps the others; the tile count becomes the unchecked `width * height`, the buffer a fresh zeroed array of `Wrap32(count * 4)` bytes; nothing else changes, and the tile counter is not reset |
| Assembly.ReadLayer | pyxel2tiled.cs:150-172 | a layer element changes only the layer id and name |
| Assembly.PlaceTile | pyxel2tiled.cs:174-210 | a tile element updates the given tile attributes, keeps the absent ones, and touches nothing but them, the buffer, the counter and the layer list |
| Assembly.TileStep | pyxel2tiled.cs:198-209 | in a map with tiles left, a tile writes its four encoded bytes at `4 * currentTile` and no other byte; at the last tile the counter returns to 0 and the layer is pushed with the compressed buffer, otherwise the counter moves one on and stays below the tile count |
| Assembly.AssembleSnoc | pyxel2tiled.cs:116-118 | one more element steps the loop's outcome so far, unless that outcome is already a failure |
| Assembly.FailureIsFinal | pyxel2tiled.cs:124-128 | after `return 1` or an exception, the rest of the document is never read |
| Assembly.EmptyAttributeRejects | pyxel2tiled.cs:122-182 | an element with an empty attribute value, reached without an earlier failure, ends the loop with `return 1` whatever follows |
| LayerSpec.LastGivenIsLatest | pyxel2tiled.cs:105-107 | the attribute in force is absent exactly when no element gives it; otherwise it is the value of an element after which none gives it |
| LayerSpec.LastGivenSnoc | pyxel2tiled.cs:184-195 | a new element's attribute wins when it gives one, and otherwise the old value stays |
| LayerSpec.StepCarries | pyxel2tiled.cs:120-210 | each element keeps the loop's tile id, rotation, flip, layer id and layer name equal to the values in force |
| LayerSpec.CarryOver | pyxel2tiled.cs:105-195 | while the loop runs, its tile and layer variables hold the last value given for each attribute (0, 0, false, 0 and null before any); absent attributes are never defaulted |
| LayerSpec.Placements | pyxel2tiled.cs:198 | every placed tile is four bytes |
| LayerSpec.ConcatBytesSlot | pyxel2tiled.cs:199 | in a run of placed tiles, tile `k` occupies bytes `4k .. 4k+3` of the run's bytes |
| LayerSpec.ConcatBytesLength | pyxel2tiled.cs:147 | a run of `n` placed tiles is `4 * n` bytes |
| LayerSpec.ChunksLength | pyxel2tiled.cs:201-209 | `q` full runs and fewer than `n` tiles over give `q` layers |
| LayerSpec.ChunkAt | pyxel2tiled.cs:201-209 | layer `j` is made of tiles `j*n .. j*n + n - 1` |
| LayerSpec.ChunksShape | pyxel2tiled.cs:201-209 | `q` full runs give exactly `q` layers, the j-th made of tiles `j*n .. j*n + n - 1` |
| LayerSpec.ChunksSnoc | pyxel2tiled.cs:201-209 | one more tile adds a layer exactly when it completes a run, and that layer is the completed run |
| LayerSpec.PlacementsSnocTile | pyxel2tiled.cs:198 | a tile element places one more tile, encoded with the attributes in force after it |
| LayerSpec.BufferRunGrows | pyxel2tiled.cs:199 | writing four bytes at `4c` extends the run's first `4c` bytes by exactly those four |
| LayerSpec.FinishedRunLayer | pyxel2tiled.cs:204-205 | when the buffer is exactly a finished run's bytes, the pushed layer is that run's layer |
| LayerSpec.ContinueRun | pyxel2tiled.cs:208-209 | a tile that does not finish the run keeps the invariant linking buffer, counter and layers to the placed tiles |
| LayerSpec.CompleteRun | pyxel2tiled.cs:201-206 | the tile that finishes the run keeps that invariant, pushing exactly the run's layer |
| LayerSpec.TileKeepsAccumulated | pyxel2tiled.cs:174-210 | a tile element in a well-formed document never fails, and keeps the invariant |
| LayerSpec.LayerKeepsAccumulated | pyxel2tiled.cs:150-172 | a layer element never fails, and keeps the invariant |
| LayerSpec.HeaderStartsAccumulated | pyxel2tiled.cs:146-147 | after the tilemap element: a zeroed buffer of `4 * n` bytes, nothing placed, no layers |
| LayerSpec.AccumulatedPrefix | pyxel2tiled.cs:116-213 | after every prefix of a well-formed document, the loop has not failed and the invariant holds |
| LayerSpec.SizesFromHeader | pyxel2tiled.cs:132-147 | after every prefix of a well-formed document, the map and tile sizes are those of the leading tilemap element (0 for a tile size it leaves out): no later element changes them |
| LayerSpec.FinalCount | pyxel2tiled.cs:116-213 | at the end of a well-formed document, the layers are the full runs and the counter holds the length of the unfinished one |
| LayerSpec.RunsShape | pyxel2tiled.cs:201-209 | a layer list of full runs with fewer than `n` tiles over has `#tiles / n` layers, the j-th made of tiles `j*n .. j*n + n - 1` |
| LayerSpec.LayersAreFullRuns | pyxel2tiled.cs:198-209 | for a well-formed document, the layers are the placed tiles cut into runs of `width*height`, in order; there are `#tiles / (width*height)` of them, and a trailing short run is dropped; layer `j` holds its run's compressed bytes and the id and name in force at its last tile |
| Tmx.TileCount | pyxel2tiled.cs:275-279 | `tilecount` throws DivideByZero exactly when a tile size is zero |
| Tmx.TileCountCountsWholeTiles | pyxel2tiled.cs:277 | when `cols` whole tiles fit across the image and `rows` down, `tilecount` is `cols * rows` (partial tiles ignored) |
| Tmx.Emit | pyxel2tiled.cs:255-306 | emission crashes exactly for a PNG image with a zero tile size; `tilecount` and the image size are written exactly for a PNG image; the map is version "1.1" and "orthogonal", the tileset's firstgid is the gid offset `FirstGid` (1) used by every packed tile id, and its name is "Converted by pyxel2tiled"; the map's and tileset's sizes are the loop's; one layer element per finished layer, in order, with its id, its name (empty when none was given), encoding "base64", compression "gzip" and the base64 of its compressed bytes |
| Tmx.EmptyAttributeReturnsOne | pyxel2tiled.cs:124-128 | an empty attribute value, reached without an earlier failure, makes the run return 1 and write no document |
| Tmx.ConvertWithoutImage | pyxel2tiled.cs:249-306 | a well-formed document without a companion image converts; no tilecount and no image size are written; the map's and tileset's sizes are the leading tilemap element's (a tile size it leaves out is 0); one layer element per full run of tiles, in order, holding the base64 of that run's compressed bytes |
| Tmx.ConvertWithPng | pyxel2tiled.cs:274-286 | with a PNG image `cols` whole tiles wide and `rows` high, the tileset states `cols * rows` tiles and the image's own big-endian size |
| Tmx.ZeroTileSizeCrashes | pyxel2tiled.cs:277 | with a PNG image and a zero tile size, the run ends with DivideByZero |
| Tmx.ExampleHeader | pyxel2tiled.cs:120-172 | a 2x1 map of 8x8 tiles and a layer numbered 0 named "bg" give an 8-byte zero buffer, layer id 1 and counter 0 |
| Tmx.ExampleFirstTile | pyxel2tiled.cs:198-209 | tile 5, unflipped, lands in bytes 0..3 as 6 |
| Tmx.ExampleSecondTile | pyxel2tiled.cs:198-209 | tile 5, flipped and turned twice, lands in bytes 4..7 as 6 \| 0x40000000 and finishes the layer |
| Tmx.ExampleConversion | pyxel2tiled.cs:116-213 | the whole example yields one layer, id 1 and name "bg", holding the compressed bytes 06 00 00 00 06 00 00 40 |

## Left out

- XML reading and writing. The document is a sequence of start-element
  events with their attributes already parsed. Elements other than
  `tilemap`, `layer` and `tile` produce no event, since the converter never
  looks at their attributes. On these three elements, attributes other than
  the ones read count only through the "some other attribute is empty"
  flag. The TMX output is a datatype with one field per attribute, not XML
  text.
- The reader's position after an attribute loop. The reader stays on the
  element's last attribute, and the next branch tests that attribute's
  name. So a `tilemap` or `layer` element whose last attribute is named
  `tile` maps to its own event followed by `TileStart(Absent, Absent,
  Absent, false)`: it also places a tile built from the values in force.
  A `tilemap` element whose last attribute is named `layer` enters the
  layer branch, finds no attributes there, and changes nothing. Building
  the event sequence from XML is not modelled, so this rule is stated
  rather than proved.
- `UInt32.Parse` and `Boolean.Parse`. A value they reject, which would be an
  uncaught FormatException or OverflowException, is not modelled, because
  values arrive already parsed. Within one element, the model checks all
  attributes for emptiness at once. The source checks them one by one, but
  `return 1` discards the partly updated variables, so the outcome is the
  same.
- gzip compression (`Compress`) and `Convert.ToBase64String` are foreign
  library calls. They are function-valued parameters, `compress` and
  `base64`, applied to the finished buffer and to the compressed bytes.
- The command line, the no-argument usage banner (`return 1`), file names
  (`Path.ChangeExtension`, `Path.GetFileNameWithoutExtension`, given as the
  `imageBase` parameter) and console messages. These are plumbing.
  `File.Exists` and reading the image become an optional byte sequence.
- The host's byte order: `BitConverter` is taken to be little-endian.
- Allocation failure: the model allocates a buffer of any size.
- The TMX file is created before emission starts. A crash during emission
  (DivideByZero) therefore leaves a partial file, which the model
  represents only as `Crashed` with no document.
- LayerSpec.LayersAreFullRuns: proved for well-formed documents only. Such
  a document is one leading `tilemap` giving both map sizes, with
  `0 < width*height < 2^29`, followed by layer and tile elements without
  empty values. A second `tilemap` element gets a fresh buffer without a
  counter reset. Maps large enough for the unchecked `currentTile * 4` to
  overflow also fall outside the theorem. Both cases are modelled
  step by step by `Assembly.Assemble` and `Assembly.TileStep`.
- Tmx.ConvertWithoutImage: the same well-formedness restriction.
- Tmx.TileCountCountsWholeTiles: stated only when `cols * rows` fits a
  `uint`. `TileCount` itself models the wrap-around.
- Tmx.ConvertWithPng: the same `uint` restriction, for documents that
  assemble without failure.
- TileFlags.PackedIdRoundTrip: stated for tile indices below `2^29 - 1`.
  Larger ones spill into the flag bits, which `TileFlags.PackedId`
  describes.
