/** What the main loop computes, stated without its buffer and counter.

    Each tile element is placed with the attributes in force at that point
    of the document: for every attribute, the value on the LAST earlier-or-
    same element that gives it (the loop never resets them). The placed
    tiles, cut into consecutive runs of `width * height`, are the layers;
    a shorter run at the end is not a layer. */
module LayerSpec {
  import opened Common
  import opened TileFlags
  import opened Assembly

  function TileAttr(e: Event): Attr<bv32> { if e.TileStart? then e.tile else Absent }
  function RotAttr(e: Event): Attr<bv32> { if e.TileStart? then e.rot else Absent }
  function FlipAttr(e: Event): Attr<bool> { if e.TileStart? then e.flipX else Absent }
  function NumberAttr(e: Event): Attr<bv32> { if e.LayerStart? then e.number else Absent }
  function NameAttr(e: Event): Attr<string> { if e.LayerStart? then e.name else Absent }

  /** The value of the last element of `events` that gives the attribute
      `attr`, if any does. */
  function LastGiven<T>(events: seq<Event>, attr: Event -> Attr<T>): Option<T>
    decreases |events|
  {
    if events == [] then None
    else
      var a := attr(events[|events| - 1]);
      if a.Given? then Some(a.v) else LastGiven(events[..|events| - 1], attr)
  }

  /** `LastGiven` finds nothing exactly when no element gives the attribute,
      and otherwise the value of an element after which none gives it. */
  lemma {:induction false} LastGivenIsLatest<T>(events: seq<Event>, attr: Event -> Attr<T>)
    ensures LastGiven(events, attr).None? <==> forall i :: 0 <= i < |events| ==> !attr(events[i]).Given?
    ensures LastGiven(events, attr).Some? ==>
      exists i :: 0 <= i < |events| && attr(events[i]) == Given(LastGiven(events, attr).value) &&
                  forall j :: i < j < |events| ==> !attr(events[j]).Given?
    decreases |events|
  {
    if events != [] {
      var init := events[..|events| - 1];
      LastGivenIsLatest(init, attr);
      assert forall i :: 0 <= i < |init| ==> init[i] == events[i];
      if attr(events[|events| - 1]).Given? {
        assert attr(events[|events| - 1]) == Given(LastGiven(events, attr).value);
      }
    }
  }

  /** Appending one element: its attribute wins if it gives one. */
  lemma LastGivenSnoc<T>(events: seq<Event>, e: Event, attr: Event -> Attr<T>)
    ensures LastGiven(events + [e], attr) == if attr(e).Given? then Some(attr(e).v) else LastGiven(events, attr)
  {
    assert (events + [e])[..|events|] == events;
  }

  /** The layer id in force: `number + 1` of the last layer element giving a
      number, 0 before any. */
  function CurrentLayerId(events: seq<Event>): bv32 {
    match LastGiven(events, NumberAttr)
    case None => 0
    case Some(number) => LayerIdOfNumber(number)
  }

  /** The loop's carried variables agree with the attributes in force. */
  predicate Carried(st: State, events: seq<Event>) {
    && st.tileId == LastGiven(events, TileAttr).GetOr(0)
    && st.rotation == LastGiven(events, RotAttr).GetOr(0)
    && st.flipX == LastGiven(events, FlipAttr).GetOr(false)
    && st.layerId == CurrentLayerId(events)
    && st.layerName == LastGiven(events, NameAttr)
  }

  /** The attributes in force after one more element. */
  lemma SnocAll(events: seq<Event>, e: Event)
    ensures LastGiven(events + [e], TileAttr) == if TileAttr(e).Given? then Some(TileAttr(e).v) else LastGiven(events, TileAttr)
    ensures LastGiven(events + [e], RotAttr) == if RotAttr(e).Given? then Some(RotAttr(e).v) else LastGiven(events, RotAttr)
    ensures LastGiven(events + [e], FlipAttr) == if FlipAttr(e).Given? then Some(FlipAttr(e).v) else LastGiven(events, FlipAttr)
    ensures LastGiven(events + [e], NumberAttr) == if NumberAttr(e).Given? then Some(NumberAttr(e).v) else LastGiven(events, NumberAttr)
    ensures LastGiven(events + [e], NameAttr) == if NameAttr(e).Given? then Some(NameAttr(e).v) else LastGiven(events, NameAttr)
  {
    LastGivenSnoc(events, e, TileAttr);
    LastGivenSnoc(events, e, RotAttr);
    LastGivenSnoc(events, e, FlipAttr);
    LastGivenSnoc(events, e, NumberAttr);
    LastGivenSnoc(events, e, NameAttr);
  }

  lemma TilemapCarries(st: State, events: seq<Event>, e: Event)
    requires Carried(st, events) && e.TilemapStart?
    ensures Carried(ReadTilemap(st, e.tilesWide, e.tilesHigh, e.tileWidth, e.tileHeight), events + [e])
  {
    SnocAll(events, e);
  }

  lemma LayerCarries(st: State, events: seq<Event>, e: Event)
    requires Carried(st, events) && e.LayerStart?
    ensures Carried(ReadLayer(st, e.number, e.name), events + [e])
  {
    SnocAll(events, e);
  }

  lemma TileCarries(st: State, events: seq<Event>, e: Event, compress: seq<bv8> -> seq<bv8>)
    requires Carried(st, events) && e.TileStart?
    requires PlaceTile(st, e.tile, e.rot, e.flipX, compress).Success?
    ensures Carried(PlaceTile(st, e.tile, e.rot, e.flipX, compress).value, events + [e])
  {
    SnocAll(events, e);
  }

  lemma StepCarries(st: State, events: seq<Event>, e: Event, compress: seq<bv8> -> seq<bv8>)
    requires Carried(st, events) && Step(st, e, compress).Success?
    ensures Carried(Step(st, e, compress).value, events + [e])
  {
    match e
    case TilemapStart(_, _, _, _, _) => TilemapCarries(st, events, e);
    case LayerStart(_, _, _) => LayerCarries(st, events, e);
    case TileStart(_, _, _, _) => TileCarries(st, events, e, compress);
  }

  /** Absent attributes are not defaulted: whenever the loop is still
      running, its tile and layer variables hold the last value given for
      each attribute anywhere before (0, 0, false, 0 and null before any). */
  lemma {:induction false} CarryOver(events: seq<Event>, compress: seq<bv8> -> seq<bv8>)
    requires Assemble(events, compress).Success?
    ensures Carried(Assemble(events, compress).value, events)
    decreases |events|
  {
    if events != [] {
      var init := events[..|events| - 1];
      CarryOver(init, compress);
      assert init + [events[|events| - 1]] == events;
      StepCarries(Assemble(init, compress).value, init, events[|events| - 1], compress);
    }
  }

  /** A placed tile: its four encoded bytes and the layer id and name in
      force when it was read. */
  datatype Placed = Placed(bytes: seq<bv8>, id: bv32, name: Option<string>)

  /** The tile elements of `events`, in order, each placed with the
      attributes in force at it. */
  function Placements(events: seq<Event>): (r: seq<Placed>)
    ensures forall i :: 0 <= i < |r| ==> |r[i].bytes| == 4
    decreases |events|
  {
    if events == [] then []
    else
      var init := Placements(events[..|events| - 1]);
      if events[|events| - 1].TileStart? then
        init + [Placed(AdjustTileId(LastGiven(events, TileAttr).GetOr(0), LastGiven(events, RotAttr).GetOr(0),
                                    LastGiven(events, FlipAttr).GetOr(false)),
                       CurrentLayerId(events), LastGiven(events, NameAttr))]
      else init
  }

  /** The bytes of placed tiles, one after the other. */
  function ConcatBytes(ts: seq<Placed>): seq<bv8>
    decreases |ts|
  {
    if ts == [] then [] else ConcatBytes(ts[..|ts| - 1]) + ts[|ts| - 1].bytes
  }

  /** Tile `k` of a run of four-byte tiles occupies bytes `4k .. 4k+3`. */
  lemma {:induction false} ConcatBytesSlot(ts: seq<Placed>, k: nat)
    requires forall i :: 0 <= i < |ts| ==> |ts[i].bytes| == 4
    requires k < |ts|
    ensures |ConcatBytes(ts)| == 4 * |ts|
    ensures ConcatBytes(ts)[4 * k..4 * k + 4] == ts[k].bytes
    decreases |ts|
  {
    var init := ts[..|ts| - 1];
    var last := ts[|ts| - 1].bytes;
    ConcatBytesLength(init);
    assert ConcatBytes(ts) == ConcatBytes(init) + last;
    if k < |ts| - 1 {
      ConcatBytesSlot(init, k);
      assert (ConcatBytes(init) + last)[4 * k..4 * k + 4] == ConcatBytes(init)[4 * k..4 * k + 4];
    } else {
      assert (ConcatBytes(init) + last)[4 * k..4 * k + 4] == last;
    }
  }

  lemma {:induction false} ConcatBytesLength(ts: seq<Placed>)
    requires forall i :: 0 <= i < |ts| ==> |ts[i].bytes| == 4
    ensures |ConcatBytes(ts)| == 4 * |ts|
    decreases |ts|
  {
    if ts != [] {
      ConcatBytesLength(ts[..|ts| - 1]);
    }
  }

  /** A full run of placed tiles as a finished layer: the id and name in
      force at its last tile, and its compressed bytes. */
  function LayerOf(run: seq<Placed>, compress: seq<bv8> -> seq<bv8>): FinishedLayer
    requires |run| > 0
  {
    FinishedLayer(run[|run| - 1].id, run[|run| - 1].name, compress(ConcatBytes(run)))
  }

  /** The placed tiles cut into consecutive runs of `n`; a shorter run left
      at the end is dropped. */
  function Chunks(ts: seq<Placed>, n: nat, compress: seq<bv8> -> seq<bv8>): seq<FinishedLayer>
    requires n > 0
    decreases |ts|
  {
    if |ts| < n then [] else [LayerOf(ts[..n], compress)] + Chunks(ts[n..], n, compress)
  }

  /** `q` full runs and `r` tiles over make `q` layers. */
  lemma {:induction false} ChunksLength(ts: seq<Placed>, n: nat, q: nat, r: nat, compress: seq<bv8> -> seq<bv8>)
    requires n > 0 && r < n && |ts| == q * n + r
    ensures |Chunks(ts, n, compress)| == q
    decreases q
  {
    if q > 0 {
      assert |ts[n..]| == (q - 1) * n + r;
      ChunksLength(ts[n..], n, q - 1, r, compress);
    }
  }

  /** Layer `j` is made of tiles `j*n .. j*n + n - 1` whenever those exist. */
  lemma {:induction false} ChunkAt(ts: seq<Placed>, n: nat, j: nat, compress: seq<bv8> -> seq<bv8>)
    requires n > 0 && j * n + n <= |ts|
    ensures j < |Chunks(ts, n, compress)|
    ensures Chunks(ts, n, compress)[j] == LayerOf(ts[j * n..j * n + n], compress)
    decreases j
  {
    var rest := ts[n..];
    if j == 0 {
      assert ts[j * n..j * n + n] == ts[..n];
    } else {
      var k := j - 1;
      assert k * n + n == j * n;
      ChunkAt(rest, n, k, compress);
      assert rest[k * n..k * n + n] == ts[j * n..j * n + n];
    }
  }

  /** `q` full runs and `r` tiles over: `q` layers, the j-th made of tiles
      `j*n .. j*n + n - 1`. */
  lemma ChunksShape(ts: seq<Placed>, n: nat, q: nat, r: nat, compress: seq<bv8> -> seq<bv8>)
    requires n > 0 && r < n && |ts| == q * n + r
    ensures |Chunks(ts, n, compress)| == q
    ensures forall j :: 0 <= j < q ==>
              j * n + n <= |ts| && Chunks(ts, n, compress)[j] == LayerOf(ts[j * n..j * n + n], compress)
  {
    ChunksLength(ts, n, q, r, compress);
    forall j | 0 <= j < q
      ensures j * n + n <= |ts| && Chunks(ts, n, compress)[j] == LayerOf(ts[j * n..j * n + n], compress)
    {
      RunFits(j, q, n);
      ChunkAt(ts, n, j, compress);
    }
  }

  /** Run `j` of `q` runs of `n` ends within the first `q * n` tiles. */
  lemma RunFits(j: nat, q: nat, n: nat)
    requires j < q
    ensures j * n + n <= q * n
  {
    assert q * n - j * n == (q - j) * n;
    assert (q - j) * n == (q - j - 1) * n + n;
  }

  /** One more placed tile adds a layer exactly when it completes a run. */
  lemma {:induction false} ChunksSnoc(ts: seq<Placed>, x: Placed, n: nat, q: nat, r: nat, compress: seq<bv8> -> seq<bv8>)
    requires n > 0 && r < n && |ts| == q * n + r
    ensures q * n <= |ts|
    ensures r + 1 < n ==> Chunks(ts + [x], n, compress) == Chunks(ts, n, compress)
    ensures r + 1 == n ==>
      Chunks(ts + [x], n, compress) == Chunks(ts, n, compress) + [LayerOf((ts + [x])[q * n..], compress)]
    decreases q
  {
    var ts' := ts + [x];
    if q == 0 {
      assert |ts| == r;
      if r + 1 == n {
        assert ts'[..n] == ts'[0..];
        assert Chunks(ts'[n..], n, compress) == [];
      }
    } else {
      var rest := ts[n..];
      assert |rest| == (q - 1) * n + r;
      ChunksSnoc(rest, x, n, q - 1, r, compress);
      assert ts'[..n] == ts[..n];
      assert ts'[n..] == rest + [x];
      assert (q - 1) * n + n == q * n;
      assert (rest + [x])[(q - 1) * n..] == ts'[q * n..];
    }
  }

  /** The document is a tilemap element giving all four sizes, for a map of
      at least one tile whose buffer offsets stay within a signed 32-bit
      int, followed only by layer and tile elements without empty
      attributes. */
  predicate WellFormed(events: seq<Event>) {
    && |events| > 0
    && var head := events[0];
    && head.TilemapStart? && !HasEmptyAttribute(head)
    && head.tilesWide.Given? && head.tilesHigh.Given?
    && 0 < head.tilesWide.v * head.tilesHigh.v < 0x2000_0000
    && forall i :: 1 <= i < |events| ==> !events[i].TilemapStart? && !HasEmptyAttribute(events[i])
  }

  /** The number of tiles in one layer of a well-formed document. */
  function MapTiles(events: seq<Event>): (n: nat)
    requires WellFormed(events)
    ensures 0 < n < 0x2000_0000
  {
    events[0].tilesWide.v * events[0].tilesHigh.v
  }

  /** What the loop keeps after a well-formed prefix `events`: the counter
      says how far into the current run it is, the buffer starts with that
      run's bytes, and the finished layers are the full runs so far. */
  predicate Accumulated(st: State, events: seq<Event>, n: nat, compress: seq<bv8> -> seq<bv8>)
    requires n > 0
  {
    RunsOf(st, Placements(events), n, compress) && Carried(st, events)
  }

  /** The buffer, counter and layer list after placing the tiles `ts`. */
  predicate RunsOf(st: State, ts: seq<Placed>, n: nat, compress: seq<bv8> -> seq<bv8>)
    requires n > 0
  {
    && st.mapTileCount == n
    && st.tileData.Some? && |st.tileData.value| == 4 * n
    && st.currentTile < n
    && |ts| == |st.layers| * n + st.currentTile
    && st.tileData.value[..4 * (st.currentTile as int)] == ConcatBytes(ts[|st.layers| * n..])
    && st.layers == Chunks(ts, n, compress)
  }

  lemma ConcatBytesSnoc(ts: seq<Placed>, x: Placed)
    ensures ConcatBytes(ts + [x]) == ConcatBytes(ts) + x.bytes
  {
    assert (ts + [x])[..|ts|] == ts;
  }

  /** A tile element places one more tile, with the attributes in force
      after it. */
  lemma PlacementsSnocTile(events: seq<Event>, e: Event)
    requires e.TileStart?
    ensures var events' := events + [e];
      Placements(events') == Placements(events) +
        [Placed(AdjustTileId(LastGiven(events', TileAttr).GetOr(0), LastGiven(events', RotAttr).GetOr(0),
                             LastGiven(events', FlipAttr).GetOr(false)),
                CurrentLayerId(events'), LastGiven(events', NameAttr))]
  {
    assert (events + [e])[..|events|] == events;
  }

  /** Writing four bytes at `4 * c` leaves the `4 * c` bytes before them alone. */
  lemma BufferRunGrows(before: seq<bv8>, data: seq<bv8>, c: nat, x: Placed)
    requires |data| == |before| && 4 * c + 4 <= |before|
    requires data[4 * c..4 * c + 4] == x.bytes
    requires forall k :: 0 <= k < |before| && !(4 * c <= k < 4 * c + 4) ==> data[k] == before[k]
    ensures data[..4 * c + 4] == before[..4 * c] + x.bytes
  {
    assert data[..4 * c + 4] == data[..4 * c] + data[4 * c..4 * c + 4];
    assert data[..4 * c] == before[..4 * c];
  }

  /** What one tile element does to the loop's state, as `TileStep` states it. */
  predicate TileAdvanced(st: State, st': State, x: Placed, n: nat, compress: seq<bv8> -> seq<bv8>)
    requires st.tileData.Some?
  {
    var before := st.tileData.value;
    var c: nat := st.currentTile;
    && st'.mapTileCount == n && st'.tileData.Some?
    && var data := st'.tileData.value;
    && |data| == |before| && 4 * c + 4 <= |data|
    && data[..4 * c + 4] == before[..4 * c] + x.bytes
    && (if c + 1 == n
        then st'.currentTile == 0 &&
             st'.layers == st.layers + [FinishedLayer(st.layerId, st.layerName, compress(data))]
        else st'.currentTile == c + 1 && st'.layers == st.layers)
  }

  /** A tile that does not finish the run: the buffer prefix grows by its bytes. */
  lemma ContinueRun(st: State, st': State, ts: seq<Placed>, x: Placed, n: nat, compress: seq<bv8> -> seq<bv8>)
    requires 0 < n && RunsOf(st, ts, n, compress)
    requires TileAdvanced(st, st', x, n, compress) && st.currentTile + 1 < n
    ensures RunsOf(st', ts + [x], n, compress)
  {
    var ts' := ts + [x];
    var q := |st.layers|;
    var c: nat := st.currentTile;
    ChunksSnoc(ts, x, n, q, c, compress);
    assert ts'[q * n..] == ts[q * n..] + [x];
    ConcatBytesSnoc(ts[q * n..], x);
    assert 4 * (st'.currentTile as int) == 4 * c + 4;
  }

  /** The tile that finishes the run: the whole buffer is the run's bytes
      and the pushed layer is the run's layer. */
  lemma CompleteRun(st: State, st': State, ts: seq<Placed>, x: Placed, n: nat, compress: seq<bv8> -> seq<bv8>)
    requires 0 < n && RunsOf(st, ts, n, compress)
    requires x.id == st.layerId && x.name == st.layerName
    requires TileAdvanced(st, st', x, n, compress) && st.currentTile + 1 == n
    ensures RunsOf(st', ts + [x], n, compress)
  {
    var ts' := ts + [x];
    var q := |st.layers|;
    var c: nat := st.currentTile;
    FinishedRunLayer(st.tileData.value, st'.tileData.value, ts[q * n..], x, c, compress);
    assert ts'[q * n..] == ts[q * n..] + [x];
    ChunksSnoc(ts, x, n, q, c, compress);
    MulSucc(q, n);
    assert |st'.layers| * n == |ts'|;
    assert ts'[|st'.layers| * n..] == [];
  }

  /** When the buffer is exactly the finished run's bytes, the layer the
      loop pushes is the run's layer. */
  lemma FinishedRunLayer(before: seq<bv8>, data: seq<bv8>, run: seq<Placed>, x: Placed, c: nat,
                         compress: seq<bv8> -> seq<bv8>)
    requires |data| == 4 * c + 4 && 4 * c <= |before|
    requires before[..4 * c] == ConcatBytes(run)
    requires data[..4 * c + 4] == before[..4 * c] + x.bytes
    ensures LayerOf(run + [x], compress) == FinishedLayer(x.id, x.name, compress(data))
  {
    ConcatBytesSnoc(run, x);
    assert data == data[..4 * c + 4];
  }

  lemma MulSucc(q: nat, n: nat)
    ensures (q + 1) * n == q * n + n
  {
  }

  /** A tile element keeps `Accumulated`. */
  lemma TileKeepsAccumulated(st: State, events: seq<Event>, e: Event, n: nat, compress: seq<bv8> -> seq<bv8>)
    requires 0 < n < 0x2000_0000
    requires Accumulated(st, events, n, compress)
    requires e.TileStart? && !HasEmptyAttribute(e)
    ensures Step(st, e, compress).Success?
    ensures Accumulated(Step(st, e, compress).value, events + [e], n, compress)
  {
    TileStep(st, e, compress);
    var st' := Step(st, e, compress).value;
    StepCarries(st, events, e, compress);
    PlacementsSnocTile(events, e);
    var x := Placed(AdjustTileId(st'.tileId, st'.rotation, st'.flipX), st.layerId, st.layerName);
    assert st'.layerId == st.layerId && st'.layerName == st.layerName;
    BufferRunGrows(st.tileData.value, st'.tileData.value, st.currentTile, x);
    assert TileAdvanced(st, st', x, n, compress);
    if st.currentTile + 1 == n {
      CompleteRun(st, st', Placements(events), x, n, compress);
    } else {
      ContinueRun(st, st', Placements(events), x, n, compress);
    }
  }

  /** A layer element keeps `Accumulated`. */
  lemma LayerKeepsAccumulated(st: State, events: seq<Event>, e: Event, n: nat, compress: seq<bv8> -> seq<bv8>)
    requires n > 0
    requires Accumulated(st, events, n, compress)
    requires e.LayerStart? && !HasEmptyAttribute(e)
    ensures Step(st, e, compress).Success?
    ensures Accumulated(Step(st, e, compress).value, events + [e], n, compress)
  {
    StepCarries(st, events, e, compress);
    assert (events + [e])[..|events|] == events;
  }

  /** The loop keeps `Accumulated` over every prefix of a well-formed document. */
  lemma {:induction false} AccumulatedPrefix(events: seq<Event>, k: nat, compress: seq<bv8> -> seq<bv8>)
    requires WellFormed(events) && 1 <= k <= |events|
    ensures Assemble(events[..k], compress).Success?
    ensures Accumulated(Assemble(events[..k], compress).value, events[..k], MapTiles(events), compress)
    decreases k
  {
    if k == 1 {
      HeaderStartsAccumulated(events, compress);
    } else {
      AccumulatedPrefix(events, k - 1, compress);
      var st := Assemble(events[..k - 1], compress).value;
      var e := events[k - 1];
      assert events[..k] == events[..k - 1] + [e];
      assert events[..k][..k - 1] == events[..k - 1];
      if e.TileStart? {
        TileKeepsAccumulated(st, events[..k - 1], e, MapTiles(events), compress);
      } else {
        LayerKeepsAccumulated(st, events[..k - 1], e, MapTiles(events), compress);
      }
    }
  }

  /** The map size and tile size the loop holds are the leading tilemap
      element's: no later element of a well-formed document changes them,
      and a tile size the element leaves out stays 0. */
  predicate SizesOf(st: State, head: Event)
    requires head.TilemapStart?
  {
    && st.mapWidth == head.tilesWide.Or(0) && st.mapHeight == head.tilesHigh.Or(0)
    && st.tileWidth == head.tileWidth.Or(0) && st.tileHeight == head.tileHeight.Or(0)
  }

  /** Every prefix of a well-formed document leaves the sizes of its
      leading tilemap element in place. */
  lemma {:induction false} SizesFromHeader(events: seq<Event>, k: nat, compress: seq<bv8> -> seq<bv8>)
    requires WellFormed(events) && 1 <= k <= |events|
    ensures Assemble(events[..k], compress).Success?
    ensures SizesOf(Assemble(events[..k], compress).value, events[0])
    decreases k
  {
    AccumulatedPrefix(events, k, compress);
    if k == 1 {
      assert events[..1][..0] == [];
      assert events[..1] == [events[0]];
    } else {
      SizesFromHeader(events, k - 1, compress);
      assert events[..k] == events[..k - 1] + [events[k - 1]];
      AssembleSnoc(events[..k - 1], events[k - 1], compress);
    }
  }

  /** After the tilemap element: an empty buffer of `4 * n` bytes, nothing placed. */
  lemma HeaderStartsAccumulated(events: seq<Event>, compress: seq<bv8> -> seq<bv8>)
    requires WellFormed(events)
    ensures Assemble(events[..1], compress).Success?
    ensures Accumulated(Assemble(events[..1], compress).value, events[..1], MapTiles(events), compress)
  {
    var n := MapTiles(events);
    var head := events[0];
    assert events[..1][..0] == [];
    assert events[..1] == [head];
    var st := ReadTilemap(Initial, head.tilesWide, head.tilesHigh, head.tileWidth, head.tileHeight);
    assert Assemble(events[..1], compress) == Success(st);
    assert Wrap32(n * 4) == 4 * n;
    assert st.mapTileCount == n;
    assert Placements(events[..1]) == [];
    CarryOver(events[..1], compress);
  }

  /** The layers of a well-formed document are its placed tiles cut into
      runs of `width * height`, in document order: layer `j` is made of
      tiles `j*n .. j*n + n - 1`, carries the id and name in force at its
      last tile, and there are exactly as many layers as full runs, so a
      trailing short run never becomes a layer. */
  lemma LayersAreFullRuns(events: seq<Event>, compress: seq<bv8> -> seq<bv8>)
    requires WellFormed(events)
    ensures Assemble(events, compress).Success?
    ensures var layers := Assemble(events, compress).value.layers;
            var ts := Placements(events);
            var n := MapTiles(events);
            && layers == Chunks(ts, n, compress)
            && |layers| == |ts| / n
            && |layers| * n <= |ts| < |layers| * n + n
            && forall j :: 0 <= j < |layers| ==> j * n + n <= |ts| && layers[j] == LayerOf(ts[j * n..j * n + n], compress)
  {
    FinalCount(events, compress);
    var st := Assemble(events, compress).value;
    RunsShape(st.layers, Placements(events), MapTiles(events), st.currentTile, compress);
  }

  /** The layer list of `q` full runs with `c < n` tiles over. */
  lemma RunsShape(layers: seq<FinishedLayer>, ts: seq<Placed>, n: nat, c: nat, compress: seq<bv8> -> seq<bv8>)
    requires n > 0 && c < n
    requires layers == Chunks(ts, n, compress) && |ts| == |layers| * n + c
    ensures |layers| == |ts| / n
    ensures |layers| * n <= |ts| < |layers| * n + n
    ensures forall j :: 0 <= j < |layers| ==> j * n + n <= |ts| && layers[j] == LayerOf(ts[j * n..j * n + n], compress)
  {
    ChunksShape(ts, n, |layers|, c, compress);
    DivUnique(|ts|, n, |layers|);
  }

  /** At the end of a well-formed document the layers are the full runs
      and the counter holds the length of the unfinished one. */
  lemma FinalCount(events: seq<Event>, compress: seq<bv8> -> seq<bv8>)
    requires WellFormed(events)
    ensures Assemble(events, compress).Success?
    ensures var st := Assemble(events, compress).value;
            var ts := Placements(events);
            var n := MapTiles(events);
            st.layers == Chunks(ts, n, compress) && |ts| == |st.layers| * n + st.currentTile && st.currentTile < n
  {
    AccumulatedPrefix(events, |events|, compress);
    assert events[..|events|] == events;
  }
}
