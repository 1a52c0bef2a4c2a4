/** The ROOM section: rooms read through a `PosCursor`. Each room has a
    24-word header whose offsets lead to five pointer lists (backgrounds,
    views, objects, tiles, layers) and an optional sixth. */
module RoomSection {
  import opened BoundedInts
  import opened Wrappers
  import opened Nom
  import opened TrackSlice
  import opened ByteParsers
  import opened Cursor

  /** `RgbaColor`: four bytes in the order r, g, b, a. */
  datatype RgbaColor = RgbaColor(r: uint8, g: uint8, b: uint8, a: uint8)

  /** `SpeedUnit`, stored as the `u32` 0 or 1. */
  datatype SpeedUnit = FramesPerSecond | FramesPerGameFrame

  /** `LayerKind`, chosen by a leading `u32` tag of 1 to 4. */
  datatype LayerKind =
    | BackgroundLayer(
        depth: int32, xOffset: Float32Bits, yOffset: Float32Bits,
        horizontalSpeed: Float32Bits, verticalSpeed: Float32Bits,
        unk: uint32, unk2: uint32, unk3: uint32, spriteIndex: int32,
        horizontalTile: bool, verticalTile: bool, stretch: bool,
        color: RgbaColor, unk4: uint32, animationSpeed: Float32Bits, animationSpeedUnit: SpeedUnit)
    | InstanceLayer(
        depth: int32, xOffset: Float32Bits, yOffset: Float32Bits,
        horizontalSpeed: Float32Bits, verticalSpeed: Float32Bits,
        unk: uint32, unk2: uint32)
    | TileLayer(depth: int32)
    | PathLayer(depth: int32)

  /** `Layer`. */
  datatype Layer = Layer(nameOffset: uint32, index: uint32, kind: LayerKind)

  /** `Background`, a room background slot. */
  datatype Background = Background(
    enabled: bool, foreground: bool, bgDefIndex: uint32, x: uint32, y: uint32,
    tileX: bool, tileY: bool, speedX: uint32, speedY: uint32, objectId: int32)

  /** `View`. */
  datatype View = View(
    enabled: bool, viewX: int32, viewY: int32, portX: int32, portY: int32,
    portWidth: int32, portHeight: int32, borderX: uint32, borderY: int32,
    speedX: uint32, speedY: uint32, objectId: int32)

  /** `GameObject`, an instance placed in the room. */
  datatype GameObject = GameObject(
    x: int32, y: int32, bgDefIndex: int32, instanceId: int32, creationCodeId: int32,
    scaleX: Float32Bits, scaleY: Float32Bits, imageSpeed: Float32Bits, frame: uint32,
    color: RgbaColor, rotation: Float32Bits, variIndex: int32)

  /** `Tile`. */
  datatype Tile = Tile(
    x: int32, y: int32, bgDefIndex: int32, sourceX: int32, sourceY: int32,
    width: uint32, height: uint32, tileDepth: int32, instanceId: int32,
    scaleX: Float32Bits, scaleY: Float32Bits, argbTint: uint32)

  /** `PosValue<Unk2>`: an empty record, kept with the position it was read at. */
  datatype Unk2At = Unk2At(pos: nat)

  /** `RoomEntry`; the five list offsets are read but not kept. */
  datatype RoomEntry = RoomEntry(
    nameOffset: uint32, captionOffset: uint32, width: uint32, height: uint32,
    speed: uint32, persistent: bool, argb: uint32, drawBgColor: bool,
    unk1: uint32, flags: uint32,
    world: uint32, top: uint32, left: uint32, right: uint32, bottom: uint32,
    gravityX: Float32Bits, gravityY: Float32Bits, metersPerPixel: Float32Bits,
    unkPointer2: uint32,
    backgrounds: seq<Background>, views: seq<View>, gameObjects: seq<GameObject>,
    tiles: seq<Tile>, layers: seq<Layer>, unk2: seq<Unk2At>, hasUnk2: bool)

  /** `Room`. */
  datatype Room = Room(entries: seq<RoomEntry>)

  /** Words in the header of a room. */
  const ROOM_HEADER_WORDS: nat := 24

  /** `gm_bool`: any non-zero word is true. */
  function GmBool(w: uint32): bool {
    w != 0
  }

  /** Word `k` after the cursor. */
  function W(c: Cur, k: nat): uint32
    requires c.inner + 4 * k + 4 <= |c.data|
  {
    U32At(c.data, c.inner + 4 * k)
  }

  /** The four bytes of a colour, in stored order. */
  function ReadColor(c: Cur): (r: Option<(RgbaColor, nat)>)
    ensures r.Some? <==> c.inner + 4 <= |c.data|
    ensures r.Some? ==>
      r.value == (RgbaColor(c.data[c.inner], c.data[c.inner + 1], c.data[c.inner + 2], c.data[c.inner + 3]), c.inner + 4)
  {
    var b :- ReadBytes(c, 4);
    Some((RgbaColor(b.0[0], b.0[1], b.0[2], b.0[3]), b.1))
  }

  /** A `SpeedUnit`: the word 0 or 1; any other word fails. */
  function ReadSpeedUnit(c: Cur): (r: Option<(SpeedUnit, nat)>)
    ensures r.Some? <==> c.inner + 4 <= |c.data| && U32At(c.data, c.inner) < 2
    ensures r.Some? ==>
      && r.value.1 == c.inner + 4
      && (r.value.0 == FramesPerSecond <==> U32At(c.data, c.inner) == 0)
  {
    var w :- ReadWord(c);
    if w.0 == 0 then Some((FramesPerSecond, w.1))
    else if w.0 == 1 then Some((FramesPerGameFrame, w.1))
    else None
  }

  /** The fields of a background layer after its tag: twelve words, the colour,
      two words and the speed unit. */
  function ReadBackgroundLayer(c: Cur): (r: Option<(LayerKind, nat)>)
    ensures r.Some? <==> c.inner + 64 <= |c.data| && U32At(c.data, c.inner + 60) < 2
    ensures r.Some? ==>
      && r.value.1 == c.inner + 64
      && var k := r.value.0;
      && k.BackgroundLayer?
      && k.depth == AsInt32(W(c, 0))
      && (k.xOffset, k.yOffset, k.horizontalSpeed, k.verticalSpeed) == (W(c, 1), W(c, 2), W(c, 3), W(c, 4))
      && (k.unk, k.unk2, k.unk3) == (W(c, 5), W(c, 6), W(c, 7))
      && k.spriteIndex == AsInt32(W(c, 8))
      && (k.horizontalTile, k.verticalTile, k.stretch) == (W(c, 9) != 0, W(c, 10) != 0, W(c, 11) != 0)
      && k.color == RgbaColor(c.data[c.inner + 48], c.data[c.inner + 49], c.data[c.inner + 50], c.data[c.inner + 51])
      && (k.unk4, k.animationSpeed) == (W(c, 13), W(c, 14))
      && (k.animationSpeedUnit == FramesPerSecond <==> W(c, 15) == 0)
  {
    var w :- ReadWords(c, 12);
    var color :- ReadColor(c.(inner := w.1));
    var v :- ReadWords(c.(inner := color.1), 2);
    var unit :- ReadSpeedUnit(c.(inner := v.1));
    var ws := w.0;
    Some((BackgroundLayer(
      AsInt32(ws[0]), ws[1], ws[2], ws[3], ws[4], ws[5], ws[6], ws[7], AsInt32(ws[8]),
      GmBool(ws[9]), GmBool(ws[10]), GmBool(ws[11]), color.0, v.0[0], v.0[1], unit.0), unit.1))
  }

  /** The fields of an instance layer after its tag: seven words. */
  function ReadInstanceLayer(c: Cur): (r: Option<(LayerKind, nat)>)
    ensures r.Some? <==> c.inner + 28 <= |c.data|
    ensures r.Some? ==>
      && r.value.1 == c.inner + 28
      && r.value.0 == InstanceLayer(AsInt32(W(c, 0)), W(c, 1), W(c, 2), W(c, 3), W(c, 4), W(c, 5), W(c, 6))
  {
    var w :- ReadWords(c, 7);
    var ws := w.0;
    Some((InstanceLayer(AsInt32(ws[0]), ws[1], ws[2], ws[3], ws[4], ws[5], ws[6]), w.1))
  }

  /** A `LayerKind`: the tag word chooses the variant, and a tag outside 1 to 4
      fails. */
  function ReadLayerKind(c: Cur): (r: Option<(LayerKind, nat)>)
    ensures r.Some? ==> c.inner + 4 <= |c.data| && 1 <= U32At(c.data, c.inner) <= 4
    ensures c.inner + 4 <= |c.data| ==>
      var tag := U32At(c.data, c.inner);
      var body := c.(inner := c.inner + 4);
      && (tag == 1 ==> r == ReadBackgroundLayer(body))
      && (tag == 2 ==> r == ReadInstanceLayer(body))
      && (tag == 3 ==> (r.Some? <==> c.inner + 8 <= |c.data|))
      && (tag == 3 && r.Some? ==> r.value == (TileLayer(AsInt32(W(c, 1))), c.inner + 8))
      && (tag == 4 ==> (r.Some? <==> c.inner + 8 <= |c.data|))
      && (tag == 4 && r.Some? ==> r.value == (PathLayer(AsInt32(W(c, 1))), c.inner + 8))
  {
    var tag :- ReadWord(c);
    var body := c.(inner := tag.1);
    if tag.0 == 1 then ReadBackgroundLayer(body)
    else if tag.0 == 2 then ReadInstanceLayer(body)
    else if tag.0 == 3 then
      var d :- ReadWord(body);
      Some((TileLayer(AsInt32(d.0)), d.1))
    else if tag.0 == 4 then
      var d :- ReadWord(body);
      Some((PathLayer(AsInt32(d.0)), d.1))
    else None
  }

  /** A `Layer`: its name offset and index, then its kind. */
  function ReadLayer(c: Cur): (r: Option<(Layer, nat)>)
    ensures r.Some? <==> c.inner + 8 <= |c.data| && ReadLayerKind(c.(inner := c.inner + 8)).Some?
    ensures r.Some? ==>
      var kind := ReadLayerKind(c.(inner := c.inner + 8)).value;
      r.value == (Layer(W(c, 0), W(c, 1), kind.0), kind.1)
  {
    var w :- ReadWords(c, 2);
    var kind :- ReadLayerKind(c.(inner := w.1));
    Some((Layer(w.0[0], w.0[1], kind.0), kind.1))
  }

  /** A room `Background`: ten words. */
  function ReadBackground(c: Cur): (r: Option<(Background, nat)>)
    ensures r.Some? <==> c.inner + 40 <= |c.data|
    ensures r.Some? ==>
      && r.value.1 == c.inner + 40
      && r.value.0 == Background(
           W(c, 0) != 0, W(c, 1) != 0, W(c, 2), W(c, 3), W(c, 4),
           W(c, 5) != 0, W(c, 6) != 0, W(c, 7), W(c, 8), AsInt32(W(c, 9)))
  {
    var w :- ReadWords(c, 10);
    var ws := w.0;
    Some((Background(
      GmBool(ws[0]), GmBool(ws[1]), ws[2], ws[3], ws[4],
      GmBool(ws[5]), GmBool(ws[6]), ws[7], ws[8], AsInt32(ws[9])), w.1))
  }

  /** A `View`: twelve words. */
  function ReadView(c: Cur): (r: Option<(View, nat)>)
    ensures r.Some? <==> c.inner + 48 <= |c.data|
    ensures r.Some? ==>
      && r.value.1 == c.inner + 48
      && r.value.0 == View(
           W(c, 0) != 0, AsInt32(W(c, 1)), AsInt32(W(c, 2)), AsInt32(W(c, 3)), AsInt32(W(c, 4)),
           AsInt32(W(c, 5)), AsInt32(W(c, 6)), W(c, 7), AsInt32(W(c, 8)),
           W(c, 9), W(c, 10), AsInt32(W(c, 11)))
  {
    var w :- ReadWords(c, 12);
    var ws := w.0;
    Some((View(
      GmBool(ws[0]), AsInt32(ws[1]), AsInt32(ws[2]), AsInt32(ws[3]), AsInt32(ws[4]),
      AsInt32(ws[5]), AsInt32(ws[6]), ws[7], AsInt32(ws[8]), ws[9], ws[10], AsInt32(ws[11])), w.1))
  }

  /** A `GameObject`: nine words, the colour, then two words. */
  function ReadGameObject(c: Cur): (r: Option<(GameObject, nat)>)
    ensures r.Some? <==> c.inner + 48 <= |c.data|
    ensures r.Some? ==>
      && r.value.1 == c.inner + 48
      && var o := r.value.0;
      && (o.x, o.y, o.bgDefIndex) == (AsInt32(W(c, 0)), AsInt32(W(c, 1)), AsInt32(W(c, 2)))
      && (o.instanceId, o.creationCodeId) == (AsInt32(W(c, 3)), AsInt32(W(c, 4)))
      && (o.scaleX, o.scaleY, o.imageSpeed, o.frame) == (W(c, 5), W(c, 6), W(c, 7), W(c, 8))
      && o.color == RgbaColor(c.data[c.inner + 36], c.data[c.inner + 37], c.data[c.inner + 38], c.data[c.inner + 39])
      && (o.rotation, o.variIndex) == (W(c, 10), AsInt32(W(c, 11)))
  {
    var w :- ReadWords(c, 9);
    var color :- ReadColor(c.(inner := w.1));
    var v :- ReadWords(c.(inner := color.1), 2);
    var ws := w.0;
    Some((GameObject(
      AsInt32(ws[0]), AsInt32(ws[1]), AsInt32(ws[2]), AsInt32(ws[3]), AsInt32(ws[4]),
      ws[5], ws[6], ws[7], ws[8], color.0, v.0[0], AsInt32(v.0[1])), v.1))
  }

  /** A `Tile`: twelve words. */
  function ReadTile(c: Cur): (r: Option<(Tile, nat)>)
    ensures r.Some? <==> c.inner + 48 <= |c.data|
    ensures r.Some? ==>
      && r.value.1 == c.inner + 48
      && r.value.0 == Tile(
           AsInt32(W(c, 0)), AsInt32(W(c, 1)), AsInt32(W(c, 2)), AsInt32(W(c, 3)), AsInt32(W(c, 4)),
           W(c, 5), W(c, 6), AsInt32(W(c, 7)), AsInt32(W(c, 8)), W(c, 9), W(c, 10), W(c, 11))
  {
    var w :- ReadWords(c, 12);
    var ws := w.0;
    Some((Tile(
      AsInt32(ws[0]), AsInt32(ws[1]), AsInt32(ws[2]), AsInt32(ws[3]), AsInt32(ws[4]),
      ws[5], ws[6], AsInt32(ws[7]), AsInt32(ws[8]), ws[9], ws[10], ws[11]), w.1))
  }

  /** `PosValue<Unk2>`: the stream position, which is `seek(Current(0))`, and
      nothing read. A position past `u64` (never the case below a `u32`
      pointer) is treated as a failed read. */
  function ReadUnk2(c: Cur): (r: Option<(Unk2At, nat)>)
    ensures r.Some? <==> c.base + c.inner < TWO_TO_THE_64
    ensures r.Some? ==> r.value == (Unk2At(c.base + c.inner), c.inner)
  {
    if c.base + c.inner < TWO_TO_THE_64 then
      var here := SeekTo(c, Current(0)).value;
      Some((Unk2At(here.0), here.1))
    else None
  }

  /** A list field with `seek_before = Start(offset)` and `parse_with =
      ptr_list`. */
  function SubList<T>(c: Cur, offset: uint32, read: Reader<T>): Option<(seq<T>, nat)> {
    var s :- SeekTo(c, Start(offset));
    PtrListSpec(c.(inner := s.1), read)
  }

  /** Since the seek before a list is absolute, the list does not depend on
      where the previous field left the cursor. */
  lemma SubListIgnoresInner<T>(c: Cur, q: nat, offset: uint32, read: Reader<T>)
    ensures SubList(c.(inner := q), offset, read) == SubList(c, offset, read)
  {
  }

  /** The list at absolute `offset`: it fails when `offset` lies before the
      section; otherwise it is the pointer list found there. */
  lemma SubListAt<T>(c: Cur, offset: uint32, read: Reader<T>)
    ensures offset < c.base ==> SubList(c, offset, read).None?
    ensures offset >= c.base ==> SubList(c, offset, read) == PtrListSpec(c.(inner := offset - c.base), read)
  {
  }

  /** The optional `unk2` list: read only when `unk_pointer2` is not zero. */
  function Unk2List(c: Cur, unkPointer2: uint32): Option<(seq<Unk2At>, nat)> {
    if unkPointer2 != 0 then SubList(c, unkPointer2, ReadUnk2) else Some(([], c.inner))
  }

  /** The derived read of `RoomEntry`: the 24 header words, then each list
      after a seek to its offset, then `unk2` when `unk_pointer2 != 0`. */
  function ReadRoomEntry(c: Cur): (r: Option<(RoomEntry, nat)>)
    ensures r.Some? <==>
      && c.inner + 4 * ROOM_HEADER_WORDS <= |c.data|
      && SubList(c, W(c, 10), ReadBackground).Some?
      && SubList(c, W(c, 11), ReadView).Some?
      && SubList(c, W(c, 12), ReadGameObject).Some?
      && SubList(c, W(c, 13), ReadTile).Some?
      && SubList(c, W(c, 22), ReadLayer).Some?
      && (W(c, 23) != 0 ==> SubList(c, W(c, 23), ReadUnk2).Some?)
    ensures r.Some? ==>
      var e := r.value.0;
      && e.backgrounds == SubList(c, W(c, 10), ReadBackground).value.0
      && e.views == SubList(c, W(c, 11), ReadView).value.0
      && e.gameObjects == SubList(c, W(c, 12), ReadGameObject).value.0
      && e.tiles == SubList(c, W(c, 13), ReadTile).value.0
      && e.layers == SubList(c, W(c, 22), ReadLayer).value.0
      && e.hasUnk2 == (W(c, 23) != 0)
      && e.unk2 == (if W(c, 23) != 0 then SubList(c, W(c, 23), ReadUnk2).value.0 else [])
      && e.unkPointer2 == W(c, 23)
      && (e.nameOffset, e.captionOffset, e.width, e.height, e.speed) == (W(c, 0), W(c, 1), W(c, 2), W(c, 3), W(c, 4))
      && (e.persistent, e.argb, e.drawBgColor) == (W(c, 5) != 0, W(c, 6), W(c, 7) != 0)
      && (e.unk1, e.flags) == (W(c, 8), W(c, 9))
      && (e.world, e.top, e.left, e.right, e.bottom) == (W(c, 14), W(c, 15), W(c, 16), W(c, 17), W(c, 18))
      && (e.gravityX, e.gravityY, e.metersPerPixel) == (W(c, 19), W(c, 20), W(c, 21))
  {
    var h :- ReadWords(c, ROOM_HEADER_WORDS);
    var w := h.0;
    SubListIgnoresInner(c, h.1, w[10], ReadBackground);
    var backgrounds :- SubList(c.(inner := h.1), w[10], ReadBackground);
    SubListIgnoresInner(c, backgrounds.1, w[11], ReadView);
    var views :- SubList(c.(inner := backgrounds.1), w[11], ReadView);
    SubListIgnoresInner(c, views.1, w[12], ReadGameObject);
    var objects :- SubList(c.(inner := views.1), w[12], ReadGameObject);
    SubListIgnoresInner(c, objects.1, w[13], ReadTile);
    var tiles :- SubList(c.(inner := objects.1), w[13], ReadTile);
    SubListIgnoresInner(c, tiles.1, w[22], ReadLayer);
    var layers :- SubList(c.(inner := tiles.1), w[22], ReadLayer);
    SubListIgnoresInner(c, layers.1, w[23], ReadUnk2);
    var unk2 :- Unk2List(c.(inner := layers.1), w[23]);
    Some((RoomEntry(
      w[0], w[1], w[2], w[3], w[4], GmBool(w[5]), w[6], GmBool(w[7]), w[8], w[9],
      w[14], w[15], w[16], w[17], w[18], w[19], w[20], w[21], w[23],
      backgrounds.0, views.0, objects.0, tiles.0, layers.0, unk2.0, w[23] != 0), unk2.1))
  }

  /** The rooms the derived read of `Room` finds in `input`, or `None` when one
      of its reads or seeks fails. */
  function Rooms(input: PosSlice): Option<seq<RoomEntry>> {
    var l :- PtrListSpec(Opened(input), ReadRoomEntry);
    Some(l.0)
  }

  /** `Room::take`: the remainder is the whole input; any failure of the read
      is a `ParseTo` error at the input. */
  method Take(input: PosSlice) returns (r: Parsed<Room>)
    ensures Rooms(input).Some? ==> r == Done(input, Room(Rooms(input).value))
    ensures Rooms(input).None? ==> r == Error(input, ParseTo)
  {
    var cursor := new PosCursor.From(input);
    var rooms := PtrList(cursor, ReadRoomEntry);
    if rooms.None? {
      return Error(input, ParseTo);
    }
    return Done(input, Room(rooms.value));
  }

  /** The rooms are one per pointer, in pointer order, each read at its own
      absolute pointer. */
  lemma RoomsAtPointers(input: PosSlice)
    ensures Rooms(input).Some? <==>
      && HasPointers(Opened(input))
      && forall k :: 0 <= k < |Pointers(Opened(input))| ==> Resolves(Opened(input), Pointers(Opened(input))[k], ReadRoomEntry)
    ensures Rooms(input).Some? ==>
      var ptrs := Pointers(Opened(input));
      && |Rooms(input).value| == |ptrs|
      && forall k :: 0 <= k < |ptrs| ==>
           Rooms(input).value[k] == ReadAt(Opened(input), ptrs[k], ReadRoomEntry).value.0
  {
    PtrListReadsEach(Opened(input), ReadRoomEntry);
  }

  /** The positions kept in `unk2` are the list's own pointers. */
  lemma Unk2PositionsArePointers(c: Cur, offset: uint32)
    requires SubList(c, offset, ReadUnk2).Some?
    ensures offset >= c.base
    ensures
      var d := c.(inner := offset - c.base);
      var l := SubList(c, offset, ReadUnk2).value.0;
      && HasPointers(d)
      && |l| == |Pointers(d)|
      && forall k :: 0 <= k < |l| ==> l[k].pos == Pointers(d)[k]
  {
    var d := c.(inner := offset - c.base);
    PtrListReadsEach(d, ReadUnk2);
  }
}
