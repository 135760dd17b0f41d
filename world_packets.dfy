/** The integer rules inside the `WorldPackets` handlers: block changes,
    chunk and sub-chunk data, section keys, time of day and view radius.
    The `ChunkTracker` (block remapping, chunk storage) and the blob cache
    future are outside the model: the remapping is the parameter `remap`,
    and a blob arrives as a value. */
module WorldRules {
  import opened Wrappers
  import opened JavaLang
  import opened MathUtil

  datatype BlockPos = BlockPos(x: Int32, y: Int32, z: Int32)

  // ---------------------------------------------------------------- block changes

  /** `BLOCK_CHANGE_HANDLER`: what happens to an update of one block. */
  datatype BlockChangeOutcome<B> =
    | Cancelled
    | Changed(blockState: int)
    | ChangedWithEntity(blockState: int, entity: B)

  /** A layer other than 0 or 1 cancels the packet before the chunk tracker
      sees it; otherwise the tracker's remapping decides. */
  function BlockChange<B>(position: BlockPos, blockState: int, layer: int, remap: (BlockPos, int, int) -> Option<(int, Option<B>)>): (r: BlockChangeOutcome<B>)
    ensures layer != 0 && layer != 1 ==> r == Cancelled
    ensures (layer == 0 || layer == 1) ==>
      (r == Cancelled <==> remap(position, layer, blockState).None?)
  {
    if layer < 0 || layer > 1 then Cancelled
    else match remap(position, layer, blockState)
      case None => Cancelled
      case Some((state, None)) => Changed(state)
      case Some((state, Some(entity))) => ChangedWithEntity(state, entity)
  }

  /** A block change that is not cancelled came from layer 0 or 1 and
      carries the tracker's block state. */
  lemma BlockChangeAccepted<B>(position: BlockPos, blockState: int, layer: int, remap: (BlockPos, int, int) -> Option<(int, Option<B>)>)
    requires BlockChange(position, blockState, layer, remap) != Cancelled
    ensures layer == 0 || layer == 1
    ensures remap(position, layer, blockState).Some?
    ensures BlockChange(position, blockState, layer, remap).blockState == remap(position, layer, blockState).value.0
  {
  }

  // ---------------------------------------------------------------- coordinates

  /** `p >> 4`: the chunk (or section) coordinate of a block coordinate. */
  function ChunkCoord(p: int): int
  {
    Shr(p, 4)
  }

  /** `p & 0xF`: the coordinate inside the chunk. */
  function RelativeCoord(p: int): int
  {
    LowBits(p, 4)
  }

  /** A block coordinate is 16 times its chunk coordinate plus its relative
      coordinate, which lies in [0, 16). */
  lemma SplitCoordinate(p: int)
    ensures 0 <= RelativeCoord(p) < 16
    ensures 16 * ChunkCoord(p) + RelativeCoord(p) == p
  {
    Pow2Values();
  }

  /** The split is the only one: any chunk and relative coordinate that
      rebuild `p` are those of `p`. */
  lemma SplitCoordinateUnique(p: int, chunk: int, relative: int)
    requires 0 <= relative < 16 && 16 * chunk + relative == p
    ensures chunk == ChunkCoord(p) && relative == RelativeCoord(p)
  {
    SplitCoordinate(p);
    assert 16 * (chunk - ChunkCoord(p)) == RelativeCoord(p) - relative;
  }

  // ---------------------------------------------------------------- section key

  /** The `long` key of a chunk section in a multi block change: x in bits
      42-63, z in bits 20-41 and y in bits 0-11. The three masked fields
      occupy disjoint bits, so the source's `|` is their sum. */
  function SectionKey(x: int, y: int, z: int): Int64
  {
    Wrap64(LowBits(x, 22) * Pow2(42) + LowBits(z, 22) * Pow2(20) + LowBits(y, 12))
  }

  /** The unsigned 64-bit pattern of a `long`. */
  function Unsigned64(v: Int64): nat
  {
    v % TWO_64
  }

  /** A field of `bits` bits read back as a two's complement value. */
  function SignExtend(v: int, bits: nat): int
    requires bits > 0
  {
    if v >= Pow2(bits - 1) then v - Pow2(bits) else v
  }

  /** How the Java client reads the three coordinates back out of a key. */
  function SectionKeyX(key: Int64): int
  {
    SignExtend(Unsigned64(key) / Pow2(42), 22)
  }

  function SectionKeyZ(key: Int64): int
  {
    SignExtend((Unsigned64(key) / Pow2(20)) % Pow2(22), 22)
  }

  function SectionKeyY(key: Int64): int
  {
    SignExtend(Unsigned64(key) % Pow2(12), 12)
  }

  /** Euclidean division is unique: `q * m + r` with `0 <= r < m` divides
      into `q` and `r`. */
  lemma DivModParts(q: int, r: int, m: int)
    requires m > 0 && 0 <= r < m
    ensures (q * m + r) / m == q && (q * m + r) % m == r
  {
    var x := q * m + r;
    var d := x / m - q;
    assert d * m == r - x % m;
    MulSmall(d, m);
  }

  lemma MulSmall(d: int, m: int)
    requires m > 0 && -m < d * m < m
    ensures d == 0
  {
  }

  /** The fields of a key: bits 12-19 are never set. */
  lemma SectionKeyFields(x: int, y: int, z: int)
    ensures Unsigned64(SectionKey(x, y, z)) / Pow2(42) == LowBits(x, 22)
    ensures (Unsigned64(SectionKey(x, y, z)) / Pow2(20)) % Pow2(22) == LowBits(z, 22)
    ensures Unsigned64(SectionKey(x, y, z)) % Pow2(12) == LowBits(y, 12)
    ensures (Unsigned64(SectionKey(x, y, z)) / Pow2(12)) % Pow2(8) == 0
  {
    Pow2Values();
    var a, b, c := LowBits(x, 22), LowBits(z, 22), LowBits(y, 12);
    var u := a * 0x400_0000_0000 + b * 0x10_0000 + c;
    UnsignedOfWrap(u);
    KeyHigh(a, b, c);
    KeyMiddle(a, b, c);
    KeyLow(a, b, c);
  }

  /** A value that fits in 64 unsigned bits survives the trip through `long`. */
  lemma UnsignedOfWrap(u: int)
    requires 0 <= u < TWO_64
    ensures Unsigned64(Wrap64(u)) == u
  {
    DivModParts(0, u, TWO_64);
    if u > LONG_MAX {
      DivModParts(-1, u, TWO_64);
    }
  }

  /** x occupies bits 42-63 of the layout. */
  lemma KeyHigh(a: int, b: int, c: int)
    requires 0 <= a < 0x40_0000 && 0 <= b < 0x40_0000 && 0 <= c < 0x1000
    ensures (a * 0x400_0000_0000 + b * 0x10_0000 + c) / 0x400_0000_0000 == a
  {
    DivModParts(a, b * 0x10_0000 + c, 0x400_0000_0000);
  }

  /** z occupies bits 20-41 of the layout. */
  lemma KeyMiddle(a: int, b: int, c: int)
    requires 0 <= a < 0x40_0000 && 0 <= b < 0x40_0000 && 0 <= c < 0x1000
    ensures ((a * 0x400_0000_0000 + b * 0x10_0000 + c) / 0x10_0000) % 0x40_0000 == b
  {
    assert a * 0x400_0000_0000 + b * 0x10_0000 + c == (a * 0x40_0000 + b) * 0x10_0000 + c;
    DivModParts(a * 0x40_0000 + b, c, 0x10_0000);
    DivModParts(a, b, 0x40_0000);
  }

  /** y occupies bits 0-11 and bits 12-19 stay clear. */
  lemma KeyLow(a: int, b: int, c: int)
    requires 0 <= a < 0x40_0000 && 0 <= b < 0x40_0000 && 0 <= c < 0x1000
    ensures (a * 0x400_0000_0000 + b * 0x10_0000 + c) % 0x1000 == c
    ensures ((a * 0x400_0000_0000 + b * 0x10_0000 + c) / 0x1000) % 0x100 == 0
  {
    var h := (a * 0x40_0000 + b) * 0x100;
    assert a * 0x400_0000_0000 + b * 0x10_0000 + c == h * 0x1000 + c;
    DivModParts(h, c, 0x1000);
    DivModParts(a * 0x40_0000 + b, 0, 0x100);
  }

  lemma SignExtendLowBits(v: int, bits: nat)
    requires bits > 0 && 0 <= v + Pow2(bits - 1) && v < Pow2(bits - 1)
    ensures SignExtend(LowBits(v, bits), bits) == v
  {
    Pow2Add(bits - 1, 1);
    assert Pow2(bits) == 2 * Pow2(bits - 1);
    if v >= 0 {
      DivModParts(0, v, Pow2(bits));
    } else {
      DivModParts(-1, v + Pow2(bits), Pow2(bits));
    }
  }

  /** Coordinates within the key's ranges come back unchanged: 22-bit x and
      z, 12-bit y. */
  lemma SectionKeyRoundTrip(x: int, y: int, z: int)
    requires -0x20_0000 <= x < 0x20_0000 && -0x20_0000 <= z < 0x20_0000 && -0x800 <= y < 0x800
    ensures SectionKeyX(SectionKey(x, y, z)) == x
    ensures SectionKeyY(SectionKey(x, y, z)) == y
    ensures SectionKeyZ(SectionKey(x, y, z)) == z
  {
    Pow2Values();
    assert Pow2(21) == 0x20_0000 by { Pow2Add(20, 1); }
    assert Pow2(11) == 0x800 by { Pow2Add(8, 3); assert Pow2(3) == 8 by { assert Pow2(2) == 4 by { assert Pow2(1) == 2; } } }
    SectionKeyFields(x, y, z);
    SignExtendLowBits(x, 22);
    SignExtendLowBits(z, 22);
    SignExtendLowBits(y, 12);
  }

  // ---------------------------------------------------------------- chunk data

  /** The `LEVEL_CHUNK` buffer: the blob bytes, then the inline data, copied
      into a new array. */
  method CombineChunkData(blob: seq<Byte>, data: seq<Byte>) returns (combined: array<Byte>)
    ensures fresh(combined)
    ensures combined[..] == blob + data
  {
    combined := new Byte[|data| + |blob|](_ => 0);
    ghost var zeros := combined[..];
    ArrayCopy(blob, 0, combined, 0, |blob|);
    ArrayCopy(data, 0, combined, |blob|, |data|);
    assert combined[..] == Overwrite(Overwrite(zeros, 0, blob), |blob|, data);
    assert combined[..] == blob + data by {
      assert |combined[..]| == |blob + data|;
      forall k | 0 <= k < |blob| + |data| ensures combined[..][k] == (blob + data)[k] {
        assert blob[0..|blob|] == blob;
        assert data[0..|data|] == data;
      }
    }
  }

  /** The `SUB_CHUNK` data: an empty side gives the other one as it is,
      otherwise both are combined. */
  method CombineSubChunkData(blob: seq<Byte>, data: seq<Byte>) returns (combined: seq<Byte>)
    ensures combined == blob + data
  {
    if |data| == 0 {
      combined := blob;
      assert blob + data == blob;
    } else if |blob| == 0 {
      combined := data;
      assert blob + data == data;
    } else {
      var buffer := CombineChunkData(blob, data);
      combined := buffer[..];
    }
  }

  /** The number of blob ids a cached `LEVEL_CHUNK` must carry: one per
      section and one for the biomes, or one when the sections come
      separately. */
  function ExpectedBlobCount(sectionCount: Int32): (n: Int32)
    ensures sectionCount < 0 ==> n == 1
    ensures 0 <= sectionCount < INT_MAX ==> n == sectionCount + 1
  {
    if sectionCount < 0 then 1 else Wrap32(sectionCount + 1)
  }

  datatype ChunkError =
    | InvalidBlobCount(count: int, expected: int)  // the player is kicked
    | FirstBiomePaletteMissing

  /** The blob count check of `LEVEL_CHUNK`. */
  function CheckBlobCount(sectionCount: Int32, blobCount: nat): (r: Result<(), ChunkError>)
    ensures r.Ok? <==> blobCount == ExpectedBlobCount(sectionCount)
    ensures r.Err? ==> r.error == InvalidBlobCount(blobCount, ExpectedBlobCount(sectionCount))
  {
    var expected := ExpectedBlobCount(sectionCount);
    if blobCount != expected then Err(InvalidBlobCount(blobCount, expected)) else Ok(())
  }

  /** The largest section count is never accepted: its `+ 1` overflows. */
  lemma MaxSectionCountRejected(blobCount: nat)
    ensures CheckBlobCount(INT_MAX, blobCount).Err?
  {
    assert ExpectedBlobCount(INT_MAX) == INT_MIN;
  }

  /** What `LEVEL_CHUNK` does before the chunk data arrives. */
  datatype LevelChunkPlan =
    | Ignored
    | Plan(requestCount: int, createdSections: int, requestSubChunks: bool, request: Option<(int, int)>)

  /** The sub-chunk request plan of `LEVEL_CHUNK`: `count` is the unsigned
      short read when `sectionCount` is -2, and `previous` whether a chunk
      was already loaded there and whether it requested sub-chunks. The
      plan does not record when the request goes out: the source sends it
      inside the blob consumer, after the blob-count check. */
  function LevelChunk(sectionCount: Int32, count: nat, minY: Int32, maxY: Int32, previous: Option<bool>): (p: LevelChunkPlan)
    requires count < 0x1_0000
    ensures p.Ignored? <==> sectionCount < -2
    ensures p.Plan? ==> p.requestSubChunks == (sectionCount < 0)
    ensures p.Plan? ==> p.createdSections == if sectionCount < 0 then p.requestCount else sectionCount
    ensures p.Plan? && previous == Some(true) ==> p.requestCount == ChunkCoord(maxY) - ChunkCoord(minY)
    ensures p.Plan? && previous != Some(true) ==>
      p.requestCount == if sectionCount == -2 then count + 1
                        else if sectionCount == -1 then ChunkCoord(maxY) - ChunkCoord(minY)
                        else 0
    ensures p.Plan? ==> (p.request.Some? <==> p.requestCount > 0)
  {
    if sectionCount < -2 then Ignored
    else
      var startY := ChunkCoord(minY);
      var endY := ChunkCoord(maxY);
      var requested := if sectionCount == -2 then count + 1 else if sectionCount == -1 then endY - startY else 0;
      var requestCount := if previous == Some(true) then endY - startY else requested;
      Plan(requestCount, if sectionCount < 0 then requestCount else sectionCount, sectionCount < 0,
           if requestCount > 0 then Some((startY, Clamp(startY + requestCount, startY + 1, endY))) else None)
  }

  /** The plan's arithmetic stays within Java's `int`, so the unbounded
      integers above compute what the source computes. */
  lemma LevelChunkFitsInt(sectionCount: Int32, count: nat, minY: Int32, maxY: Int32, previous: Option<bool>)
    requires count < 0x1_0000
    ensures var p := LevelChunk(sectionCount, count, minY, maxY, previous);
      p.Plan? ==> INT_MIN <= p.requestCount <= INT_MAX && INT_MIN <= ChunkCoord(minY) + p.requestCount <= INT_MAX
  {
    ChunkCoordRange(minY);
    ChunkCoordRange(maxY);
  }

  /** The chunk coordinate of an `int` lies in [-2^27, 2^27). */
  lemma ChunkCoordRange(y: Int32)
    ensures -0x800_0000 <= ChunkCoord(y) < 0x800_0000
  {
    SplitCoordinate(y);
  }

  /** A request starts at the bottom section and ends within the world when
      the world has at least one section above the bottom one. */
  lemma LevelChunkRequestInWorld(sectionCount: Int32, count: nat, minY: Int32, maxY: Int32, previous: Option<bool>)
    requires count < 0x1_0000 && ChunkCoord(minY) < ChunkCoord(maxY)
    ensures var p := LevelChunk(sectionCount, count, minY, maxY, previous);
      p.Plan? && p.request.Some? ==>
        p.request.value.0 == ChunkCoord(minY) && ChunkCoord(minY) < p.request.value.1 <= ChunkCoord(maxY)
  {
  }

  // ---------------------------------------------------------------- biome palettes

  /** The biome palettes of a chunk's sections after `LEVEL_CHUNK`: a
      missing palette (`null`) repeats the previous section's, and a
      missing first one is an error. */
  function ResolvedBiomes<Pal>(read: seq<Option<Pal>>): (r: Result<seq<Pal>, ChunkError>)
    ensures r.Ok? ==> |r.value| == |read|
    ensures r.Err? ==> r.error == FirstBiomePaletteMissing
  {
    if read == [] then Ok([])
    else
      var init :- ResolvedBiomes(read[..|read| - 1]);
      match read[|read| - 1]
      case Some(p) => Ok(init + [p])
      case None => if init == [] then Err(FirstBiomePaletteMissing) else Ok(init + [init[|init| - 1]])
  }

  /** The last explicit palette at or before section `i`, if there is one. */
  function LastExplicit<Pal>(read: seq<Option<Pal>>, i: nat): (j: int)
    requires i < |read|
    ensures -1 <= j <= i
    ensures j >= 0 ==> read[j].Some?
    ensures forall k :: j < k <= i ==> read[k].None?
  {
    if read[i].Some? then i else if i == 0 then -1 else LastExplicit(read, i - 1)
  }

  /** Resolution fails exactly when the first palette is missing; otherwise
      every section gets the nearest explicit palette at or before it. */
  lemma {:induction false} ResolvedBiomesSpec<Pal>(read: seq<Option<Pal>>)
    ensures ResolvedBiomes(read).Ok? <==> read == [] || read[0].Some?
    ensures ResolvedBiomes(read).Ok? ==> forall i :: 0 <= i < |read| ==>
      LastExplicit(read, i) >= 0 && ResolvedBiomes(read).value[i] == read[LastExplicit(read, i)].value
  {
    if read != [] {
      var init := read[..|read| - 1];
      ResolvedBiomesSpec(init);
      assert forall i :: 0 <= i < |init| ==> init[i] == read[i];
      if init != [] {
        assert init[0] == read[0];
      }
      if ResolvedBiomes(read).Ok? {
        forall i | 0 <= i < |init| ensures LastExplicit(read, i) == LastExplicit(init, i) {
          LastExplicitPrefix(read, init, i);
        }
      }
    }
  }

  lemma {:induction false} LastExplicitPrefix<Pal>(read: seq<Option<Pal>>, init: seq<Option<Pal>>, i: nat)
    requires |init| <= |read| && i < |init| && forall k :: 0 <= k < |init| ==> init[k] == read[k]
    ensures LastExplicit(read, i) == LastExplicit(init, i)
  {
    if read[i].None? && i > 0 {
      LastExplicitPrefix(read, init, i - 1);
    }
  }

  /** The biome palette loop of `LEVEL_CHUNK`. */
  method ResolveBiomePalettes<Pal>(read: seq<Option<Pal>>) returns (r: Result<seq<Pal>, ChunkError>)
    ensures r == ResolvedBiomes(read)
  {
    var sections: seq<Pal> := [];
    for i := 0 to |read|
      invariant ResolvedBiomes(read[..i]) == Ok(sections)
    {
      assert read[..i + 1][..i] == read[..i];
      var palette := read[i];
      if palette.None? {
        if i == 0 {
          ResolvedBiomesSpec(read);
          return Err(FirstBiomePaletteMissing);
        }
        palette := Some(sections[i - 1]);
      }
      sections := sections + [palette.value];
    }
    assert read[..|read|] == read;
    r := Ok(sections);
  }

  // ---------------------------------------------------------------- sub-chunk block updates

  datatype ChangeEntry = ChangeEntry(position: BlockPos, blockState: int)

  /** A change record: the block's position inside its section and its new
      state. */
  datatype ChangeRecord = ChangeRecord(x: int, y: int, z: int, blockState: int)

  datatype SectionPos = SectionPos(x: int, y: int, z: int)

  /** An update the chunk tracker accepted. */
  datatype AcceptedChange<B> = AcceptedChange(position: BlockPos, section: SectionPos, record: ChangeRecord, entity: Option<B>)

  function Section(p: BlockPos): SectionPos
  {
    SectionPos(ChunkCoord(p.x), ChunkCoord(p.y), ChunkCoord(p.z))
  }

  /** The accepted updates of one layer, in order. */
  function LayerChanges<B>(entries: seq<ChangeEntry>, layer: int, remap: (BlockPos, int, int) -> Option<(int, Option<B>)>): seq<AcceptedChange<B>>
  {
    if entries == [] then []
    else
      var init := LayerChanges(entries[..|entries| - 1], layer, remap);
      var e := entries[|entries| - 1];
      match remap(e.position, layer, e.blockState)
      case None => init
      case Some((state, entity)) =>
        init + [AcceptedChange(e.position, Section(e.position),
          ChangeRecord(RelativeCoord(e.position.x), RelativeCoord(e.position.y), RelativeCoord(e.position.z), state), entity)]
  }

  /** One more entry adds its accepted change, if any, at the end. */
  lemma LayerChangesSnoc<B>(entries: seq<ChangeEntry>, i: nat, layer: int, remap: (BlockPos, int, int) -> Option<(int, Option<B>)>)
    requires i < |entries|
    ensures var e := entries[i];
      LayerChanges(entries[..i + 1], layer, remap) ==
        match remap(e.position, layer, e.blockState)
        case None => LayerChanges(entries[..i], layer, remap)
        case Some((state, entity)) =>
          LayerChanges(entries[..i], layer, remap) + [AcceptedChange(e.position, Section(e.position),
            ChangeRecord(RelativeCoord(e.position.x), RelativeCoord(e.position.y), RelativeCoord(e.position.z), state), entity)]
  {
    assert entries[..i + 1][..i] == entries[..i];
  }

  /** The accepted updates of all layers, layer by layer. */
  function AllChanges<B>(layers: seq<seq<ChangeEntry>>, remap: (BlockPos, int, int) -> Option<(int, Option<B>)>): seq<AcceptedChange<B>>
  {
    if layers == [] then []
    else AllChanges(layers[..|layers| - 1], remap) + LayerChanges(layers[|layers| - 1], |layers| - 1, remap)
  }

  /** The change records grouped by section, each list in update order. */
  function Grouped<B>(changes: seq<AcceptedChange<B>>): map<SectionPos, seq<ChangeRecord>>
  {
    if changes == [] then map[]
    else
      var m := Grouped(changes[..|changes| - 1]);
      var c := changes[|changes| - 1];
      m[c.section := (if c.section in m then m[c.section] else []) + [c.record]]
  }

  /** One more change appends its record to its section's list and, with
      a block entity, records that entity at its position. */
  lemma GroupedSnoc<B>(done: seq<AcceptedChange<B>>, c: AcceptedChange<B>)
    ensures Grouped(done + [c]) == Grouped(done)[c.section := (if c.section in Grouped(done) then Grouped(done)[c.section] else []) + [c.record]]
    ensures EntitiesOf(done + [c]) == if c.entity.Some? then EntitiesOf(done)[c.position := c.entity.value] else EntitiesOf(done)
  {
    assert (done + [c])[..|done|] == done;
  }

  /** The records of one section, in update order. */
  function RecordsOf<B>(changes: seq<AcceptedChange<B>>, s: SectionPos): seq<ChangeRecord>
  {
    if changes == [] then []
    else
      var c := changes[|changes| - 1];
      RecordsOf(changes[..|changes| - 1], s) + if c.section == s then [c.record] else []
  }

  /** A section has a list iff some update falls in it, and its list holds
      exactly that section's records, in order. */
  lemma {:induction false} GroupedSpec<B>(changes: seq<AcceptedChange<B>>, s: SectionPos)
    ensures s in Grouped(changes) <==> RecordsOf(changes, s) != []
    ensures s in Grouped(changes) ==> Grouped(changes)[s] == RecordsOf(changes, s)
  {
    if changes != [] {
      GroupedSpec(changes[..|changes| - 1], s);
    }
  }

  /** The block entities by position; a later one at the same position
      replaces an earlier one. */
  function EntitiesOf<B>(changes: seq<AcceptedChange<B>>): map<BlockPos, B>
  {
    if changes == [] then map[]
    else
      var m := EntitiesOf(changes[..|changes| - 1]);
      var c := changes[|changes| - 1];
      if c.entity.Some? then m[c.position := c.entity.value] else m
  }

  /** Every record sits inside its section, at the block's position. */
  lemma {:induction false} ChangesInSection<B>(entries: seq<ChangeEntry>, layer: int, remap: (BlockPos, int, int) -> Option<(int, Option<B>)>, i: nat)
    requires i < |LayerChanges(entries, layer, remap)|
    ensures var c := LayerChanges(entries, layer, remap)[i];
      && 16 * c.section.x + c.record.x == c.position.x && 0 <= c.record.x < 16
      && 16 * c.section.y + c.record.y == c.position.y && 0 <= c.record.y < 16
      && 16 * c.section.z + c.record.z == c.position.z && 0 <= c.record.z < 16
  {
    var init := LayerChanges(entries[..|entries| - 1], layer, remap);
    if i < |init| {
      ChangesInSection(entries[..|entries| - 1], layer, remap, i);
    } else {
      var p := entries[|entries| - 1].position;
      SplitCoordinate(p.x);
      SplitCoordinate(p.y);
      SplitCoordinate(p.z);
    }
  }

  /** The update loops of `UPDATE_SUB_CHUNK_BLOCKS`: every layer's entries
      remapped in order, the accepted ones grouped by section, with their
      block entities by position. */
  method GroupBlockChanges<B>(layers: seq<seq<ChangeEntry>>, remap: (BlockPos, int, int) -> Option<(int, Option<B>)>)
    returns (blockChanges: map<SectionPos, seq<ChangeRecord>>, blockEntities: map<BlockPos, B>)
    ensures blockChanges == Grouped(AllChanges(layers, remap))
    ensures blockEntities == EntitiesOf(AllChanges(layers, remap))
  {
    blockChanges, blockEntities := map[], map[];
    for layer := 0 to |layers|
      invariant blockChanges == Grouped(AllChanges(layers[..layer], remap))
      invariant blockEntities == EntitiesOf(AllChanges(layers[..layer], remap))
    {
      assert layers[..layer + 1][..layer] == layers[..layer];
      blockChanges, blockEntities := GroupLayer(layers[layer], layer, remap, AllChanges(layers[..layer], remap), blockChanges, blockEntities);
    }
    assert layers[..|layers|] == layers;
  }

  /** The inner loop for one layer: each accepted entry is added to its
      section's list and, with a block entity, to the entities. */
  method GroupLayer<B>(entries: seq<ChangeEntry>, layer: int, remap: (BlockPos, int, int) -> Option<(int, Option<B>)>,
                       ghost before: seq<AcceptedChange<B>>, changes: map<SectionPos, seq<ChangeRecord>>, entities: map<BlockPos, B>)
    returns (blockChanges: map<SectionPos, seq<ChangeRecord>>, blockEntities: map<BlockPos, B>)
    requires changes == Grouped(before) && entities == EntitiesOf(before)
    ensures blockChanges == Grouped(before + LayerChanges(entries, layer, remap))
    ensures blockEntities == EntitiesOf(before + LayerChanges(entries, layer, remap))
  {
    blockChanges, blockEntities := changes, entities;
    ghost var done := before;
    for i := 0 to |entries|
      invariant done == before + LayerChanges(entries[..i], layer, remap)
      invariant blockChanges == Grouped(done) && blockEntities == EntitiesOf(done)
    {
      LayerChangesSnoc(entries, i, layer, remap);
      var entry := entries[i];
      var remapped := remap(entry.position, layer, entry.blockState);
      if remapped.Some? {
        var (state, entity) := remapped.value;
        if entity.Some? {
          blockEntities := blockEntities[entry.position := entity.value];
        }
        var section := Section(entry.position);
        var relative := ChangeRecord(RelativeCoord(entry.position.x), RelativeCoord(entry.position.y), RelativeCoord(entry.position.z), state);
        var list := if section in blockChanges then blockChanges[section] else [];
        blockChanges := blockChanges[section := list + [relative]];
        var change := AcceptedChange(entry.position, section, relative, entity);
        GroupedSnoc(done, change);
        done := done + [change];
      }
    }
    assert entries[..|entries|] == entries;
  }

  /** The multi block change packets sent: one per section, keyed by its
      section key. */
  function MultiBlockChanges(blockChanges: map<SectionPos, seq<ChangeRecord>>): (packets: set<(Int64, seq<ChangeRecord>)>)
    ensures forall s :: s in blockChanges ==> (SectionKey(s.x, s.y, s.z), blockChanges[s]) in packets
    ensures forall pk :: pk in packets ==> exists s :: s in blockChanges && pk == (SectionKey(s.x, s.y, s.z), blockChanges[s])
  {
    set s | s in blockChanges :: (SectionKey(s.x, s.y, s.z), blockChanges[s])
  }

  predicate SectionInKeyRange(s: SectionPos)
  {
    -0x20_0000 <= s.x < 0x20_0000 && -0x20_0000 <= s.z < 0x20_0000 && -0x800 <= s.y < 0x800
  }

  /** Every packet sent belongs to a section with changes: unpacking its key
      gives back that section, and its records are exactly the section's
      records. With all sections in range no two sections share a packet. */
  lemma MultiBlockChangesExact(blockChanges: map<SectionPos, seq<ChangeRecord>>)
    requires forall s :: s in blockChanges ==> SectionInKeyRange(s)
    ensures forall pk :: pk in MultiBlockChanges(blockChanges) ==>
      var s := SectionPos(SectionKeyX(pk.0), SectionKeyY(pk.0), SectionKeyZ(pk.0));
      s in blockChanges && blockChanges[s] == pk.1
  {
    forall pk | pk in MultiBlockChanges(blockChanges)
      ensures var s := SectionPos(SectionKeyX(pk.0), SectionKeyY(pk.0), SectionKeyZ(pk.0));
        s in blockChanges && blockChanges[s] == pk.1
    {
      var s :| s in blockChanges && pk == (SectionKey(s.x, s.y, s.z), blockChanges[s]);
      SectionKeyRoundTrip(s.x, s.y, s.z);
    }
  }

  // ---------------------------------------------------------------- time and view distance

  /** `SET_TIME`: the time of day is the game time modulo 24000, with
      Java's sign rule for a negative game time. */
  function TimeOfDay(gameTime: Int32): (t: int)
    ensures gameTime >= 0 ==> 0 <= t < 24000
    ensures gameTime < 0 ==> -24000 < t <= 0
    ensures (gameTime - t) % 24000 == 0
  {
    Rem(gameTime, 24000)
  }

  /** A day later it is the same time of day. */
  lemma TimeOfDayPeriodic(gameTime: Int32)
    requires 0 <= gameTime && gameTime + 24000 <= INT_MAX
    ensures TimeOfDay(gameTime + 24000) == TimeOfDay(gameTime)
  {
    var t, u := TimeOfDay(gameTime), TimeOfDay(gameTime + 24000);
    assert (gameTime - t) % 24000 == 0 && (gameTime + 24000 - u) % 24000 == 0;
    var k := (gameTime - t) / 24000;
    var l := (gameTime + 24000 - u) / 24000;
    assert gameTime - t == 24000 * k;
    assert gameTime + 24000 - u == 24000 * l;
    assert t - u == 24000 * (l - k - 1);
  }

  /** `NETWORK_CHUNK_PUBLISHER_UPDATE`: the view radius in chunks of a
      radius in blocks, rounded down. */
  function ViewRadius(radius: Int32): (r: int)
    ensures 16 * r <= radius < 16 * r + 16
  {
    Pow2Values();
    Shr(radius, 4)
  }
}
