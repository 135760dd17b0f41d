/** A resource pack being received from the server (`ResourcePack`): its
    compressed bytes arrive in fixed-size chunks into a buffer, a bitmap
    records which chunks came, and the last chunk triggers decoding into a
    content store. */
module ResourcePacks {
  import opened Wrappers
  import opened JavaLang
  import opened JavaStrings
  import opened PackPipeline
  import Utf8
  import ContentStore

  /** `MathUtil.ceil(length / maxChunkSize)`: the number of chunks. */
  function ChunkCount(length: nat, maxChunkSize: nat): (n: nat)
    requires maxChunkSize > 0
    ensures maxChunkSize * n >= length && (n == 0 || maxChunkSize * (n - 1) < length)
  {
    (length + maxChunkSize - 1) / maxChunkSize
  }

  /** The length of `new boolean[MathUtil.ceil((float) length / maxChunkSize)]`,
      or `None` when that allocation throws. A zero chunk size divides to
      infinity, whose ceiling no array takes, or, for an empty pack, to NaN,
      which rounds to 0. A negative chunk size gives a negative quotient,
      whose ceiling is 0 only for a pack shorter than one chunk. */
  function BitmapSize(length: nat, maxChunkSize: int): (n: Option<nat>)
    ensures maxChunkSize > 0 ==> n == Some(ChunkCount(length, maxChunkSize))
    ensures maxChunkSize <= 0 ==> (n.Some? <==> length == 0 || length < -maxChunkSize)
    ensures n.Some? && n.value > 0 ==> maxChunkSize > 0
  {
    if maxChunkSize > 0 then Some(ChunkCount(length, maxChunkSize))
    else if length == 0 || length < -maxChunkSize then Some(0)
    else None
  }

  /** A bitmap that exists has one entry per chunk of the buffer, so every
      chunk it marks starts inside the buffer. */
  lemma BitmapCoversBuffer(length: nat, maxChunkSize: int, chunkIndex: nat)
    requires BitmapSize(length, maxChunkSize).Some? && chunkIndex < BitmapSize(length, maxChunkSize).value
    ensures maxChunkSize > 0 && chunkIndex * maxChunkSize < length
    ensures BitmapSize(length, maxChunkSize).value * maxChunkSize >= length
  {
    ChunkOffsetBound(chunkIndex, maxChunkSize, length);
  }

  /** How many chunks are marked received. */
  function CountTrue(s: seq<bool>): (n: nat)
    ensures n <= |s|
  {
    if s == [] then 0 else CountTrue(s[..|s| - 1]) + (if s[|s| - 1] then 1 else 0)
  }

  /** Every chunk is marked exactly when the count reaches the length. */
  lemma {:induction false} CountTrueFull(s: seq<bool>)
    ensures CountTrue(s) == |s| <==> forall i :: 0 <= i < |s| ==> s[i]
  {
    if s != [] {
      CountTrueFull(s[..|s| - 1]);
      assert forall i :: 0 <= i < |s| - 1 ==> s[..|s| - 1][i] == s[i];
    }
  }

  /** Marking an unmarked chunk raises the count by exactly one. */
  lemma {:induction false} CountTrueMark(s: seq<bool>, i: nat)
    requires i < |s| && !s[i]
    ensures CountTrue(s[i := true]) == CountTrue(s) + 1
  {
    var t := s[i := true];
    assert t[..|t| - 1] == if i < |s| - 1 then s[..|s| - 1][i := true] else s[..|s| - 1];
    if i < |s| - 1 {
      CountTrueMark(s[..|s| - 1], i);
    }
  }

  /** How a chunk call failed: the bitmap is still null, an index or a copy
      is outside its array, or decoding threw. */
  datatype ChunkError = NoBitmap | ChunkOutOfBounds | DecodeFailed(error: PackError)

  /** What the allocations of the constructor and `setCompressedDataLength`
      throw: a negative buffer length, or a bitmap length no array takes. */
  datatype SizeError = NegativeArraySize | BitmapRefused

  class ResourcePack {
    const packId: Uuid
    const version: string
    var contentKey: string
    const contentId: string
    var hash: Option<seq<Byte>>
    var compressedData: array?<Byte>
    var maxChunkSize: int
    var receivedChunks: array?<bool>
    var content: ContentStore.Content?

    /** A bitmap beside a buffer has one entry per chunk of it; the buffer
        is dropped only after every chunk came and a content store was
        made. */
    ghost predicate Valid()
      reads this, receivedChunks
    {
      (receivedChunks != null && compressedData != null ==>
        BitmapSize(compressedData.Length, maxChunkSize) == Some(receivedChunks.Length)) &&
      (compressedData == null ==>
        content != null && receivedChunks != null && forall i :: 0 <= i < receivedChunks.Length ==> receivedChunks[i])
    }

    /** The object the constructor builds once `new byte[(int) compressedSize]`
        allocated `size` bytes. */
    constructor (packId: Uuid, version: string, contentKey: string, contentId: string, size: nat)
      ensures Valid()
      ensures this.packId == packId && this.version == version && this.contentKey == contentKey && this.contentId == contentId
      ensures compressedData != null && fresh(compressedData) && compressedData.Length == size
      ensures maxChunkSize == 0 && receivedChunks == null && content == null && hash == None
    {
      this.packId := packId;
      this.version := version;
      this.contentKey := contentKey;
      this.contentId := contentId;
      hash := None;
      compressedData := new Byte[size](_ => 0);
      maxChunkSize := 0;
      receivedChunks := null;
      content := null;
    }

    /** `new ResourcePack(...)`: the buffer is `new byte[(int) compressedSize]`,
        so a size whose `int` truncation is negative throws and no pack is
        made. */
    static method Create(packId: Uuid, version: string, contentKey: string, contentId: string, compressedSize: Int64)
        returns (r: Result<ResourcePack, SizeError>)
      ensures r.Err? <==> Wrap32(compressedSize) < 0
      ensures r.Err? ==> r.error == NegativeArraySize
      ensures r.Ok? ==> fresh(r.value) && r.value.Valid() && r.value.receivedChunks == null && r.value.content == null
      ensures r.Ok? ==> r.value.compressedData != null && fresh(r.value.compressedData) && r.value.compressedData.Length == Wrap32(compressedSize)
      ensures r.Ok? ==> r.value.packId == packId && r.value.version == version && r.value.contentKey == contentKey
      ensures r.Ok? ==> r.value.contentId == contentId && r.value.hash == None
    {
      var size := Wrap32(compressedSize);
      if size < 0 {
        return Err(NegativeArraySize);
      }
      var pack := new ResourcePack(packId, version, contentKey, contentId, size);
      r := Ok(pack);
    }

    method SetHash(h: Option<seq<Byte>>)
      modifies this
      ensures hash == h
      ensures compressedData == old(compressedData) && receivedChunks == old(receivedChunks) && content == old(content)
      ensures contentKey == old(contentKey) && maxChunkSize == old(maxChunkSize)
    {
      hash := h;
    }

    method SetContentKey(key: string)
      modifies this
      ensures contentKey == key
      ensures compressedData == old(compressedData) && receivedChunks == old(receivedChunks) && content == old(content)
      ensures hash == old(hash) && maxChunkSize == old(maxChunkSize)
    {
      contentKey := key;
    }

    /** `setCompressedDataLength`: a zeroed buffer of exactly `length` bytes,
        then the chunk size, then an all-false bitmap with one entry per
        chunk. A negative length throws before anything changes; a bitmap
        length no array takes throws after the buffer and the chunk size were
        replaced, leaving the old bitmap. */
    method SetCompressedDataLength(length: Int32, maxChunkSize: Int32) returns (error: Option<SizeError>)
      modifies this
      ensures content == old(content) && hash == old(hash) && contentKey == old(contentKey)
      ensures length < 0 ==>
        error == Some(NegativeArraySize) && compressedData == old(compressedData) &&
        this.maxChunkSize == old(this.maxChunkSize) && receivedChunks == old(receivedChunks)
      ensures length >= 0 ==>
        compressedData != null && fresh(compressedData) && compressedData.Length == length &&
        (forall i :: 0 <= i < length ==> compressedData[i] == 0) && this.maxChunkSize == maxChunkSize
      ensures length >= 0 && BitmapSize(length, maxChunkSize).None? ==>
        error == Some(BitmapRefused) && receivedChunks == old(receivedChunks)
      ensures length >= 0 && BitmapSize(length, maxChunkSize).Some? ==>
        error == None && receivedChunks != null && fresh(receivedChunks) &&
        BitmapSize(length, maxChunkSize) == Some(receivedChunks.Length) &&
        (forall i :: 0 <= i < receivedChunks.Length ==> !receivedChunks[i]) && CountTrue(receivedChunks[..]) == 0
      ensures error.None? ==> Valid()
      ensures old(receivedChunks) == null && length >= 0 ==> Valid()
      ensures length < 0 && old(Valid()) ==> Valid()
    {
      if length < 0 {
        return Some(NegativeArraySize);
      }
      compressedData := new Byte[length](_ => 0);
      this.maxChunkSize := maxChunkSize;
      var size := BitmapSize(length, maxChunkSize);
      if size.None? {
        return Some(BitmapRefused);
      }
      receivedChunks := new bool[size.value](_ => false);
      NoneMarked(receivedChunks[..]);
      error := None;
    }

    /** `hasReceivedAllChunks`: whether every bitmap entry is set. */
    method HasReceivedAllChunks() returns (all: bool)
      requires receivedChunks != null
      ensures all <==> forall i :: 0 <= i < receivedChunks.Length ==> receivedChunks[i]
      ensures all <==> CountTrue(receivedChunks[..]) == receivedChunks.Length
    {
      CountTrueFull(receivedChunks[..]);
      var i := 0;
      while i < receivedChunks.Length
        invariant 0 <= i <= receivedChunks.Length
        invariant forall j :: 0 <= j < i ==> receivedChunks[j]
      {
        if !receivedChunks[i] {
          return false;
        }
        i := i + 1;
      }
      return true;
    }

    /** `content()`: the store, once the pack is decompressed. */
    method Content() returns (r: Option<ContentStore.Content>)
      requires Valid()
      ensures r.Some? <==> compressedData == null
      ensures r.Some? ==> r.value == content
    {
      if compressedData != null {
        return None;
      }
      return Some(content);
    }

    /** The bitmap exists and has an entry `i`. */
    ghost predicate InBitmap(i: int)
      reads this
    {
      receivedChunks != null && 0 <= i < receivedChunks.Length
    }

    /** `processDataChunk`. Before the bitmap exists, or for an index
        outside it, the bitmap access throws. A chunk already marked, or one
        that would end past the buffer, is refused with no change. Otherwise
        its bytes are copied in at `chunkIndex * maxChunkSize`, its entry
        marked, and the call that marks the last entry decodes the pack. The
        end of the chunk is a Java `int` sum: when it wraps negative the
        bound check passes and the copy throws. */
    method ProcessDataChunk(chunkIndex: Int32, data: seq<Byte>, validate: bool, codecs: Codecs)
        returns (r: Result<bool, ChunkError>, warnings: seq<string>)
      requires Valid()
      requires |data| <= INT_MAX
      modifies this, compressedData, receivedChunks
      ensures Valid()
      ensures receivedChunks == old(receivedChunks) && maxChunkSize == old(maxChunkSize)
      ensures hash == old(hash) && contentKey == old(contentKey)
      // the bitmap access throws
      ensures !InBitmap(chunkIndex) ==>
        r == Err(if receivedChunks == null then NoBitmap else ChunkOutOfBounds) && warnings == [] &&
        compressedData == old(compressedData) && content == old(content) &&
        (compressedData != null ==> compressedData[..] == old(compressedData[..])) &&
        (receivedChunks != null ==> receivedChunks[..] == old(receivedChunks[..]))
      // refused: a duplicate or a chunk past the end
      ensures InBitmap(chunkIndex) && old(receivedChunks[chunkIndex]) ==>
        (r == Ok(false) && warnings == [] &&
         compressedData == old(compressedData) && content == old(content) &&
         receivedChunks[..] == old(receivedChunks[..]) && (compressedData != null ==> compressedData[..] == old(compressedData[..])))
      ensures InBitmap(chunkIndex) && !old(receivedChunks[chunkIndex]) && Wrap32(chunkIndex * maxChunkSize + |data|) > old(compressedData).Length ==>
        r == Ok(false) && warnings == [] && compressedData == old(compressedData) && content == old(content) &&
        receivedChunks[..] == old(receivedChunks[..]) && compressedData[..] == old(compressedData[..])
      // the copy throws
      ensures InBitmap(chunkIndex) && !old(receivedChunks[chunkIndex]) &&
              Wrap32(chunkIndex * maxChunkSize + |data|) <= old(compressedData).Length < chunkIndex * maxChunkSize + |data| ==>
        r == Err(ChunkOutOfBounds) && warnings == [] && compressedData == old(compressedData) && content == old(content) &&
        receivedChunks[..] == old(receivedChunks[..]) && compressedData[..] == old(compressedData[..])
      // accepted
      ensures InBitmap(chunkIndex) && !old(receivedChunks[chunkIndex]) && chunkIndex * maxChunkSize + |data| <= old(compressedData).Length ==>
        receivedChunks[..] == old(receivedChunks[..])[chunkIndex := true] &&
        CountTrue(receivedChunks[..]) == old(CountTrue(receivedChunks[..])) + 1 &&
        var bytes := Overwrite(old(compressedData[..]), chunkIndex * maxChunkSize, data);
        if CountTrue(receivedChunks[..]) < receivedChunks.Length then
          r == Ok(false) && warnings == [] && compressedData == old(compressedData) && compressedData[..] == bytes && content == old(content)
        else
          var d := Decode(bytes, hash, contentKey, contentId, packId, version, validate, codecs);
          warnings == d.warnings &&
          (r == if d.result.Ok? then Ok(true) else Err(DecodeFailed(d.result.error))) &&
          (compressedData == null <==> d.decompressed) &&
          (compressedData != null ==> compressedData == old(compressedData) && compressedData[..] == bytes) &&
          (d.content.Some? ==> content != null && fresh(content) && content.files == d.content.value) &&
          (d.content.None? ==> content == old(content))
    {
      warnings := [];
      if receivedChunks == null {
        return Err(NoBitmap), [];
      }
      if !(0 <= chunkIndex < receivedChunks.Length) {
        return Err(ChunkOutOfBounds), [];
      }
      if receivedChunks[chunkIndex] {
        return Ok(false), [];
      }
      assert compressedData != null;
      BitmapCoversBuffer(compressedData.Length, maxChunkSize, chunkIndex);
      var offset := chunkIndex * maxChunkSize;
      if Wrap32(offset + |data|) > compressedData.Length {
        return Ok(false), [];
      }
      if offset + |data| > compressedData.Length {
        return Err(ChunkOutOfBounds), [];
      }
      StoreChunk(chunkIndex, offset, data);
      var all := HasReceivedAllChunks();
      if all {
        var result;
        result, warnings := DecompressAndDecrypt(validate, codecs);
        r := if result.Ok? then Ok(true) else Err(DecodeFailed(result.error));
      } else {
        r := Ok(false);
      }
    }

    /** The copy into the buffer and the mark in the bitmap. */
    method StoreChunk(chunkIndex: int, offset: nat, data: seq<Byte>)
      requires compressedData != null && receivedChunks != null && 0 <= chunkIndex < receivedChunks.Length
      requires !receivedChunks[chunkIndex] && offset + |data| <= compressedData.Length
      modifies compressedData, receivedChunks
      ensures compressedData[..] == Overwrite(old(compressedData[..]), offset, data)
      ensures receivedChunks[..] == old(receivedChunks[..])[chunkIndex := true]
      ensures CountTrue(receivedChunks[..]) == old(CountTrue(receivedChunks[..])) + 1
    {
      forall k | 0 <= k < |data| {
        compressedData[offset + k] := data[k];
      }
      ghost var marks := receivedChunks[..];
      assert marks == old(receivedChunks[..]);
      CountTrueMark(marks, chunkIndex);
      receivedChunks[chunkIndex] := true;
      assert receivedChunks[..] == marks[chunkIndex := true];
    }

    /** `decompressAndDecrypt`, run once every chunk is in. */
    method DecompressAndDecrypt(validate: bool, codecs: Codecs) returns (r: Result<(), PackError>, warnings: seq<string>)
      requires Valid() && compressedData != null && receivedChunks != null
      requires forall i :: 0 <= i < receivedChunks.Length ==> receivedChunks[i]
      modifies this
      ensures Valid()
      ensures receivedChunks == old(receivedChunks) && maxChunkSize == old(maxChunkSize)
      ensures hash == old(hash) && contentKey == old(contentKey)
      ensures var d := Decode(old(compressedData[..]), hash, contentKey, contentId, packId, version, validate, codecs);
        r == d.result && warnings == d.warnings &&
        (compressedData == null <==> d.decompressed) &&
        (compressedData != null ==> compressedData == old(compressedData)) &&
        (d.content.Some? ==> content != null && fresh(content) && content.files == d.content.value) &&
        (d.content.None? ==> content == old(content))
    {
      warnings := [];
      var data := compressedData[..];
      if hash.Some? && codecs.sha256(data) != hash.value {
        return Err(HashMismatch), [];
      }
      content := new ContentStore.Content();
      var zip := codecs.readZip(data);
      PutEntries(zip.entries);
      if zip.failed {
        return Err(ZipFailure), [];
      }
      compressedData := null;
      warnings, r := FinishDecoding(validate, codecs);
    }

    /** Everything after the zip loop, on the store. */
    method FinishDecoding(validate: bool, codecs: Codecs)
        returns (warnings: seq<string>, r: Result<(), PackError>)
      requires content != null
      modifies content
      ensures (content.files, warnings, r) == AfterExtraction(old(content.files), contentKey, contentId, packId, version, validate, codecs)
    {
      if "manifest.json" !in content.files {
        StripTopDirectory(codecs.keyOrder(content.files.Keys));
      }
      warnings, r := DecryptWithContentKey(codecs);
      if r.Ok? && validate {
        var manifest := ManifestOf(content.files, codecs);
        r := CheckManifest(manifest, codecs);
      }
    }

    /** The decryption stage on the store. */
    method DecryptWithContentKey(codecs: Codecs) returns (warnings: seq<string>, r: Result<(), PackError>)
      requires content != null
      modifies content
      ensures (content.files, warnings, r) == DecryptStage(old(content.files), contentKey, contentId, codecs)
    {
      warnings := [];
      if contentKey == [] {
        return [], Ok(());
      }
      var key := Utf8.Latin1(contentKey);
      if !KeyAccepted(key) {
        return [], Err(InvalidKey);
      }
      if "contents.json" !in content.files {
        return [], Err(MissingContentsJson);
      }
      var b := content.files["contents.json"];
      var id := ContentIdBytes(b);
      if id.Err? {
        return [], Err(id.error);
      }
      if !codecs.equalsIgnoreCase(contentId, Utf8.Decode(id.value)) {
        return [], Err(ContentIdMismatch);
      }
      var ct := Ciphertext(b);
      if ct.Err? {
        return [], Err(ct.error);
      }
      var _ := content.Put("contents.json", codecs.decrypt(key, Iv(key), ct.value));
      var dir := codecs.parseDirectory(content.files["contents.json"]);
      if dir.None? {
        return [], Err(UnreadableContentsJson);
      }
      var error;
      warnings, error := DecryptListed(dir.value, codecs);
      r := if error.Some? then Err(error.value) else Ok(());
    }

    /** The manifest checks in the order the source makes them. */
    method CheckManifest(manifest: Option<Manifest>, codecs: Codecs) returns (r: Result<(), PackError>)
      ensures r == ManifestVerdict(manifest, packId, version, codecs)
    {
      if manifest.None? {
        return Err(UnreadableManifest);
      }
      var m := manifest.value;
      if m.formatVersion != 1 && m.formatVersion != 2 {
        return Err(UnsupportedFormatVersion(m.formatVersion));
      }
      var id := codecs.parseUuid(m.uuid);
      if id.None? {
        return Err(MalformedUuid);
      }
      if id.value != packId {
        return Err(PackIdMismatch);
      }
      var joined := JoinVersion(m.version);
      if joined.Err? {
        return Err(joined.error);
      }
      if joined.value != version {
        return Err(VersionMismatch);
      }
      return Ok(());
    }

    /** The zip loop: each entry put into the fresh store in order. */
    method PutEntries(entries: seq<(string, seq<Byte>)>)
      requires content != null && content.files == map[]
      modifies content
      ensures content.files == ZipFiles(entries) && content.langCache == old(content.langCache)
    {
      var i := 0;
      while i < |entries|
        invariant 0 <= i <= |entries|
        invariant content.files == ZipFiles(entries[..i]) && content.langCache == old(content.langCache)
      {
        ZipFilesSnoc(entries[..i], entries[i]);
        assert entries[..i + 1] == entries[..i] + [entries[i]];
        var _ := content.Put(entries[i].0, entries[i].1);
        i := i + 1;
      }
      assert entries[..i] == entries;
    }

    /** The strip loop over a snapshot of the paths. Each path is present
        when its turn comes; the guard only covers an order that is not a
        snapshot. */
    method StripTopDirectory(order: seq<string>)
      requires content != null
      modifies content
      ensures content.files == StripAll(old(content.files), order) && content.langCache == old(content.langCache)
    {
      var i := 0;
      while i < |order|
        invariant 0 <= i <= |order|
        invariant content.files == StripAll(old(content.files), order[..i]) && content.langCache == old(content.langCache)
      {
        assert order[..i + 1][..i] == order[..i];
        var p := order[i];
        var newPath := StripPath(p);
        var moved := content.Remove(p);
        if moved.Some? {
          var _ := content.Put(newPath, moved.value);
        }
        i := i + 1;
      }
      assert order[..i] == order;
    }

    /** The directory loop; a malformed element or a refused key ends it. */
    method DecryptListed(dir: seq<Option<DirEntry>>, codecs: Codecs) returns (warnings: seq<string>, error: Option<PackError>)
      requires content != null
      modifies content
      ensures DecryptState(content.files, warnings, error) == DecryptAll(old(content.files), dir, codecs)
      ensures content.langCache == old(content.langCache)
    {
      warnings := [];
      error := None;
      var i := 0;
      while i < |dir| && error.None?
        invariant 0 <= i <= |dir|
        invariant DecryptState(content.files, warnings, error) == DecryptAll(old(content.files), dir[..i], codecs)
        invariant content.langCache == old(content.langCache)
      {
        assert dir[..i + 1][..i] == dir[..i];
        warnings, error := DecryptElement(dir[i], codecs, warnings);
        i := i + 1;
      }
      if error.Some? {
        DecryptAllStops(old(content.files), dir, codecs, i);
      } else {
        assert dir[..i] == dir;
      }
    }

    /** One turn of the directory loop, from a state without error. */
    method DecryptElement(element: Option<DirEntry>, codecs: Codecs, warned: seq<string>) returns (warnings: seq<string>, error: Option<PackError>)
      requires content != null
      modifies content
      ensures DecryptState(content.files, warnings, error) == DecryptEntry(DecryptState(old(content.files), warned, None), element, codecs)
      ensures content.langCache == old(content.langCache)
    {
      warnings, error := warned, None;
      if element.None? {
        error := Some(MalformedContentsEntry);
        return;
      }
      var e := element.value;
      if e.key.None? {
        return;
      }
      if e.path !in content.files {
        warnings := warnings + [e.path];
        return;
      }
      if e.path in ExemptPaths {
        return;
      }
      var key := Utf8.Latin1(e.key.value);
      if !KeyAccepted(key) {
        error := Some(InvalidKey);
        return;
      }
      var _ := content.Put(e.path, codecs.decrypt(key, Iv(key), content.files[e.path]));
    }
  }

  lemma NoneMarked(s: seq<bool>)
    requires forall i :: 0 <= i < |s| ==> !s[i]
    ensures CountTrue(s) == 0
  {
    if s != [] {
      NoneMarked(s[..|s| - 1]);
    }
  }

  /** A chunk inside the bitmap starts inside the buffer, so its offset
      fits in an `int`. */
  lemma ChunkOffsetBound(chunkIndex: nat, maxChunkSize: int, length: nat)
    requires maxChunkSize > 0 && chunkIndex < ChunkCount(length, maxChunkSize)
    ensures chunkIndex * maxChunkSize < length
  {
    var n := ChunkCount(length, maxChunkSize);
    assert maxChunkSize * (n - 1) < length;
    assert chunkIndex * maxChunkSize <= (n - 1) * maxChunkSize;
  }

  lemma ZipFilesSnoc(entries: seq<(string, seq<Byte>)>, e: (string, seq<Byte>))
    ensures ZipFiles(entries + [e]) == ZipFiles(entries)[e.0 := e.1]
  {
    var all := entries + [e];
    var es := seq(|all|, i requires 0 <= i < |all| => Some(all[i]));
    assert es[..|es| - 1] == seq(|entries|, i requires 0 <= i < |entries| => Some(entries[i]));
  }
}
