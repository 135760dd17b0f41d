/** What `ResourcePack.decompressAndDecrypt` does with the reassembled pack
    bytes, stage by stage: hash check, zip extraction, stripping of a
    top-level directory, the encrypted `contents.json` header, the per-file
    decryption and the manifest checks. The JDK codecs it calls (SHA-256,
    the zip reader, AES/CFB8, the JSON reader, `UUID.fromString`, case-blind
    comparison) are parameters. */
module PackPipeline {
  import opened Wrappers
  import opened JavaLang
  import opened JavaStrings
  import Utf8
  import MapBuilding

  /** Bytes 4 to 8 of an encrypted `contents.json`. */
  const ContentsMagic: seq<Byte> := [0xFC, 0xB9, 0xCF, 0x9B]
  /** Where the length-prefixed content id starts. */
  const ContentIdOffset := 16
  /** Where the encrypted directory starts. */
  const CiphertextOffset := 256
  /** The files a pack ships in the clear even when the directory lists them. */
  const ExemptPaths: set<string> := {"manifest.json", "pack_icon.png", "README.txt"}

  datatype Uuid = Uuid(msb: int, lsb: int)

  /** What the zip reader produced: the entries read, in order, and whether
      it stopped with an exception. */
  datatype ZipRead = ZipRead(entries: seq<(string, seq<Byte>)>, failed: bool)

  /** One element of the `content` array of `contents.json`: `key` absent or
      null is `None`. */
  datatype DirEntry = DirEntry(key: Option<string>, path: string)

  /** The fields of `manifest.json` the checks read. */
  datatype Manifest = Manifest(formatVersion: int, uuid: string, version: seq<string>)

  datatype Codecs = Codecs(
    sha256: seq<Byte> -> seq<Byte>,
    readZip: seq<Byte> -> ZipRead,
    /** AES/CFB8 decryption under a key and an IV. */
    decrypt: (seq<Byte>, seq<Byte>, seq<Byte>) -> seq<Byte>,
    /** `getJson("contents.json").getAsJsonArray("content")`, element by
        element; `None` when the text is not such a document, and a `None`
        element where the loop throws on it: not an object, a key that is
        not a string, or a key without a `path`. */
    parseDirectory: seq<Byte> -> Option<seq<Option<DirEntry>>>,
    /** `getJson("manifest.json")` read as a `Manifest`. */
    parseManifest: seq<Byte> -> Option<Manifest>,
    parseUuid: string -> Option<Uuid>,
    equalsIgnoreCase: (string, string) -> bool,
    /** The iteration order of a `HashSet` of paths. */
    keyOrder: set<string> -> seq<string>)

  /** The exceptions `decompressAndDecrypt` throws. */
  datatype PackError =
    | HashMismatch
    | ZipFailure
    | InvalidKey
    | MissingContentsJson
    | ContentsTruncated
    | MagicMismatch
    | ContentIdMismatch
    | UnreadableContentsJson
    | MalformedContentsEntry
    | UnreadableManifest
    | UnsupportedFormatVersion(version: int)
    | MalformedUuid
    | PackIdMismatch
    | EmptyVersion
    | VersionMismatch

  // ---------------------------------------------------------------- zip

  /** The content map the zip loop builds: each entry put in order, so a
      repeated name keeps its last data. */
  function ZipFiles(entries: seq<(string, seq<Byte>)>): (files: map<string, seq<Byte>>)
  {
    MapBuilding.Collect(seq(|entries|, i requires 0 <= i < |entries| => Some(entries[i])))
  }

  lemma ZipFilesNames(entries: seq<(string, seq<Byte>)>, name: string)
    ensures name in ZipFiles(entries) <==> exists i :: 0 <= i < |entries| && entries[i].0 == name
  {
    var es := seq(|entries|, i requires 0 <= i < |entries| => Some(entries[i]));
    MapBuilding.CollectKeys(es, name);
    if exists i :: 0 <= i < |entries| && entries[i].0 == name {
      var i :| 0 <= i < |entries| && entries[i].0 == name;
      assert es[i].Some? && es[i].value.0 == name;
    }
  }

  lemma ZipFilesLastWins(entries: seq<(string, seq<Byte>)>, i: nat)
    requires i < |entries|
    requires forall j :: i < j < |entries| ==> entries[j].0 != entries[i].0
    ensures entries[i].0 in ZipFiles(entries) && ZipFiles(entries)[entries[i].0] == entries[i].1
  {
    var es := seq(|entries|, i requires 0 <= i < |entries| => Some(entries[i]));
    MapBuilding.CollectLastWins(es, i);
  }

  // ------------------------------------------------------ top-level strip

  /** `path.substring(path.indexOf('/') + 1)`: the part after the first
      slash, or the whole path when it has none. */
  function StripPath(p: string): (r: string)
    ensures '/' !in p ==> r == p
    ensures '/' in p ==> |r| < |p| && p == p[..|p| - |r| - 1] + "/" + r && '/' !in p[..|p| - |r| - 1]
  {
    var i := FirstIndex(p, '/');
    var r := p[i + 1..];
    assert i != -1 ==> p == p[..i] + "/" + r;
    r
  }

  /** One iteration of the strip loop, `put(f(path), remove(path))`, for
      any renaming `f`. */
  function MoveStep<K, V>(m: map<K, V>, p: K, f: K -> K): (r: map<K, V>)
    ensures p in m ==> f(p) in r && r[f(p)] == m[p]
  {
    if p in m then (m - {p})[f(p) := m[p]] else m
  }

  /** The renaming loop over a snapshot of the keys in the given order. */
  function MoveAll<K, V>(m: map<K, V>, order: seq<K>, f: K -> K): (r: map<K, V>)
  {
    if order == [] then m else MoveStep(MoveAll(m, order[..|order| - 1], f), order[|order| - 1], f)
  }

  /** The strip loop: every path renamed by `StripPath`. */
  function StripAll(files: map<string, seq<Byte>>, order: seq<string>): (r: map<string, seq<Byte>>)
  {
    MoveAll(files, order, StripPath)
  }

  /** An order listing each key of a map exactly once. */
  ghost predicate IsOrderOf<K(!new), V>(m: map<K, V>, order: seq<K>) {
    (forall k :: k in m <==> k in order) &&
    (forall i, j :: 0 <= i < j < |order| ==> order[i] != order[j])
  }

  /** No two keys are renamed alike, and a new name is either the key itself
      or no other key of the map. */
  ghost predicate MovesCleanly<K(!new), V>(m: map<K, V>, f: K -> K) {
    (forall p, q :: p in m && q in m && p != q ==> f(p) != f(q)) &&
    (forall p :: p in m && f(p) != p ==> f(p) !in m)
  }

  ghost predicate StripsCleanly<V>(m: map<string, V>) {
    MovesCleanly(m, StripPath)
  }

  /** The new names of the first `i` keys of the order. */
  ghost function Renamed<K>(order: seq<K>, i: nat, f: K -> K): set<K>
    requires i <= |order|
  {
    set j | 0 <= j < i :: f(order[j])
  }

  /** What the loop has done after the first `i` keys of the order: those
      are at their new names, the rest where they were, and nothing else. */
  ghost predicate MovedUpTo<K(!new), V>(m: map<K, V>, order: seq<K>, f: K -> K, i: nat, r: map<K, V>)
    requires i <= |order|
  {
    (forall j :: i <= j < |order| ==> order[j] in m && order[j] in r && r[order[j]] == m[order[j]]) &&
    (forall j :: 0 <= j < i ==> order[j] in m && f(order[j]) in r && r[f(order[j])] == m[order[j]]) &&
    (forall k :: k in r ==> k in order[i..] || k in Renamed(order, i, f))
  }

  lemma MoveStepKeepsRest<K(!new), V>(m: map<K, V>, order: seq<K>, f: K -> K, i: nat, prev: map<K, V>, r: map<K, V>)
    requires IsOrderOf(m, order) && MovesCleanly(m, f) && 0 < i <= |order|
    requires MovedUpTo(m, order, f, i - 1, prev) && r == MoveStep(prev, order[i - 1], f)
    ensures forall j :: i <= j < |order| ==> order[j] in m && order[j] in r && r[order[j]] == m[order[j]]
  {
    var p := order[i - 1];
    forall j | i <= j < |order| ensures order[j] in r && r[order[j]] == m[order[j]] {
      assert order[j] != p;
      assert f(p) != order[j];
    }
  }

  lemma MoveStepMovesDone<K(!new), V>(m: map<K, V>, order: seq<K>, f: K -> K, i: nat, prev: map<K, V>, r: map<K, V>)
    requires IsOrderOf(m, order) && MovesCleanly(m, f) && 0 < i <= |order|
    requires MovedUpTo(m, order, f, i - 1, prev) && r == MoveStep(prev, order[i - 1], f)
    ensures forall j :: 0 <= j < i ==> order[j] in m && f(order[j]) in r && r[f(order[j])] == m[order[j]]
  {
    var p := order[i - 1];
    assert p in m;
    forall j | 0 <= j < i - 1 ensures f(order[j]) in r && r[f(order[j])] == m[order[j]] {
      var q := order[j];
      assert q in m && q != p;
      assert f(q) != f(p);
      assert f(q) != p by {
        if f(q) != q {
          assert f(q) !in m;
        }
      }
    }
  }

  lemma MoveStepNoOthers<K(!new), V>(m: map<K, V>, order: seq<K>, f: K -> K, i: nat, prev: map<K, V>, r: map<K, V>)
    requires 0 < i <= |order|
    requires MovedUpTo(m, order, f, i - 1, prev) && r == MoveStep(prev, order[i - 1], f)
    ensures forall k :: k in r ==> k in order[i..] || k in Renamed(order, i, f)
  {
    var p := order[i - 1];
    assert f(p) in Renamed(order, i, f);
    forall k | k in r ensures k in order[i..] || k in Renamed(order, i, f) {
      if k != f(p) {
        assert k in prev && k != p;
        if k in order[i - 1..] {
          var j :| i - 1 <= j < |order| && order[j] == k;
          assert order[j] in order[i..];
        } else {
          var j :| 0 <= j < i - 1 && f(order[j]) == k;
        }
      }
    }
  }

  lemma {:induction false} MoveAllPrefix<K(!new), V>(m: map<K, V>, order: seq<K>, f: K -> K, i: nat)
    requires IsOrderOf(m, order) && MovesCleanly(m, f) && i <= |order|
    ensures MovedUpTo(m, order, f, i, MoveAll(m, order[..i], f))
  {
    if i == 0 {
      assert order[..0] == [] && order[0..] == order;
    } else {
      MoveAllPrefix(m, order, f, i - 1);
      assert order[..i][..i - 1] == order[..i - 1];
      var prev := MoveAll(m, order[..i - 1], f);
      var r := MoveStep(prev, order[i - 1], f);
      MoveStepKeepsRest(m, order, f, i, prev, r);
      MoveStepMovesDone(m, order, f, i, prev, r);
      MoveStepNoOthers(m, order, f, i, prev, r);
    }
  }

  /** Moving every key of an order listing the map once, under a clean
      renaming, leaves each value at its key's new name and nothing else. */
  lemma MoveAllClean<K(!new), V>(m: map<K, V>, order: seq<K>, f: K -> K)
    requires IsOrderOf(m, order) && MovesCleanly(m, f)
    ensures forall p :: p in m ==> f(p) in MoveAll(m, order, f) && MoveAll(m, order, f)[f(p)] == m[p]
    ensures forall k :: k in MoveAll(m, order, f) ==> exists p :: p in m && f(p) == k
  {
    MoveAllPrefix(m, order, f, |order|);
    assert order[..|order|] == order;
    var r := MoveAll(m, order, f);
    forall p | p in m ensures f(p) in r && r[f(p)] == m[p] {
      assert p in order;
    }
    forall k | k in r ensures exists p :: p in m && f(p) == k {
      assert order[|order|..] == [];
      var j :| 0 <= j < |order| && f(order[j]) == k;
      assert order[j] in m;
    }
  }

  /** When no two paths strip alike and no stripped name is another path,
      stripping moves every file to the name after its first slash with its
      bytes, and nothing else remains. */
  lemma StripAllClean(files: map<string, seq<Byte>>, order: seq<string>)
    requires IsOrderOf(files, order) && StripsCleanly(files)
    ensures forall p :: p in files ==> StripPath(p) in StripAll(files, order) && StripAll(files, order)[StripPath(p)] == files[p]
    ensures forall k :: k in StripAll(files, order) ==> exists p :: p in files && StripPath(p) == k
  {
    MoveAllClean(files, order, StripPath);
  }

  // ------------------------------------------------- contents.json header

  /** The content id bytes of an encrypted `contents.json`: 4 bytes of
      version, the magic, then at offset 16 a one-byte length and the id.
      Too short a file fails the way the buffer reads do. */
  function ContentIdBytes(b: seq<Byte>): (r: Result<seq<Byte>, PackError>)
    ensures r.Ok? <==> |b| > ContentIdOffset && b[4..8] == ContentsMagic && ContentIdOffset + 1 + b[ContentIdOffset] <= |b|
    ensures r.Ok? ==> |r.value| == b[ContentIdOffset] && r.value == b[ContentIdOffset + 1..ContentIdOffset + 1 + |r.value|]
    ensures |b| >= 8 && b[4..8] != ContentsMagic ==> r == Err(MagicMismatch)
  {
    if |b| < 8 then Err(ContentsTruncated)
    else if b[4..8] != ContentsMagic then Err(MagicMismatch)
    else if |b| < ContentIdOffset + 1 then Err(ContentsTruncated)
    else
      var n := b[ContentIdOffset];
      if |b| < ContentIdOffset + 1 + n then Err(ContentsTruncated)
      else Ok(b[ContentIdOffset + 1..ContentIdOffset + 1 + n])
  }

  /** Everything from offset 256 on; a shorter file cannot be positioned there. */
  function Ciphertext(b: seq<Byte>): (r: Result<seq<Byte>, PackError>)
    ensures r.Ok? <==> |b| >= CiphertextOffset
    ensures r.Ok? ==> |r.value| == |b| - CiphertextOffset && b == b[..CiphertextOffset] + r.value
  {
    if |b| < CiphertextOffset then Err(ContentsTruncated) else Ok(b[CiphertextOffset..])
  }

  /** An encrypted `contents.json` laid out as a pack producer writes it:
      version, magic, padding to 16, the id with its length, padding to 256,
      then the ciphertext. */
  function ContentsFile(version: seq<Byte>, id: seq<Byte>, ciphertext: seq<Byte>): (b: seq<Byte>)
    requires |version| == 4 && |id| <= 255 - ContentIdOffset
    ensures |b| == CiphertextOffset + |ciphertext|
  {
    version + ContentsMagic + Zeros(ContentIdOffset - 8) + [|id|] + id
      + Zeros(CiphertextOffset - ContentIdOffset - 1 - |id|) + ciphertext
  }

  function Zeros(n: nat): (z: seq<Byte>)
    ensures |z| == n && forall i :: 0 <= i < n ==> z[i] == 0
  {
    seq(n, _ => 0)
  }

  /** Reading a file laid out that way gives back its id and its ciphertext. */
  lemma ContentsFileRoundTrip(version: seq<Byte>, id: seq<Byte>, ciphertext: seq<Byte>)
    requires |version| == 4 && |id| <= 255 - ContentIdOffset
    ensures ContentIdBytes(ContentsFile(version, id, ciphertext)) == Ok(id)
    ensures Ciphertext(ContentsFile(version, id, ciphertext)) == Ok(ciphertext)
  {
    var b := ContentsFile(version, id, ciphertext);
    var head := version + ContentsMagic + Zeros(ContentIdOffset - 8);
    assert |head| == ContentIdOffset;
    assert b == head + [|id|] + id + Zeros(CiphertextOffset - ContentIdOffset - 1 - |id|) + ciphertext;
    assert b[4..8] == ContentsMagic;
    assert b[ContentIdOffset] == |id|;
    assert b[ContentIdOffset + 1..ContentIdOffset + 1 + |id|] == id;
    assert b[CiphertextOffset..] == ciphertext;
  }

  // --------------------------------------------------------------- keys

  /** `Arrays.copyOfRange(key, 0, 16)`: the first 16 bytes, zero-padded. */
  function Iv(key: seq<Byte>): (iv: seq<Byte>)
    ensures |iv| == 16
    ensures forall i :: 0 <= i < 16 ==> iv[i] == if i < |key| then key[i] else 0
  {
    if |key| >= 16 then key[..16] else key + Zeros(16 - |key|)
  }

  /** AES takes a key of 16, 24 or 32 bytes; `Cipher.init` rejects others. */
  predicate KeyAccepted(key: seq<Byte>) {
    |key| == 16 || |key| == 24 || |key| == 32
  }

  // ------------------------------------------------------ directory loop

  /** The state of the directory loop: the files, the paths warned about as
      missing, and the exception that ended the loop, if one did. */
  datatype DecryptState = DecryptState(files: map<string, seq<Byte>>, warnings: seq<string>, error: Option<PackError>)

  /** One element of the directory: a malformed one throws; skipped when its
      key is absent or null, warned about and skipped when its file is
      missing, skipped when its path is exempt, otherwise the file is
      replaced by its decryption under the element's key. A key AES refuses
      throws. */
  function DecryptEntry(st: DecryptState, element: Option<DirEntry>, codecs: Codecs): (r: DecryptState)
    ensures r.files.Keys == st.files.Keys
  {
    if st.error.Some? then st
    else match element
      case None => st.(error := Some(MalformedContentsEntry))
      case Some(e) =>
        if e.key.None? then st
        else if e.path !in st.files then st.(warnings := st.warnings + [e.path])
        else if e.path in ExemptPaths then st
        else
          var key := Utf8.Latin1(e.key.value);
          if !KeyAccepted(key) then st.(error := Some(InvalidKey))
          else st.(files := st.files[e.path := codecs.decrypt(key, Iv(key), st.files[e.path])])
  }

  /** The directory loop over the first elements of the directory. */
  function DecryptAll(files: map<string, seq<Byte>>, dir: seq<Option<DirEntry>>, codecs: Codecs): (r: DecryptState)
    ensures r.files.Keys == files.Keys
  {
    if dir == [] then DecryptState(files, [], None)
    else DecryptEntry(DecryptAll(files, dir[..|dir| - 1], codecs), dir[|dir| - 1], codecs)
  }

  /** An element that decrypts the file at `p`. */
  predicate Targets(e: Option<DirEntry>, p: string) {
    e.Some? && e.value.key.Some? && e.value.path == p
  }

  /** A file no keyed element lists, or an exempt one, is never changed. */
  lemma {:induction false} DecryptAllLeaves(files: map<string, seq<Byte>>, dir: seq<Option<DirEntry>>, codecs: Codecs, p: string)
    requires p in files
    requires p in ExemptPaths || forall i :: 0 <= i < |dir| ==> !Targets(dir[i], p)
    ensures DecryptAll(files, dir, codecs).files[p] == files[p]
  {
    if dir != [] {
      DecryptAllLeaves(files, dir[..|dir| - 1], codecs, p);
    }
  }

  /** A file listed once with a key is replaced by the decryption of its own
      bytes under that key, when the loop runs to its end. */
  lemma {:induction false} DecryptAllOnce(files: map<string, seq<Byte>>, dir: seq<Option<DirEntry>>, codecs: Codecs, i: nat)
    requires i < |dir| && dir[i].Some? && Targets(dir[i], dir[i].value.path)
    requires dir[i].value.path in files && dir[i].value.path !in ExemptPaths
    requires forall j :: 0 <= j < |dir| && j != i ==> !Targets(dir[j], dir[i].value.path)
    requires DecryptAll(files, dir, codecs).error.None?
    ensures var key := Utf8.Latin1(dir[i].value.key.value);
      DecryptAll(files, dir, codecs).files[dir[i].value.path] == codecs.decrypt(key, Iv(key), files[dir[i].value.path])
  {
    var init := dir[..|dir| - 1];
    var p := dir[i].value.path;
    if i == |dir| - 1 {
      DecryptAllLeaves(files, init, codecs, p);
    } else {
      assert init[i] == dir[i];
      forall j | 0 <= j < |init| && j != i ensures !Targets(init[j], p) {
        assert init[j] == dir[j];
      }
      DecryptAllOnce(files, init, codecs, i);
    }
  }

  /** The warnings of a loop that ran to its end are exactly the keyed
      elements whose path is missing, in directory order. */
  function MissingPaths(files: map<string, seq<Byte>>, dir: seq<Option<DirEntry>>): (w: seq<string>)
    ensures |w| <= |dir|
  {
    if dir == [] then []
    else
      var e := dir[|dir| - 1];
      MissingPaths(files, dir[..|dir| - 1]) + if e.Some? && e.value.key.Some? && e.value.path !in files then [e.value.path] else []
  }

  lemma {:induction false} DecryptAllWarnings(files: map<string, seq<Byte>>, dir: seq<Option<DirEntry>>, codecs: Codecs)
    requires DecryptAll(files, dir, codecs).error.None?
    ensures DecryptAll(files, dir, codecs).warnings == MissingPaths(files, dir)
  {
    if dir != [] {
      DecryptAllWarnings(files, dir[..|dir| - 1], codecs);
    }
  }

  /** A malformed element ends the loop with what the elements before it
      did: their files stay decrypted and their warnings stay issued. */
  lemma DecryptAllMalformed(files: map<string, seq<Byte>>, dir: seq<Option<DirEntry>>, codecs: Codecs, i: nat)
    requires i < |dir| && dir[i].None? && DecryptAll(files, dir[..i], codecs).error.None?
    ensures DecryptAll(files, dir, codecs) == DecryptAll(files, dir[..i], codecs).(error := Some(MalformedContentsEntry))
  {
    assert dir[..i + 1][..i] == dir[..i];
    DecryptAllStops(files, dir, codecs, i + 1);
  }

  /** Once the loop stopped on a malformed element or a refused key it
      changes nothing more. */
  lemma {:induction false} DecryptAllStops(files: map<string, seq<Byte>>, dir: seq<Option<DirEntry>>, codecs: Codecs, n: nat)
    requires n <= |dir| && DecryptAll(files, dir[..n], codecs).error.Some?
    ensures DecryptAll(files, dir, codecs) == DecryptAll(files, dir[..n], codecs)
    decreases |dir| - n
  {
    if n < |dir| {
      assert dir[..n + 1][..n] == dir[..n];
      DecryptAllStops(files, dir, codecs, n + 1);
    } else {
      assert dir[..n] == dir;
    }
  }

  // ------------------------------------------------------- manifest checks

  /** The manifest checks: format version 1 or 2, a well-formed header UUID
      equal to the pack id, and version components that, joined with '.',
      spell the announced version. An empty component list fails when the
      trailing dot is deleted. */
  function ManifestVerdict(m: Option<Manifest>, packId: Uuid, version: string, codecs: Codecs): (r: Result<(), PackError>)
    ensures r.Ok? <==>
      (m.Some? && (m.value.formatVersion == 1 || m.value.formatVersion == 2) &&
       codecs.parseUuid(m.value.uuid) == Some(packId) && m.value.version != [] &&
       Join(".", m.value.version) == version)
  {
    match m
    case None => Err(UnreadableManifest)
    case Some(man) =>
      if man.formatVersion != 1 && man.formatVersion != 2 then Err(UnsupportedFormatVersion(man.formatVersion))
      else match codecs.parseUuid(man.uuid)
        case None => Err(MalformedUuid)
        case Some(id) =>
          if id != packId then Err(PackIdMismatch)
          else if man.version == [] then Err(EmptyVersion)
          else if Join(".", man.version) != version then Err(VersionMismatch)
          else Ok(())
  }

  /** An accepted manifest whose components hold no '.' (and whose last is
      not empty) splits the announced version back into its components. */
  lemma AcceptedVersionSplits(m: Manifest, packId: Uuid, version: string, codecs: Codecs)
    requires ManifestVerdict(Some(m), packId, version, codecs).Ok?
    requires forall k :: 0 <= k < |m.version| ==> '.' !in m.version[k]
    requires m.version[|m.version| - 1] != []
    ensures Split(version, '.') == m.version
  {
    SplitJoin(m.version, '.');
  }

  /** The version loop: each component followed by '.', then the last
      character deleted. */
  method JoinVersion(parts: seq<string>) returns (r: Result<string, PackError>)
    ensures parts == [] ==> r == Err(EmptyVersion)
    ensures parts != [] ==> r == Ok(Join(".", parts))
  {
    var sb: string := [];
    var i := 0;
    while i < |parts|
      invariant 0 <= i <= |parts|
      invariant i == 0 ==> sb == []
      invariant i > 0 ==> sb == Join(".", parts[..i]) + "."
    {
      if i > 0 {
        JoinSnoc(parts[..i], parts[i]);
        assert parts[..i + 1] == parts[..i] + [parts[i]];
      } else {
        assert parts[..1] == [parts[0]];
      }
      sb := sb + parts[i] + ".";
      i := i + 1;
    }
    if |sb| == 0 {
      return Err(EmptyVersion);
    }
    assert parts[..i] == parts;
    r := Ok(sb[..|sb| - 1]);
  }

  lemma {:induction false} JoinSnoc(parts: seq<string>, last: string)
    requires parts != []
    ensures Join(".", parts + [last]) == Join(".", parts) + "." + last
  {
    if |parts| == 1 {
      assert (parts + [last])[1..] == [last];
    } else {
      assert (parts + [last])[1..] == parts[1..] + [last];
      JoinSnoc(parts[1..], last);
    }
  }

  // ---------------------------------------------------------- the whole

  /** The bytes of `manifest.json` read as a manifest; a missing file reads
      as null and the first field access throws. */
  function ManifestOf(files: map<string, seq<Byte>>, codecs: Codecs): (m: Option<Manifest>)
    ensures "manifest.json" !in files ==> m == None
  {
    if "manifest.json" in files then codecs.parseManifest(files["manifest.json"]) else None
  }

  /** The decryption stage: nothing when the content key is empty; else the
      key is set up, the `contents.json` header checked, the directory
      decrypted and its listed files decrypted. */
  function DecryptStage(files: map<string, seq<Byte>>, contentKey: string, contentId: string, codecs: Codecs)
    : (r: (map<string, seq<Byte>>, seq<string>, Result<(), PackError>))
    ensures contentKey == [] ==> r == (files, [], Ok(()))
    ensures contentKey != [] && !KeyAccepted(Utf8.Latin1(contentKey)) ==> r == (files, [], Err(InvalidKey))
    ensures contentKey != [] && KeyAccepted(Utf8.Latin1(contentKey)) && "contents.json" !in files ==> r == (files, [], Err(MissingContentsJson))
    ensures r.2.Ok? && contentKey != [] ==> "contents.json" in files
  {
    if contentKey == [] then (files, [], Ok(()))
    else
      var key := Utf8.Latin1(contentKey);
      if !KeyAccepted(key) then (files, [], Err(InvalidKey))
      else if "contents.json" !in files then (files, [], Err(MissingContentsJson))
      else
        var b := files["contents.json"];
        match ContentIdBytes(b)
        case Err(e) => (files, [], Err(e))
        case Ok(id) =>
          if !codecs.equalsIgnoreCase(contentId, Utf8.Decode(id)) then (files, [], Err(ContentIdMismatch))
          else match Ciphertext(b)
            case Err(e) => (files, [], Err(e))
            case Ok(ct) =>
              var files1 := files["contents.json" := codecs.decrypt(key, Iv(key), ct)];
              match codecs.parseDirectory(files1["contents.json"])
              case None => (files1, [], Err(UnreadableContentsJson))
              case Some(dir) =>
                var st := DecryptAll(files1, dir, codecs);
                (st.files, st.warnings, if st.error.Some? then Err(st.error.value) else Ok(()))
  }

  /** `keyOrder` behaves as a `HashSet`'s iteration does: it lists every
      element of the set once. */
  ghost predicate KeyOrdersListed(codecs: Codecs) {
    forall paths: set<string> :: IsOrderOf(map p | p in paths :: 0, codecs.keyOrder(paths))
  }

  /** The files after the top-level directory is stripped: left alone when
      there is a root manifest. */
  function TopLevelStripped(files: map<string, seq<Byte>>, codecs: Codecs): map<string, seq<Byte>>
  {
    if "manifest.json" in files then files else StripAll(files, codecs.keyOrder(files.Keys))
  }

  /** Without a root manifest, stripping as `decompressAndDecrypt` does it
      keeps every file under the name after its first slash and adds none,
      whenever no two paths strip alike and no stripped name is another path. */
  lemma TopLevelStrippedClean(files: map<string, seq<Byte>>, codecs: Codecs)
    requires KeyOrdersListed(codecs) && "manifest.json" !in files && StripsCleanly(files)
    ensures forall p :: p in files ==> StripPath(p) in TopLevelStripped(files, codecs) && TopLevelStripped(files, codecs)[StripPath(p)] == files[p]
    ensures forall k :: k in TopLevelStripped(files, codecs) ==> exists p :: p in files && StripPath(p) == k
  {
    var order := codecs.keyOrder(files.Keys);
    var listed := map p | p in files.Keys :: 0;
    assert IsOrderOf(listed, order);
    assert IsOrderOf(files, order) by {
      forall k ensures k in files <==> k in order {
        assert k in files <==> k in listed;
      }
    }
    StripAllClean(files, order);
  }

  /** What follows a complete zip read: the top-level directory stripped
      when there is no root manifest, the decryption stage, then the manifest
      checks when validation is on. */
  function AfterExtraction(files: map<string, seq<Byte>>, contentKey: string, contentId: string,
                           packId: Uuid, version: string, validate: bool, codecs: Codecs)
    : (r: (map<string, seq<Byte>>, seq<string>, Result<(), PackError>))
    ensures contentKey == [] && !validate ==> r.2 == Ok(())
  {
    var stripped := TopLevelStripped(files, codecs);
    var (decrypted, warnings, result) := DecryptStage(stripped, contentKey, contentId, codecs);
    if result.Err? || !validate then (decrypted, warnings, result)
    else (decrypted, warnings, ManifestVerdict(ManifestOf(decrypted, codecs), packId, version, codecs))
  }

  /** The outcome of `decompressAndDecrypt`: whether the compressed bytes
      were dropped, the content map it left (`None` when it never made one),
      the missing-file warnings and what it threw. */
  datatype Decoding = Decoding(decompressed: bool, content: Option<map<string, seq<Byte>>>, warnings: seq<string>, result: Result<(), PackError>)

  /** `decompressAndDecrypt` over the reassembled bytes. A failure after the
      zip stage leaves the pack decompressed with the content reached so far. */
  function Decode(data: seq<Byte>, hash: Option<seq<Byte>>, contentKey: string, contentId: string,
                  packId: Uuid, version: string, validate: bool, codecs: Codecs): (d: Decoding)
    ensures hash.Some? && codecs.sha256(data) != hash.value ==> d == Decoding(false, None, [], Err(HashMismatch))
    ensures d.decompressed <==> d.content.Some? && !(hash.Some? && codecs.sha256(data) != hash.value) && !codecs.readZip(data).failed
    ensures !d.decompressed ==> d.result.Err?
  {
    if hash.Some? && codecs.sha256(data) != hash.value then Decoding(false, None, [], Err(HashMismatch))
    else
      var zip := codecs.readZip(data);
      var files := ZipFiles(zip.entries);
      if zip.failed then Decoding(false, Some(files), [], Err(ZipFailure))
      else
        var (decoded, warnings, result) := AfterExtraction(files, contentKey, contentId, packId, version, validate, codecs);
        Decoding(true, Some(decoded), warnings, result)
  }
}
