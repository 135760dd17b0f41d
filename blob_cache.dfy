/** `InMemoryBlobCacheProvider`: the client blob cache, a table from a
    64-bit blob hash to the blob's bytes. */
module BlobCache {
  import opened Wrappers
  import opened JavaLang
  import MapBuilding

  /** The table after the given additions, in order: the last blob added
      under a hash is the one kept. */
  function Replay(additions: seq<(Int64, seq<Byte>)>): (m: map<Int64, seq<Byte>>)
  {
    MapBuilding.Collect(seq(|additions|, i requires 0 <= i < |additions| => Some(additions[i])))
  }

  lemma ReplaySnoc(additions: seq<(Int64, seq<Byte>)>, hash: Int64, blob: seq<Byte>)
    ensures Replay(additions + [(hash, blob)]) == Replay(additions)[hash := blob]
  {
    var all := additions + [(hash, blob)];
    var entries := seq(|all|, i requires 0 <= i < |all| => Some(all[i]));
    assert entries[..|entries| - 1] == seq(|additions|, i requires 0 <= i < |additions| => Some(additions[i]));
  }

  /** A hash is in the table iff some addition used it. */
  lemma ReplayKeys(additions: seq<(Int64, seq<Byte>)>, hash: Int64)
    ensures hash in Replay(additions) <==> exists i :: 0 <= i < |additions| && additions[i].0 == hash
  {
    var entries := seq(|additions|, i requires 0 <= i < |additions| => Some(additions[i]));
    MapBuilding.CollectKeys(entries, hash);
    if hash in Replay(additions) {
      var i :| 0 <= i < |entries| && entries[i].Some? && entries[i].value.0 == hash;
      assert additions[i].0 == hash;
    }
    if exists i :: 0 <= i < |additions| && additions[i].0 == hash {
      var i :| 0 <= i < |additions| && additions[i].0 == hash;
      assert entries[i].value.0 == hash;
    }
  }

  /** The table keeps the blob of the last addition under each hash. */
  lemma ReplayLastWins(additions: seq<(Int64, seq<Byte>)>, i: nat)
    requires i < |additions|
    requires forall j :: i < j < |additions| ==> additions[j].0 != additions[i].0
    ensures additions[i].0 in Replay(additions)
    ensures Replay(additions)[additions[i].0] == additions[i].1
  {
    var entries := seq(|additions|, i requires 0 <= i < |additions| => Some(additions[i]));
    MapBuilding.CollectLastWins(entries, i);
  }

  class InMemoryBlobCache {
    /** The `blobs` map. */
    var blobs: map<Int64, seq<Byte>>
    /** Every `addBlob` so far, oldest first. */
    ghost var additions: seq<(Int64, seq<Byte>)>

    ghost predicate Valid()
      reads this
    {
      blobs == Replay(additions)
    }

    constructor()
      ensures Valid() && blobs == map[] && additions == []
    {
      blobs := map[];
      additions := [];
    }

    /** `addBlob`: stores the blob and returns the one it replaced, or
        `null` when the hash was new. */
    method AddBlob(hash: Int64, blob: seq<Byte>) returns (previous: Option<seq<Byte>>)
      requires Valid()
      modifies this
      ensures Valid()
      ensures additions == old(additions) + [(hash, blob)]
      ensures blobs == old(blobs)[hash := blob]
      ensures previous == old(GetBlob(hash))
      ensures GetBlob(hash) == Some(blob)
      ensures forall h :: h != hash ==> GetBlob(h) == old(GetBlob(h))
    {
      previous := if hash in blobs then Some(blobs[hash]) else None;
      ReplaySnoc(additions, hash, blob);
      blobs := blobs[hash := blob];
      additions := additions + [(hash, blob)];
    }

    /** `hasBlob`: whether the table holds a blob for the hash. */
    function HasBlob(hash: Int64): (r: bool)
      reads this
      ensures r <==> GetBlob(hash).Some?
    {
      hash in blobs
    }

    /** `getBlob`: the stored blob, or `null`. */
    function GetBlob(hash: Int64): (r: Option<seq<Byte>>)
      reads this
      ensures r.Some? ==> hash in blobs && r.value == blobs[hash]
      ensures r.None? ==> hash !in blobs
    {
      if hash in blobs then Some(blobs[hash]) else None
    }
  }

  /** `hasBlob(h)` holds exactly when some `addBlob(h, _)` happened. */
  lemma HasBlobIffAdded(cache: InMemoryBlobCache, hash: Int64)
    requires cache.Valid()
    ensures cache.HasBlob(hash) <==> exists i :: 0 <= i < |cache.additions| && cache.additions[i].0 == hash
  {
    ReplayKeys(cache.additions, hash);
  }

  /** `getBlob(h)` is the blob of the last `addBlob(h, _)`. */
  lemma GetBlobIsLastAdded(cache: InMemoryBlobCache, i: nat)
    requires cache.Valid() && i < |cache.additions|
    requires forall j :: i < j < |cache.additions| ==> cache.additions[j].0 != cache.additions[i].0
    ensures cache.GetBlob(cache.additions[i].0) == Some(cache.additions[i].1)
  {
    ReplayLastWins(cache.additions, i);
  }
}
