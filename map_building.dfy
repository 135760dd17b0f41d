// Maps built by putting pairs in order, the last put of a key winning.
module MapBuilding {
  import opened Wrappers

  /** The map a run of `put`s builds, later pairs overriding earlier ones
      (`Collectors.toMap` with the merge `(o, n) -> n`, or a `HashMap` filled
      in order); a `None` entry puts nothing. */
  function Collect<K, V>(entries: seq<Option<(K, V)>>): (m: map<K, V>)
  {
    if entries == [] then map[]
    else
      var m := Collect(entries[..|entries| - 1]);
      match entries[|entries| - 1]
      case None => m
      case Some((k, v)) => m[k := v]
  }

  lemma CollectOne<K, V>(k: K, v: V)
    ensures Collect([Some((k, v))]) == map[k := v]
  {
    assert [Some((k, v))][..0] == [];
  }

  /** A key is in the collected map exactly when some entry holds it. */
  lemma {:induction false} CollectKeys<K, V>(entries: seq<Option<(K, V)>>, k: K)
    ensures k in Collect(entries) <==>
      exists i :: 0 <= i < |entries| && entries[i].Some? && entries[i].value.0 == k
  {
    if entries != [] {
      var init := entries[..|entries| - 1];
      CollectKeys(init, k);
      if k in Collect(init) {
        var i :| 0 <= i < |init| && init[i].Some? && init[i].value.0 == k;
        assert entries[i] == init[i];
      }
      if exists i :: 0 <= i < |entries| && entries[i].Some? && entries[i].value.0 == k {
        var i :| 0 <= i < |entries| && entries[i].Some? && entries[i].value.0 == k;
        if i < |init| {
          assert init[i] == entries[i];
        }
      }
    }
  }

  /** The value of a key is the one of the last entry holding it. */
  lemma {:induction false} CollectLastWins<K, V>(entries: seq<Option<(K, V)>>, i: nat)
    requires i < |entries| && entries[i].Some?
    requires forall j :: i < j < |entries| && entries[j].Some? ==> entries[j].value.0 != entries[i].value.0
    ensures entries[i].value.0 in Collect(entries)
    ensures Collect(entries)[entries[i].value.0] == entries[i].value.1
  {
    if i < |entries| - 1 {
      var init := entries[..|entries| - 1];
      assert init[i] == entries[i];
      forall j | i < j < |init| && init[j].Some?
        ensures init[j].value.0 != init[i].value.0
      {
        assert init[j] == entries[j];
      }
      CollectLastWins(init, i);
    }
  }
}
