/** `Entity`: the state the translator keeps for one Bedrock entity. A
    position or rotation is a value of the type parameter `P`, an actor data
    id of `K`, and the payload of an entity data entry of `V`. */
module EntityModel {
  import opened Wrappers
  import opened JavaLang

  /** One entry of an entity data packet: the raw id and its payload. */
  datatype EntityData<V> = EntityData(id: int, value: V)

  /** What an entity sends to the Java client. */
  datatype Event = BossBarRemoved

  /** The entity data map after the given entries, in order: entries whose
      id the `ActorDataIDs` table does not know are skipped, and every other
      entry is stored under its id. */
  function Applied<K, V>(m: map<K, EntityData<V>>, data: seq<EntityData<V>>, byValue: int -> Option<K>): map<K, EntityData<V>>
  {
    if data == [] then m
    else
      var rest := Applied(m, data[..|data| - 1], byValue);
      var d := data[|data| - 1];
      match byValue(d.id)
      case None => rest
      case Some(k) => rest[k := d]
  }

  /** After an update, an id is in the map iff it was before or some entry
      carries it. */
  lemma {:induction false} AppliedKeys<K, V>(m: map<K, EntityData<V>>, data: seq<EntityData<V>>, byValue: int -> Option<K>, k: K)
    ensures k in Applied(m, data, byValue) <==> k in m || exists i :: 0 <= i < |data| && byValue(data[i].id) == Some(k)
  {
    if data != [] {
      var init := data[..|data| - 1];
      AppliedKeys(m, init, byValue, k);
      assert forall i :: 0 <= i < |init| ==> init[i] == data[i];
    }
  }

  /** The last entry carrying an id is the one stored under it. */
  lemma {:induction false} AppliedLastWins<K, V>(m: map<K, EntityData<V>>, data: seq<EntityData<V>>, byValue: int -> Option<K>, i: nat)
    requires i < |data| && byValue(data[i].id).Some?
    requires forall j :: i < j < |data| ==> byValue(data[j].id) != byValue(data[i].id)
    ensures var k := byValue(data[i].id).value;
      k in Applied(m, data, byValue) && Applied(m, data, byValue)[k] == data[i]
  {
    if i < |data| - 1 {
      var init := data[..|data| - 1];
      AppliedLastWins(m, init, byValue, i);
      AppliedKeys(m, init, byValue, byValue(data[i].id).value);
    }
  }

  /** An id no entry carries keeps its old entry, or stays absent. */
  lemma {:induction false} AppliedUntouched<K, V>(m: map<K, EntityData<V>>, data: seq<EntityData<V>>, byValue: int -> Option<K>, k: K)
    requires forall i :: 0 <= i < |data| ==> byValue(data[i].id) != Some(k)
    ensures k in Applied(m, data, byValue) <==> k in m
    ensures k in m ==> Applied(m, data, byValue)[k] == m[k]
  {
    if data != [] {
      AppliedUntouched(m, data[..|data| - 1], byValue, k);
    }
  }

  class Entity<P, K(==), V> {
    const uniqueId: Int64
    const runtimeId: Int64
    const javaId: Int32
    /** `null` until the entity is placed. */
    var position: Option<P>
    var rotation: P
    var onGround: bool
    var entityData: map<K, EntityData<V>>
    var name: Option<string>
    var age: Int32
    var hasBossBar: bool
    var events: seq<Event>

    /** A new entity; its rotation is `Position3f.ZERO`, given here as
        `zero`. */
    constructor (uniqueId: Int64, runtimeId: Int64, javaId: Int32, zero: P)
      ensures this.uniqueId == uniqueId && this.runtimeId == runtimeId && this.javaId == javaId
      ensures position == None && rotation == zero && !onGround && entityData == map[]
      ensures name == None && age == 0 && !hasBossBar && events == []
    {
      this.uniqueId := uniqueId;
      this.runtimeId := runtimeId;
      this.javaId := javaId;
      position := None;
      rotation := zero;
      onGround := false;
      entityData := map[];
      name := None;
      age := 0;
      hasBossBar := false;
      events := [];
    }

    /** `tick`: one more tick of age, in 32-bit arithmetic. */
    method Tick()
      modifies this`age
      ensures age == Wrap32(old(age) + 1)
      ensures old(age) < INT_MAX ==> age == old(age) + 1
    {
      age := Wrap32(age + 1);
    }

    /** `remove`: the boss bar is removed once, if there is one. */
    method Remove()
      modifies this`hasBossBar, this`events
      ensures !hasBossBar
      ensures events == old(events) + if old(hasBossBar) then [BossBarRemoved] else []
    {
      if hasBossBar {
        hasBossBar := false;
        events := events + [BossBarRemoved];
      }
    }

    /** `updateEntityData(EntityData[], List)`: every entry with a known id
        stored under it, in order; the ids the table does not know are
        returned, as the warnings the source logs. */
    method UpdateEntityData(data: seq<EntityData<V>>, byValue: int -> Option<K>) returns (unknown: seq<int>)
      modifies this`entityData
      ensures entityData == Applied(old(entityData), data, byValue)
      ensures forall id :: id in unknown <==> byValue(id).None? && exists i :: 0 <= i < |data| && data[i].id == id
    {
      unknown := [];
      for i := 0 to |data|
        invariant entityData == Applied(old(entityData), data[..i], byValue)
        invariant forall id :: id in unknown <==> byValue(id).None? && exists j :: 0 <= j < i && data[j].id == id
      {
        assert data[..i + 1][..i] == data[..i];
        var d := data[i];
        var id := byValue(d.id);
        if id.None? {
          unknown := unknown + [d.id];
          continue;
        }
        entityData := entityData[id.value := d];
      }
      assert data[..|data|] == data;
    }

    method SetPosition(position: P)
      modifies this`position
      ensures this.position == Some(position)
    {
      this.position := Some(position);
    }

    method SetRotation(rotation: P)
      modifies this`rotation
      ensures this.rotation == rotation
    {
      this.rotation := rotation;
    }

    method SetOnGround(onGround: bool)
      modifies this`onGround
      ensures this.onGround == onGround
    {
      this.onGround := onGround;
    }

    method SetName(name: string)
      modifies this`name
      ensures this.name == Some(name)
    {
      this.name := Some(name);
    }

    method SetHasBossBar(hasBossBar: bool)
      modifies this`hasBossBar
      ensures this.hasBossBar == hasBossBar
    {
      this.hasBossBar := hasBossBar;
    }
  }

  /** A second `remove` sends nothing. */
  method RemoveTwice<P, K(==), V>(e: Entity<P, K, V>)
    modifies e
    ensures !e.hasBossBar
    ensures e.events == old(e.events) + if old(e.hasBossBar) then [BossBarRemoved] else []
  {
    e.Remove();
    e.Remove();
  }
}
