/** `InventoryContainer`: the player's 36-slot Bedrock inventory as seen by
    the Java client, which numbers its 46 window slots differently. */
module InventoryContainer {
  import opened Wrappers
  import opened JavaLang

  /** The number of slots the inventory is created with. */
  const InventorySize: nat := 36
  /** The number of slots in the Java player window. */
  const JavaWindowSize: nat := 46

  /** `javaSlot`: hotbar slots 0..8 are Java slots 36..44; any other slot is
      mapped by the base container, which is not part of this model (None). */
  function JavaSlot(slot: int): (r: Option<int>)
    ensures slot < 9 <==> r.Some?
    ensures slot < 9 ==> r.value == 36 + slot
  {
    if slot < 9 then Some(36 + slot) else None
  }

  /** The Java window built from the inventory's own Java items, the armor
      and offhand containers' items and the HUD container's items, by the
      four array copies and the HUD loop, in that order. */
  function JavaLayout<T>(inventory: seq<T>, armor: seq<T>, offhand: seq<T>, hud: seq<T>, empty: T): (r: seq<T>)
    requires |inventory| >= InventorySize && 5 + |armor| <= JavaWindowSize && 45 + |offhand| <= JavaWindowSize
    requires |hud| >= 32
    ensures |r| == JavaWindowSize
  {
    var blank := seq(JavaWindowSize, _ => empty);
    var withArmor := Overwrite(blank, 5, armor);
    var withMain := Overwrite(withArmor, 9, inventory[9..36]);
    var withHotbar := Overwrite(withMain, 36, inventory[..9]);
    var withOffhand := Overwrite(withHotbar, 45, offhand);
    Overwrite(withOffhand, 1, hud[28..32])
  }

  /** Where every Bedrock slot ends up in the Java window, for an armor
      container of at most four slots (a longer one would spill into the
      main inventory range and be overwritten there, up to slot 45). */
  lemma JavaLayoutSlots<T>(inventory: seq<T>, armor: seq<T>, offhand: seq<T>, hud: seq<T>, empty: T)
    requires |inventory| >= InventorySize && |armor| <= 4 && 45 + |offhand| <= JavaWindowSize
    requires |hud| >= 32
    ensures var r := JavaLayout(inventory, armor, offhand, hud, empty);
      && r[0] == empty
      && (forall k :: 1 <= k < 5 ==> r[k] == hud[27 + k])
      && (forall k :: 5 <= k < 9 ==> r[k] == if k - 5 < |armor| then armor[k - 5] else empty)
      && (forall k :: 9 <= k < 36 ==> r[k] == inventory[k])
      && (forall s :: 0 <= s < 9 ==> r[36 + s] == inventory[s])
      && r[45] == if |offhand| == 1 then offhand[0] else empty
  {
    var blank := seq(JavaWindowSize, _ => empty);
    var withArmor := Overwrite(blank, 5, armor);
    var withMain := Overwrite(withArmor, 9, inventory[9..36]);
    var withHotbar := Overwrite(withMain, 36, inventory[..9]);
    var withOffhand := Overwrite(withHotbar, 45, offhand);
    var r := Overwrite(withOffhand, 1, hud[28..32]);
    assert r == JavaLayout(inventory, armor, offhand, hud, empty);
    assert forall k :: 5 <= k < 9 ==> withHotbar[k] == withArmor[k];
    assert forall k :: 9 <= k < 36 ==> withHotbar[k] == inventory[k];
    assert forall k :: 0 <= k < 45 ==> r[k] == if 1 <= k < 5 then hud[27 + k] else withHotbar[k];
    assert r[45] == withOffhand[45];
    if |offhand| == 1 {
      assert withOffhand[45] == offhand[0];
    } else {
      assert withHotbar[45] == withMain[45] == withArmor[45] == blank[45] == empty;
      assert withOffhand[45] == withHotbar[45];
    }
  }

  /** `javaSlot` agrees with the window layout on the hotbar. */
  lemma JavaSlotMatchesLayout<T>(inventory: seq<T>, armor: seq<T>, offhand: seq<T>, hud: seq<T>, empty: T, slot: int)
    requires |inventory| >= InventorySize && 5 + |armor| <= JavaWindowSize && 45 + |offhand| <= JavaWindowSize
    requires |hud| >= 32
    requires 0 <= slot < 9
    ensures JavaLayout(inventory, armor, offhand, hud, empty)[JavaSlot(slot).value] == inventory[slot]
  {
    var blank := seq(JavaWindowSize, _ => empty);
    var withArmor := Overwrite(blank, 5, armor);
    var withMain := Overwrite(withArmor, 9, inventory[9..36]);
    var withHotbar := Overwrite(withMain, 36, inventory[..9]);
    assert withHotbar[36 + slot] == inventory[slot];
  }

  /** `getJavaItems`: a fresh 46-slot array filled by array copies and the
      HUD loop. */
  method GetJavaItems<T>(inventory: seq<T>, armor: seq<T>, offhand: seq<T>, hud: seq<T>, empty: T) returns (combined: array<T>)
    requires |inventory| >= InventorySize && 5 + |armor| <= JavaWindowSize && 45 + |offhand| <= JavaWindowSize
    requires |hud| >= 32
    ensures combined[..] == JavaLayout(inventory, armor, offhand, hud, empty)
  {
    combined := new T[JavaWindowSize](_ => empty);
    assert combined[..] == seq(JavaWindowSize, _ => empty);
    ArrayCopy(armor, 0, combined, 5, |armor|);
    assert armor[0..|armor|] == armor;
    ArrayCopy(inventory, 9, combined, 9, 27);
    ArrayCopy(inventory, 0, combined, 36, 9);
    ArrayCopy(offhand, 0, combined, 45, |offhand|);
    assert offhand[0..|offhand|] == offhand;
    ghost var before := combined[..];
    for i := 0 to 4
      invariant combined[..] == Overwrite(before, 1, hud[28..28 + i])
    {
      combined[1 + i] := hud[28 + i];
    }
  }

  /** The array `setItems` hands to the base container: the given items when
      their count is right, otherwise a copy cut or padded with empties to
      the container size. */
  function Resized<T>(items: seq<T>, size: nat, empty: T): (r: seq<T>)
  {
    if |items| == size then items
    else Overwrite(seq(size, _ => empty), 0, items[..if |items| < size then |items| else size])
  }

  /** The resized array has the container's size, keeps the leading items
      and pads with empties. */
  lemma ResizedShape<T>(items: seq<T>, size: nat, empty: T)
    ensures var r := Resized(items, size, empty);
      && |r| == size
      && (forall k :: 0 <= k < size && k < |items| ==> r[k] == items[k])
      && (forall k :: |items| <= k < size ==> r[k] == empty)
  {
  }

  /** `setItems`: the array passed on to the base container's `setItems`,
      which is not part of this model. */
  method SetItems<T>(items: seq<T>, size: nat, empty: T) returns (passed: seq<T>)
    ensures passed == Resized(items, size, empty)
  {
    if |items| != size {
      var newItems := new T[size](_ => empty);
      assert newItems[..] == seq(size, _ => empty);
      var n := if |items| < size then |items| else size;
      ArrayCopy(items, 0, newItems, 0, n);
      assert items[0..n] == items[..n];
      passed := newItems[..];
    } else {
      passed := items;
    }
  }

  /** The packets slot selection produces: an interact packet, sent at once,
      when the held item changed, then the contents of the mob-equipment
      packet, whose sending is up to the caller. */
  datatype Packet<T> = Interact | MobEquipment(item: T, slot: int, selectedSlot: int)

  /** `onSelectedHotbarSlotChanged`. */
  function SelectionPackets<T(==)>(oldItem: T, newItem: T, selected: int): (r: seq<Packet<T>>)
    ensures |r| > 0 && r[|r| - 1] == MobEquipment(newItem, selected, selected)
    ensures Interact in r <==> oldItem != newItem
  {
    (if oldItem != newItem then [Interact] else []) + [MobEquipment(newItem, selected, selected)]
  }

  class Inventory<T(==)> {
    var items: seq<T>
    var selectedHotbarSlot: int
    /** The packets emitted so far. */
    var packets: seq<Packet<T>>

    ghost predicate Valid()
      reads this
    {
      0 <= selectedHotbarSlot < |items|
    }

    /** A new inventory: 36 empty slots with slot 0 selected. */
    constructor(empty: T)
      ensures Valid()
      ensures items == seq(InventorySize, _ => empty) && selectedHotbarSlot == 0 && packets == []
    {
      items := seq(InventorySize, _ => empty);
      selectedHotbarSlot := 0;
      packets := [];
    }

    function GetItem(slot: int): (r: T)
      reads this
      requires 0 <= slot < |items|
      ensures r == items[slot]
    {
      items[slot]
    }

    /** `setSelectedHotbarSlot`. */
    method SetSelectedHotbarSlot(slot: int)
      requires Valid() && 0 <= slot < |items|
      modifies this
      ensures Valid()
      ensures selectedHotbarSlot == slot && items == old(items)
      ensures packets == old(packets) + SelectionPackets(old(items[selectedHotbarSlot]), items[slot], slot)
    {
      var oldItem := GetItem(selectedHotbarSlot);
      var newItem := GetItem(slot);
      selectedHotbarSlot := slot;
      packets := packets + SelectionPackets(oldItem, newItem, selectedHotbarSlot);
    }

    /** `onSlotChanged`, after the base container's own handling (not part
        of this model): only the selected slot produces packets. */
    method OnSlotChanged(slot: int, oldItem: T, newItem: T)
      modifies this
      ensures items == old(items) && selectedHotbarSlot == old(selectedHotbarSlot)
      ensures packets == old(packets) + if slot == selectedHotbarSlot then SelectionPackets(oldItem, newItem, selectedHotbarSlot) else []
    {
      if slot == selectedHotbarSlot {
        packets := packets + SelectionPackets(oldItem, newItem, selectedHotbarSlot);
      }
    }
  }
}
