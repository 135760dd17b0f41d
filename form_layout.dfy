/** The pure rules behind `NewFormContainer`: the 6x9 page grid, first-fit
    placement, the slot lists of `itemMap`, the frame shape names, the
    click lookup and the dropdown / step-slider cycling. */
module FormLayout {
  import opened Wrappers
  import opened JavaStrings
  import opened MathUtil

  const Rows: nat := 6
  const Columns: nat := 9
  /** The container's slot count. */
  const Size: nat := 54
  /** The number of pages the grid has. */
  const MaxPages: nat := 256

  /** What a grid cell or a container slot holds. `Empty` stands both for
      `null` in the grid and for the empty item `updatePage` shows for it.
      Model data derived from `String.hashCode` is not modelled: a frame
      carries its shape name, an icon the last segment of its image path. */
  datatype Slot =
    | Empty
    | Frame(name: string, shape: string, description: seq<string>)
    | Icon(name: string, image: string, description: seq<string>)
    | BackPage
    | NextPage
    | Submit

  /** One page of the grid, rows of columns. */
  type Page = seq<seq<Slot>>

  predicate IsPage(g: Page) {
    |g| == Rows && forall y :: 0 <= y < |g| ==> |g[y]| == Columns
  }

  // ------------------------------------------------------- first fit

  /** Every cell of the `w` by `h` rectangle at (x, y) is empty. */
  predicate Free(g: Page, x: nat, y: nat, w: nat, h: nat)
    requires IsPage(g) && x + w <= Columns && y + h <= Rows
  {
    forall cy, cx :: y <= cy < y + h && x <= cx < x + w ==> g[cy][cx] == Empty
  }

  /** The `w` by `h` rectangle at (x, y) lies on the grid and is empty. */
  predicate Fits(g: Page, x: int, y: int, w: nat, h: nat)
    requires IsPage(g)
  {
    0 <= x && 0 <= y && x + w <= Columns && y + h <= Rows && Free(g, x, y, w, h)
  }

  /** Position (x, y) comes before (x', y') in the scan: by row, then column. */
  predicate Before(x: int, y: int, x': int, y': int) {
    y < y' || (y == y' && x < x')
  }

  /** The scan of `findBestSlot` from (x, y) on: the first position, row by
      row, whose rectangle is free. */
  function FitFrom(g: Page, w: nat, h: nat, x: nat, y: nat): (r: Option<(nat, nat)>)
    requires IsPage(g)
    decreases Rows + 1 - y, Columns + 1 - x
  {
    if y + h > Rows then None
    else if x + w > Columns then FitFrom(g, w, h, 0, y + 1)
    else if Free(g, x, y, w, h) then Some((x, y))
    else FitFrom(g, w, h, x + 1, y)
  }

  function FirstFit(g: Page, w: nat, h: nat): Option<(nat, nat)>
    requires IsPage(g)
  {
    FitFrom(g, w, h, 0, 0)
  }

  /** The scan from (x, y) finds a free in-bounds rectangle and no free one
      between (x, y) and it; it finds nothing iff no rectangle from (x, y)
      on is free. */
  lemma {:induction false} FitFromSpec(g: Page, w: nat, h: nat, x: nat, y: nat)
    requires IsPage(g) && x <= Columns
    ensures var r := FitFrom(g, w, h, x, y);
      && (r.Some? ==>
            && Fits(g, r.value.0, r.value.1, w, h)
            && !Before(r.value.0, r.value.1, x, y)
            && forall x', y' :: !Before(x', y', x, y) && Before(x', y', r.value.0, r.value.1) ==> !Fits(g, x', y', w, h))
      && (r.None? ==> forall x', y' :: !Before(x', y', x, y) ==> !Fits(g, x', y', w, h))
    decreases Rows + 1 - y, Columns + 1 - x
  {
    if y + h > Rows {
    } else if x + w > Columns {
      FitFromSpec(g, w, h, 0, y + 1);
    } else if Free(g, x, y, w, h) {
    } else {
      FitFromSpec(g, w, h, x + 1, y);
    }
  }

  /** `findBestSlot`'s scan: the first free rectangle in row-major order, or
      none when no rectangle of that size is free on the page. */
  lemma FirstFitSpec(g: Page, w: nat, h: nat)
    requires IsPage(g)
    ensures var r := FirstFit(g, w, h);
      && (r.Some? ==>
            && Fits(g, r.value.0, r.value.1, w, h)
            && forall x', y' :: Before(x', y', r.value.0, r.value.1) ==> !Fits(g, x', y', w, h))
      && (r.None? <==> forall x', y' :: !Fits(g, x', y', w, h))
  {
    FitFromSpec(g, w, h, 0, 0);
  }

  /** An empty page takes any rectangle that fits the grid at (0, 0). */
  lemma FirstFitEmptyPage(g: Page, w: nat, h: nat)
    requires IsPage(g) && w <= Columns && h <= Rows
    requires forall y, x :: 0 <= y < Rows && 0 <= x < Columns ==> g[y][x] == Empty
    ensures FirstFit(g, w, h) == Some((0, 0))
  {
  }

  // ---------------------------------------------------------- slot lists

  /** The container slots of one row of a rectangle, left to right. */
  function RowCells(x: nat, y: nat, w: nat): (r: seq<int>)
    ensures |r| == w
    ensures forall i :: 0 <= i < w ==> r[i] == y * Columns + x + i
  {
    seq(w, i requires 0 <= i < w => y * Columns + x + i)
  }

  /** The container slots of rows `y0` up to `yEnd` of a rectangle, row by
      row: the slot list `findBestSlot` stores after the page number. */
  function Cells(x: nat, y0: nat, yEnd: nat, w: nat): (r: seq<int>)
    decreases yEnd
  {
    if yEnd <= y0 then [] else Cells(x, y0, yEnd - 1, w) + RowCells(x, yEnd - 1, w)
  }

  /** The container slot of grid cell (x, y). */
  function SlotOf(x: int, y: int): int {
    y * Columns + x
  }

  /** A slot is in a rectangle's list iff it is the slot of one of its
      cells. */
  lemma {:induction false} CellsMember(x: nat, y0: nat, yEnd: nat, w: nat, s: int)
    requires x + w <= Columns
    ensures s in Cells(x, y0, yEnd, w) <==> exists cy, cx :: y0 <= cy < yEnd && x <= cx < x + w && SlotOf(cx, cy) == s
    decreases yEnd
  {
    if yEnd > y0 {
      CellsMember(x, y0, yEnd - 1, w, s);
      var row := RowCells(x, yEnd - 1, w);
      if s in row {
        var i :| 0 <= i < w && row[i] == s;
        assert SlotOf(x + i, yEnd - 1) == s;
      }
      var last := yEnd - 1;
      if exists cx :: x <= cx < x + w && SlotOf(cx, last) == s {
        var cx :| x <= cx < x + w && SlotOf(cx, last) == s;
        assert row[cx - x] == s;
      }
    }
  }

  /** Each cell of a rectangle is in its list. */
  lemma {:induction false} CellsContain(x: nat, y0: nat, yEnd: nat, w: nat, cx: nat, cy: nat)
    requires x <= cx < x + w && y0 <= cy < yEnd
    ensures SlotOf(cx, cy) in Cells(x, y0, yEnd, w)
    decreases yEnd
  {
    if cy < yEnd - 1 {
      CellsContain(x, y0, yEnd - 1, w, cx, cy);
    } else {
      assert RowCells(x, cy, w)[cx - x] == SlotOf(cx, cy);
    }
  }

  /** An `itemMap` entry: the page, then the slots. `Entry` records the page
      the item was placed on. */
  function Entry(page: nat, x: nat, y: nat, w: nat, h: nat): (e: seq<int>)
    ensures |e| > 0 && e[0] == page && e[1..] == Cells(x, y, y + h, w)
  {
    [page] + Cells(x, y, y + h, w)
  }

  /** The entry as written: it records `totalPage`, which is not the page
      used when the item went on an earlier page. */
  function EntryAsWritten(totalPage: nat, x: nat, y: nat, w: nat, h: nat): (e: seq<int>)
    ensures |e| > 0 && e[0] == totalPage && e[1..] == Cells(x, y, y + h, w)
  {
    [totalPage] + Cells(x, y, y + h, w)
  }

  // ---------------------------------------------------------- click lookup

  /** A click on `slot` shown on `page` hits the entry: the entry is on that
      page and lists the slot. */
  predicate Hits(e: seq<int>, page: int, slot: int) {
    |e| > 0 && e[0] == page && slot in e[1..]
  }

  /** The lookup as written also compares the clicked slot with the page
      number stored first. */
  predicate HitsAsWritten(e: seq<int>, page: int, slot: int) {
    |e| > 0 && e[0] == page && slot in e
  }

  /** The index of the first entry the click hits, or -1. */
  function Lookup(itemMap: seq<seq<int>>, page: int, slot: int): (r: int)
    ensures -1 <= r < |itemMap|
    ensures r == -1 <==> forall i :: 0 <= i < |itemMap| ==> !Hits(itemMap[i], page, slot)
    ensures r >= 0 ==> Hits(itemMap[r], page, slot) && forall i :: 0 <= i < r ==> !Hits(itemMap[i], page, slot)
  {
    if itemMap == [] then -1
    else if Hits(itemMap[0], page, slot) then 0
    else
      var r := Lookup(itemMap[1..], page, slot);
      if r == -1 then -1 else r + 1
  }

  function LookupAsWritten(itemMap: seq<seq<int>>, page: int, slot: int): (r: int)
    ensures -1 <= r < |itemMap|
    ensures r == -1 <==> forall i :: 0 <= i < |itemMap| ==> !HitsAsWritten(itemMap[i], page, slot)
    ensures r >= 0 ==> HitsAsWritten(itemMap[r], page, slot) && forall i :: 0 <= i < r ==> !HitsAsWritten(itemMap[i], page, slot)
  {
    if itemMap == [] then -1
    else if HitsAsWritten(itemMap[0], page, slot) then 0
    else
      var r := LookupAsWritten(itemMap[1..], page, slot);
      if r == -1 then -1 else r + 1
  }

  /** The two lookups differ only when the clicked slot number equals the
      page number. */
  lemma LookupsAgree(itemMap: seq<seq<int>>, page: int, slot: int)
    requires slot != page
    ensures LookupAsWritten(itemMap, page, slot) == Lookup(itemMap, page, slot)
  {
    forall i | 0 <= i < |itemMap|
      ensures HitsAsWritten(itemMap[i], page, slot) == Hits(itemMap[i], page, slot)
    {
      var e := itemMap[i];
      if |e| > 0 {
        assert e == [e[0]] + e[1..];
      }
    }
  }

  /** A click on slot 3 of page 3 picks an item that does not cover slot 3:
      here the second item on that page, in slots 3 to 5, is the one shown
      there, yet the first one, in slots 0 to 2, is chosen. */
  lemma LookupAsWrittenHitsPageNumber()
    ensures LookupAsWritten([[3, 0, 1, 2], [3, 3, 4, 5]], 3, 3) == 0
    ensures Lookup([[3, 0, 1, 2], [3, 3, 4, 5]], 3, 3) == 1
  {
    assert [3, 0, 1, 2][1..] == [0, 1, 2];
    assert [3, 3, 4, 5][1..] == [3, 4, 5];
    assert HitsAsWritten([3, 0, 1, 2], 3, 3);
    assert !Hits([3, 0, 1, 2], 3, 3);
    assert [[3, 0, 1, 2], [3, 3, 4, 5]][1..] == [[3, 3, 4, 5]];
  }

  /** A click on a cell of a placed rectangle hits its entry. */
  lemma EntryHits(page: nat, x: nat, y: nat, w: nat, h: nat, cx: nat, cy: nat)
    requires x <= cx < x + w && y <= cy < y + h
    ensures Hits(Entry(page, x, y, w, h), page, SlotOf(cx, cy))
  {
    CellsContain(x, y, y + h, w, cx, cy);
  }

  /** The lookup finds an entry appended after entries the click misses. */
  lemma LookupAppended(itemMap: seq<seq<int>>, e: seq<int>, page: int, slot: int)
    requires forall i :: 0 <= i < |itemMap| ==> !Hits(itemMap[i], page, slot)
    requires Hits(e, page, slot)
    ensures Lookup(itemMap + [e], page, slot) == |itemMap|
  {
    var all := itemMap + [e];
    assert all[|itemMap|] == e;
  }

  /** A placed item is found by a click on any of its cells on the page it
      went to, provided no earlier entry claims that slot. */
  lemma ClickFindsPlacedItem(itemMap: seq<seq<int>>, page: nat, x: nat, y: nat, w: nat, h: nat, cx: nat, cy: nat)
    requires x <= cx < x + w && y <= cy < y + h
    requires forall i :: 0 <= i < |itemMap| ==> !Hits(itemMap[i], page, SlotOf(cx, cy))
    ensures Lookup(itemMap + [Entry(page, x, y, w, h)], page, SlotOf(cx, cy)) == |itemMap|
  {
    EntryHits(page, x, y, w, h, cx, cy);
    LookupAppended(itemMap, Entry(page, x, y, w, h), page, SlotOf(cx, cy));
  }

  /** An item placed on page 0 while a later page exists is recorded under
      that later page, so a click on it where it is shown finds nothing. */
  lemma EntryAsWrittenUnreachable(totalPage: nat, x: nat, y: nat, w: nat, h: nat, cx: nat, cy: nat)
    requires totalPage > 0 && x + w <= Columns && x <= cx < x + w && y <= cy < y + h
    ensures Lookup([EntryAsWritten(totalPage, x, y, w, h)], 0, SlotOf(cx, cy)) == -1
    ensures Lookup([Entry(0, x, y, w, h)], 0, SlotOf(cx, cy)) == 0
  {
    EntryHits(0, x, y, w, h, cx, cy);
  }

  // ------------------------------------------------------------ shapes

  /** `getIdentifierBasedSlot` as written: the texture name of a frame cell
      from its column and row and the rectangle's last column and row. */
  function IdentifierBasedSlot(isOneColumn: bool, minX: int, minY: int, maxX: int, maxY: int): string
  {
    var minSlotX := maxX - minX;
    var minSlotY := maxY - minY;
    if minSlotY == maxY && minSlotX == 0 then (if isOneColumn then "end_button" else "upper_right_slot")
    else if minSlotY == maxY && minSlotX == maxX then (if isOneColumn then "start_button" else "upper_left_slot")
    else if minSlotY == maxY then (if isOneColumn then "middle_button" else "upper_slot")
    else if minSlotY == 0 && minSlotX == 0 then (if isOneColumn then "end_button" else "down_right_slot")
    else if minSlotY == 0 && minSlotX == maxX then (if isOneColumn then "start_button" else "down_left_slot")
    else if minSlotY != 0 && minSlotX == maxX then "left_slot"
    else if minSlotY != 0 && minSlotX == 0 then "right_slot"
    else if minSlotY == 0 then (if isOneColumn then "middle_button" else "bottom_slot")
    else "empty_slot"
  }

  /** The texture name of cell (x, y) of the rectangle whose top left cell
      is (x0, y0) and bottom right cell is (x1, y1), measured from the
      rectangle's own corner. */
  function ShapeName(isOneColumn: bool, x: int, y: int, x0: int, y0: int, x1: int, y1: int): (r: string)
  {
    IdentifierBasedSlot(isOneColumn, x - x0, y - y0, x1 - x0, y1 - y0)
  }

  /** Each cell of a 3x3 tile is named after its place in the tile, wherever
      the tile sits. */
  lemma ShapeNamesOfTile(x0: int, y0: int)
    ensures ShapeName(false, x0, y0, x0, y0, x0 + 2, y0 + 2) == "upper_left_slot"
    ensures ShapeName(false, x0 + 1, y0, x0, y0, x0 + 2, y0 + 2) == "upper_slot"
    ensures ShapeName(false, x0 + 2, y0, x0, y0, x0 + 2, y0 + 2) == "upper_right_slot"
    ensures ShapeName(false, x0, y0 + 1, x0, y0, x0 + 2, y0 + 2) == "left_slot"
    ensures ShapeName(false, x0 + 1, y0 + 1, x0, y0, x0 + 2, y0 + 2) == "empty_slot"
    ensures ShapeName(false, x0 + 2, y0 + 1, x0, y0, x0 + 2, y0 + 2) == "right_slot"
    ensures ShapeName(false, x0, y0 + 2, x0, y0, x0 + 2, y0 + 2) == "down_left_slot"
    ensures ShapeName(false, x0 + 1, y0 + 2, x0, y0, x0 + 2, y0 + 2) == "bottom_slot"
    ensures ShapeName(false, x0 + 2, y0 + 2, x0, y0, x0 + 2, y0 + 2) == "down_right_slot"
  {
  }

  /** A one-row button of width at least two starts with `start_button`,
      ends with `end_button` and has `middle_button` between, wherever it
      sits. */
  lemma ShapeNamesOfButton(x0: int, y0: int, w: int, x: int)
    requires w >= 2 && x0 <= x < x0 + w
    ensures ShapeName(true, x, y0, x0, y0, x0 + w - 1, y0) ==
      if x == x0 then "start_button" else if x == x0 + w - 1 then "end_button" else "middle_button"
  {
  }

  /** As written, a 3x3 tile placed at column 3 loses its left edge: its top
      left cell is named `upper_slot`. */
  lemma IdentifierBasedSlotMisnamesShiftedTile()
    ensures IdentifierBasedSlot(false, 3, 0, 5, 2) == "upper_slot"
    ensures ShapeName(false, 3, 0, 3, 0, 5, 2) == "upper_left_slot"
  {
  }

  /** A rectangle at the grid's top left corner is named alike either way. */
  lemma ShapeNameAtOrigin(isOneColumn: bool, x: int, y: int, x1: int, y1: int)
    ensures ShapeName(isOneColumn, x, y, 0, 0, x1, y1) == IdentifierBasedSlot(isOneColumn, x, y, x1, y1)
  {
  }

  // ------------------------------------------------------ selections

  /** A dropdown or step-slider click: button 0 moves to the next option,
      button 1 to the previous one, both wrapping; an unset selection goes
      to the first option; any other button is refused (None). */
  function CycleSelection(selected: int, length: nat, button: int): (r: Option<int>)
    ensures r.Some? <==> button == 0 || button == 1
    ensures r.Some? && length > 0 ==> 0 <= r.value < length
  {
    if button != 0 && button != 1 then None
    else
      var s := Clamp(selected, -1, length);
      var next := s + if button == 0 then 1 else -1;
      if next >= length || s == -1 then Some(0)
      else if next < 0 || s == length then Some(length - 1)
      else Some(next)
  }

  /** On a valid selection the buttons step forward and back modulo the
      option count; an unset (negative) selection becomes 0. */
  lemma CycleSelectionSteps(selected: int, length: nat, button: int)
    requires button == 0 || button == 1
    ensures 0 <= selected < length && button == 0 ==> CycleSelection(selected, length, button) == Some((selected + 1) % length)
    ensures 0 <= selected < length && button == 1 ==> CycleSelection(selected, length, button) == Some((selected - 1 + length) % length)
    ensures selected < 0 ==> CycleSelection(selected, length, button) == Some(0)
  {
    if selected < 0 {
      assert Clamp(selected, -1, length) == -1;
    } else if selected < length {
      if button == 0 {
        CycleForward(selected, length);
      } else {
        CycleBack(selected, length);
      }
    }
  }

  lemma CycleForward(selected: int, length: nat)
    requires 0 <= selected < length
    ensures CycleSelection(selected, length, 0) == Some((selected + 1) % length)
  {
    assert Clamp(selected, -1, length) == selected;
    if selected + 1 == length {
      assert (selected + 1) % length == 0;
    } else {
      assert (selected + 1) % length == selected + 1;
    }
  }

  lemma CycleBack(selected: int, length: nat)
    requires 0 <= selected < length
    ensures CycleSelection(selected, length, 1) == Some((selected - 1 + length) % length)
  {
    assert Clamp(selected, -1, length) == selected;
    if selected == 0 {
      assert (selected - 1 + length) % length == length - 1;
    } else {
      assert (selected - 1 + length) % length == selected - 1 by {
        assert selected - 1 + length == (selected - 1) + 1 * length;
      }
    }
  }

  /** Going forward then back returns to a valid selection. */
  lemma CycleSelectionInverse(selected: int, length: nat)
    requires 0 <= selected < length
    ensures CycleSelection(CycleSelection(selected, length, 0).value, length, 1) == Some(selected)
  {
    CycleSelectionSteps(selected, length, 0);
    var next := (selected + 1) % length;
    CycleSelectionSteps(next, length, 1);
    if selected + 1 < length {
      assert next == selected + 1;
    } else {
      assert next == 0;
    }
  }

  // ------------------------------------------------------- page view

  /** The item `updatePage` shows in slot `i` of a page: the navigation and
      submit buttons over the grid's own cell. */
  function ViewSlot(cell: Slot, i: nat, currentPage: int, totalPage: int, isCustom: bool): Slot
  {
    if i == 45 && currentPage > 0 then BackPage
    else if i == 53 && currentPage < totalPage then NextPage
    else if i == 52 && isCustom then Submit
    else cell
  }

  /** The 54 slots `updatePage` shows for a page. */
  function PageView(g: Page, currentPage: int, totalPage: int, isCustom: bool): (v: seq<Slot>)
    requires IsPage(g)
    ensures |v| == Size
  {
    seq(Size, i requires 0 <= i < Size => ViewSlot(g[i / Columns][i % Columns], i, currentPage, totalPage, isCustom))
  }

  /** The view shows "Last Page" iff there is a page before, "Next Page" iff
      there is a page after, "Submit" on custom forms, and the grid cell
      everywhere else. */
  lemma PageViewSlots(g: Page, currentPage: int, totalPage: int, isCustom: bool)
    requires IsPage(g)
    requires forall y, x :: 0 <= y < Rows && 0 <= x < Columns ==> g[y][x] != BackPage && g[y][x] != NextPage
    ensures var v := PageView(g, currentPage, totalPage, isCustom);
      && (v[45] == BackPage <==> currentPage > 0)
      && (v[53] == NextPage <==> currentPage < totalPage)
      && (isCustom ==> v[52] == Submit)
      && forall y, x :: 0 <= y < Rows && 0 <= x < Columns && y * Columns + x !in {45, 52, 53} ==> v[y * Columns + x] == g[y][x]
  {
    var v := PageView(g, currentPage, totalPage, isCustom);
    assert v[45] == ViewSlot(g[5][0], 45, currentPage, totalPage, isCustom);
    assert v[53] == ViewSlot(g[5][8], 53, currentPage, totalPage, isCustom);
    assert v[52] == ViewSlot(g[5][7], 52, currentPage, totalPage, isCustom);
    forall y, x | 0 <= y < Rows && 0 <= x < Columns && y * Columns + x !in {45, 52, 53}
      ensures v[y * Columns + x] == g[y][x]
    {
      var i := y * Columns + x;
      assert i / Columns == y && i % Columns == x;
    }
  }

  // ----------------------------------------------------------- requests

  /** One `findBestSlot` call: the label, the image path (empty for none),
      the rectangle's width and height, and the lore lines. */
  datatype Request = Request(name: string, path: string, width: nat, height: nat, description: seq<string>)

  /** The request retried on a fresh page: the same request. */
  function Retry(r: Request): (r': Request)
    ensures r' == r
  {
    r
  }

  /** The retry as written goes through the overload without a path and with
      no description, so the item loses its image and its lore. */
  function RetryAsWritten(r: Request): (r': Request)
    ensures r'.path == [] && r'.description == []
    ensures r'.name == r.name && r'.width == r.width && r'.height == r.height
  {
    Request(r.name, [], r.width, r.height, [])
  }

  /** An action-form grid tile with an image that spills onto a new page is
      shown without it. */
  lemma RetryAsWrittenDropsImage(r: Request)
    requires r.path != []
    ensures RetryAsWritten(r) != Retry(r)
  {
  }

  // ------------------------------------------------------------ forms

  /** A button image: a resource path or a URL. */
  datatype FormImage = FormImage(isPath: bool, value: string)

  datatype Button = Button(text: string, image: Option<FormImage>)

  /** A custom-form element with the state a click can change. */
  datatype Element =
    | Checkbox(text: string, checked: bool)
    | Dropdown(text: string, options: seq<string>, selected: int)
    | Label(text: string)
    | Slider(text: string)
    | StepSlider(text: string, steps: seq<string>, selected: int)
    | TextField(text: string, value: string)

  datatype Form =
    | ModalForm(text: string, button1: string, button2: string)
    | ActionForm(text: string, buttons: seq<Button>)
    | CustomForm(elements: seq<Element>)

  /** `Character.isWhitespace`. */
  predicate IsWhitespace(c: char) {
    c == ' ' || ('\t' <= c <= '\r') || ('\U{001C}' <= c <= '\U{001F}') || c == '\U{1680}'
    || ('\U{2000}' <= c <= '\U{2006}') || ('\U{2008}' <= c <= '\U{200A}')
    || c == '\U{2028}' || c == '\U{2029}' || c == '\U{205F}' || c == '\U{3000}'
  }

  /** `String.isBlank`. */
  predicate IsBlank(s: string) {
    forall i :: 0 <= i < |s| ==> IsWhitespace(s[i])
  }

  /** `String.length()`: UTF-16 code units, two for a char outside the
      Basic Multilingual Plane. */
  function Utf16Length(s: string): (n: nat)
    ensures |s| <= n <= 2 * |s|
  {
    if s == [] then 0 else (if s[0] as int >= 0x10000 then 2 else 1) + Utf16Length(s[1..])
  }

  /** The text block: `min(4, length / 65 + 1)` rows of nine. */
  function TextRequests(text: string): (r: seq<Request>)
    ensures |r| <= 1
    ensures |r| == 1 ==> 1 <= r[0].height <= 4 && r[0].width == 9
  {
    if IsBlank(text) then []
    else
      var rows := Utf16Length(text) / 65 + 1;
      [Request("Text", "", 9, if rows < 4 then rows else 4, [text])]
  }

  /** The modal form's requests: the text, then one row per button. */
  function ModalRequests(text: string, button1: string, button2: string): (r: seq<Request>)
    ensures 2 <= |r| <= 3
    ensures r[|r| - 2] == Request(button1, "", 9, 1, []) && r[|r| - 1] == Request(button2, "", 9, 1, [])
  {
    TextRequests(text) + [Request(button1, "", 9, 1, []), Request(button2, "", 9, 1, [])]
  }

  /** As written, the first button's label is laid out twice and the second
      button's never. */
  function ModalRequestsAsWritten(text: string, button1: string, button2: string): (r: seq<Request>)
  {
    TextRequests(text) + [Request(button1, "", 9, 1, []), Request(button1, "", 9, 1, [])]
  }

  lemma ModalRequestsAsWrittenHideButton2(text: string, button1: string, button2: string)
    requires button2 != button1 && button2 != "Text"
    ensures forall r :: r in ModalRequestsAsWritten(text, button1, button2) ==> r.name != button2
    ensures Request(button2, "", 9, 1, []) in ModalRequests(text, button1, button2)
  {
    var r := ModalRequests(text, button1, button2);
    assert r[|r| - 1] == Request(button2, "", 9, 1, []);
  }

  /** One action-form button: a 3x3 tile with its image for a "grid_tile"
      or "big_button" label, otherwise a plain row. */
  function ButtonRequest(b: Button): (r: Request)
    ensures r.height == (if r.width == 3 then 3 else 1)
    ensures r.width == 9 ==> r.path == [] && r.name == b.text
  {
    if Contains(b.text, "grid_tile") || Contains(b.text, "big_button") then
      var path := if b.image.Some? && b.image.value.isPath then b.image.value.value else "";
      Request(ReplaceAll(ReplaceAll(b.text, "grid_tile", ""), "big_button", ""), path, 3, 3, [])
    else Request(b.text, "", 9, 1, [])
  }

  /** The lore of a dropdown or step slider: every option, the selected one
      highlighted. */
  function OptionLines(options: seq<string>, selected: int): (r: seq<string>)
    ensures |r| == |options|
  {
    seq(|options|, i requires 0 <= i < |options| => (if selected == i then "\U{00A7}a\U{00A7}l" else "\U{00A7}c") + options[i])
  }

  /** One custom-form element: a checkbox is three slots wide, every other
      element a full row. The slider's lore, which prints floating point
      values, is not modelled. */
  function ElementRequest(e: Element): (r: Request)
    ensures r.height == 1 && r.path == []
    ensures r.width == (if e.Checkbox? then 3 else 9)
  {
    match e
    case Checkbox(text, checked) =>
      Request(text, "", 3, 1, [if checked then "Checked: \U{00A7}atrue" else "Checked: \U{00A7}cfalse", "\U{00A7}7Element: Checkbox", "\U{00A7}9Left click: \U{00A7}6Toggle"])
    case Dropdown(text, options, selected) =>
      Request(text, "", 9, 1, ["\U{00A7}7Options:"] + OptionLines(options, selected)
        + ["\U{00A7}7Element: Dropdown", "\U{00A7}9Left click: \U{00A7}6Go to next option", "\U{00A7}9Right click: \U{00A7}6Go to previous option"])
    case Label(text) => Request("Text", "", 9, 1, [text])
    case Slider(text) => Request(text, "", 9, 1, [])
    case StepSlider(text, steps, selected) =>
      Request(text, "", 9, 1, ["\U{00A7}7Options:"] + OptionLines(steps, selected)
        + ["\U{00A7}7Element: StepSlider", "\U{00A7}9Left click: \U{00A7}6Go to next option", "\U{00A7}9Right click: \U{00A7}6Go to previous option"])
    case TextField(text, value) =>
      Request(text, "", 9, 1, ["\U{00A7}7Current value: \U{00A7}a" + value, "\U{00A7}7Element: TextField", "\U{00A7}9Left click: \U{00A7}6Edit text"])
  }

  /** The `findBestSlot` calls of `updateFormItems`, in order. */
  function Requests(form: Form): (r: seq<Request>)
    ensures form.CustomForm? ==> |r| == |form.elements|
    ensures forall i :: 0 <= i < |r| ==> 1 <= r[i].width <= Columns && 1 <= r[i].height <= Rows
  {
    match form
    case ModalForm(text, button1, button2) => ModalRequests(text, button1, button2)
    case ActionForm(text, buttons) => TextRequests(text) + seq(|buttons|, i requires 0 <= i < |buttons| => ButtonRequest(buttons[i]))
    case CustomForm(elements) => seq(|elements|, i requires 0 <= i < |elements| => ElementRequest(elements[i]))
  }

  /** A click with `button` on a custom-form element: None when the element
      refuses the button, otherwise the element afterwards. A slider's
      floating point value change is not modelled. */
  function ClickElement(e: Element, button: int): (r: Option<Element>)
    ensures e.Checkbox? ==> (r.Some? <==> button == 0) && (r.Some? ==> r.value == e.(checked := !e.checked))
    ensures (e.Dropdown? || e.StepSlider? || e.Slider?) ==> (r.Some? <==> button == 0 || button == 1)
    ensures (e.Label? || e.TextField?) ==> r == Some(e)
  {
    match e
    case Checkbox(_, checked) => if button != 0 then None else Some(e.(checked := !checked))
    case Dropdown(text, options, selected) =>
      var next := CycleSelection(selected, |options|, button);
      if next.None? then None else Some(Dropdown(text, options, next.value))
    case Slider(_) => if button != 0 && button != 1 then None else Some(e)
    case StepSlider(text, steps, selected) =>
      var next := CycleSelection(selected, |steps|, button);
      if next.None? then None else Some(StepSlider(text, steps, next.value))
    case Label(_) => Some(e)
    case TextField(_, _) => Some(e)
  }

  /** Two clicks with button 0 leave a checkbox as it was. */
  lemma CheckboxToggleTwice(e: Element)
    requires e.Checkbox?
    ensures ClickElement(ClickElement(e, 0).value, 0) == Some(e)
  {
  }

  /** A dropdown clicked forward then back keeps a valid selection. */
  lemma DropdownForwardBack(e: Element)
    requires e.Dropdown? && 0 <= e.selected < |e.options|
    ensures ClickElement(ClickElement(e, 0).value, 1) == Some(e)
  {
    CycleSelectionInverse(e.selected, |e.options|);
  }
}
