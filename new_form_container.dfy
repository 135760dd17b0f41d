/** `NewFormContainer`: a Bedrock form shown to the Java client as a paged
    chest of 54 slots, laid out on a grid of 256 pages of 6 rows by 9. */
module NewFormContainer {
  import opened Wrappers
  import opened JavaLang
  import opened JavaStrings
  import opened FormLayout

  datatype FormError =
    | PagesExhausted      // `inventory[256]` is out of bounds
    | EmptyImageName      // an image path made only of '/' has no last segment
    | ElementOutOfBounds  // a click index equal to the element count

  /** What the container sends or opens, in order. */
  datatype Event =
    | Response(userClosed: bool)  // the modal form response packet
    | Closed                      // the base container's `close`
    | TextEditorOpened(element: nat)

  function Responses(events: seq<Event>): (n: nat)
    ensures n <= |events|
  {
    if events == [] then 0 else Responses(events[..|events| - 1]) + if events[|events| - 1].Response? then 1 else 0
  }

  lemma ResponsesSnoc(events: seq<Event>, e: Event)
    ensures Responses(events + [e]) == Responses(events) + if e.Response? then 1 else 0
  {
    assert (events + [e])[..|events|] == events;
  }

  /** The last segment of an image path, when it has one. */
  function ImageName(path: string): Option<string>
  {
    var parts := Split(path, '/');
    if |parts| == 0 then None else Some(parts[|parts| - 1])
  }

  /** What `findBestSlot` puts into cell (cx, cy) of the rectangle it places
      at (x, y): a frame named after its place in the rectangle, or, at the
      centre, the request's image. */
  function PlacedCell(req: Request, x: int, y: int, cx: int, cy: int): (s: Slot)
    ensures s.Frame? || s.Icon?
    ensures s.name == req.name && s.description == req.description
  {
    if req.path != [] && cx == x + req.width / 2 && cy == y + req.height / 2 && ImageName(req.path).Some? then
      Icon(req.name, ImageName(req.path).value, req.description)
    else
      Frame(req.name, ShapeName(req.height == 1, cx, cy, x, y, x + req.width - 1, y + req.height - 1), req.description)
  }

  class FormContainer {
    const formId: int
    /** The form and the state its elements hold. */
    var form: Form
    /** The clicked button of a modal or action form, -1 for none. */
    var clickedButton: int
    /** `inventory[page][y][x]`, `Empty` for `null`. */
    const inventory: array3<Slot>
    /** The 54 items shown. */
    const formItems: array<Slot>
    var itemMap: seq<seq<int>>
    var currentPage: int
    var totalPage: int
    var sentResponse: bool
    var events: seq<Event>

    ghost predicate Valid()
      reads this
    {
      && inventory.Length0 == MaxPages && inventory.Length1 == Rows && inventory.Length2 == Columns
      && formItems.Length == Size
      && 0 <= currentPage <= totalPage < MaxPages
      && Responses(events) == if sentResponse then 1 else 0
    }

    /** One page of the grid. */
    ghost function PageOf(p: nat): (g: Page)
      reads this, inventory
      requires Valid() && p < MaxPages
      ensures IsPage(g)
      ensures forall y, x :: 0 <= y < Rows && 0 <= x < Columns ==> g[y][x] == inventory[p, y, x]
    {
      seq(Rows, y requires 0 <= y < Rows reads inventory => seq(Columns, x requires 0 <= x < Columns reads inventory => inventory[p, y, x]))
    }

    /** A container on an empty grid; `Open` lays the form out. */
    constructor Init(formId: int, form: Form)
      ensures Valid()
      ensures this.formId == formId && this.form == form && clickedButton == -1
      ensures itemMap == [] && currentPage == 0 && totalPage == 0 && !sentResponse && events == []
      ensures fresh(inventory) && fresh(formItems)
      ensures forall p, y, x :: 0 <= p < MaxPages && 0 <= y < Rows && 0 <= x < Columns ==> inventory[p, y, x] == Empty
    {
      this.formId := formId;
      this.form := form;
      clickedButton := -1;
      inventory := new Slot[MaxPages, Rows, Columns]((p, y, x) => Empty);
      formItems := new Slot[Size](i => Empty);
      itemMap := [];
      currentPage := 0;
      totalPage := 0;
      sentResponse := false;
      events := [];
    }

    /** The inner loops of `findBestSlot`: whether the rectangle at (x, y)
        is empty. */
    method SpaceAvailable(p: nat, x: nat, y: nat, w: nat, h: nat) returns (available: bool)
      requires Valid() && p < MaxPages && x + w <= Columns && y + h <= Rows
      ensures available == Free(PageOf(p), x, y, w, h)
    {
      available := true;
      for yy := 0 to h
        invariant available == forall cy, cx :: y <= cy < y + yy && x <= cx < x + w ==> inventory[p, cy, cx] == Empty
      {
        var cy, xx := y + yy, 0;
        while xx < w
          invariant 0 <= xx <= w
          invariant forall cx :: x <= cx < x + xx ==> inventory[p, cy, cx] == Empty
        {
          if inventory[p, cy, x + xx] != Empty {
            available := false;
            break;
          }
          xx := xx + 1;
        }
      }
    }

    /** The outer loops of `findBestSlot`: the first free rectangle, row by
        row. */
    method ScanPage(p: nat, w: nat, h: nat) returns (pos: Option<(nat, nat)>)
      requires Valid() && p < MaxPages
      ensures pos == FirstFit(PageOf(p), w, h)
    {
      ghost var g := PageOf(p);
      pos := None;
      var found := false;
      var y := 0;
      while y + h <= Rows && !found
        invariant found ==> pos == FitFrom(g, w, h, 0, 0)
        invariant !found ==> pos.None? && FitFrom(g, w, h, 0, y) == FitFrom(g, w, h, 0, 0)
        decreases Rows - y
      {
        var x := 0;
        while x + w <= Columns
          invariant FitFrom(g, w, h, x, y) == FitFrom(g, w, h, 0, 0) && !found
          decreases Columns - x
        {
          var free := SpaceAvailable(p, x, y, w, h);
          if free {
            pos := Some((x, y));
            found := true;
            break;
          }
          x := x + 1;
        }
        y := y + 1;
      }
    }

    /** The frame-filling loops of `findBestSlot`: every cell of the
        rectangle gets a frame, and its slots are listed row by row. */
    method FillFrames(p: nat, req: Request, x: nat, y: nat) returns (slots: seq<int>)
      requires Valid() && p < MaxPages && x + req.width <= Columns && y + req.height <= Rows
      modifies inventory
      ensures slots == Cells(x, y, y + req.height, req.width)
      ensures forall q, cy, cx :: 0 <= q < MaxPages && 0 <= cy < Rows && 0 <= cx < Columns ==>
        inventory[q, cy, cx] == if q == p && y <= cy < y + req.height && x <= cx < x + req.width
          then Frame(req.name, ShapeName(req.height == 1, cx, cy, x, y, x + req.width - 1, y + req.height - 1), req.description)
          else old(inventory[q, cy, cx])
    {
      var w, h := req.width, req.height;
      slots := [];
      for cy := y to y + h
        invariant slots == Cells(x, y, cy, w)
        invariant forall q, a, b :: 0 <= q < MaxPages && 0 <= a < Rows && 0 <= b < Columns ==>
          inventory[q, a, b] == if q == p && y <= a < cy && x <= b < x + w
            then Frame(req.name, ShapeName(h == 1, b, a, x, y, x + w - 1, y + h - 1), req.description)
            else old(inventory[q, a, b])
      {
        for cx := x to x + w
          invariant slots == Cells(x, y, cy, w) + RowCells(x, cy, cx - x)
          invariant forall q, a, b :: 0 <= q < MaxPages && 0 <= a < Rows && 0 <= b < Columns ==>
            inventory[q, a, b] == if q == p && ((y <= a < cy && x <= b < x + w) || (a == cy && x <= b < cx))
              then Frame(req.name, ShapeName(h == 1, b, a, x, y, x + w - 1, y + h - 1), req.description)
              else old(inventory[q, a, b])
        {
          inventory[p, cy, cx] := Frame(req.name, ShapeName(h == 1, cx, cy, x, y, x + w - 1, y + h - 1), req.description);
          assert RowCells(x, cy, cx + 1 - x) == RowCells(x, cy, cx - x) + [cy * Columns + cx];
          slots := slots + [cy * Columns + cx];
        }
      }
    }

    /** `findBestSlot`: place the request at the first free rectangle of
        `page`, or on a new page when none is free there. Gives the position
        and the page used. */
    method FindBestSlot(req: Request, page: nat) returns (r: Result<(nat, nat, nat), FormError>)
      requires Valid() && page <= totalPage && 1 <= req.width && 1 <= req.height
      modifies this, inventory
      ensures Valid()
      ensures form == old(form) && clickedButton == old(clickedButton) && currentPage == old(currentPage)
      ensures sentResponse == old(sentResponse) && events == old(events)
      ensures old(totalPage) <= totalPage
      ensures r.Ok? ==>
        var (x, y, p) := r.value;
        && itemMap == old(itemMap) + [Entry(p, x, y, req.width, req.height)]
        && (p == page ==> old(FirstFit(PageOf(page), req.width, req.height)) == Some((x, y)) && totalPage == old(totalPage))
        && (p != page ==> old(FirstFit(PageOf(page), req.width, req.height)).None? && p == totalPage > old(totalPage))
        && forall q, cy, cx :: 0 <= q < MaxPages && 0 <= cy < Rows && 0 <= cx < Columns ==>
             inventory[q, cy, cx] == if q == p && y <= cy < y + req.height && x <= cx < x + req.width
               then PlacedCell(req, x, y, cx, cy) else old(inventory[q, cy, cx])
      decreases MaxPages - page
    {
      var pos := ScanPage(page, req.width, req.height);
      if pos.Some? {
        var (x, y) := pos.value;
        FirstFitSpec(PageOf(page), req.width, req.height);
        r := Place(req, page, x, y);
      } else {
        if totalPage + 1 >= MaxPages {
          return Err(PagesExhausted);
        }
        totalPage := totalPage + 1;
        r := FindBestSlot(Retry(req), totalPage);
      }
    }

    /** The placing half of `findBestSlot`: frames over the rectangle, its
        entry in the item map, and the image at its centre. */
    method Place(req: Request, page: nat, x: nat, y: nat) returns (r: Result<(nat, nat, nat), FormError>)
      requires Valid() && page < MaxPages && 1 <= req.width && 1 <= req.height
      requires x + req.width <= Columns && y + req.height <= Rows
      modifies this`itemMap, inventory
      ensures Valid()
      ensures itemMap == old(itemMap) + [Entry(page, x, y, req.width, req.height)]
      ensures r.Ok? <==> req.path == [] || ImageName(req.path).Some?
      ensures r.Ok? ==> r.value == (x, y, page)
      ensures r.Err? ==> r.error == EmptyImageName
      ensures r.Ok? ==> forall q, cy, cx :: 0 <= q < MaxPages && 0 <= cy < Rows && 0 <= cx < Columns ==>
        inventory[q, cy, cx] == if q == page && y <= cy < y + req.height && x <= cx < x + req.width
          then PlacedCell(req, x, y, cx, cy) else old(inventory[q, cy, cx])
    {
      var slots := FillFrames(page, req, x, y);
      itemMap := itemMap + [[page] + slots];
      if req.path != [] {
        var name := ImageName(req.path);
        if name.None? {
          return Err(EmptyImageName);
        }
        inventory[page, y + req.height / 2, x + req.width / 2] := Icon(req.name, name.value, req.description);
      }
      r := Ok((x, y, page));
    }

    /** `updatePage`: the current page's cells, with "Last Page", "Next Page"
        and "Submit" over slots 45, 53 and 52. */
    method UpdatePage()
      requires Valid()
      modifies formItems
      ensures formItems[..] == PageView(PageOf(currentPage), currentPage, totalPage, form.CustomForm?)
    {
      for yl := 0 to Rows
        invariant forall a, b :: 0 <= a < yl && 0 <= b < Columns ==>
          formItems[a * Columns + b] == ViewSlot(inventory[currentPage, a, b], a * Columns + b, currentPage, totalPage, form.CustomForm?)
      {
        for x := 0 to Columns
          invariant forall a, b :: 0 <= a < Rows && 0 <= b < Columns && (a < yl || (a == yl && b < x)) ==>
            formItems[a * Columns + b] == ViewSlot(inventory[currentPage, a, b], a * Columns + b, currentPage, totalPage, form.CustomForm?)
        {
          var item := inventory[currentPage, yl, x];
          if x == 0 && yl == 5 && currentPage > 0 {
            item := BackPage;
          } else if x == 8 && yl == 5 && currentPage < totalPage {
            item := NextPage;
          } else if x == 7 && yl == 5 && form.CustomForm? {
            item := Submit;
          }
          formItems[yl * Columns + x] := item;
        }
      }
      ghost var g := PageOf(currentPage);
      forall i | 0 <= i < Size
        ensures formItems[i] == PageView(g, currentPage, totalPage, form.CustomForm?)[i]
      {
        var a, b := i / Columns, i % Columns;
        assert i == a * Columns + b;
      }
    }

    /** `updateFormItems`: the item map cleared, every request of the form
        placed from page 0 on, then the current page shown. The grid itself
        is not cleared, so earlier items stay where they were. */
    method UpdateFormItems() returns (r: Result<(), FormError>)
      requires Valid()
      modifies this, inventory, formItems
      ensures Valid()
      ensures form == old(form) && clickedButton == old(clickedButton) && currentPage == old(currentPage)
      ensures sentResponse == old(sentResponse) && events == old(events)
      ensures old(totalPage) <= totalPage
      ensures r.Ok? ==> |itemMap| == |Requests(form)|
      ensures r.Ok? ==> formItems[..] == PageView(PageOf(currentPage), currentPage, totalPage, form.CustomForm?)
    {
      itemMap := [];
      var requests := Requests(form);
      for i := 0 to |requests|
        invariant Valid() && |itemMap| == i
        invariant form == old(form) && clickedButton == old(clickedButton) && currentPage == old(currentPage)
        invariant sentResponse == old(sentResponse) && events == old(events)
        invariant old(totalPage) <= totalPage
      {
        var placed := FindBestSlot(requests[i], 0);
        if placed.Err? {
          return Err(placed.error);
        }
      }
      UpdatePage();
      r := Ok(());
    }

    /** `sendModalFormResponse`: sends once, whatever happens later. */
    method SendModalFormResponse(userClosed: bool)
      requires Valid()
      modifies this`sentResponse, this`events
      ensures Valid() && sentResponse
      ensures events == old(events) + if old(sentResponse) then [] else [Response(userClosed)]
    {
      if sentResponse {
        return;
      }
      sentResponse := true;
      ResponsesSnoc(events, Response(userClosed));
      events := events + [Response(userClosed)];
    }

    /** `close`: a response that the form was answered, then the base
        container's close. */
    method Close()
      requires Valid()
      modifies this`sentResponse, this`events
      ensures Valid() && sentResponse
      ensures events == old(events) + (if old(sentResponse) then [] else [Response(false)]) + [Closed]
    {
      SendModalFormResponse(false);
      ResponsesSnoc(events, Closed);
      events := events + [Closed];
    }

    /** `onClosed`: a response that the user closed the form. */
    method OnClosed()
      requires Valid()
      modifies this`sentResponse, this`events
      ensures Valid() && sentResponse
      ensures events == old(events) + if old(sentResponse) then [] else [Response(true)]
    {
      SendModalFormResponse(true);
    }

    /** A click that `handleClick` treats as navigation or submit. */
    predicate IsControlClick(slot: int)
      reads this
    {
      (slot == 45 && currentPage > 0) || (slot == 53 && currentPage < totalPage) || (slot == 52 && form.CustomForm?)
    }

    /** `handleClick`: true when the click closed the form. */
    method HandleClick(pickup: bool, slot: int, button: int) returns (r: Result<bool, FormError>)
      requires Valid()
      modifies this, inventory, formItems
      ensures Valid()
      ensures !pickup ==> r == Ok(false) && unchanged(this) && unchanged(inventory) && unchanged(formItems)
      ensures pickup && slot == 45 && old(currentPage) > 0 ==>
        r == Ok(false) && currentPage == old(currentPage) - 1 && totalPage == old(totalPage) && itemMap == old(itemMap)
      ensures pickup && slot == 53 && old(currentPage) < old(totalPage) ==>
        r == Ok(false) && currentPage == old(currentPage) + 1 && totalPage == old(totalPage) && itemMap == old(itemMap)
      ensures pickup && slot == 52 && old(form).CustomForm? ==>
        r == Ok(true) && events == old(events) + (if old(sentResponse) then [] else [Response(false)]) + [Closed]
      ensures pickup && !old(IsControlClick(slot)) && old(Lookup(itemMap, currentPage, slot)) == -1 ==>
        r == Ok(false) && unchanged(this) && unchanged(inventory) && unchanged(formItems)
      ensures pickup && !old(IsControlClick(slot)) && old(form).ActionForm? && old(Lookup(itemMap, currentPage, slot)) >= 0 ==>
        r == Ok(true) && clickedButton == old(Lookup(itemMap, currentPage, slot))
        && events == old(events) + (if old(sentResponse) then [] else [Response(false)]) + [Closed]
      ensures pickup && !old(IsControlClick(slot)) && old(form).CustomForm? && 0 <= old(Lookup(itemMap, currentPage, slot)) < |old(form).elements| ==>
        var index := old(Lookup(itemMap, currentPage, slot));
        var clicked := ClickElement(old(form).elements[index], button);
        && (clicked.None? ==> r == Ok(false) && form == old(form) && events == old(events))
        && (clicked.Some? ==>
             && form == CustomForm(old(form).elements[index := clicked.value])
             && events == old(events) + (if old(form).elements[index].TextField? then [TextEditorOpened(index)] else [])
             && (r.Ok? ==> !r.value && |itemMap| == |Requests(form)|))
      ensures pickup && !old(IsControlClick(slot)) && old(form).CustomForm? && old(Lookup(itemMap, currentPage, slot)) == |old(form).elements| ==>
        r == Err(ElementOutOfBounds)
      ensures pickup && !old(IsControlClick(slot)) && old(form).ModalForm? && old(Lookup(itemMap, currentPage, slot)) >= 0 ==>
        var row := Quot(slot, Columns);
        && clickedButton == (if row == 0 then 0 else if row == 1 then 1 else -1)
        && r == Ok(row == 0 || row == 1)
        && events == old(events) + if row == 0 || row == 1 then (if old(sentResponse) then [] else [Response(false)]) + [Closed] else []
    {
      if !pickup {
        return Ok(false);
      }
      if slot == 45 && currentPage > 0 {
        currentPage := currentPage - 1;
        UpdatePage();
        return Ok(false);
      } else if slot == 53 && currentPage < totalPage {
        currentPage := currentPage + 1;
        UpdatePage();
        return Ok(false);
      } else if slot == 52 && form.CustomForm? {
        Close();
        return Ok(true);
      }
      r := ClickItem(slot, button);
    }

    /** The rest of `handleClick`: a click that is not a control click
        acts on the form item under the slot, if there is one. */
    method ClickItem(slot: int, button: int) returns (r: Result<bool, FormError>)
      requires Valid() && !IsControlClick(slot)
      modifies this, inventory, formItems
      ensures Valid()
      ensures old(Lookup(itemMap, currentPage, slot)) == -1 ==>
        r == Ok(false) && unchanged(this) && unchanged(inventory) && unchanged(formItems)
      ensures old(form).ActionForm? && old(Lookup(itemMap, currentPage, slot)) >= 0 ==>
        r == Ok(true) && clickedButton == old(Lookup(itemMap, currentPage, slot))
        && events == old(events) + (if old(sentResponse) then [] else [Response(false)]) + [Closed]
      ensures old(form).CustomForm? && 0 <= old(Lookup(itemMap, currentPage, slot)) < |old(form).elements| ==>
        var index := old(Lookup(itemMap, currentPage, slot));
        var clicked := ClickElement(old(form).elements[index], button);
        && (clicked.None? ==> r == Ok(false) && form == old(form) && events == old(events))
        && (clicked.Some? ==>
             && form == CustomForm(old(form).elements[index := clicked.value])
             && events == old(events) + (if old(form).elements[index].TextField? then [TextEditorOpened(index)] else [])
             && (r.Ok? ==> !r.value && |itemMap| == |Requests(form)|))
      ensures old(form).CustomForm? && old(Lookup(itemMap, currentPage, slot)) == |old(form).elements| ==>
        r == Err(ElementOutOfBounds)
      ensures old(form).ModalForm? && old(Lookup(itemMap, currentPage, slot)) >= 0 ==>
        var row := Quot(slot, Columns);
        && clickedButton == (if row == 0 then 0 else if row == 1 then 1 else -1)
        && r == Ok(row == 0 || row == 1)
        && events == old(events) + if row == 0 || row == 1 then (if old(sentResponse) then [] else [Response(false)]) + [Closed] else []
    {
      var index := FindClicked(slot);
      if index == -1 {
        return Ok(false);
      }
      match form {
        case ModalForm(_, _, _) =>
          r := ClickModal(slot);
        case ActionForm(_, _) =>
          clickedButton := index;
          Close();
          r := Ok(true);
        case CustomForm(elements) =>
          r := ClickCustom(index, button);
      }
    }

    /** A click on a modal form: row 0 is the first button, row 1 the
        second, and either one closes the form. */
    method ClickModal(slot: int) returns (r: Result<bool, FormError>)
      requires Valid() && form.ModalForm?
      modifies this`clickedButton, this`sentResponse, this`events
      ensures Valid()
      ensures var row := Quot(slot, Columns);
        && clickedButton == (if row == 0 then 0 else if row == 1 then 1 else -1)
        && r == Ok(row == 0 || row == 1)
        && events == old(events) + if row == 0 || row == 1 then (if old(sentResponse) then [] else [Response(false)]) + [Closed] else []
    {
      var pickedY := Quot(slot, Columns);
      clickedButton := -1;
      if pickedY == 0 {
        clickedButton := 0;
      } else if pickedY == 1 {
        clickedButton := 1;
      }
      if clickedButton != -1 {
        Close();
        return Ok(true);
      }
      r := Ok(false);
    }

    /** A click on element `index` of a custom form: the element's new
        state, and the form laid out again when it changed. */
    method ClickCustom(index: int, button: int) returns (r: Result<bool, FormError>)
      requires Valid() && form.CustomForm? && 0 <= index
      modifies this, inventory, formItems
      ensures Valid()
      ensures currentPage == old(currentPage) && sentResponse == old(sentResponse)
      ensures index > |old(form).elements| ==> r == Ok(false) && form == old(form) && events == old(events)
      ensures index == |old(form).elements| ==> r == Err(ElementOutOfBounds)
      ensures index < |old(form).elements| ==>
        var clicked := ClickElement(old(form).elements[index], button);
        && (clicked.None? ==> r == Ok(false) && form == old(form) && events == old(events))
        && (clicked.Some? ==>
             && form == CustomForm(old(form).elements[index := clicked.value])
             && events == old(events) + (if old(form).elements[index].TextField? then [TextEditorOpened(index)] else [])
             && (r.Ok? ==> !r.value && |itemMap| == |Requests(form)|))
    {
      var elements := form.elements;
      if index > |elements| {
        return Ok(false);
      }
      if index == |elements| {
        return Err(ElementOutOfBounds);
      }
      var clicked := ClickElement(elements[index], button);
      if clicked.None? {
        return Ok(false);
      }
      if elements[index].TextField? {
        ResponsesSnoc(events, TextEditorOpened(index));
        events := events + [TextEditorOpened(index)];
      }
      form := CustomForm(elements[index := clicked.value]);
      var laidOut := UpdateFormItems();
      if laidOut.Err? {
        return Err(laidOut.error);
      }
      r := Ok(false);
    }

    /** The item-map loop of `handleClick`: the first entry on the current
        page that lists the slot, or -1. */
    method FindClicked(slot: int) returns (index: int)
      ensures index == Lookup(itemMap, currentPage, slot)
    {
      index := -1;
      var i := 0;
      while i < |itemMap|
        invariant 0 <= i <= |itemMap|
        invariant forall j :: 0 <= j < i ==> !Hits(itemMap[j], currentPage, slot)
      {
        var entry := itemMap[i];
        var found := false;
        if |entry| > 0 && entry[0] == currentPage {
          var k := 1;
          while k < |entry|
            invariant 1 <= k <= |entry|
            invariant slot !in entry[1..k]
          {
            if slot == entry[k] {
              found := true;
              break;
            }
            k := k + 1;
          }
          assert !found ==> entry[1..k] == entry[1..];
        }
        if found {
          index := i;
          return;
        }
        i := i + 1;
      }
    }
  }

  /** `new NewFormContainer(...)`: the container, with the form laid out. */
  method Open(formId: int, form: Form) returns (c: FormContainer, r: Result<(), FormError>)
    ensures fresh(c) && c.Valid() && c.form == form && c.currentPage == 0 && c.events == []
    ensures r.Ok? ==> |c.itemMap| == |Requests(form)|
  {
    c := new FormContainer.Init(formId, form);
    r := c.UpdateFormItems();
  }

  /** The response is sent at most once. */
  lemma AtMostOneResponse(c: FormContainer)
    requires c.Valid()
    ensures Responses(c.events) <= 1
  {
  }
}
