/**
 * The key configuration screen: a grid with one row per action and three
 * slot columns. In navigation mode the arrow keys and the mouse move the
 * cursor, Enter or a click on a slot starts rebinding, and Escape saves the
 * configuration and leaves. In rebinding mode the next single key press, or
 * failing that the next mouse button press, is written into the selected slot
 * through `RM.InsertKey`; Backspace clears the slot and Escape cancels.
 */
module Screens {
  import K = Keys
  import IS = InputState
  import opened Wrappers
  import opened Buttons
  import opened Bindings
  import opened ConfigCodec
  import opened ResourceManager

  /**
   * `Screen.CycleIndex`: a value below zero wraps to `max`, one above `max`
   * wraps to `min`, anything else is kept. The lower test is against zero,
   * not against `min`.
   */
  function CycleIndex(newValue: int, max: int, min: int := 0): (r: int)
    ensures newValue < 0 ==> r == max
    ensures 0 <= newValue <= max ==> r == newValue
    ensures 0 <= newValue && max < newValue ==> r == min
  {
    if newValue < 0 then max else if newValue > max then min else newValue
  }

  /** With the default lower bound, stepping one away from an index in `[0, max]` lands in `[0, max]` again. */
  lemma CycleStaysInRange(v: int, max: int)
    requires 0 <= v <= max
    ensures 0 <= CycleIndex(v - 1, max) <= max
    ensures 0 <= CycleIndex(v + 1, max) <= max
    ensures v == 0 ==> CycleIndex(v - 1, max) == max
    ensures v == max ==> CycleIndex(v + 1, max) == 0
  {
  }

  /** One step back and one step forward cancel out, in either order. */
  lemma CycleInverse(v: int, max: int)
    requires 0 <= v <= max
    ensures CycleIndex(CycleIndex(v - 1, max) + 1, max) == v
    ensures CycleIndex(CycleIndex(v + 1, max) - 1, max) == v
  {
  }

  /** A value in `[0, min)` is returned unchanged, below `min`: a non-zero `min` is not a lower bound. */
  lemma CycleIgnoresMin(v: int, max: int, min: int)
    requires 0 <= v < min <= max
    ensures CycleIndex(v, max, min) == v
    ensures CycleIndex(v, max, min) < min
  {
  }

  /**
   * With a negative `max` (an empty list, `max` = `Count - 1` = -1) there is
   * no valid index: a step below zero yields the negative `max`, any other
   * step yields 0, past `max`.
   */
  lemma CycleNegativeMax(v: int, max: int)
    requires max < 0
    ensures v < 0 ==> CycleIndex(v, max) == max && CycleIndex(v, max) < 0
    ensures 0 <= v ==> CycleIndex(v, max) == 0 && CycleIndex(v, max) > max
  {
  }

  /** The screen cell under the pointer: a row and one of the three slot columns (0, 1, 2). */
  datatype Cell = Cell(row: nat, column: nat)

  /** The cursor: the selected slot column `x` and action row `y`. */
  datatype Cursor = Cursor(x: int, y: int)

  /**
   * One navigation frame: the pointer, when it moved over a cell, puts the
   * cursor there; then Left/Right step the column and Up/Down step the row,
   * each wrapping around.
   */
  function Navigate(c: Cursor, rows: nat, f: IS.Frame, hit: Option<Cell>, moved: bool): (r: Cursor)
    requires 0 <= c.x <= 2 && 0 <= c.y < rows
    requires hit.Some? ==> hit.value.row < rows && hit.value.column <= 2
    ensures 0 <= r.x <= 2 && 0 <= r.y < rows
    ensures !f.focus && (hit.None? || !moved) ==> r == c
    ensures hit.Some? && moved && !f.focus ==> r == Cursor(hit.value.column, hit.value.row)
  {
    var c0 := if hit.Some? && moved then Cursor(hit.value.column, hit.value.row) else c;
    var x1 := if f.IsKey(IS.Query.Pressed, K.Key.Left) then CycleIndex(c0.x - 1, 2) else c0.x;
    var x2 := if f.IsKey(IS.Query.Pressed, K.Key.Right) then CycleIndex(x1 + 1, 2) else x1;
    var y1 := if f.IsKey(IS.Query.Pressed, K.Key.Up) then CycleIndex(c0.y - 1, rows - 1) else c0.y;
    var y2 := if f.IsKey(IS.Query.Pressed, K.Key.Down) then CycleIndex(y1 + 1, rows - 1) else y1;
    Cursor(x2, y2)
  }

  /**
   * Pressing Left and Right in one frame leaves the column where the pointer
   * put it, and pressing Up and Down leaves the row; each axis on its own.
   */
  lemma OppositeArrowsCancel(c: Cursor, rows: nat, f: IS.Frame, hit: Option<Cell>, moved: bool)
    requires 0 <= c.x <= 2 && 0 <= c.y < rows
    requires hit.Some? ==> hit.value.row < rows && hit.value.column <= 2
    ensures var c0 := if hit.Some? && moved then Cursor(hit.value.column, hit.value.row) else c;
      f.IsKey(IS.Query.Pressed, K.Key.Left) && f.IsKey(IS.Query.Pressed, K.Key.Right) ==>
        Navigate(c, rows, f, hit, moved).x == c0.x
    ensures var c0 := if hit.Some? && moved then Cursor(hit.value.column, hit.value.row) else c;
      f.IsKey(IS.Query.Pressed, K.Key.Up) && f.IsKey(IS.Query.Pressed, K.Key.Down) ==>
        Navigate(c, rows, f, hit, moved).y == c0.y
  {
    var c0 := if hit.Some? && moved then Cursor(hit.value.column, hit.value.row) else c;
    CycleInverse(c0.x, 2);
    CycleInverse(c0.y, rows - 1);
  }

  /**
   * What a rebinding frame captures (`RebindKey`, then `RebindMouse`): a
   * single newly pressed key gives that key's button, Backspace giving the
   * unbound button; otherwise the first newly pressed mouse button gives its
   * button; otherwise nothing.
   */
  function Capture(f: IS.Frame): (r: Option<Button>)
    ensures r.Some? ==> f.focus && r.value.WellFormed()
    ensures r.Some? && r.value.key != K.Key.None ==> f.PressedKeys() == [r.value.key] && r.value.key != K.Key.Back
    ensures |f.PressedKeys()| == 1 && f.PressedKeys()[0] != K.Key.Back ==> r == Some(FromKey(f.PressedKeys()[0]))
    ensures f.PressedKeys() == [K.Key.Back] ==> r == Some(FromKey(K.Key.None))
  {
    var k := f.PressedKeys();
    if |k| == 1 then
      assert k[0] in k;
      Some(if k[0] == K.Key.Back then FromKey(K.Key.None) else FromKey(k[0]))
    else if f.FirstMousePressed() != IS.MouseButton.None then
      Some(FromMouse(f.FirstMousePressed()))
    else
      None
  }

  /** A keyboard press wins over a mouse press in the same frame; two or more keys at once are not a key capture. */
  lemma CaptureKeyFirst(f: IS.Frame)
    ensures |f.PressedKeys()| == 1 ==> Capture(f).Some? && forall mb :: !Capture(f).value.Flag(mb)
    ensures |f.PressedKeys()| != 1 ==>
      (Capture(f).Some? <==> f.FirstMousePressed() != IS.MouseButton.None)
      && (Capture(f).Some? ==> Capture(f).value == FromMouse(f.FirstMousePressed()))
  {
  }

  /** Backspace alone clears the selected slot: an unbound button is written unless the slot holds Enter or Escape. */
  lemma BackspaceClears(f: IS.Frame, slots: seq<Button>, x: nat)
    requires f.PressedKeys() == [K.Key.Back]
    requires x < |slots| && !IsReserved(slots[x].key)
    ensures InsertSpec(slots, Capture(f), x) == slots[x := FromKey(K.Key.None)]
    ensures !InsertSpec(slots, Capture(f), x)[x].IsBound()
  {
  }

  /**
   * Rebinding slot `x` puts the captured button at index `x` when the list
   * reaches that far, and otherwise at the end of the list, not at `x`.
   */
  lemma CaptureLandsAt(f: IS.Frame, slots: seq<Button>, x: nat)
    requires Capture(f).Some? && !IsReserved(Capture(f).value.key)
    ensures x < |slots| && !IsReserved(slots[x].key) ==> InsertSpec(slots, Capture(f), x)[x] == Capture(f).value
    ensures |slots| <= x ==> InsertSpec(slots, Capture(f), x) == slots + [Capture(f).value]
  {
  }

  /** An unfocused window captures nothing, so a rebinding frame without focus changes nothing. */
  lemma UnfocusedCapturesNothing(f: IS.Frame)
    requires !f.focus
    ensures Capture(f).None?
  {
    IS.UnfocusedReportsNothing(f, IS.Query.Pressed, K.Key.None, IS.MouseButton.Left);
  }

  /** The label column: each action's name. */
  function Labels(acts: seq<InputAction>): (r: seq<string>)
    ensures |r| == |acts|
  {
    seq(|acts|, i requires 0 <= i < |acts| => ActionName(acts[i]))
  }

  /** Slot column `k`: for each action, the text of its `k`-th slot. */
  function Column(t: Table, acts: seq<InputAction>, k: nat): (r: seq<string>)
    requires IsTable(t)
    ensures |r| == |acts|
    ensures forall i :: 0 <= i < |acts| ==> (r[i] == "<EMPTY>" <==> |t[acts[i]]| <= k || !t[acts[i]][k].IsBound())
  {
    seq(|acts|, i requires 0 <= i < |acts| => SlotLabel(t[acts[i]], k))
  }

  /** One more action adds one row to the label column and to each slot column. */
  lemma GridSnoc(t: Table, acts: seq<InputAction>, a: InputAction)
    requires IsTable(t)
    ensures Labels(acts + [a]) == Labels(acts) + [ActionName(a)]
    ensures forall k: nat :: Column(t, acts + [a], k) == Column(t, acts, k) + [SlotLabel(t[a], k)]
  {
  }

  /** The pointer step of `Navigate` followed by the key steps alone is the whole of `Navigate`. */
  lemma NavigatePointerFirst(c: Cursor, rows: nat, f: IS.Frame, hit: Option<Cell>, moved: bool)
    requires 0 <= c.x <= 2 && 0 <= c.y < rows
    requires hit.Some? ==> hit.value.row < rows && hit.value.column <= 2
    ensures var c0 := if hit.Some? && moved then Cursor(hit.value.column, hit.value.row) else c;
      Navigate(c, rows, f, hit, moved) == Navigate(c0, rows, f, None, false)
  {
  }

  class ControlScreen {
    const rm: RM
    var actions: seq<InputAction>
    var labels: seq<string>
    var op1: seq<string>
    var op2: seq<string>
    var op3: seq<string>
    var x: int
    var y: int
    var isSelecting: bool

    /** Ready for `Update`: the grid lists every action, and the cursor is on a cell. */
    predicate Valid()
      reads this, rm
    {
      rm.Valid() && actions == AllActions && 0 <= x <= 2 && 0 <= y < |actions|
    }

    /** The grid shows the table: action names and the first three slots' texts. */
    predicate Shown()
      reads this, rm
      requires rm.Valid()
    {
      actions == AllActions && labels == Labels(actions)
      && op1 == Column(rm.input, actions, 0) && op2 == Column(rm.input, actions, 1) && op3 == Column(rm.input, actions, 2)
    }

    constructor (rm: RM)
      ensures this.rm == rm
      ensures actions == [] && labels == [] && op1 == [] && op2 == [] && op3 == []
      ensures x == 0 && y == 0 && !isSelecting
    {
      this.rm := rm;
      actions := [];
      labels := [];
      op1, op2, op3 := [], [], [];
      x, y := 0, 0;
      isSelecting := false;
    }

    /** `Show`: build the grid and stop snapping the pointer to the centre. */
    method Show(im: IS.IM)
      requires rm.Valid()
      modifies this, im`snapToCenter
      ensures Valid() == (0 <= x <= 2 && 0 <= y < |AllActions|)
      ensures Shown() && !im.snapToCenter
      ensures x == old(x) && y == old(y) && isSelecting == old(isSelecting)
    {
      CreateControls();
      im.snapToCenter := false;
    }

    /** `CreateControls`: the grid rebuilt from scratch, one row per action. */
    method CreateControls()
      requires rm.Valid()
      modifies this
      ensures Shown()
      ensures x == old(x) && y == old(y) && isSelecting == old(isSelecting)
    {
      actions, labels, op1, op2, op3 := [], [], [], [], [];
      var buttons := GetValidInputActions();
      for i := 0 to |buttons|
        invariant actions == buttons[..i] && labels == Labels(actions)
        invariant op1 == Column(rm.input, actions, 0) && op2 == Column(rm.input, actions, 1) && op3 == Column(rm.input, actions, 2)
        invariant x == old(x) && y == old(y) && isSelecting == old(isSelecting)
      {
        assert buttons[..i + 1] == actions + [buttons[i]];
        GridSnoc(rm.input, actions, buttons[i]);
        AppendInputActions(buttons[i]);
      }
      assert buttons[..|buttons|] == buttons;
    }

    /** `AppendInputActions`: one more row, with the action's name and the texts of its first three slots. */
    method AppendInputActions(ia: InputAction)
      requires rm.Valid()
      modifies this`actions, this`labels, this`op1, this`op2, this`op3
      ensures actions == old(actions) + [ia] && labels == old(labels) + [ActionName(ia)]
      ensures op1 == old(op1) + [SlotLabel(rm.input[ia], 0)]
      ensures op2 == old(op2) + [SlotLabel(rm.input[ia], 1)]
      ensures op3 == old(op3) + [SlotLabel(rm.input[ia], 2)]
    {
      actions := actions + [ia];
      labels := labels + [ActionName(ia)];
      var buttonList := rm.GetButtons(ia);
      if |buttonList| > 0 {
        op1 := op1 + [buttonList[0].ToString()];
      } else {
        op1 := op1 + ["<EMPTY>"];
      }
      if |buttonList| > 1 {
        op2 := op2 + [buttonList[1].ToString()];
      } else {
        op2 := op2 + ["<EMPTY>"];
      }
      if |buttonList| > 2 {
        op3 := op3 + [buttonList[2].ToString()];
      } else {
        op3 := op3 + ["<EMPTY>"];
      }
    }

    /**
     * `Update`: one frame. `hit` is the cell under the pointer (the layout
     * and the hit test are not modelled); `fs` are the files, which only the
     * Escape of navigation mode writes, reporting `back` for the return to
     * the previous screen.
     */
    method Update(im: IS.IM, hit: Option<Cell>, fs: Files) returns (files: Files, back: bool)
      requires Valid()
      requires hit.Some? ==> hit.value.row < |actions| && hit.value.column <= 2
      modifies this, rm
      ensures Valid()
      ensures old(Shown()) ==> Shown()
      // navigation
      ensures !old(isSelecting) ==>
        rm.input == old(rm.input) && actions == old(actions)
        && labels == old(labels) && op1 == old(op1) && op2 == old(op2) && op3 == old(op3)
        && Cursor(x, y) == Navigate(old(Cursor(x, y)), |actions|, im.View(), hit, im.mouseDelta != IS.Vector(0, 0))
        && isSelecting == ((hit.Some? && im.View().IsMouse(IS.Query.Pressed, IS.MouseButton.Left))
                           || im.View().IsKey(IS.Query.Pressed, K.Key.Enter))
        && back == im.View().IsKey(IS.Query.Pressed, K.Key.Escape)
        && files == (if back then ConfigCodec.SaveConfig(rm.input, fs) else fs)
      // rebinding
      ensures old(isSelecting) ==> files == fs && !back && x == old(x) && y == old(y)
      ensures old(isSelecting) && im.View().IsKey(IS.Query.Pressed, K.Key.Escape) ==>
        !isSelecting && rm.input == old(rm.input) && actions == old(actions)
        && labels == old(labels) && op1 == old(op1) && op2 == old(op2) && op3 == old(op3)
      ensures old(isSelecting) && !im.View().IsKey(IS.Query.Pressed, K.Key.Escape) && Capture(im.View()).None? ==>
        isSelecting && rm.input == old(rm.input) && actions == old(actions)
        && labels == old(labels) && op1 == old(op1) && op2 == old(op2) && op3 == old(op3)
      ensures old(isSelecting) && !im.View().IsKey(IS.Query.Pressed, K.Key.Escape) && Capture(im.View()).Some? ==>
        !isSelecting && Shown()
        && rm.input == old(rm.input)[actions[y] := InsertSpec(old(rm.input)[actions[y]], Capture(im.View()), x)]
    {
      files, back := fs, false;
      if isSelecting {
        UpdateRebinding(im);
      } else {
        files, back := UpdateNavigating(im, hit, fs);
      }
    }

    /** `UpdateNavigating`: pointer, then keys; a click on a cell or Enter starts rebinding. */
    method UpdateNavigating(im: IS.IM, hit: Option<Cell>, fs: Files) returns (files: Files, back: bool)
      requires Valid() && !isSelecting
      requires hit.Some? ==> hit.value.row < |actions| && hit.value.column <= 2
      modifies this`x, this`y, this`isSelecting
      ensures Valid()
      ensures Cursor(x, y) == Navigate(old(Cursor(x, y)), |actions|, im.View(), hit, im.mouseDelta != IS.Vector(0, 0))
      ensures isSelecting == ((hit.Some? && im.View().IsMouse(IS.Query.Pressed, IS.MouseButton.Left))
                              || im.View().IsKey(IS.Query.Pressed, K.Key.Enter))
      ensures back == im.View().IsKey(IS.Query.Pressed, K.Key.Escape)
      ensures files == (if back then ConfigCodec.SaveConfig(rm.input, fs) else fs)
    {
      NavigatePointerFirst(Cursor(x, y), |actions|, im.View(), hit, im.mouseDelta != IS.Vector(0, 0));
      var hoversOverButton := HandleMouseInput(im, hit);
      files, back := HandleKeyboardInput(im, fs);
      if hoversOverButton && im.View().IsMouse(IS.Query.Pressed, IS.MouseButton.Left) {
        isSelecting := true;
      }
      if im.View().IsKey(IS.Query.Pressed, K.Key.Enter) {
        isSelecting := true;
      }
    }

    /** `HandleMouseInput`: over a cell, and after the pointer moved, the cursor goes to that cell. */
    method HandleMouseInput(im: IS.IM, hit: Option<Cell>) returns (hovers: bool)
      requires Valid()
      requires hit.Some? ==> hit.value.row < |actions| && hit.value.column <= 2
      modifies this`x, this`y
      ensures Valid() && hovers == hit.Some?
      ensures Cursor(x, y) == if hit.Some? && im.mouseDelta != IS.Vector(0, 0) then Cursor(hit.value.column, hit.value.row) else old(Cursor(x, y))
    {
      var movedMouse := im.mouseDelta != IS.Vector(0, 0);
      if hit.Some? {
        if movedMouse {
          y := hit.value.row;
          x := hit.value.column;
        }
        return true;
      }
      return false;
    }

    /** `HandleKeyboardInput`: Escape saves and leaves; the arrows step the cursor with wrap-around. */
    method HandleKeyboardInput(im: IS.IM, fs: Files) returns (files: Files, back: bool)
      requires Valid()
      modifies this`x, this`y
      ensures Valid()
      ensures Cursor(x, y) == Navigate(old(Cursor(x, y)), |actions|, im.View(), None, false)
      ensures back == im.View().IsKey(IS.Query.Pressed, K.Key.Escape)
      ensures files == (if back then ConfigCodec.SaveConfig(rm.input, fs) else fs)
    {
      files, back := fs, false;
      var f := im.View();
      if f.IsKey(IS.Query.Pressed, K.Key.Escape) {
        files := rm.SaveConfig(fs);
        back := true;
      }
      if f.IsKey(IS.Query.Pressed, K.Key.Left) {
        x := CycleIndex(x - 1, 2);
      }
      if f.IsKey(IS.Query.Pressed, K.Key.Right) {
        x := CycleIndex(x + 1, 2);
      }
      if f.IsKey(IS.Query.Pressed, K.Key.Up) {
        y := CycleIndex(y - 1, |actions| - 1);
      }
      if f.IsKey(IS.Query.Pressed, K.Key.Down) {
        y := CycleIndex(y + 1, |actions| - 1);
      }
    }

    /** `UpdateRebinding`: Escape cancels; otherwise a key capture, failing that a mouse capture. */
    method UpdateRebinding(im: IS.IM)
      requires Valid() && isSelecting
      modifies this, rm
      ensures Valid() && x == old(x) && y == old(y)
      ensures old(Shown()) ==> Shown()
      ensures im.View().IsKey(IS.Query.Pressed, K.Key.Escape) ==>
        !isSelecting && rm.input == old(rm.input) && actions == old(actions)
        && labels == old(labels) && op1 == old(op1) && op2 == old(op2) && op3 == old(op3)
      ensures !im.View().IsKey(IS.Query.Pressed, K.Key.Escape) && Capture(im.View()).None? ==>
        isSelecting && rm.input == old(rm.input) && unchanged(this)
      ensures !im.View().IsKey(IS.Query.Pressed, K.Key.Escape) && Capture(im.View()).Some? ==>
        !isSelecting && Shown()
        && rm.input == old(rm.input)[actions[y] := InsertSpec(old(rm.input)[actions[y]], Capture(im.View()), x)]
    {
      if im.View().IsKey(IS.Query.Pressed, K.Key.Escape) {
        isSelecting := false;
        return;
      }
      var done := RebindKey(im);
      if !done {
        done := RebindMouse(im);
      }
    }

    /** `RebindKey`: exactly one newly pressed key is written into the selected slot, Backspace as the unbound button. */
    method RebindKey(im: IS.IM) returns (done: bool)
      requires Valid() && isSelecting
      modifies this, rm
      ensures Valid() && x == old(x) && y == old(y)
      ensures done == (|im.View().PressedKeys()| == 1)
      ensures !done ==> isSelecting && rm.input == old(rm.input) && unchanged(this)
      ensures done ==>
        !isSelecting && Shown()
        && rm.input == old(rm.input)[actions[y] := InsertSpec(old(rm.input)[actions[y]], Capture(im.View()), x)]
    {
      var k := im.GetPressedKeys();
      if |k| == 1 {
        if k[0] == K.Key.Back {
          rm.InsertKey(actions[y], Some(FromKey(K.Key.None)), x);
        } else {
          rm.InsertKey(actions[y], Some(FromKey(k[0])), x);
        }
        SelectedValidKey();
        return true;
      }
      return false;
    }

    /** `RebindMouse`: the first newly pressed mouse button, if any, is written into the selected slot. */
    method RebindMouse(im: IS.IM) returns (done: bool)
      requires Valid() && isSelecting
      requires |im.View().PressedKeys()| != 1
      modifies this, rm
      ensures Valid() && x == old(x) && y == old(y)
      ensures done == Capture(im.View()).Some?
      ensures !done ==> isSelecting && rm.input == old(rm.input) && unchanged(this)
      ensures done ==>
        !isSelecting && Shown()
        && rm.input == old(rm.input)[actions[y] := InsertSpec(old(rm.input)[actions[y]], Capture(im.View()), x)]
    {
      var mb := im.View().FirstMousePressed();
      if mb != IS.MouseButton.None {
        rm.InsertKey(actions[y], Some(FromMouse(mb)), x);
        SelectedValidKey();
        return true;
      }
      return false;
    }

    /** `SelectedValidKey`: leave rebinding mode and rebuild the grid from the table. */
    method SelectedValidKey()
      requires rm.Valid()
      modifies this
      ensures !isSelecting && Shown() && x == old(x) && y == old(y)
    {
      isSelecting := false;
      CreateControls();
    }
  }
}
