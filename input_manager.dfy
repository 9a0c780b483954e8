/**
 * The per-frame input state (`IM`): two snapshots of the keyboard and the
 * mouse, the previous frame's and the current one, from which the level
 * queries (down, up) and the edge queries (pressed, released this frame) are
 * derived. Every query is gated by window focus. Device sampling is a
 * parameter: `NewState` receives the sample the framework would return.
 */
module InputState {
  import K = Keys

  datatype MouseButton = Left | Middle | Right | Side1 | Side2 | None

  /** The four questions asked of every control. */
  datatype Query = Down | Up | Pressed | Released

  /** A keyboard sample: the keys held down, in the order the framework reports them. */
  datatype KeyboardState = KeyboardState(held: seq<K.Key>)
  {
    predicate IsKeyDown(k: K.Key) { k in held }

    predicate IsKeyUp(k: K.Key) { k !in held }
  }

  /** A mouse sample: pointer position, scroll accumulator and the five button states (true = `ButtonState.Pressed`). */
  datatype MouseState = MouseState(
    x: int, y: int, scrollWheelValue: int,
    leftButton: bool, middleButton: bool, rightButton: bool, xButton1: bool, xButton2: bool)
  {
    /** Whether button `b` reads `ButtonState.Pressed`; `None` names no button. */
    predicate IsPressed(b: MouseButton)
    {
      match b
      case Left => leftButton
      case Middle => middleButton
      case Right => rightButton
      case Side1 => xButton1
      case Side2 => xButton2
      case None => false
    }
  }

  /** What one call of `Keyboard.GetState` and `Mouse.GetState` returns. */
  datatype Sample = Sample(keyboard: KeyboardState, mouse: MouseState)

  datatype Vector = Vector(x: int, y: int)

  /** The order in which `CurrentMousePressed` tries the buttons. */
  function Priority(b: MouseButton): nat
  {
    match b
    case Left => 0
    case Right => 1
    case Middle => 2
    case Side1 => 3
    case Side2 => 4
    case None => 5
  }

  /** A read-only view of the input manager: focus and the two snapshots. All queries are defined on it. */
  datatype Frame = Frame(
    focus: bool,
    previousKeyboard: KeyboardState, previousMouse: MouseState,
    currentKeyboard: KeyboardState, currentMouse: MouseState)
  {
    /** `IsKeyDown`, `IsKeyUp`, `IsKeyPressed`, `IsKeyReleased`. */
    predicate IsKey(q: Query, k: K.Key)
      ensures IsKey(q, k) ==> focus
    {
      focus &&
      match q
      case Down => currentKeyboard.IsKeyDown(k)
      case Up => currentKeyboard.IsKeyUp(k)
      case Pressed => currentKeyboard.IsKeyDown(k) && previousKeyboard.IsKeyUp(k)
      case Released => currentKeyboard.IsKeyUp(k) && previousKeyboard.IsKeyDown(k)
    }

    /** The five families `IsLeftMouseDown` .. `IsSide2MouseReleased`, one per button. */
    predicate IsMouse(q: Query, b: MouseButton)
      requires b != None
      ensures IsMouse(q, b) ==> focus
    {
      focus &&
      match q
      case Down => currentMouse.IsPressed(b)
      case Up => !currentMouse.IsPressed(b)
      case Pressed => currentMouse.IsPressed(b) && !previousMouse.IsPressed(b)
      case Released => !currentMouse.IsPressed(b) && previousMouse.IsPressed(b)
    }

    /** `ScrollDelta`: how far the wheel turned since the previous frame. */
    function ScrollDelta(): (r: int)
      ensures previousMouse.scrollWheelValue + r == currentMouse.scrollWheelValue
    {
      currentMouse.scrollWheelValue - previousMouse.scrollWheelValue
    }

    /** `CurrentMousePressed`: the first button pressed this frame in the order Left, Right, Middle, Side1, Side2. */
    function FirstMousePressed(): (r: MouseButton)
      ensures r != None ==> IsMouse(Pressed, r)
      ensures forall b :: b != None && Priority(b) < Priority(r) ==> !IsMouse(Pressed, b)
    {
      if IsMouse(Pressed, Left) then Left
      else if IsMouse(Pressed, Right) then Right
      else if IsMouse(Pressed, Middle) then Middle
      else if IsMouse(Pressed, Side1) then Side1
      else if IsMouse(Pressed, Side2) then Side2
      else None
    }

    /** The keys of `ks`, in order, that were pressed this frame. */
    function PressedAmong(ks: seq<K.Key>): (r: seq<K.Key>)
      ensures |r| <= |ks|
      ensures forall k :: k in r <==> k in ks && IsKey(Pressed, k)
      ensures !focus ==> r == []
    {
      if ks == [] then []
      else
        var last := ks[|ks| - 1];
        PressedAmong(ks[..|ks| - 1]) + (if IsKey(Pressed, last) then [last] else [])
    }

    /** What `GetPressedKeys` returns: the held keys that are newly down this frame. */
    function PressedKeys(): seq<K.Key>
    {
      PressedAmong(currentKeyboard.held)
    }
  }

  /** Each newly pressed key occurs as often as among the held keys; any other key not at all. */
  lemma {:induction false} PressedAmongCount(f: Frame, ks: seq<K.Key>)
    ensures forall k :: multiset(f.PressedAmong(ks))[k] == if f.IsKey(Pressed, k) then multiset(ks)[k] else 0
    decreases |ks|
  {
    if ks != [] {
      var init := ks[..|ks| - 1];
      assert ks == init + [ks[|ks| - 1]];
      PressedAmongCount(f, init);
    }
  }

  /** A key occurs once in a list without repeats, when it occurs at all. */
  lemma {:induction false} DistinctCount(s: seq<K.Key>, x: K.Key)
    requires forall i, j :: 0 <= i < j < |s| ==> s[i] != s[j]
    ensures multiset(s)[x] == if x in s then 1 else 0
    decreases |s|
  {
    if s != [] {
      var init := s[..|s| - 1];
      assert s == init + [s[|s| - 1]];
      DistinctCount(init, x);
    }
  }

  /**
   * With the held keys listed once each (as the keyboard state reports
   * them), `GetPressedKeys` returns a single key exactly when that key and
   * no other was newly pressed.
   */
  lemma SinglePressedKey(f: Frame, k: K.Key)
    requires forall i, j :: 0 <= i < j < |f.currentKeyboard.held| ==> f.currentKeyboard.held[i] != f.currentKeyboard.held[j]
    ensures f.PressedKeys() == [k] <==> f.IsKey(Pressed, k) && forall k' :: f.IsKey(Pressed, k') ==> k' == k
  {
    var r := f.PressedKeys();
    if f.IsKey(Pressed, k) && forall k' :: f.IsKey(Pressed, k') ==> k' == k {
      PressedAmongCount(f, f.currentKeyboard.held);
      DistinctCount(f.currentKeyboard.held, k);
      assert multiset(r)[k] == 1;
      forall x | x != k
        ensures multiset(r)[x] == 0
      {
      }
      assert multiset(r) == multiset{k};
      assert |r| == 1;
      assert r[0] in r;
    }
  }

  /** Filtering keeps the order: the pressed keys of two runs are those of the first, then those of the second. */
  lemma {:induction false} PressedAmongConcat(f: Frame, a: seq<K.Key>, b: seq<K.Key>)
    ensures f.PressedAmong(a + b) == f.PressedAmong(a) + f.PressedAmong(b)
    decreases |b|
  {
    if b == [] {
      assert a + b == a;
    } else {
      var b0 := b[..|b| - 1];
      assert (a + b)[..|a + b| - 1] == a + b0;
      assert b[..|b| - 1] == b0;
      PressedAmongConcat(f, a, b0);
    }
  }

  /** A pressed edge and a released edge never happen to the same key or button in one frame. */
  lemma EdgesExclusive(f: Frame, k: K.Key, b: MouseButton)
    requires b != None
    ensures !(f.IsKey(Pressed, k) && f.IsKey(Released, k))
    ensures !(f.IsMouse(Pressed, b) && f.IsMouse(Released, b))
    ensures f.IsKey(Down, k) ==> !f.IsKey(Up, k)
    ensures f.IsMouse(Down, b) ==> !f.IsMouse(Up, b)
  {
  }

  /** An unfocused window reports nothing at all: no key or button is down, up, pressed or released. */
  lemma UnfocusedReportsNothing(f: Frame, q: Query, k: K.Key, b: MouseButton)
    requires !f.focus && b != None
    ensures !f.IsKey(q, k) && !f.IsMouse(q, b)
    ensures f.PressedKeys() == [] && f.FirstMousePressed() == None
  {
  }

  /**
   * Across two consecutive focused frames, "pressed now" is exactly "down now
   * and up in the frame before", and "released now" the converse.
   */
  lemma EdgeAcrossFrames(before: Frame, after: Frame, k: K.Key)
    requires before.focus && after.focus
    requires after.previousKeyboard == before.currentKeyboard
    ensures after.IsKey(Pressed, k) <==> after.IsKey(Down, k) && before.IsKey(Up, k)
    ensures after.IsKey(Released, k) <==> after.IsKey(Up, k) && before.IsKey(Down, k)
  {
  }

  /**
   * `ValidateMousePosition`: the pointer position after the confinement step.
   * Snapping to the centre is checked first and wins; otherwise the pointer is
   * clamped into the window. Re-reading the device after `Mouse.SetPosition` is
   * taken to return the requested position with the other fields unchanged.
   */
  function Confine(m: MouseState, snapToCenter: bool, stayInWindow: bool, width: nat, height: nat): (r: MouseState)
    ensures r.scrollWheelValue == m.scrollWheelValue
    ensures forall b :: r.IsPressed(b) == m.IsPressed(b)
    ensures snapToCenter ==> r.x == width / 2 && r.y == height / 2
    ensures !snapToCenter && stayInWindow ==> 0 <= r.x <= width && 0 <= r.y <= height
    ensures !snapToCenter && stayInWindow && 0 <= m.x <= width ==> r.x == m.x
    ensures !snapToCenter && stayInWindow && 0 <= m.y <= height ==> r.y == m.y
    ensures !snapToCenter && !stayInWindow ==> r == m
  {
    if snapToCenter then
      m.(x := width / 2, y := height / 2)
    else if stayInWindow then
      m.(x := Max(0, Min(width, m.x)), y := Max(Min(height, m.y), 0))
    else
      m
  }

  function Min(a: int, b: int): int { if a <= b then a else b }

  function Max(a: int, b: int): int { if a >= b then a else b }

  /** The input manager: the two snapshots, the mouse delta, and the host's focus flag, window size and confinement options. */
  class IM {
    var previousMouse: MouseState
    var previousKeyboard: KeyboardState
    var currentKeyboard: KeyboardState
    var currentMouse: MouseState
    var mouseDelta: Vector

    /** Whether the game window has focus (read from the host on every query). */
    var hasFocus: bool
    var snapToCenter: bool
    var stayInWindow: bool
    var width: nat
    var height: nat

    /** The static initialisers: each snapshot is read from the device once. */
    constructor (previous: Sample, current: Sample, width: nat, height: nat)
      ensures previousKeyboard == previous.keyboard && previousMouse == previous.mouse
      ensures currentKeyboard == current.keyboard && currentMouse == current.mouse
      ensures mouseDelta == Vector(0, 0)
      ensures !hasFocus && !snapToCenter && !stayInWindow
      ensures this.width == width && this.height == height
    {
      previousMouse := previous.mouse;
      previousKeyboard := previous.keyboard;
      currentKeyboard := current.keyboard;
      currentMouse := current.mouse;
      mouseDelta := Vector(0, 0);
      hasFocus := false;
      snapToCenter := false;
      stayInWindow := false;
      this.width := width;
      this.height := height;
    }

    function View(): Frame
      reads this
    {
      Frame(hasFocus, previousKeyboard, previousMouse, currentKeyboard, currentMouse)
    }

    function MousePos(): Vector
      reads this
    {
      Vector(currentMouse.x, currentMouse.y)
    }

    /**
     * `NewState`: with focus, the current snapshot becomes the previous one,
     * the sample becomes the current one, the delta is taken against the
     * unconfined sample, and then the pointer is confined. Without focus
     * nothing changes.
     */
    method NewState(sample: Sample)
      modifies this
      ensures hasFocus == old(hasFocus) && snapToCenter == old(snapToCenter) && stayInWindow == old(stayInWindow)
      ensures width == old(width) && height == old(height)
      ensures !hasFocus ==>
        previousKeyboard == old(previousKeyboard) && previousMouse == old(previousMouse)
        && currentKeyboard == old(currentKeyboard) && currentMouse == old(currentMouse)
        && mouseDelta == old(mouseDelta)
      ensures hasFocus ==>
        previousKeyboard == old(currentKeyboard) && previousMouse == old(currentMouse)
        && currentKeyboard == sample.keyboard
        && currentMouse == Confine(sample.mouse, snapToCenter, stayInWindow, width, height)
        && mouseDelta == Vector(sample.mouse.x - old(currentMouse).x, sample.mouse.y - old(currentMouse).y)
    {
      if hasFocus {
        previousKeyboard := currentKeyboard;
        previousMouse := currentMouse;
        currentKeyboard := sample.keyboard;
        currentMouse := sample.mouse;
        mouseDelta := Vector(currentMouse.x - previousMouse.x, currentMouse.y - previousMouse.y);
        ValidateMousePosition();
      }
    }

    method ValidateMousePosition()
      modifies this`currentMouse
      ensures currentMouse == Confine(old(currentMouse), snapToCenter, stayInWindow, width, height)
    {
      if snapToCenter {
        currentMouse := currentMouse.(x := width / 2, y := height / 2);
      } else if stayInWindow {
        var pos := MousePos();
        currentMouse := currentMouse.(x := Max(0, Min(width, pos.x)), y := Max(Min(height, pos.y), 0));
      }
    }

    /** `GetPressedKeys`: the currently held keys that were pressed this frame, in the order the device reports them. */
    method GetPressedKeys() returns (valid: seq<K.Key>)
      ensures valid == View().PressedKeys()
      ensures forall k :: k in valid <==> k in currentKeyboard.held && View().IsKey(Pressed, k)
    {
      var pressed := currentKeyboard.held;
      valid := [];
      for i := 0 to |pressed|
        invariant valid == View().PressedAmong(pressed[..i])
      {
        assert pressed[..i + 1][..i] == pressed[..i];
        if View().IsKey(Pressed, pressed[i]) {
          valid := valid + [pressed[i]];
        }
      }
      assert pressed[..|pressed|] == pressed;
    }
  }
}
