/**
 * `Button`: one physical control that can drive an action, either a keyboard
 * key or one of the five mouse buttons. As in the source it is a key field
 * plus five mouse flags, fixed at construction; the two constructors never
 * set more than one of them.
 */
module Buttons {
  import K = Keys
  import opened InputState

  datatype Button = Button(key: K.Key, left: bool, middle: bool, right: bool, side1: bool, side2: bool)
  {
    /** The flag that stands for mouse button `mb`. */
    predicate Flag(mb: MouseButton)
    {
      match mb
      case Left => left
      case Middle => middle
      case Right => right
      case Side1 => side1
      case Side2 => side2
      case None => false
    }

    /** `IsBound`: the button names some key or some mouse button. */
    predicate IsBound()
    {
      key != K.Key.None || left || middle || right || side1 || side2
    }

    /** Built by one of the two constructors: at most one of the key and the five flags is set. */
    predicate WellFormed()
    {
      (key != K.Key.None ==> !left && !middle && !right && !side1 && !side2)
      && (left ==> !middle && !right && !side1 && !side2)
      && (middle ==> !right && !side1 && !side2)
      && (right ==> !side1 && !side2)
      && (side1 ==> !side2)
    }

    /** `ToString`: the key's name, else the first mouse flag's name, else the empty marker. */
    function ToString(): (r: string)
      ensures r == "<EMPTY>" <==> !IsBound()
      ensures key != K.Key.None ==> r == K.KeyName(key)
      ensures WellFormed() && left ==> r == "LeftMouse"
      ensures WellFormed() && right ==> r == "RightMouse"
      ensures WellFormed() && middle ==> r == "MiddleMouse"
      ensures WellFormed() && side1 ==> r == "Side1Mouse"
      ensures WellFormed() && side2 ==> r == "Side2Mouse"
    {
      K.KeyNameIsToken(key);
      if key != K.Key.None then K.KeyName(key)
      else if left then "LeftMouse"
      else if right then "RightMouse"
      else if middle then "MiddleMouse"
      else if side1 then "Side1Mouse"
      else if side2 then "Side2Mouse"
      else "<EMPTY>"
    }

    /**
     * `IsDown`, `IsUp`, `IsPressed`, `IsReleased`: some control the button
     * stands for answers the query. The key is consulted only when it is
     * not `Keys.None`.
     */
    predicate Is(q: Query, f: Frame)
      ensures Is(q, f) ==> IsBound() && f.focus
    {
      (key != K.Key.None && f.IsKey(q, key))
      || (left && f.IsMouse(q, Left))
      || (right && f.IsMouse(q, Right))
      || (middle && f.IsMouse(q, Middle))
      || (side1 && f.IsMouse(q, Side1))
      || (side2 && f.IsMouse(q, Side2))
    }
  }

  /** `new Button(Keys key)`: only the key is set. */
  function FromKey(k: K.Key): (b: Button)
    ensures b.key == k && b.WellFormed()
    ensures forall mb :: !b.Flag(mb)
    ensures b.IsBound() <==> k != K.Key.None
  {
    Button(k, false, false, false, false, false)
  }

  /** `new Button(MouseButton button)`: exactly the flag of `mb`, and none for `MouseButton.None`. */
  function FromMouse(mb: MouseButton): (b: Button)
    ensures b.key == K.Key.None && b.WellFormed()
    ensures forall m :: b.Flag(m) <==> m == mb && mb != None
    ensures b.IsBound() <==> mb != None
  {
    match mb
    case Left => Button(K.Key.None, true, false, false, false, false)
    case Middle => Button(K.Key.None, false, true, false, false, false)
    case Right => Button(K.Key.None, false, false, true, false, false)
    case Side1 => Button(K.Key.None, false, false, false, true, false)
    case Side2 => Button(K.Key.None, false, false, false, false, true)
    case None => Button(K.Key.None, false, false, false, false, false)
  }

  /** A key button answers exactly as its key does, and the "no key" button never answers. */
  lemma KeyButtonIs(k: K.Key, q: Query, f: Frame)
    ensures FromKey(k).Is(q, f) <==> k != K.Key.None && f.IsKey(q, k)
  {
  }

  /** A mouse button answers exactly as the mouse button it stands for. */
  lemma MouseButtonIs(mb: MouseButton, q: Query, f: Frame)
    ensures mb != None ==> (FromMouse(mb).Is(q, f) <==> f.IsMouse(q, mb))
    ensures mb == None ==> !FromMouse(mb).Is(q, f)
  {
  }

  /** An unbound button answers false to every query. */
  lemma UnboundNeverActive(b: Button, q: Query, f: Frame)
    requires !b.IsBound()
    ensures !b.Is(q, f)
  {
  }
}
