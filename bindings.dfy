/**
 * The action binding table: every action (`InputAction`) maps to an ordered
 * list of buttons ("slots"). This module holds the table's values and the
 * pure rules; the class that owns and mutates the table is `ResourceManager.RM`.
 */
module Bindings {
  import K = Keys
  import IS = InputState
  import opened Wrappers
  import opened Text
  import opened Buttons

  /** The actions, in declaration order. */
  datatype InputAction = Up | Down | Left | Right | Back | Accept

  const AllActions: seq<InputAction> := [Up, Down, Left, Right, Back, Accept]

  /** The enumeration member's name, as `InputAction.ToString()` gives it. */
  function ActionName(a: InputAction): string
  {
    match a
    case Up => "Up"
    case Down => "Down"
    case Left => "Left"
    case Right => "Right"
    case Back => "Back"
    case Accept => "Accept"
  }

  /** The upper-cased name, the form a case-insensitive comparison sees. */
  function UpperActionName(a: InputAction): (r: string)
    ensures r == Upper(ActionName(a))
  {
    match a
    case Up => "UP"
    case Down => "DOWN"
    case Left => "LEFT"
    case Right => "RIGHT"
    case Back => "BACK"
    case Accept => "ACCEPT"
  }

  /** `Enum.TryParse<InputAction>(s, ignoreCase: true, ...)`: the action named `s` up to case. */
  function ParseAction(s: string): (r: Option<InputAction>)
    ensures r.Some? ==> UpperActionName(r.value) == Upper(s)
    ensures r.None? ==> forall a: InputAction :: UpperActionName(a) != Upper(s)
  {
    LookUpAction(Upper(s))
  }

  /** The action whose upper-cased name is `u`. */
  function LookUpAction(u: string): (r: Option<InputAction>)
    ensures r.Some? ==> UpperActionName(r.value) == u
    ensures r.None? ==> forall a: InputAction :: UpperActionName(a) != u
  {
    if u == "UP" then Some(Up)
    else if u == "DOWN" then Some(Down)
    else if u == "LEFT" then Some(Left)
    else if u == "RIGHT" then Some(Right)
    else if u == "BACK" then Some(Back)
    else if u == "ACCEPT" then Some(Accept)
    else None
  }

  /** `AllActions` lists every action. */
  lemma AllActionsComplete()
    ensures forall a: InputAction :: a in AllActions
  {
    forall a: InputAction
      ensures a in AllActions
    {
      match a
      case Up => assert AllActions[0] == a;
      case Down => assert AllActions[1] == a;
      case Left => assert AllActions[2] == a;
      case Right => assert AllActions[3] == a;
      case Back => assert AllActions[4] == a;
      case Accept => assert AllActions[5] == a;
    }
  }

  /** An action's name is a token: non-empty, not starting with `/`, without white space, `:` or `,`. */
  lemma ActionNameIsToken(a: InputAction)
    ensures IsToken(ActionName(a))
  {
  }

  /** Printing an action and parsing the text back, in any case, yields that action. */
  lemma ParseActionName(a: InputAction)
    ensures ParseAction(ActionName(a)) == Some(a)
    ensures ParseAction(Upper(ActionName(a))) == Some(a)
  {
    UpperUpper(ActionName(a));
    LookUpUpperAction(a);
  }

  lemma LookUpUpperAction(a: InputAction)
    ensures LookUpAction(UpperActionName(a)) == Some(a)
  {
    match a
    case Up => assert LookUpAction("UP") == Some(Up);
    case Down => assert LookUpAction("DOWN") == Some(Down);
    case Left => assert LookUpAction("LEFT") == Some(Left);
    case Right => assert LookUpAction("RIGHT") == Some(Right);
    case Back => assert LookUpAction("BACK") == Some(Back);
    case Accept => assert LookUpAction("ACCEPT") == Some(Accept);
  }

  type Table = map<InputAction, seq<Button>>

  /** Every action has a list (the static constructor adds one per action). */
  predicate IsTable(t: Table)
  {
    forall a: InputAction :: a in t
  }

  /** The freshly constructed table: every action bound to nothing. */
  function EmptyTable(): (t: Table)
    ensures IsTable(t)
    ensures forall a :: t[a] == []
  {
    AllActionsComplete();
    map a | a in AllActions :: []
  }

  /** Two tables that agree on every action are equal. */
  lemma TableExt(r: Table, s: Table)
    requires IsTable(r) && IsTable(s)
    requires forall a :: r[a] == s[a]
    ensures r == s
  {
    assert r.Keys == s.Keys;
  }

  /** Updating an action twice keeps the second value. */
  lemma UpdateTwice(t: Table, a: InputAction, x: seq<Button>, y: seq<Button>)
    ensures t[a := x][a := y] == t[a := y]
  {
  }

  /** Appending a list's head and then its tail appends the list. */
  lemma AppendHeadTail(p: seq<Button>, xs: seq<Button>)
    requires xs != []
    ensures p + [xs[0]] + xs[1..] == p + xs
  {
    assert xs == [xs[0]] + xs[1..];
  }

  /** Enter and Escape are the keys that rebinding may neither assign nor overwrite. */
  predicate IsReserved(k: K.Key)
  {
    k == K.Key.Enter || k == K.Key.Escape
  }

  /**
   * `InsertKey` on one action's slot list. A null button (`None`) or one whose
   * key is reserved is refused; a position at or past the end appends; an
   * earlier position is overwritten unless the slot holds a reserved key.
   */
  function InsertSpec(slots: seq<Button>, b: Option<Button>, position: nat): (r: seq<Button>)
    ensures |slots| <= |r| <= |slots| + 1
    ensures forall i :: 0 <= i < |r| ==> (IsReserved(r[i].key) <==> i < |slots| && IsReserved(slots[i].key))
    ensures forall i :: 0 <= i < |slots| && IsReserved(slots[i].key) ==> r[i] == slots[i]
  {
    if b.None? || b.value.key == K.Key.Enter || b.value.key == K.Key.Escape then slots
    else if |slots| <= position then slots + [b.value]
    else if slots[position].key != K.Key.Escape && slots[position].key != K.Key.Enter then slots[position := b.value]
    else slots
  }

  /** A refused button leaves the list as it was. */
  lemma InsertRefused(slots: seq<Button>, b: Option<Button>, position: nat)
    requires b.None? || IsReserved(b.value.key)
    ensures InsertSpec(slots, b, position) == slots
  {
  }

  /** An accepted button at or past the end is appended: one more slot, the earlier ones untouched. */
  lemma InsertAppends(slots: seq<Button>, b: Button, position: nat)
    requires !IsReserved(b.key) && |slots| <= position
    ensures InsertSpec(slots, Some(b), position) == slots + [b]
  {
  }

  /**
   * An accepted button before the end replaces exactly that slot unless the
   * slot is reserved. An unbound button is accepted, so it clears the slot.
   */
  lemma InsertOverwrites(slots: seq<Button>, b: Button, position: nat)
    requires !IsReserved(b.key) && position < |slots|
    ensures IsReserved(slots[position].key) ==> InsertSpec(slots, Some(b), position) == slots
    ensures !IsReserved(slots[position].key) ==> InsertSpec(slots, Some(b), position) == slots[position := b]
  {
  }

  /** One `InsertKey(ia, button, position)` call. */
  datatype Insertion = Insertion(button: Option<Button>, position: nat)

  function InsertAll(slots: seq<Button>, ops: seq<Insertion>): seq<Button>
    decreases |ops|
  {
    if ops == [] then slots
    else InsertAll(InsertSpec(slots, ops[0].button, ops[0].position), ops[1..])
  }

  /**
   * Through any sequence of `InsertKey` calls the list never shrinks, every
   * slot holding Enter or Escape keeps its button at its index, and no other
   * slot ever comes to hold Enter or Escape.
   */
  lemma {:induction false} ReservedSlotsPinned(slots: seq<Button>, ops: seq<Insertion>)
    decreases |ops|
    ensures |InsertAll(slots, ops)| >= |slots|
    ensures forall i :: 0 <= i < |slots| && IsReserved(slots[i].key) ==> InsertAll(slots, ops)[i] == slots[i]
    ensures forall i :: 0 <= i < |InsertAll(slots, ops)| ==>
      (IsReserved(InsertAll(slots, ops)[i].key) <==> i < |slots| && IsReserved(slots[i].key))
  {
    if ops != [] {
      var next := InsertSpec(slots, ops[0].button, ops[0].position);
      ReservedSlotsPinned(next, ops[1..]);
    }
  }

  /** The action query over a slot list: some button in it answers `q`. */
  predicate AnyActive(bs: seq<Button>, q: IS.Query, f: IS.Frame)
  {
    exists i :: 0 <= i < |bs| && bs[i].Is(q, f)
  }

  /** OR semantics: an empty list is never active, and adding a button adds exactly that button's answer. */
  lemma AnyActiveAppend(bs: seq<Button>, b: Button, q: IS.Query, f: IS.Frame)
    ensures !AnyActive([], q, f)
    ensures AnyActive(bs + [b], q, f) <==> AnyActive(bs, q, f) || b.Is(q, f)
  {
    if AnyActive(bs, q, f) {
      var i :| 0 <= i < |bs| && bs[i].Is(q, f);
      assert (bs + [b])[i] == bs[i];
    }
    assert (bs + [b])[|bs|] == b;
  }

  /** The text shown for slot `i`: the button's display string, or the empty marker past the end. */
  function SlotLabel(bs: seq<Button>, i: nat): (r: string)
    ensures r == "<EMPTY>" <==> i >= |bs| || !bs[i].IsBound()
    ensures i < |bs| ==> r == bs[i].ToString()
  {
    if |bs| > i then bs[i].ToString() else "<EMPTY>"
  }
}
