/**
 * The keyboard key identifiers (the `Keys` enumeration of the input
 * framework) as a finite name table. `None` is the "no key" value; `Enter`
 * and `Escape` are the keys the binding table reserves; `Back` (backspace)
 * clears a slot on the rebinding screen.
 */
module Keys {
  import opened Wrappers
  import opened Text

  datatype Key =
    | None | Back | Tab | Enter | Escape | Space
    | Left | Up | Right | Down
    | A | D | E | Q | S | W

  /** `Keys.ToString()`: the enumeration member's name. */
  function KeyName(k: Key): string
  {
    match k
    case None => "None"
    case Back => "Back"
    case Tab => "Tab"
    case Enter => "Enter"
    case Escape => "Escape"
    case Space => "Space"
    case Left => "Left"
    case Up => "Up"
    case Right => "Right"
    case Down => "Down"
    case A => "A"
    case D => "D"
    case E => "E"
    case Q => "Q"
    case S => "S"
    case W => "W"
  }

  /** The upper-cased name, the form a case-insensitive comparison sees. */
  function UpperName(k: Key): (r: string)
    ensures r == Upper(KeyName(k))
  {
    match k
    case None => "NONE"
    case Back => "BACK"
    case Tab => "TAB"
    case Enter => "ENTER"
    case Escape => "ESCAPE"
    case Space => "SPACE"
    case Left => "LEFT"
    case Up => "UP"
    case Right => "RIGHT"
    case Down => "DOWN"
    case A => "A"
    case D => "D"
    case E => "E"
    case Q => "Q"
    case S => "S"
    case W => "W"
  }

  /**
   * `Enum.Parse(typeof(Keys), s, ignoreCase: true)`: the key whose name
   * equals `s` up to case, or `None` where the framework throws
   * `ArgumentException` (no such name, including the empty string).
   */
  function ParseKey(s: string): (r: Option<Key>)
    ensures r.Some? ==> UpperName(r.value) == Upper(s)
    ensures r.None? ==> forall k: Key :: UpperName(k) != Upper(s)
  {
    LookUpName(Upper(s))
  }

  /** The key whose upper-cased name is `u`. */
  function LookUpName(u: string): (r: Option<Key>)
    ensures r.Some? ==> UpperName(r.value) == u
    ensures r.None? ==> forall k: Key :: UpperName(k) != u
  {
    if u == "NONE" then Some(Key.None)
    else if u == "BACK" then Some(Back)
    else if u == "TAB" then Some(Tab)
    else if u == "ENTER" then Some(Enter)
    else if u == "ESCAPE" then Some(Escape)
    else if u == "SPACE" then Some(Space)
    else if u == "LEFT" then Some(Key.Left)
    else if u == "UP" then Some(Up)
    else if u == "RIGHT" then Some(Key.Right)
    else if u == "DOWN" then Some(Down)
    else if u == "A" then Some(A)
    else if u == "D" then Some(D)
    else if u == "E" then Some(E)
    else if u == "Q" then Some(Q)
    else if u == "S" then Some(S)
    else if u == "W" then Some(W)
    else Option.None
  }

  /** Names are told apart up to case, so printing a key and parsing the text back, in any case, yields that key. */
  lemma ParseKeyName(k: Key)
    ensures ParseKey(KeyName(k)) == Some(k)
    ensures ParseKey(UpperName(k)) == Some(k)
  {
    UpperUpper(KeyName(k));
    LookUpUpperName(k);
  }

  lemma LookUpUpperName(k: Key)
    ensures LookUpName(UpperName(k)) == Some(k)
  {
    match k
    case None => assert LookUpName("NONE") == Some(Key.None);
    case Back => assert LookUpName("BACK") == Some(Back);
    case Tab => assert LookUpName("TAB") == Some(Tab);
    case Enter => assert LookUpName("ENTER") == Some(Enter);
    case Escape => assert LookUpName("ESCAPE") == Some(Escape);
    case Space => assert LookUpName("SPACE") == Some(Space);
    case Left => assert LookUpName("LEFT") == Some(Key.Left);
    case Up => assert LookUpName("UP") == Some(Up);
    case Right => assert LookUpName("RIGHT") == Some(Key.Right);
    case Down => assert LookUpName("DOWN") == Some(Down);
    case A => assert LookUpName("A") == Some(A);
    case D => assert LookUpName("D") == Some(D);
    case E => assert LookUpName("E") == Some(E);
    case Q => assert LookUpName("Q") == Some(Q);
    case S => assert LookUpName("S") == Some(S);
    case W => assert LookUpName("W") == Some(W);
  }

  /** Upper-cased names tell the keys apart: each one looks up its own key. */
  lemma UpperNamesDistinct()
    ensures forall k :: LookUpName(UpperName(k)) == Some(k)
  {
    forall k {
      LookUpUpperName(k);
    }
  }

  /** Every key name is a token (non-empty, without white space, `:` or `,`, not starting with `/`), so it survives a configuration line. */
  lemma KeyNameIsToken(k: Key)
    ensures IsToken(KeyName(k))
    ensures KeyName(k) != "<EMPTY>"
  {
  }
}
