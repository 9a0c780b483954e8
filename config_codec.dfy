/**
 * The configuration file format of the binding table. A file is a sequence
 * of lines. Lines starting with `//` are comments. A binding line reads
 * `action: button, button, ...`: white space anywhere is ignored, and action
 * and button names are matched without regard to case. Saving writes the
 * leading comment block back, then one `Action:\tName,\tName` line per action.
 */
module ConfigCodec {
  import K = Keys
  import IS = InputState
  import opened Wrappers
  import opened Text
  import opened Buttons
  import opened Bindings

  /** The two files the codec uses: `config.txt` and `defaultconfig.txt`; `None` when the file does not exist. */
  datatype Files = Files(config: Option<seq<string>>, defaultConfig: Option<seq<string>>)

  /** The lines `CreateDefaultConfigFiles` writes. */
  const DefaultConfig: seq<string> := [
    "//" + "Autogenerated, might be missing some things",
    "Up:Up,W",
    "down:Down,S",
    "left:Left,A",
    "right:Right,D",
    "back:escape",
    "accept:enter"
  ]

  /** `CreateDefaultConfigFiles`: write the default file and copy it over the configuration. */
  function CreateDefaultConfigFiles(fs: Files): (r: Files)
    ensures r.config.Some? && r.config == r.defaultConfig
  {
    Files(Some(DefaultConfig), Some(DefaultConfig))
  }

  /**
   * `ValidateConfigFiles`: afterwards a configuration exists. An existing one
   * is never touched; a missing one is copied from the default file, and
   * that is first created when it is missing too.
   */
  function ValidateConfigFiles(fs: Files): (r: Files)
    ensures r.config.Some?
    ensures fs.config.Some? ==> r == fs
    ensures fs.config.None? && fs.defaultConfig.Some? ==> r.config == fs.defaultConfig == r.defaultConfig
    ensures fs.config.None? && fs.defaultConfig.None? ==> r.config == r.defaultConfig == Some(DefaultConfig)
  {
    if fs.config.None? then
      if fs.defaultConfig.Some? then fs.(config := fs.defaultConfig)
      else CreateDefaultConfigFiles(fs)
    else fs
  }

  /** Validating twice is validating once. */
  lemma ValidateIdempotent(fs: Files)
    ensures ValidateConfigFiles(ValidateConfigFiles(fs)) == ValidateConfigFiles(fs)
  {
  }

  predicate IsComment(line: string)
  {
    StartsWith(line, "//")
  }

  /** A line beginning with two slashes is a comment. */
  lemma CommentByFirstChars(line: string)
    requires |line| >= 2 && line[0] == '/' && line[1] == '/'
    ensures IsComment(line)
  {
    assert line[..2] == "//";
  }

  /** The lines `ConfigureKeys` reads: not a comment, and holding a `:`. */
  predicate IsBindingLine(line: string)
  {
    !IsComment(line) && ':' in line
  }

  /** The text before the first `:`, white space removed, upper-cased. */
  function LineAction(line: string): string
    requires ':' in line
  {
    Upper(StripWhiteSpace(Split(line, ':')[0]))
  }

  /** The text between the first and second `:`, white space removed, upper-cased, split on `,`. */
  function LineTokens(line: string): (r: seq<string>)
    requires ':' in line
    ensures |r| >= 1
  {
    Split(Upper(StripWhiteSpace(Split(line, ':')[1])), ',')
  }

  /** The upper-case token that names mouse button `mb`; `None` has none. */
  function MouseToken(mb: IS.MouseButton): string
  {
    match mb
    case Left => "LEFTMOUSE"
    case Middle => "MIDDLEMOUSE"
    case Right => "RIGHTMOUSE"
    case Side1 => "SIDE1MOUSE"
    case Side2 => "SIDE2MOUSE"
    case None => ""
  }

  /** The mouse button a (case-sensitive) token names; `None` when it names none. */
  function MouseFromToken(val: string): (mb: IS.MouseButton)
    ensures mb != IS.MouseButton.None ==> val == MouseToken(mb) && |val| >= 9
  {
    if val == "LEFTMOUSE" then IS.MouseButton.Left
    else if val == "MIDDLEMOUSE" then IS.MouseButton.Middle
    else if val == "RIGHTMOUSE" then IS.MouseButton.Right
    else if val == "SIDE1MOUSE" then IS.MouseButton.Side1
    else if val == "SIDE2MOUSE" then IS.MouseButton.Side2
    else IS.MouseButton.None
  }

  /** Each mouse token is recognised as its own button. */
  lemma MouseTokenRecognised(mb: IS.MouseButton)
    requires mb != IS.MouseButton.None
    ensures MouseFromToken(MouseToken(mb)) == mb
  {
  }

  /**
   * `CreateButtonFromText`: a mouse token gives that mouse button; otherwise
   * a key name, in any case, gives that key; anything else gives the unbound
   * button. The result always names what the text names.
   */
  function CreateButtonFromText(val: string): (b: Button)
    ensures b.WellFormed()
    ensures b.key != K.Key.None ==> K.ParseKey(val) == Some(b.key)
    ensures forall mb :: b.Flag(mb) ==> val == MouseToken(mb)
    ensures MouseFromToken(val) != IS.MouseButton.None ==> b == FromMouse(MouseFromToken(val))
    ensures forall k :: MouseFromToken(val) == IS.MouseButton.None && K.UpperName(k) == Upper(val) ==> b == FromKey(k)
    ensures MouseFromToken(val) == IS.MouseButton.None && K.ParseKey(val).None? ==> !b.IsBound()
  {
    K.UpperNamesDistinct();
    var mb := MouseFromToken(val);
    if mb != IS.MouseButton.None then FromMouse(mb)
    else
      match K.ParseKey(val)
      case Some(k) => FromKey(k)
      case None => FromKey(K.Key.None)
  }

  /** `AddButton`: append the token's button to the named action, when the button is bound and the action exists. */
  function AddButton(t: Table, action: string, token: string): (r: Table)
    requires IsTable(t)
    ensures IsTable(r)
    ensures ParseAction(action).None? ==> r == t
    ensures forall a :: ParseAction(action) != Some(a) ==> r[a] == t[a]
    ensures forall a :: (r[a] == t[a]
      || (ParseAction(action) == Some(a) && r[a] == t[a] + [CreateButtonFromText(token)] && CreateButtonFromText(token).IsBound()))
    ensures ParseAction(action).Some? && CreateButtonFromText(token).IsBound() ==>
      r == t[ParseAction(action).value := t[ParseAction(action).value] + [CreateButtonFromText(token)]]
  {
    var b := CreateButtonFromText(token);
    if b.IsBound() && ParseAction(action).Some? then
      var a := ParseAction(action).value;
      t[a := t[a] + [b]]
    else t
  }

  function AddTokens(t: Table, action: string, tokens: seq<string>): (r: Table)
    requires IsTable(t)
    ensures IsTable(r)
    decreases |tokens|
  {
    if tokens == [] then t
    else AddTokens(AddButton(t, action, tokens[0]), action, tokens[1..])
  }

  /** What `ConfigureKeys` does with one line. */
  function LoadLine(t: Table, line: string): (r: Table)
    requires IsTable(t)
    ensures IsTable(r)
  {
    if IsBindingLine(line) then AddTokens(t, LineAction(line), LineTokens(line)) else t
  }

  /** What `ConfigureKeys` does with the configuration's lines: each binding line, in order, adds to the table. */
  function LoadLines(t: Table, lines: seq<string>): (r: Table)
    requires IsTable(t)
    ensures IsTable(r)
    decreases |lines|
  {
    if lines == [] then t
    else LoadLines(LoadLine(t, lines[0]), lines[1..])
  }

  /** Loading only ever appends to a list, and only buttons that are bound and well formed. */
  predicate Extends(t: Table, r: Table)
    requires IsTable(t) && IsTable(r)
  {
    forall a :: t[a] <= r[a]
      && forall i :: |t[a]| <= i < |r[a]| ==> r[a][i].IsBound() && r[a][i].WellFormed()
  }

  lemma {:induction false} AddTokensExtends(t: Table, action: string, tokens: seq<string>)
    requires IsTable(t)
    ensures Extends(t, AddTokens(t, action, tokens))
    decreases |tokens|
  {
    if tokens != [] {
      var t1 := AddButton(t, action, tokens[0]);
      AddTokensExtends(t1, action, tokens[1..]);
      var r := AddTokens(t1, action, tokens[1..]);
      forall a
        ensures t[a] <= r[a]
        ensures forall i :: |t[a]| <= i < |r[a]| ==> r[a][i].IsBound() && r[a][i].WellFormed()
      {
        assert t[a] <= t1[a] <= r[a];
        forall i | |t[a]| <= i < |r[a]|
          ensures r[a][i].IsBound() && r[a][i].WellFormed()
        {
          if i < |t1[a]| {
            assert r[a][i] == t1[a][i];
          }
        }
      }
    }
  }

  /**
   * Whatever the lines say, loading keeps every button already in the table,
   * at its index, and adds only bound, well-formed buttons after them.
   */
  lemma {:induction false} LoadLinesExtends(t: Table, lines: seq<string>)
    requires IsTable(t)
    ensures Extends(t, LoadLines(t, lines))
    decreases |lines|
  {
    if lines != [] {
      var t1 := LoadLine(t, lines[0]);
      if IsBindingLine(lines[0]) {
        AddTokensExtends(t, LineAction(lines[0]), LineTokens(lines[0]));
      }
      LoadLinesExtends(t1, lines[1..]);
      var r := LoadLines(t1, lines[1..]);
      forall a
        ensures t[a] <= r[a]
        ensures forall i :: |t[a]| <= i < |r[a]| ==> r[a][i].IsBound() && r[a][i].WellFormed()
      {
        assert t[a] <= t1[a] <= r[a];
        forall i | |t[a]| <= i < |r[a]|
          ensures r[a][i].IsBound() && r[a][i].WellFormed()
        {
          if i < |t1[a]| {
            assert r[a][i] == t1[a][i];
          }
        }
      }
    }
  }

  /** Loading two blocks of lines is loading the first and then the second. */
  lemma {:induction false} LoadLinesConcat(t: Table, a: seq<string>, b: seq<string>)
    requires IsTable(t)
    ensures LoadLines(t, a + b) == LoadLines(LoadLines(t, a), b)
    decreases |a|
  {
    if a == [] {
      assert a + b == b;
    } else {
      assert (a + b)[0] == a[0] && (a + b)[1..] == a[1..] + b;
      LoadLinesConcat(LoadLine(t, a[0]), a[1..], b);
    }
  }

  /** The bound buttons of a list, in order. */
  function BoundButtons(bs: seq<Button>): (r: seq<Button>)
    ensures |r| <= |bs|
    ensures forall i :: 0 <= i < |r| ==> r[i].IsBound()
    ensures forall b :: b in r <==> b in bs && b.IsBound()
  {
    if bs == [] then []
    else
      var last := bs[|bs| - 1];
      BoundButtons(bs[..|bs| - 1]) + (if last.IsBound() then [last] else [])
  }

  /** Each bound button occurs as often as in the list; an unbound one not at all. */
  lemma {:induction false} BoundButtonsCount(bs: seq<Button>)
    ensures forall b :: multiset(BoundButtons(bs))[b] == if b.IsBound() then multiset(bs)[b] else 0
    decreases |bs|
  {
    if bs != [] {
      var init := bs[..|bs| - 1];
      assert bs == init + [bs[|bs| - 1]];
      BoundButtonsCount(init);
    }
  }

  /** Filtering keeps the order: the bound buttons of two lists are those of the first, then those of the second. */
  lemma {:induction false} BoundButtonsConcat(a: seq<Button>, b: seq<Button>)
    ensures BoundButtons(a + b) == BoundButtons(a) + BoundButtons(b)
    decreases |b|
  {
    if b == [] {
      assert a + b == a;
    } else {
      var b0 := b[..|b| - 1];
      assert (a + b)[..|a + b| - 1] == a + b0;
      BoundButtonsConcat(a, b0);
    }
  }

  function Names(bs: seq<Button>): (r: seq<string>)
    ensures |r| == |bs|
  {
    seq(|bs|, i requires 0 <= i < |bs| => bs[i].ToString())
  }

  /** The text after `Action:\t` on a saved line: the bound buttons' names, separated by `,\t`. */
  function BindingText(bs: seq<Button>): string
  {
    Join(Names(BoundButtons(bs)), ",\t")
  }

  /** One saved line: the name, `:` and a tab, then the binding text. */
  function ActionLine(name: string, bs: seq<Button>): string
  {
    name + ":\t" + BindingText(bs)
  }

  function ActionLines(t: Table, acts: seq<InputAction>): (r: seq<string>)
    requires IsTable(t)
    ensures |r| == |acts|
  {
    if acts == [] then []
    else [ActionLine(ActionName(acts[0]), t[acts[0]])] + ActionLines(t, acts[1..])
  }

  /** `AppendCommentsFromConfigFile`: the longest run of comment lines at the head of the file. */
  function CommentBlock(lines: seq<string>): (r: seq<string>)
    ensures r <= lines
    ensures forall i :: 0 <= i < |r| ==> IsComment(r[i])
    ensures |r| < |lines| ==> !IsComment(lines[|r|])
  {
    if lines == [] || !IsComment(lines[0]) then []
    else [lines[0]] + CommentBlock(lines[1..])
  }

  /** The lines `SaveConfig` writes: the leading comments of the existing configuration, then one line per action. */
  function SaveLines(t: Table, config: Option<seq<string>>): (r: seq<string>)
    requires IsTable(t)
    ensures |r| >= |AllActions|
  {
    (if config.Some? then CommentBlock(config.value) else []) + ActionLines(t, AllActions)
  }

  /** `SaveConfig` on the files: the configuration is replaced; the default file is untouched. */
  function SaveConfig(t: Table, fs: Files): (r: Files)
    requires IsTable(t)
    ensures r.defaultConfig == fs.defaultConfig && r.config.Some?
  {
    fs.(config := Some(SaveLines(t, fs.config)))
  }

  /** Saving keeps the comment block of the existing configuration, and a second save keeps it again. */
  lemma CommentsPreserved(t: Table, lines: seq<string>)
    requires IsTable(t)
    ensures CommentBlock(SaveLines(t, Some(lines))) == CommentBlock(lines)
  {
    var c := CommentBlock(lines);
    var rest := ActionLines(t, AllActions);
    assert rest[0] == ActionLine("Up", t[Up]);
    assert rest[0][0] == 'U';
    CommentBlockPrefix(c, rest);
  }

  lemma {:induction false} CommentBlockPrefix(c: seq<string>, rest: seq<string>)
    requires forall i :: 0 <= i < |c| ==> IsComment(c[i])
    requires rest != [] ==> !IsComment(rest[0])
    ensures CommentBlock(c + rest) == c
  {
    if c == [] {
      assert c + rest == rest;
    } else {
      assert (c + rest)[0] == c[0] && (c + rest)[1..] == c[1..] + rest;
      CommentBlockPrefix(c[1..], rest);
    }
  }
}
