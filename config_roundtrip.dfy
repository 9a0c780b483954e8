/**
 * What the configuration format guarantees: a table saved by `SaveConfig`
 * and read back by `ConfigureKeys` into a fresh table is the saved table
 * with its unbound buttons dropped, and saving it again writes the same file.
 */
module ConfigRoundTrip {
  import K = Keys
  import IS = InputState
  import opened Wrappers
  import opened Text
  import opened Buttons
  import opened Bindings
  import opened ConfigCodec

  /** Every button in the table was built by one of the two `Button` constructors. */
  predicate WellFormedTable(t: Table)
  {
    IsTable(t) && forall a, b :: b in t[a] ==> b.WellFormed()
  }

  /** The table with every unbound button dropped from every list. */
  function BoundOnly(t: Table): (r: Table)
    requires IsTable(t)
    ensures IsTable(r)
    ensures forall a :: r[a] == BoundButtons(t[a])
  {
    AllActionsComplete();
    map a | a in AllActions :: BoundButtons(t[a])
  }

  lemma UpperNameShort(k: K.Key)
    ensures |K.UpperName(k)| <= 6
  {
  }

  /** A bound button's display name is a clean token: non-empty, without white space, `:` or `,`. */
  lemma ButtonNameIsToken(b: Button)
    requires b.IsBound() && b.WellFormed()
    ensures |b.ToString()| > 0 && NoWhiteSpace(b.ToString())
    ensures ':' !in b.ToString() && ',' !in b.ToString()
  {
    K.KeyNameIsToken(b.key);
  }

  /** A key's upper-cased name builds the key's button. */
  lemma KeyTextRoundTrip(k: K.Key)
    requires k != K.Key.None
    ensures CreateButtonFromText(K.UpperName(k)) == FromKey(k)
  {
    UpperNameShort(k);
    assert MouseFromToken(K.UpperName(k)) == IS.MouseButton.None;
    K.ParseKeyName(k);
  }

  /** A mouse button's display name, upper-cased, is its token. */
  lemma MouseNameUpper(mb: IS.MouseButton)
    requires mb != IS.MouseButton.None
    ensures Upper(FromMouse(mb).ToString()) == MouseToken(mb)
  {
    match mb
    case Left => assert Upper("LeftMouse") == "LEFTMOUSE";
    case Right => assert Upper("RightMouse") == "RIGHTMOUSE";
    case Middle => assert Upper("MiddleMouse") == "MIDDLEMOUSE";
    case Side1 => assert Upper("Side1Mouse") == "SIDE1MOUSE";
    case Side2 => assert Upper("Side2Mouse") == "SIDE2MOUSE";
  }

  /** A mouse button's upper-cased display name builds that mouse button's button. */
  lemma MouseTextRoundTrip(mb: IS.MouseButton)
    requires mb != IS.MouseButton.None
    ensures CreateButtonFromText(Upper(FromMouse(mb).ToString())) == FromMouse(mb)
  {
    MouseNameUpper(mb);
    MouseTokenRecognised(mb);
  }

  /** The saved name of a bound button, upper-cased as the loader does, builds that same button. */
  lemma ButtonTextRoundTrip(b: Button)
    requires b.IsBound() && b.WellFormed()
    ensures CreateButtonFromText(Upper(b.ToString())) == b
  {
    if b.key != K.Key.None {
      KeyTextRoundTrip(b.key);
    } else {
      var mb := if b.left then IS.MouseButton.Left else if b.right then IS.MouseButton.Right
        else if b.middle then IS.MouseButton.Middle else if b.side1 then IS.MouseButton.Side1 else IS.MouseButton.Side2;
      assert b == FromMouse(mb);
      MouseTextRoundTrip(mb);
    }
  }

  lemma UpdateSame(t: Table, a: InputAction)
    requires a in t
    ensures t[a := t[a]] == t
  {
  }

  /** Reading back one bound button's upper-cased name under its action's upper-cased name appends that button. */
  lemma AddSavedButton(t: Table, a: InputAction, b: Button)
    requires IsTable(t)
    requires b.IsBound() && b.WellFormed()
    ensures AddButton(t, Upper(ActionName(a)), Upper(b.ToString())) == t[a := t[a] + [b]]
  {
    ButtonTextRoundTrip(b);
    ParseActionName(a);
  }

  /** Reading back the upper-cased names of bound buttons, token by token, appends exactly those buttons to the action. */
  lemma {:induction false} AddSavedTokensAt(t: Table, a: InputAction, xs: seq<Button>, toks: seq<string>)
    requires IsTable(t)
    requires |toks| == |xs|
    requires forall i :: 0 <= i < |xs| ==> xs[i].IsBound() && xs[i].WellFormed() && toks[i] == Upper(xs[i].ToString())
    ensures AddTokens(t, Upper(ActionName(a)), toks) == t[a := t[a] + xs]
    decreases |xs|
  {
    if xs == [] {
      assert t[a] + xs == t[a];
      UpdateSame(t, a);
    } else {
      var b := xs[0];
      AddSavedButton(t, a, b);
      var t1 := t[a := t[a] + [b]];
      AddSavedTokensAt(t1, a, xs[1..], toks[1..]);
      AppendHeadTail(t[a], xs);
      UpdateTwice(t, a, t[a] + [b], t[a] + xs);
    }
  }

  /** Reading back the upper-cased names of bound buttons appends exactly those buttons to the action. */
  lemma AddSavedTokens(t: Table, a: InputAction, xs: seq<Button>)
    requires IsTable(t)
    requires forall b :: b in xs ==> b.IsBound() && b.WellFormed()
    ensures AddTokens(t, Upper(ActionName(a)), UpperAll(Names(xs))) == t[a := t[a] + xs]
  {
    AddSavedTokensAt(t, a, xs, UpperAll(Names(xs)));
  }

  /** The line `name:` + `rest` is a binding line whose action is `name`, upper-cased, and whose tokens come from `rest`. */
  lemma ParseBindingLine(name: string, rest: string)
    requires |name| > 0 && name[0] != '/' && NoWhiteSpace(name) && ':' !in name
    requires ':' !in rest
    ensures ':' in name + ":" + rest
    ensures IsBindingLine(name + ":" + rest)
    ensures LineAction(name + ":" + rest) == Upper(name)
    ensures LineTokens(name + ":" + rest) == Split(Upper(StripWhiteSpace(rest)), ',')
  {
    var line := name + ":" + rest;
    assert line == name + [':'] + rest;
    SplitAt(name, rest, ':');
    SplitFree(name, ':');
    SplitFree(rest, ':');
    assert Split(line, ':') == [name, rest];
    assert line[0] == name[0] && line[|name|] == ':';
    StripClean(name);
  }

  /** The tokens read back from a `,\t`-joined list of clean names are the upper-cased names; no names give one empty token. */
  lemma SavedTokens(ns: seq<string>)
    requires forall i :: 0 <= i < |ns| ==> ',' !in ns[i] && NoWhiteSpace(ns[i])
    ensures ns == [] ==> Split(Upper(StripWhiteSpace(Join(ns, ",\t"))), ',') == [""]
    ensures ns != [] ==> Split(Upper(StripWhiteSpace(Join(ns, ",\t"))), ',') == UpperAll(ns)
  {
    if ns != [] {
      StripJoin(ns);
      UpperJoin(ns);
      forall i | 0 <= i < |ns|
        ensures ',' !in UpperAll(ns)[i]
      {
        UpperKeeps(ns[i], ',');
      }
      SplitJoin(UpperAll(ns), ',');
    }
  }

  /**
   * What the loader reads from a saved line `name:\tb1,\tb2…`: a binding
   * line whose action is the upper-cased name and whose tokens are the
   * upper-cased names of the bound buttons, or one empty token when none is bound.
   */
  lemma ReadSavedLine(name: string, bs: seq<Button>)
    requires IsToken(name)
    requires forall b :: b in bs ==> b.WellFormed()
    ensures IsBindingLine(ActionLine(name, bs))
    ensures LineAction(ActionLine(name, bs)) == Upper(name)
    ensures BoundButtons(bs) == [] ==> LineTokens(ActionLine(name, bs)) == [""]
    ensures BoundButtons(bs) != [] ==> LineTokens(ActionLine(name, bs)) == UpperAll(Names(BoundButtons(bs)))
  {
    var xs := BoundButtons(bs);
    var ns := Names(xs);
    var j := Join(ns, ",\t");
    forall i | 0 <= i < |ns|
      ensures ':' !in ns[i] && ',' !in ns[i] && NoWhiteSpace(ns[i])
    {
      ButtonNameIsToken(xs[i]);
    }
    JoinFree(ns, ",\t", ':');
    assert ActionLine(name, bs) == name + ":" + ("\t" + j);
    ParseBindingLine(name, "\t" + j);
    assert ("\t" + j)[0] == '\t' && ("\t" + j)[1..] == j;
    assert StripWhiteSpace("\t" + j) == StripWhiteSpace(j);
    SavedTokens(ns);
  }

  /** The empty token names no button, so it adds nothing. */
  lemma EmptyTokenIgnored(t: Table, action: string)
    requires IsTable(t)
    ensures AddTokens(t, action, [""]) == t
  {
    assert K.ParseKey("") == Option.None;
    assert AddButton(t, action, "") == t;
  }

  /** Loading one saved action line appends that action's bound buttons, and changes no other action. */
  lemma LoadActionLine(t: Table, a: InputAction, bs: seq<Button>)
    requires IsTable(t)
    requires forall b :: b in bs ==> b.WellFormed()
    ensures LoadLine(t, ActionLine(ActionName(a), bs)) == t[a := t[a] + BoundButtons(bs)]
  {
    var name := ActionName(a);
    var xs := BoundButtons(bs);
    var ns := Names(xs);
    var j := Join(ns, ",\t");
    ActionNameIsToken(a);
    forall i | 0 <= i < |ns|
      ensures ':' !in ns[i] && ',' !in ns[i] && NoWhiteSpace(ns[i])
    {
      ButtonNameIsToken(xs[i]);
    }
    JoinFree(ns, ",\t", ':');
    assert ActionLine(name, bs) == name + ":" + ("\t" + j);
    ParseBindingLine(name, "\t" + j);
    assert ("\t" + j)[0] == '\t' && ("\t" + j)[1..] == j;
    assert StripWhiteSpace("\t" + j) == StripWhiteSpace(j);
    SavedTokens(ns);
    AddBoundTokens(t, a, xs);
  }

  /** The tokens a saved list of bound buttons reads back as (one empty token when there are none) append exactly those buttons. */
  lemma AddBoundTokens(t: Table, a: InputAction, xs: seq<Button>)
    requires IsTable(t)
    requires forall b :: b in xs ==> b.IsBound() && b.WellFormed()
    ensures AddTokens(t, Upper(ActionName(a)), if xs == [] then [""] else UpperAll(Names(xs))) == t[a := t[a] + xs]
  {
    if xs == [] {
      EmptyTokenIgnored(t, Upper(ActionName(a)));
      assert t[a] + xs == t[a];
      UpdateSame(t, a);
    } else {
      AddSavedTokens(t, a, xs);
    }
  }

  predicate Distinct(acts: seq<InputAction>)
  {
    forall i, j :: 0 <= i < j < |acts| ==> acts[i] != acts[j]
  }

  /** Loading the saved lines of distinct actions appends each one's bound buttons to its list. */
  lemma {:induction false} LoadActionLines(t0: Table, t: Table, acts: seq<InputAction>)
    requires IsTable(t0) && WellFormedTable(t) && Distinct(acts)
    ensures forall a :: (LoadLines(t0, ActionLines(t, acts))[a]
      == if a in acts then t0[a] + BoundButtons(t[a]) else t0[a])
    decreases |acts|
  {
    if acts != [] {
      var a0 := acts[0];
      var lines := ActionLines(t, acts);
      LoadActionLine(t0, a0, t[a0]);
      var t1 := t0[a0 := t0[a0] + BoundButtons(t[a0])];
      assert lines[0] == ActionLine(ActionName(a0), t[a0]) && lines[1..] == ActionLines(t, acts[1..]);
      assert LoadLines(t0, lines) == LoadLines(t1, ActionLines(t, acts[1..]));
      assert Distinct(acts[1..]) by {
        forall i, j | 0 <= i < j < |acts[1..]|
          ensures acts[1..][i] != acts[1..][j]
        {
          assert acts[1..][i] == acts[i + 1] && acts[1..][j] == acts[j + 1];
        }
      }
      LoadActionLines(t1, t, acts[1..]);
      forall a
        ensures LoadLines(t0, lines)[a] == if a in acts then t0[a] + BoundButtons(t[a]) else t0[a]
      {
        if a != a0 {
          assert a in acts <==> a in acts[1..] by {
            if a in acts {
              var j :| 0 <= j < |acts| && acts[j] == a;
              assert acts[1..][j - 1] == a;
            }
          }
        }
      }
    }
  }

  /** Comment lines are skipped by the loader. */
  lemma {:induction false} LoadComments(t: Table, c: seq<string>)
    requires IsTable(t)
    requires forall i :: 0 <= i < |c| ==> IsComment(c[i])
    ensures LoadLines(t, c) == t
    decreases |c|
  {
    if c != [] {
      LoadComments(t, c[1..]);
    }
  }

  lemma AllActionsDistinct()
    ensures Distinct(AllActions)
  {
  }

  /** Loading comment lines followed by the saved lines of a complete list of distinct actions, into a fresh table, gives the bound buttons of every action. */
  lemma LoadSavedLines(t: Table, c: seq<string>, acts: seq<InputAction>)
    requires WellFormedTable(t)
    requires forall i :: 0 <= i < |c| ==> IsComment(c[i])
    requires Distinct(acts) && forall a: InputAction :: a in acts
    ensures LoadLines(EmptyTable(), c + ActionLines(t, acts)) == BoundOnly(t)
  {
    var e := EmptyTable();
    var al := ActionLines(t, acts);
    LoadLinesConcat(e, c, al);
    LoadComments(e, c);
    LoadActionLines(e, t, acts);
    var r := LoadLines(e, al);
    var bo := BoundOnly(t);
    forall a
      ensures r[a] == bo[a]
    {
      assert e[a] + BoundButtons(t[a]) == BoundButtons(t[a]);
    }
    TableExt(r, bo);
  }

  /**
   * Save then load: reading the saved configuration into a fresh table gives
   * back every bound button of every action, in order, whatever comments
   * the old configuration began with. Unbound buttons are not saved.
   */
  lemma SaveLoadRoundTrip(t: Table, fs: Files)
    requires WellFormedTable(t)
    ensures ValidateConfigFiles(SaveConfig(t, fs)) == SaveConfig(t, fs)
    ensures LoadLines(EmptyTable(), SaveConfig(t, fs).config.value) == BoundOnly(t)
  {
    var c := if fs.config.Some? then CommentBlock(fs.config.value) else [];
    assert SaveConfig(t, fs).config.value == c + ActionLines(t, AllActions);
    AllActionsComplete();
    AllActionsDistinct();
    LoadSavedLines(t, c, AllActions);
  }

  lemma {:induction false} BoundButtonsSnoc(xs: seq<Button>, x: Button)
    ensures BoundButtons(xs + [x]) == BoundButtons(xs) + (if x.IsBound() then [x] else [])
  {
    assert (xs + [x])[..|xs|] == xs;
  }

  /** Dropping unbound buttons twice drops nothing more. */
  lemma {:induction false} BoundButtonsIdempotent(bs: seq<Button>)
    ensures BoundButtons(BoundButtons(bs)) == BoundButtons(bs)
    decreases |bs|
  {
    if bs != [] {
      var init := bs[..|bs| - 1];
      var last := bs[|bs| - 1];
      BoundButtonsIdempotent(init);
      if last.IsBound() {
        assert BoundButtons(bs) == BoundButtons(init) + [last];
        BoundButtonsSnoc(BoundButtons(init), last);
      } else {
        assert BoundButtons(bs) == BoundButtons(init) + [];
        assert BoundButtons(init) + [] == BoundButtons(init);
      }
    }
  }

  lemma {:induction false} ActionLinesBoundOnly(t: Table, acts: seq<InputAction>)
    requires IsTable(t)
    ensures ActionLines(BoundOnly(t), acts) == ActionLines(t, acts)
    decreases |acts|
  {
    if acts != [] {
      BoundButtonsIdempotent(t[acts[0]]);
      ActionLinesBoundOnly(t, acts[1..]);
    }
  }

  /** Save, load, save: the second save writes exactly the file the first one wrote. */
  lemma ResaveIsIdentity(t: Table, fs: Files)
    requires WellFormedTable(t)
    ensures SaveConfig(LoadLines(EmptyTable(), SaveConfig(t, fs).config.value), SaveConfig(t, fs)) == SaveConfig(t, fs)
  {
    SaveLoadRoundTrip(t, fs);
    var saved := SaveConfig(t, fs).config.value;
    CommentsPreserved(t, saved);
    var c := if fs.config.Some? then CommentBlock(fs.config.value) else [];
    assert saved == c + ActionLines(t, AllActions);
    CommentBlockPrefix(c, ActionLines(t, AllActions));
    var rest := ActionLines(t, AllActions);
    assert rest[0] == ActionLine("Up", t[Up]) && rest[0][0] == 'U';
    ActionLinesBoundOnly(t, AllActions);
  }

  /** One key button per key. */
  function KeyButtons(ks: seq<K.Key>): (r: seq<Button>)
    ensures |r| == |ks|
    ensures forall i :: 0 <= i < |ks| ==> r[i] == FromKey(ks[i])
  {
    if ks == [] then [] else [FromKey(ks[0])] + KeyButtons(ks[1..])
  }

  /** The buttons the default configuration gives each action. */
  function DefaultButtons(a: InputAction): seq<Button>
  {
    match a
    case Up => KeyButtons([K.Key.Up, K.Key.W])
    case Down => KeyButtons([K.Key.Down, K.Key.S])
    case Left => KeyButtons([K.Key.Left, K.Key.A])
    case Right => KeyButtons([K.Key.Right, K.Key.D])
    case Back => KeyButtons([K.Key.Escape])
    case Accept => KeyButtons([K.Key.Enter])
  }

  /** The table the default configuration describes. */
  function DefaultBindings(): (t: Table)
    ensures IsTable(t)
    ensures forall a :: t[a] == DefaultButtons(a)
  {
    AllActionsComplete();
    map a | a in AllActions :: DefaultButtons(a)
  }

  /**
   * A line `name:key1,key2` (or `name:key1`) whose name equals an action's
   * name and whose tokens equal keys' names, all up to case, adds those keys
   * to that action.
   */
  lemma LoadKeyLine(t: Table, a: InputAction, name: string, keys: seq<string>, ks: seq<K.Key>)
    requires IsTable(t)
    requires Upper(name) == UpperActionName(a)
    requires |keys| == |ks| && 1 <= |keys| <= 2
    requires forall i :: 0 <= i < |keys| ==> ks[i] != K.Key.None && Upper(keys[i]) == Upper(K.KeyName(ks[i]))
    ensures LoadLine(t, name + ":" + Join(keys, ",")) == t[a := t[a] + KeyButtons(ks)]
  {
    var xs := KeyButtons(ks);
    ActionNameIsToken(a);
    TokenUpper(ActionName(a));
    TokenUpper(name);
    forall i | 0 <= i < |keys|
      ensures IsToken(keys[i])
    {
      K.KeyNameIsToken(ks[i]);
      TokenUpper(K.KeyName(ks[i]));
      TokenUpper(keys[i]);
    }
    JoinTokensClean(keys);
    SplitUpperTokens(keys);
    ParseBindingLine(name, Join(keys, ","));
    assert UpperAll(Names(xs)) == UpperAll(keys);
    AddSavedTokens(t, a, xs);
  }

  /** The default line `Up:Up,W`. */
  lemma DefaultLineUp(t: Table)
    requires IsTable(t)
    ensures LoadLine(t, DefaultConfig[1]) == t[Up := t[Up] + DefaultButtons(Up)]
  {
    assert DefaultConfig[1] == "Up:Up,W" && "Up:Up,W" == "Up" + ":" + Join(["Up", "W"], ",");
    LoadKeyLine(t, Up, "Up", ["Up", "W"], [K.Key.Up, K.Key.W]);
  }

  /** The default line `down:Down,S`. */
  lemma DefaultLineDown(t: Table)
    requires IsTable(t)
    ensures LoadLine(t, DefaultConfig[2]) == t[Down := t[Down] + DefaultButtons(Down)]
  {
    assert DefaultConfig[2] == "down:Down,S" && "down:Down,S" == "down" + ":" + Join(["Down", "S"], ",");
    LoadKeyLine(t, Down, "down", ["Down", "S"], [K.Key.Down, K.Key.S]);
  }

  /** The default line `left:Left,A`. */
  lemma DefaultLineLeft(t: Table)
    requires IsTable(t)
    ensures LoadLine(t, DefaultConfig[3]) == t[Left := t[Left] + DefaultButtons(Left)]
  {
    assert DefaultConfig[3] == "left:Left,A" && "left:Left,A" == "left" + ":" + Join(["Left", "A"], ",");
    LoadKeyLine(t, Left, "left", ["Left", "A"], [K.Key.Left, K.Key.A]);
  }

  /** The default line `right:Right,D`. */
  lemma DefaultLineRight(t: Table)
    requires IsTable(t)
    ensures LoadLine(t, DefaultConfig[4]) == t[Right := t[Right] + DefaultButtons(Right)]
  {
    assert DefaultConfig[4] == "right:Right,D" && "right:Right,D" == "right" + ":" + Join(["Right", "D"], ",");
    LoadKeyLine(t, Right, "right", ["Right", "D"], [K.Key.Right, K.Key.D]);
  }

  /** The default line `back:escape`. */
  lemma DefaultLineBack(t: Table)
    requires IsTable(t)
    ensures LoadLine(t, DefaultConfig[5]) == t[Back := t[Back] + DefaultButtons(Back)]
  {
    assert DefaultConfig[5] == "back:escape" && "back:escape" == "back" + ":" + Join(["escape"], ",");
    LoadKeyLine(t, Back, "back", ["escape"], [K.Key.Escape]);
  }

  /** The default line `accept:enter`. */
  lemma DefaultLineAccept(t: Table)
    requires IsTable(t)
    ensures LoadLine(t, DefaultConfig[6]) == t[Accept := t[Accept] + DefaultButtons(Accept)]
  {
    assert DefaultConfig[6] == "accept:enter" && "accept:enter" == "accept" + ":" + Join(["enter"], ",");
    LoadKeyLine(t, Accept, "accept", ["enter"], [K.Key.Enter]);
  }

  lemma LoadLinesAt(t: Table, lines: seq<string>, k: nat)
    requires IsTable(t) && k < |lines|
    ensures LoadLines(t, lines[k..]) == LoadLines(LoadLine(t, lines[k]), lines[k + 1..])
  {
    assert lines[k..][1..] == lines[k + 1..];
  }

  /** Six updates, one per action in declaration order, each appending that action's default buttons. */
  lemma DefaultSteps(t: Table, t1: Table, t2: Table, t3: Table, t4: Table, t5: Table, t6: Table)
    requires IsTable(t)
    requires t1 == t[Up := t[Up] + DefaultButtons(Up)]
    requires t2 == t1[Down := t1[Down] + DefaultButtons(Down)]
    requires t3 == t2[Left := t2[Left] + DefaultButtons(Left)]
    requires t4 == t3[Right := t3[Right] + DefaultButtons(Right)]
    requires t5 == t4[Back := t4[Back] + DefaultButtons(Back)]
    requires t6 == t5[Accept := t5[Accept] + DefaultButtons(Accept)]
    ensures forall a :: t6[a] == t[a] + DefaultButtons(a)
  {
    forall a
      ensures t6[a] == t[a] + DefaultButtons(a)
    {
      match a
      case Up => assert t6[a] == t1[a];
      case Down => assert t6[a] == t2[a] && t1[a] == t[a];
      case Left => assert t6[a] == t3[a] && t2[a] == t[a];
      case Right => assert t6[a] == t4[a] && t3[a] == t[a];
      case Back => assert t6[a] == t5[a] && t4[a] == t[a];
      case Accept => assert t5[a] == t[a];
    }
  }

  /** Loading the default file adds, action by action, the default buttons to whatever the table held. */
  lemma DefaultLinesLoaded(t: Table)
    requires IsTable(t)
    ensures forall a :: LoadLines(t, DefaultConfig)[a] == t[a] + DefaultButtons(a)
  {
    var d := DefaultConfig;
    assert d[0..] == d;
    LoadLinesAt(t, d, 0);
    CommentByFirstChars(d[0]);
    LoadLinesAt(t, d, 1);
    DefaultLineUp(t);
    var t1 := LoadLine(t, d[1]);
    LoadLinesAt(t1, d, 2);
    DefaultLineDown(t1);
    var t2 := LoadLine(t1, d[2]);
    LoadLinesAt(t2, d, 3);
    DefaultLineLeft(t2);
    var t3 := LoadLine(t2, d[3]);
    LoadLinesAt(t3, d, 4);
    DefaultLineRight(t3);
    var t4 := LoadLine(t3, d[4]);
    LoadLinesAt(t4, d, 5);
    DefaultLineBack(t4);
    var t5 := LoadLine(t4, d[5]);
    LoadLinesAt(t5, d, 6);
    DefaultLineAccept(t5);
    var t6 := LoadLine(t5, d[6]);
    assert d[7..] == [];
    assert LoadLines(t, d) == t6;
    DefaultSteps(t, t1, t2, t3, t4, t5, t6);
  }

  /**
   * Start-up without any configuration file: the default file is created and
   * loaded, binding Up to Up and W, Down to Down and S, Left to Left and A,
   * Right to Right and D, Back to Escape and Accept to Enter.
   */
  lemma DefaultBootstrap()
    ensures ValidateConfigFiles(Files(None, None)).config == Some(DefaultConfig)
    ensures LoadLines(EmptyTable(), DefaultConfig) == DefaultBindings()
  {
    var t := EmptyTable();
    DefaultLinesLoaded(t);
    forall a
      ensures LoadLines(t, DefaultConfig)[a] == DefaultBindings()[a]
    {
      assert t[a] + DefaultButtons(a) == DefaultButtons(a);
    }
    TableExt(LoadLines(t, DefaultConfig), DefaultBindings());
  }
}
