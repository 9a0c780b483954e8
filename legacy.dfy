/**
 * The older generation of the resource manager (`ManagementHelpers.cs`).
 * Actions are strings: the table is keyed by the upper-cased names of the
 * properties of the `Input` resource, which are read by reflection and are
 * a parameter here. It differs from `ResourceManager.RM` in three ways: a
 * button query consults the key even when it is `Keys.None`; a token that
 * names no key aborts the whole load with an exception instead of being
 * skipped; and unbound buttons read from the file are added.
 */
module Legacy {
  import K = Keys
  import IS = InputState
  import opened Wrappers
  import opened Text
  import opened Buttons
  import opened Bindings
  import opened ConfigCodec
  import opened ConfigRoundTrip
  import opened ResourceManager

  type LTable = map<string, seq<Button>>

  /** `string.IsNullOrWhiteSpace` on a non-null string: every character is white space (so also the empty string). */
  predicate IsBlank(s: string)
  {
    forall i :: 0 <= i < |s| ==> IsWhiteSpace(s[i])
  }

  /** `AddKey`: append to the list of the upper-cased name; a blank or unknown name changes nothing. */
  function LAddKey(t: LTable, keyName: string, b: Button): (r: LTable)
    ensures r.Keys == t.Keys
    ensures Upper(keyName) in t && !IsBlank(Upper(keyName)) ==> r == t[Upper(keyName) := t[Upper(keyName)] + [b]]
    ensures Upper(keyName) !in t || IsBlank(Upper(keyName)) ==> r == t
  {
    var k := Upper(keyName);
    if IsBlank(k) || k !in t then t else t[k := t[k] + [b]]
  }

  /**
   * The button a token gives in the legacy `ConfigureKeys`: a mouse token
   * gives that mouse button, a key name (in any case) that key, `NONE`
   * included; anything else, the empty token too, makes `Enum.Parse` throw,
   * which is `None` here.
   */
  function LegacyButton(val: string): (r: Option<Button>)
    ensures r.Some? ==> r.value.WellFormed()
    ensures r.None? <==> MouseFromToken(val) == IS.MouseButton.None && K.ParseKey(val).None?
  {
    var mb := MouseFromToken(val);
    if mb != IS.MouseButton.None then Some(FromMouse(mb))
    else
      match K.ParseKey(val)
      case Some(k) => Some(FromKey(k))
      case None => None
  }

  /** The table reached and whether the load completed (`ok`) or stopped at an exception. */
  datatype Load = Load(table: LTable, ok: bool)

  function LAddTokens(t: LTable, key: string, tokens: seq<string>): (r: Load)
    ensures r.table.Keys == t.Keys
    decreases |tokens|
  {
    if tokens == [] then Load(t, true)
    else
      match LegacyButton(tokens[0])
      case None => Load(t, false)
      case Some(b) => LAddTokens(LAddKey(t, key, b), key, tokens[1..])
  }

  function LLoadLine(t: LTable, line: string): (r: Load)
    ensures r.table.Keys == t.Keys
  {
    if IsBindingLine(line) then LAddTokens(t, LineAction(line), LineTokens(line)) else Load(t, true)
  }

  /** The legacy load of a file: line by line, as far as the first token that names nothing. */
  function LLoadLines(t: LTable, lines: seq<string>): (r: Load)
    ensures r.table.Keys == t.Keys
    decreases |lines|
  {
    if lines == [] then Load(t, true)
    else
      var r := LLoadLine(t, lines[0]);
      if !r.ok then r else LLoadLines(r.table, lines[1..])
  }

  /**
   * The legacy button query (`IsDown`, `IsUp`, `IsPressed`, `IsReleased`,
   * chosen by `q`): the key is asked first, with no test for `Keys.None`,
   * then the mouse buttons the button stands for.
   */
  predicate LegacyIs(b: Button, q: IS.Query, f: IS.Frame)
  {
    f.IsKey(q, b.key)
    || (b.left && f.IsMouse(q, IS.MouseButton.Left))
    || (b.right && f.IsMouse(q, IS.MouseButton.Right))
    || (b.middle && f.IsMouse(q, IS.MouseButton.Middle))
    || (b.side1 && f.IsMouse(q, IS.MouseButton.Side1))
    || (b.side2 && f.IsMouse(q, IS.MouseButton.Side2))
  }

  /** The legacy query answers as `Button.Is`, except that a button without a key also answers for `Keys.None`. */
  lemma LegacyIsVersusIs(b: Button, q: IS.Query, f: IS.Frame)
    ensures LegacyIs(b, q, f) <==> b.Is(q, f) || (b.key == K.Key.None && f.IsKey(q, K.Key.None))
  {
  }

  /**
   * The defect: with focus, `Keys.None` is never held, so it is "up", and
   * every button without a key is "up" too; a button bound to the left mouse
   * button reports up while that button is held down.
   */
  lemma LegacyMouseButtonAlwaysUp(f: IS.Frame)
    requires f.focus && K.Key.None !in f.currentKeyboard.held
    requires f.currentMouse.leftButton
    ensures LegacyIs(FromMouse(IS.MouseButton.Left), IS.Query.Up, f)
    ensures !FromMouse(IS.MouseButton.Left).Is(IS.Query.Up, f)
    ensures LegacyIs(FromKey(K.Key.None), IS.Query.Up, f) && !FromKey(K.Key.None).Is(IS.Query.Up, f)
  {
  }

  /**
   * The defect of the legacy save-then-load: an action with no bound button
   * is saved as `NAME:\t`, whose one token is empty, and loading that line
   * stops with an exception, before any later line is read.
   */
  lemma LegacyEmptyLineAborts(t: LTable, name: string, bs: seq<Button>)
    requires IsToken(name)
    requires BoundButtons(bs) == []
    ensures IsBindingLine(ActionLine(name, bs))
    ensures !LLoadLine(t, ActionLine(name, bs)).ok
    ensures forall rest :: !LLoadLines(t, [ActionLine(name, bs)] + rest).ok
  {
    assert Names(BoundButtons(bs)) == [];
    assert ActionLine(name, bs) == name + ":" + "\t";
    ParseBindingLine(name, "\t");
    SavedTokens([]);
    assert K.ParseKey("") == Option.None;
    forall rest
      ensures !LLoadLines(t, [ActionLine(name, bs)] + rest).ok
    {
      assert ([ActionLine(name, bs)] + rest)[0] == ActionLine(name, bs);
    }
  }

  /** The legacy configuration lines: the comment block, then one line per table key in the table's order. */
  function LSaveLines(t: LTable, keys: seq<string>, config: Option<seq<string>>): (r: seq<string>)
    requires forall i :: 0 <= i < |keys| ==> keys[i] in t
  {
    (if config.Some? then CommentBlock(config.value) else []) + LActionLines(t, keys)
  }

  function LActionLines(t: LTable, keys: seq<string>): (r: seq<string>)
    requires forall i :: 0 <= i < |keys| ==> keys[i] in t
    ensures |r| == |keys|
    ensures forall i :: 0 <= i < |keys| ==> r[i] == ActionLine(keys[i], t[keys[i]])
  {
    seq(|keys|, i requires 0 <= i < |keys| => ActionLine(keys[i], t[keys[i]]))
  }

  /** Every list of `u` begins with the list of `t`. */
  predicate Grows(t: LTable, u: LTable)
    requires t.Keys == u.Keys
  {
    forall k :: k in t ==> t[k] <= u[k]
  }

  lemma {:induction false} LAddTokensGrows(t: LTable, key: string, tokens: seq<string>)
    ensures Grows(t, LAddTokens(t, key, tokens).table)
    decreases |tokens|
  {
    if tokens != [] && LegacyButton(tokens[0]).Some? {
      var t1 := LAddKey(t, key, LegacyButton(tokens[0]).value);
      LAddTokensGrows(t1, key, tokens[1..]);
      assert Grows(t, t1);
    }
  }

  /**
   * Whether it completes or stops at an exception, the legacy load only
   * appends: every list keeps its buttons, at their indices.
   */
  lemma {:induction false} LLoadLinesGrows(t: LTable, lines: seq<string>)
    ensures Grows(t, LLoadLines(t, lines).table)
    decreases |lines|
  {
    if lines != [] {
      var r := LLoadLine(t, lines[0]);
      if IsBindingLine(lines[0]) {
        LAddTokensGrows(t, LineAction(lines[0]), LineTokens(lines[0]));
      }
      if r.ok {
        LLoadLinesGrows(r.table, lines[1..]);
      }
    }
  }

  /** Every token names a mouse button or a key, so `Enum.Parse` never throws on them. */
  predicate TokensParse(tokens: seq<string>)
  {
    forall i :: 0 <= i < |tokens| ==> LegacyButton(tokens[i]).Some?
  }

  /** A line the legacy load gets through: not a binding line, or one whose every token parses. */
  predicate LineParses(line: string)
  {
    IsBindingLine(line) ==> TokensParse(LineTokens(line))
  }

  /** The buttons of tokens that all parse, in order. */
  function LegacyButtons(tokens: seq<string>): (r: seq<Button>)
    requires TokensParse(tokens)
    ensures |r| == |tokens|
    decreases |tokens|
  {
    if tokens == [] then [] else [LegacyButton(tokens[0]).value] + LegacyButtons(tokens[1..])
  }

  /** Adding a line's tokens completes exactly when every token parses. */
  lemma {:induction false} LAddTokensOk(t: LTable, key: string, tokens: seq<string>)
    ensures LAddTokens(t, key, tokens).ok <==> TokensParse(tokens)
    decreases |tokens|
  {
    if tokens != [] {
      assert TokensParse(tokens) <==> LegacyButton(tokens[0]).Some? && TokensParse(tokens[1..]) by {
        if LegacyButton(tokens[0]).Some? && TokensParse(tokens[1..]) {
          forall i | 0 < i < |tokens|
            ensures LegacyButton(tokens[i]).Some?
          {
            assert tokens[i] == tokens[1..][i - 1];
          }
        }
      }
      if LegacyButton(tokens[0]).Some? {
        LAddTokensOk(LAddKey(t, key, LegacyButton(tokens[0]).value), key, tokens[1..]);
      }
    }
  }

  /** Tokens that all parse append their buttons, in order, to the list of the upper-cased name, when that name is known and not blank. */
  lemma {:induction false} LAddTokensAppend(t: LTable, key: string, tokens: seq<string>)
    requires TokensParse(tokens)
    ensures LAddTokens(t, key, tokens).table
      == if Upper(key) in t && !IsBlank(Upper(key)) then t[Upper(key) := t[Upper(key)] + LegacyButtons(tokens)] else t
    decreases |tokens|
  {
    if tokens == [] {
      if Upper(key) in t {
        assert t[Upper(key)] + [] == t[Upper(key)];
        SameUpdate(t, Upper(key));
      }
    } else {
      var b := LegacyButton(tokens[0]).value;
      assert TokensParse(tokens[1..]) by {
        forall i | 0 <= i < |tokens[1..]|
          ensures LegacyButton(tokens[1..][i]).Some?
        {
          assert tokens[1..][i] == tokens[i + 1];
        }
      }
      var u := Upper(key);
      var t1 := LAddKey(t, key, b);
      LAddTokensAppend(t1, key, tokens[1..]);
      assert LAddTokens(t, key, tokens) == LAddTokens(t1, key, tokens[1..]);
      if u in t && !IsBlank(u) {
        var rest := LegacyButtons(tokens[1..]);
        assert LegacyButtons(tokens) == [b] + rest;
        AppendTwice(t, u, [b], rest);
      }
    }
  }

  /** Two appends to one list are one append of both. */
  lemma AppendTwice(t: LTable, u: string, x: seq<Button>, y: seq<Button>)
    requires u in t
    ensures t[u := t[u] + x][u := t[u] + x + y] == t[u := t[u] + (x + y)]
  {
    assert t[u] + x + y == t[u] + (x + y);
  }

  /**
   * The legacy load completes exactly when every binding line of the file
   * has only tokens that name a mouse button or a key.
   */
  lemma {:induction false} LLoadLinesOk(t: LTable, lines: seq<string>)
    ensures LLoadLines(t, lines).ok <==> forall i :: 0 <= i < |lines| ==> LineParses(lines[i])
    decreases |lines|
  {
    if lines != [] {
      var r := LLoadLine(t, lines[0]);
      if IsBindingLine(lines[0]) {
        LAddTokensOk(t, LineAction(lines[0]), LineTokens(lines[0]));
      }
      assert r.ok <==> LineParses(lines[0]);
      if r.ok {
        LLoadLinesOk(r.table, lines[1..]);
        assert forall i :: 0 < i < |lines| ==> lines[i] == lines[1..][i - 1];
      }
    }
  }

  /** The upper-cased saved name of a bound button parses, in the legacy load, back to that button. */
  lemma LegacyButtonText(b: Button)
    requires b.IsBound() && b.WellFormed()
    ensures LegacyButton(Upper(b.ToString())) == Some(b)
  {
    ButtonTextRoundTrip(b);
  }

  /**
   * A line `name:k1,k2…` of key names, in any case, loads completely and
   * appends those keys to the list of the upper-cased name, when the name
   * is a key of the table.
   */
  lemma LegacyLoadKeyLine(t: LTable, name: string, keys: seq<string>, ks: seq<K.Key>)
    requires IsToken(name)
    requires |keys| == |ks| && 1 <= |keys|
    requires forall i :: 0 <= i < |keys| ==> Upper(keys[i]) == K.UpperName(ks[i])
    ensures LLoadLine(t, name + ":" + Join(keys, ",")).ok
    ensures LLoadLine(t, name + ":" + Join(keys, ",")).table
      == if Upper(name) in t then t[Upper(name) := t[Upper(name)] + KeyButtons(ks)] else t
  {
    TokenUpper(name);
    UpperUpper(name);
    forall i | 0 <= i < |keys|
      ensures IsToken(keys[i])
    {
      K.KeyNameIsToken(ks[i]);
      TokenUpper(K.KeyName(ks[i]));
      TokenUpper(keys[i]);
    }
    JoinTokensClean(keys);
    SplitUpperTokens(keys);
    ParseBindingLine(name, Join(keys, ","));
    var toks := UpperAll(keys);
    LegacyKeyTokens(keys, ks);
    LAddTokensOk(t, Upper(name), toks);
    LAddTokensAppend(t, Upper(name), toks);
  }

  /** Upper-cased key names parse, in the legacy load, to those keys' buttons. */
  lemma LegacyKeyTokens(keys: seq<string>, ks: seq<K.Key>)
    requires |keys| == |ks|
    requires forall i :: 0 <= i < |keys| ==> Upper(keys[i]) == K.UpperName(ks[i])
    ensures TokensParse(UpperAll(keys)) && LegacyButtons(UpperAll(keys)) == KeyButtons(ks)
  {
    var toks := UpperAll(keys);
    forall i | 0 <= i < |toks|
      ensures LegacyButton(toks[i]) == Some(FromKey(ks[i]))
    {
      UpperNameShort(ks[i]);
      K.ParseKeyName(ks[i]);
    }
    LegacyButtonsOf(toks, KeyButtons(ks));
  }

  /** Tokens that parse one by one to the given buttons have exactly those buttons. */
  lemma {:induction false} LegacyButtonsOf(tokens: seq<string>, bs: seq<Button>)
    requires |tokens| == |bs|
    requires forall i :: 0 <= i < |tokens| ==> LegacyButton(tokens[i]) == Some(bs[i])
    ensures TokensParse(tokens) && LegacyButtons(tokens) == bs
    decreases |tokens|
  {
    if tokens != [] {
      LegacyButtonsOf(tokens[1..], bs[1..]);
    }
  }

  /**
   * A saved line with at least one bound button loads completely in the
   * legacy load and appends exactly its bound buttons, in order, to the list
   * of the upper-cased name (the empty line is `LegacyEmptyLineAborts`).
   */
  lemma LegacySavedLineLoads(t: LTable, name: string, bs: seq<Button>)
    requires IsToken(name)
    requires forall b :: b in bs ==> b.WellFormed()
    requires BoundButtons(bs) != []
    ensures LLoadLine(t, ActionLine(name, bs)).ok
    ensures LLoadLine(t, ActionLine(name, bs)).table
      == if Upper(name) in t then t[Upper(name) := t[Upper(name)] + BoundButtons(bs)] else t
  {
    ReadSavedLine(name, bs);
    TokenUpper(name);
    UpperUpper(name);
    var xs := BoundButtons(bs);
    var toks := UpperAll(Names(xs));
    forall i | 0 <= i < |toks|
      ensures LegacyButton(toks[i]) == Some(xs[i])
    {
      assert xs[i] in bs;
      LegacyButtonText(xs[i]);
    }
    LegacyButtonsOf(toks, xs);
    LAddTokensOk(t, Upper(name), toks);
    LAddTokensAppend(t, Upper(name), toks);
  }

  /**
   * What the legacy loader reads from the saved line of key `keys[i]`: a
   * binding line for that key, upper-cased, whose tokens are the upper-cased
   * names of its bound buttons, or one empty token when none is bound.
   */
  lemma LegacySavedLineRead(t: LTable, keys: seq<string>, i: nat)
    requires forall j :: 0 <= j < |keys| ==> keys[j] in t
    requires i < |keys| && IsToken(keys[i])
    requires forall b :: b in t[keys[i]] ==> b.WellFormed()
    ensures IsBindingLine(LActionLines(t, keys)[i])
    ensures LineAction(LActionLines(t, keys)[i]) == Upper(keys[i])
    ensures BoundButtons(t[keys[i]]) == [] ==> LineTokens(LActionLines(t, keys)[i]) == [""]
    ensures BoundButtons(t[keys[i]]) != [] ==> LineTokens(LActionLines(t, keys)[i]) == UpperAll(Names(BoundButtons(t[keys[i]])))
  {
    ReadSavedLine(keys[i], t[keys[i]]);
  }

  class RM {
    var input: LTable
    /** The dictionary's key order (the order of insertion; nothing is ever removed). */
    var keys: seq<string>

    ghost predicate Valid()
      reads this
    {
      (forall k :: k in input <==> k in keys)
      && (forall i, j :: 0 <= i < j < |keys| ==> keys[i] != keys[j])
      && (forall k :: k in input ==> !IsBlank(k))
    }

    /**
     * The static constructor: an empty list under each upper-cased name.
     * `Dictionary.Add` throws on a repeated key, so the names must differ
     * after upper-casing; they are property names, never blank.
     */
    constructor (names: seq<string>)
      requires forall i :: 0 <= i < |names| ==> !IsBlank(Upper(names[i]))
      requires forall i, j :: 0 <= i < j < |names| ==> Upper(names[i]) != Upper(names[j])
      ensures Valid()
      ensures keys == UpperAll(names)
      ensures forall k :: k in input ==> input[k] == []
    {
      var t: LTable := map[];
      var ks: seq<string> := [];
      for i := 0 to |names|
        invariant |ks| == i
        invariant forall a :: 0 <= a < i ==> ks[a] == Upper(names[a])
        invariant forall k :: k in t <==> k in ks
        invariant forall k :: k in t ==> t[k] == [] && !IsBlank(k)
      {
        t := t[Upper(names[i]) := []];
        ks := ks + [Upper(names[i])];
      }
      assert ks == UpperAll(names);
      input := t;
      keys := ks;
    }

    /** `AddKey`: `LAddKey` on the table; the key order is kept. */
    method AddKey(keyName: string, linkedButton: Button)
      requires Valid()
      modifies this
      ensures Valid() && keys == old(keys)
      ensures input == LAddKey(old(input), keyName, linkedButton)
    {
      var k := Upper(keyName);
      if IsBlank(k) {
        return;
      }
      if k in input {
        input := input[k := input[k] + [linkedButton]];
      }
    }

    /**
     * `InsertKey`: under a known name the list becomes `InsertSpec` of it,
     * as in the newer manager; an unknown name or a null button changes nothing.
     */
    method InsertKey(keyName: string, linkedButton: Option<Button>, position: nat)
      requires Valid()
      modifies this
      ensures Valid() && keys == old(keys)
      ensures Upper(keyName) !in old(input) ==> input == old(input)
      ensures Upper(keyName) in old(input) ==>
        input == old(input)[Upper(keyName) := InsertSpec(old(input)[Upper(keyName)], linkedButton, position)]
    {
      var k := Upper(keyName);
      if linkedButton.None? || k !in input {
        return;
      }
      if linkedButton.value.key == K.Key.Enter || linkedButton.value.key == K.Key.Escape {
        SameUpdate(input, k);
        return;
      }
      if |input[k]| <= position {
        UpperUpper(keyName);
        AddKey(k, linkedButton.value);
      } else {
        if input[k][position].key != K.Key.Escape && input[k][position].key != K.Key.Enter {
          input := input[k := input[k][position := linkedButton.value]];
        } else {
          SameUpdate(input, k);
        }
      }
    }

    /**
     * `IsDown`, `IsUp`, `IsPressed`, `IsReleased` (chosen by `q`): some
     * button of the named list answers the legacy query. An unknown name
     * throws `KeyNotFoundException`, so it must be known.
     */
    method IsActive(p: string, q: IS.Query, f: IS.Frame) returns (r: bool)
      requires Upper(p) in input
      ensures r <==> exists i :: 0 <= i < |input[Upper(p)]| && LegacyIs(input[Upper(p)][i], q, f)
    {
      var bs := input[Upper(p)];
      for i := 0 to |bs|
        invariant forall j :: 0 <= j < i ==> !LegacyIs(bs[j], q, f)
      {
        var b := bs[i];
        if f.IsKey(q, b.key) {
          return true;
        }
        if b.left && f.IsMouse(q, IS.MouseButton.Left) {
          return true;
        }
        if b.right && f.IsMouse(q, IS.MouseButton.Right) {
          return true;
        }
        if b.middle && f.IsMouse(q, IS.MouseButton.Middle) {
          return true;
        }
        if b.side1 && f.IsMouse(q, IS.MouseButton.Side1) {
          return true;
        }
        if b.side2 && f.IsMouse(q, IS.MouseButton.Side2) {
          return true;
        }
      }
      return false;
    }

    /** `GetButtons`: the list of the upper-cased name, which must be known. */
    method GetButtons(name: string) returns (r: seq<Button>)
      requires Upper(name) in input
      ensures r == input[Upper(name)]
    {
      r := input[Upper(name)];
    }

    /**
     * `ConfigureKeys`: make sure a configuration exists, then add the tokens'
     * buttons line by line. `ok` is false when a token names nothing: the
     * exception leaves the table as far as the load got.
     */
    method ConfigureKeys(fs: Files) returns (files: Files, ok: bool)
      requires Valid()
      modifies this
      ensures Valid() && keys == old(keys)
      ensures files == ValidateConfigFiles(fs)
      ensures Load(input, ok) == LLoadLines(old(input), files.config.value)
    {
      files := ValidateConfigFiles(fs);
      var lines := files.config.value;
      for i := 0 to |lines|
        invariant Valid() && keys == old(keys)
        invariant LLoadLines(input, lines[i..]) == LLoadLines(old(input), lines)
      {
        assert lines[i..][1..] == lines[i + 1..];
        var line := lines[i];
        if !IsComment(line) && ':' in line {
          var key := Upper(StripWhiteSpace(Split(line, ':')[0]));
          var values := Upper(StripWhiteSpace(Split(line, ':')[1]));
          var tokens := Split(values, ',');
          ghost var t0 := input;
          for j := 0 to |tokens|
            invariant Valid() && keys == old(keys)
            invariant LAddTokens(input, key, tokens[j..]) == LAddTokens(t0, key, tokens)
          {
            assert tokens[j..][1..] == tokens[j + 1..];
            var b := LegacyButton(tokens[j]);
            if b.None? {
              return files, false;
            }
            AddKey(key, b.value);
          }
        }
      }
      return files, true;
    }

    /** `SaveConfig`: the comment block, then one line per key in the dictionary's order, replace the configuration. */
    method SaveConfig(fs: Files) returns (files: Files)
      requires Valid()
      ensures files == fs.(config := Some(LSaveLines(input, keys, fs.config)))
    {
      var comments: seq<string> := [];
      if fs.config.Some? {
        comments := AppendCommentsFromConfigFile(fs.config.value);
      }
      var lines := BuildKeyLines(input, keys);
      files := fs.(config := Some(comments + lines));
    }
  }

  /** The per-key loop of the legacy `SaveConfig`. */
  method BuildKeyLines(t: LTable, keys: seq<string>) returns (lines: seq<string>)
    requires forall i :: 0 <= i < |keys| ==> keys[i] in t
    ensures lines == LActionLines(t, keys)
  {
    lines := [];
    for i := 0 to |keys|
      invariant lines == LActionLines(t, keys[..i])
    {
      var line := BuildActionLine(keys[i], t[keys[i]]);
      assert LActionLines(t, keys[..i + 1]) == LActionLines(t, keys[..i]) + [line];
      lines := lines + [line];
    }
    assert keys[..|keys|] == keys;
  }

  lemma SameUpdate(t: LTable, k: string)
    requires k in t
    ensures t[k := t[k]] == t
  {
  }
}
