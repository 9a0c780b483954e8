/**
 * `RM`, the resource manager of the `Management` namespace: it owns the
 * action binding table, fills it from the configuration file, answers the
 * action queries and writes the table back. The source class is static; here
 * it is an object whose one field is the table. The two files are values of
 * type `Files` passed in and returned, in place of the file system.
 */
module ResourceManager {
  import K = Keys
  import IS = InputState
  import opened Wrappers
  import opened Text
  import opened Buttons
  import opened Bindings
  import opened ConfigCodec
  import opened ConfigRoundTrip

  /** `GetValidInputActions`: the enumeration's names, each parsed back, in declaration order. */
  method GetValidInputActions() returns (result: seq<InputAction>)
    ensures result == AllActions
    ensures forall a: InputAction :: a in result
  {
    var names := seq(|AllActions|, i requires 0 <= i < |AllActions| => ActionName(AllActions[i]));
    result := [];
    for i := 0 to |names|
      invariant result == AllActions[..i]
    {
      ParseActionName(AllActions[i]);
      result := result + [ParseAction(names[i]).value];
    }
    assert AllActions[..|names|] == AllActions;
    AllActionsComplete();
  }

  /** The line `SaveConfig` builds for one action: the `added` flag puts `,\t` between bound buttons only. */
  method BuildActionLine(name: string, bs: seq<Button>) returns (line: string)
    ensures line == ActionLine(name, bs)
  {
    line := name + ":\t";
    var added := false;
    for i := 0 to |bs|
      invariant added <==> BoundButtons(bs[..i]) != []
      invariant line == name + ":\t" + BindingText(bs[..i])
    {
      assert bs[..i + 1] == bs[..i] + [bs[i]];
      BindingTextSnoc(bs[..i], bs[i]);
      if bs[i].IsBound() {
        if added {
          line := line + ",\t";
        }
        added := true;
        line := line + bs[i].ToString();
      }
    }
    assert bs[..|bs|] == bs;
  }

  /** One more button adds its name to the binding text when it is bound, after a `,\t` when a name is there already. */
  lemma BindingTextSnoc(bs: seq<Button>, b: Button)
    ensures BoundButtons(bs + [b]) != [] <==> BoundButtons(bs) != [] || b.IsBound()
    ensures !b.IsBound() ==> BindingText(bs + [b]) == BindingText(bs)
    ensures b.IsBound() && BoundButtons(bs) == [] ==> BindingText(bs + [b]) == b.ToString()
    ensures b.IsBound() && BoundButtons(bs) != [] ==> BindingText(bs + [b]) == BindingText(bs) + ",\t" + b.ToString()
  {
    BoundButtonsSnoc(bs, b);
    var p := BoundButtons(bs);
    if !b.IsBound() {
      assert p + [] == p;
    } else {
      NamesSnoc(p, b);
      JoinSnoc(Names(p), b.ToString(), ",\t");
    }
  }

  lemma NamesSnoc(bs: seq<Button>, b: Button)
    ensures Names(bs + [b]) == Names(bs) + [b.ToString()]
  {
  }

  /** `AppendCommentsFromConfigFile`: copy lines while they are comments, and stop at the first one that is not. */
  method AppendCommentsFromConfigFile(lines: seq<string>) returns (block: seq<string>)
    ensures block == CommentBlock(lines)
  {
    block := [];
    var i := 0;
    while i < |lines|
      invariant 0 <= i <= |lines|
      invariant block == lines[..i]
      invariant forall j :: 0 <= j < i ==> IsComment(lines[j])
    {
      if IsComment(lines[i]) {
        block := block + [lines[i]];
        i := i + 1;
      } else {
        break;
      }
    }
    assert lines == block + lines[i..];
    CommentBlockPrefix(block, lines[i..]);
  }

  /** The saved lines of the first actions are the saved lines of all but the last, then the last one's. */
  lemma {:induction false} ActionLinesSnoc(t: Table, acts: seq<InputAction>, a: InputAction)
    requires IsTable(t)
    ensures ActionLines(t, acts + [a]) == ActionLines(t, acts) + [ActionLine(ActionName(a), t[a])]
    decreases |acts|
  {
    if acts == [] {
      assert acts + [a] == [a];
    } else {
      assert (acts + [a])[0] == acts[0] && (acts + [a])[1..] == acts[1..] + [a];
      ActionLinesSnoc(t, acts[1..], a);
    }
  }

  /** The per-action loop of `SaveConfig`: one line per action, in the given order. */
  method BuildActionLines(t: Table, acts: seq<InputAction>) returns (lines: seq<string>)
    requires IsTable(t)
    ensures lines == ActionLines(t, acts)
  {
    lines := [];
    for i := 0 to |acts|
      invariant lines == ActionLines(t, acts[..i])
    {
      var line := BuildActionLine(ActionName(acts[i]), t[acts[i]]);
      assert acts[..i + 1] == acts[..i] + [acts[i]];
      ActionLinesSnoc(t, acts[..i], acts[i]);
      lines := lines + [line];
    }
    assert acts[..|acts|] == acts;
  }

  class RM {
    /** `input`: each action's buttons, in slot order. */
    var input: Table

    predicate Valid()
      reads this
    {
      IsTable(input)
    }

    /** The static constructor: an empty list for every action. */
    constructor ()
      ensures Valid() && input == EmptyTable()
    {
      var acts := GetValidInputActions();
      var t: Table := map[];
      for i := 0 to |acts|
        invariant forall a :: a in t <==> a in acts[..i]
        invariant forall a :: a in t ==> t[a] == []
      {
        assert acts[..i + 1] == acts[..i] + [acts[i]];
        t := t[acts[i] := []];
      }
      assert acts[..|acts|] == acts;
      TableExt(t, EmptyTable());
      input := t;
    }

    /** `AddKey`: append the button to the action's list. */
    method AddKey(ia: InputAction, linkedButton: Button)
      requires Valid()
      modifies this
      ensures Valid()
      ensures input == old(input)[ia := old(input)[ia] + [linkedButton]]
    {
      input := input[ia := input[ia] + [linkedButton]];
    }

    /** `InsertKey`: the list of `ia` becomes `InsertSpec` of it; every other action keeps its list. */
    method InsertKey(ia: InputAction, linkedButton: Option<Button>, position: nat)
      requires Valid()
      modifies this
      ensures Valid()
      ensures input == old(input)[ia := InsertSpec(old(input)[ia], linkedButton, position)]
    {
      if linkedButton.None? || linkedButton.value.key == K.Key.Enter || linkedButton.value.key == K.Key.Escape {
        UpdateSame(input, ia);
        return;
      }
      if |input[ia]| <= position {
        AddKey(ia, linkedButton.value);
      } else {
        if input[ia][position].key != K.Key.Escape && input[ia][position].key != K.Key.Enter {
          input := input[ia := input[ia][position := linkedButton.value]];
        } else {
          UpdateSame(input, ia);
        }
      }
    }

    /**
     * `IsDown`, `IsUp`, `IsPressed`, `IsReleased` (chosen by `q`): walk the
     * list and answer true at the first button that answers the query.
     */
    method IsActive(ia: InputAction, q: IS.Query, f: IS.Frame) returns (r: bool)
      requires Valid()
      ensures r == AnyActive(input[ia], q, f)
    {
      var bs := input[ia];
      for i := 0 to |bs|
        invariant forall j :: 0 <= j < i ==> !bs[j].Is(q, f)
      {
        if bs[i].Is(q, f) {
          return true;
        }
      }
      return false;
    }

    /** `GetButtons`: the action's list itself. */
    method GetButtons(ia: InputAction) returns (r: seq<Button>)
      requires Valid()
      ensures r == input[ia]
    {
      r := input[ia];
    }

    /** `GetFirstMappedButton`: the display text of the first slot, the empty marker when there is none. */
    method GetFirstMappedButton(ia: InputAction) returns (s: string)
      requires Valid()
      ensures s == SlotLabel(input[ia], 0)
    {
      if |input[ia]| > 0 {
        return input[ia][0].ToString();
      }
      return "<EMPTY>";
    }

    /** `AddButton`: the token's button is appended when it is bound and the action name parses. */
    method AddButton(inputaction: string, button: string)
      requires Valid()
      modifies this
      ensures Valid()
      ensures input == ConfigCodec.AddButton(old(input), inputaction, button)
    {
      var b := CreateButtonFromText(button);
      if b.IsBound() {
        var ia := ParseAction(inputaction);
        if ia.Some? {
          AddKey(ia.value, b);
        }
      }
    }

    /**
     * `ConfigureKeys`: make sure a configuration exists, then add the buttons
     * of every binding line, token by token, to what the table already holds.
     */
    method ConfigureKeys(fs: Files) returns (files: Files)
      requires Valid()
      modifies this
      ensures Valid()
      ensures files == ValidateConfigFiles(fs)
      ensures input == LoadLines(old(input), files.config.value)
    {
      files := ValidateConfigFiles(fs);
      var lines := files.config.value;
      for i := 0 to |lines|
        invariant Valid()
        invariant LoadLines(input, lines[i..]) == LoadLines(old(input), lines)
      {
        LoadLinesAt(input, lines, i);
        var line := lines[i];
        if !IsComment(line) && ':' in line {
          var key := Upper(StripWhiteSpace(Split(line, ':')[0]));
          var values := Upper(StripWhiteSpace(Split(line, ':')[1]));
          var tokens := Split(values, ',');
          ghost var t0 := input;
          for j := 0 to |tokens|
            invariant Valid()
            invariant AddTokens(input, key, tokens[j..]) == AddTokens(t0, key, tokens)
          {
            assert tokens[j..][1..] == tokens[j + 1..];
            AddButton(key, tokens[j]);
          }
        }
      }
    }

    /**
     * `SaveConfig`: the comment block of the existing configuration, then
     * one line per action in the order the constructor added them; the result
     * replaces the configuration.
     */
    method SaveConfig(fs: Files) returns (files: Files)
      requires Valid()
      ensures files == ConfigCodec.SaveConfig(input, fs)
    {
      var comments: seq<string> := [];
      if fs.config.Some? {
        comments := AppendCommentsFromConfigFile(fs.config.value);
      }
      var acts := GetValidInputActions();
      var lines := BuildActionLines(input, acts);
      files := fs.(config := Some(comments + lines));
    }
  }
}
