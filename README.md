# Fribzel3D input bindings, modelled in Dafny

Fribzel3D lets a game bind each abstract input action to a list of buttons and query it:
- The actions are Up, Down, Left, Right, Back and Accept.
- A button is a keyboard key, a mouse button, or the unbound button.
- The queries are "is Up down / pressed / released this frame".

This project models that input layer. It has these parts:

- **`IM`** (`InputState`): the double-buffered input manager. It holds the keyboard and mouse states of the previous and the current frame, and the window focus. From these it derives the down / up / pressed / released predicates for keys and mouse buttons, the scroll delta, the newly pressed keys, and the first newly pressed mouse button. It also confines the pointer (snap to centre / stay in window).
- **`Button`** (`Buttons`): one binding. It is either a key, or one of five mouse flags. Its text form is what the configuration file stores. It answers a query only when it is bound and the window has focus.
- **`RM`** (`ResourceManager`): the binding table of the `Management` namespace. It is a list of buttons per `InputAction`. It supports the following:
  - `AddKey`;
  - `InsertKey`, which never overwrites or adds `Enter`/`Escape`;
  - the four queries, each "some button of the action answers";
  - `GetFirstMappedButton`;
  - `ConfigureKeys`, which creates the default configuration when none exists and loads it;
  - `SaveConfig`, which keeps the leading comment block and writes one line per action.
- **The configuration codec** (`ConfigCodec`, `ConfigRoundTrip`): these are the text functions behind `ConfigureKeys` and `SaveConfig`, plus the proofs that hold them together:
  - saving a table and loading it into an empty table gives back the table with its unbound buttons dropped;
  - saving that again changes nothing;
  - the generated default configuration loads into the documented default bindings.
- **The legacy `RM`** (`Legacy`): the older `ManagementHelpers.cs` generation. Its table is a dictionary keyed by upper-cased action names. Its token parser aborts the whole load on the first unknown token. Its queries lack the guard for a key-less button.
- **`CycleIndex`** and **`ControlScreen`** (`Screens`): the rebinding screen. It is a grid with one row per action and three slot columns. The cursor moves with the arrow keys (wrapping via `CycleIndex`) or the pointer. Enter or a left click starts rebinding. In rebinding mode:
  - a single newly pressed key goes into the selected slot, and Backspace puts the unbound button there;
  - failing that, the first newly pressed mouse button goes in;
  - Escape cancels.
  In navigation mode, Escape saves the configuration and leaves.

Classes whose fields the source updates in place (`IM`, both `RM`s, `ControlScreen`) are Dafny classes. Each method is specified against the pure functions of the codec and the binding modules, and the properties are proved about those functions.

The two files are a value of type `Files`, passed in and returned. `config.txt` and `defaultconfig.txt` are each an optional sequence of lines.

## Model

| member | source | states |
|---|---|---|
| InputState.Frame.IsKey | Fribzel3D/Fribzel3D/Management/InputManager.cs:137-171 | A key is down / up / pressed / released only when the window has focus. Pressed means down now and up in the previous frame, and released is the reverse. |
| InputState.Frame.IsMouse | Fribzel3D/Fribzel3D/Management/InputManager.cs:174-357 | Same as for keys, for each of the five mouse buttons. Every mouse answer is false without focus. |
| InputState.Frame.ScrollDelta | Fribzel3D/Fribzel3D/Management/InputManager.cs:44-47 | Adding the delta to the previous wheel value gives the current one. |
| InputState.Frame.FirstMousePressed | Fribzel3D/Fribzel3D/Management/InputManager.cs:71-97 | A result other than None is a newly pressed button. No button earlier in the order Left, Right, Middle, Side1, Side2 was newly pressed. |
| InputState.Frame.PressedAmong | Fribzel3D/Fribzel3D/Management/InputManager.cs:53-65 | A key is in the result exactly when it is among the held keys and newly pressed. The result is empty without focus. |
| InputState.PressedAmongCount | Fribzel3D/Fribzel3D/Management/InputManager.cs:53-65 | Each newly pressed key occurs in the result as often as among the held keys. No other key occurs. |
| InputState.PressedAmongConcat | Fribzel3D/Fribzel3D/Management/InputManager.cs:53-65 | The filter keeps the held keys' order: the result for two runs of keys is the first run's result, then the second's. |
| InputState.SinglePressedKey | Fribzel3D/Fribzel3D/Management/InputManager.cs:53-65 | When the held keys are listed once each, the result is `[k]` exactly when `k` was newly pressed and no other key was. |
| InputState.EdgesExclusive | Fribzel3D/Fribzel3D/Management/InputManager.cs:137-357 | No key or mouse button is both pressed and released in one frame, nor both down and up. |
| InputState.UnfocusedReportsNothing | Fribzel3D/Fribzel3D/Management/InputManager.cs:53-97 | Without focus every query is false, no key is reported newly pressed, and no mouse button either. |
| InputState.EdgeAcrossFrames | Fribzel3D/Fribzel3D/Management/InputManager.cs:102-171 | Across two consecutive frames, pressed now means down now and up before, and released means the reverse. |
| InputState.Confine | Fribzel3D/Fribzel3D/Management/InputManager.cs:117-129 | Snap-to-centre puts the pointer at the window centre. Otherwise stay-in-window clamps each coordinate into the window and keeps one already inside. With neither, nothing changes. Buttons and wheel are never touched. |
| InputState.IM.constructor | Fribzel3D/Fribzel3D/Management/InputManager.cs:17-23 | Both frames are the initial device samples, the pointer delta is zero, and the flags are off. |
| InputState.IM.NewState | Fribzel3D/Fribzel3D/Management/InputManager.cs:102-115 | The current frame becomes the previous one. With focus, the new sample is confined and the pointer delta recorded. Without focus, nothing changes. |
| InputState.IM.ValidateMousePosition | Fribzel3D/Fribzel3D/Management/InputManager.cs:117-129 | The current pointer becomes its `Confine` image under the two flags. |
| InputState.IM.GetPressedKeys | Fribzel3D/Fribzel3D/Management/InputManager.cs:53-65 | The keys returned are exactly the held keys that are newly pressed. |
| Buttons.Button.ToString | Fribzel3D/Fribzel3D/Management/Button.cs:79-106 | The text is `<EMPTY>` exactly when the button is unbound. A key button prints its key's name. A mouse button prints `LeftMouse`, `RightMouse`, `MiddleMouse`, `Side1Mouse` or `Side2Mouse`. |
| Buttons.Button.Is | Fribzel3D/Fribzel3D/Management/Button.cs:119-233 | A button answers a query only when it is bound and the window has focus. |
| Buttons.FromKey | Fribzel3D/Fribzel3D/Management/Button.cs:57-60 | The button carries the key and no mouse flag. It is bound exactly when the key is not None. |
| Buttons.FromMouse | Fribzel3D/Fribzel3D/Management/Button.cs:66-77 | The button has no key and exactly the one flag of its mouse button. It is bound unless that is None. |
| Buttons.KeyButtonIs | Fribzel3D/Fribzel3D/Management/Button.cs:119-233 | A key button answers a query exactly when its key is not None and the key answers. |
| Buttons.MouseButtonIs | Fribzel3D/Fribzel3D/Management/Button.cs:119-233 | A mouse button answers exactly when its mouse button answers. The None mouse button never answers. |
| Buttons.UnboundNeverActive | Fribzel3D/Fribzel3D/Management/Button.cs:111-146 | An unbound button is never down, up, pressed or released. |
| Keys.ParseKey | Fribzel3D/Fribzel3D/Management/ResourceManager.cs:216-224 | Case-insensitive enum parse. A found key's name equals the text up to case. A failure means no key has that name. |
| Keys.ParseKeyName | Fribzel3D/Fribzel3D/Management/ResourceManager.cs:216-224 | A key's name, in its own case or upper-cased, parses back to that key. |
| Bindings.ParseAction | Fribzel3D/Fribzel3D/Management/ResourceManager.cs:197-201 | Case-insensitive `InputAction` parse, success and failure as for keys. |
| Bindings.ParseActionName | Fribzel3D/Fribzel3D/Management/ResourceManager.cs:57-67 | An action's name, as is or upper-cased, parses back to the action. |
| Bindings.AllActionsComplete | Fribzel3D/Fribzel3D/Management/ResourceManager.cs:45-51 | The list of actions enumerates every action. |
| Bindings.EmptyTable | Fribzel3D/Fribzel3D/Management/ResourceManager.cs:45-51 | Every action has a list, and every list is empty. |
| Bindings.InsertSpec | Fribzel3D/Fribzel3D/Management/ResourceManager.cs:85-102 | The list grows by at most one. A slot holds Enter/Escape afterwards exactly when it held it before, so reserved slots are never overwritten and never created. |
| Bindings.InsertRefused | Fribzel3D/Fribzel3D/Management/ResourceManager.cs:87-90 | A null button, or one whose key is Enter or Escape, leaves the list unchanged. |
| Bindings.InsertAppends | Fribzel3D/Fribzel3D/Management/ResourceManager.cs:91-94 | A position at or past the end appends the button. |
| Bindings.InsertOverwrites | Fribzel3D/Fribzel3D/Management/ResourceManager.cs:95-101 | A position inside the list replaces that slot, unless the slot holds Enter/Escape, in which case nothing changes. |
| Bindings.ReservedSlotsPinned | Fribzel3D/Fribzel3D/Management/ResourceManager.cs:85-102 | Over any sequence of insertions, the list never shrinks and every Enter/Escape slot keeps its button. No other slot becomes reserved. |
| Bindings.AnyActiveAppend | Fribzel3D/Fribzel3D/Management/ResourceManager.cs:109-170 | An empty list never answers. Appending a button adds exactly that button's answer to the disjunction. |
| Bindings.SlotLabel | Fribzel3D/Fribzel3D/Management/ResourceManager.cs:266-273 | The label is `<EMPTY>` exactly when the slot is missing or unbound. Otherwise it is the slot's text. |
| ConfigCodec.CreateDefaultConfigFiles | Fribzel3D/Fribzel3D/Management/ResourceManager.cs:242-254 | Both files afterwards hold the same generated default lines. |
| ConfigCodec.ValidateConfigFiles | Fribzel3D/Fribzel3D/Management/ResourceManager.cs:227-240 | A configuration always exists afterwards. An existing one is untouched. A missing one is copied from the default file, or generated along with it. |
| ConfigCodec.ValidateIdempotent | Fribzel3D/Fribzel3D/Management/ResourceManager.cs:227-240 | Validating twice is validating once. |
| ConfigCodec.CommentByFirstChars | Fribzel3D/Fribzel3D/Management/ResourceManager.cs:180 | A line starting with `//` is a comment. |
| ConfigCodec.MouseTokenRecognised | Fribzel3D/Fribzel3D/Management/ResourceManager.cs:207-214 | Each mouse token is recognised as its own mouse button. |
| ConfigCodec.CreateButtonFromText | Fribzel3D/Fribzel3D/Management/ResourceManager.cs:205-225 | An exact mouse token gives that mouse button's button. Otherwise a key name, in any case, gives that key's button. Any other text gives the unbound button. A flag is set only for the exact mouse token, and a key only for the text's parse. |
| ConfigCodec.AddButton | Fribzel3D/Fribzel3D/Management/ResourceManager.cs:192-203 | An unknown action name leaves the table alone. A known name with a token whose button is bound gets that button appended to its list. Nothing else changes in any case. |
| ConfigCodec.AddTokensExtends | Fribzel3D/Fribzel3D/Management/ResourceManager.cs:185-188 | Adding a line's tokens only appends bound, well-formed buttons to the lists. |
| ConfigCodec.LoadLinesExtends | Fribzel3D/Fribzel3D/Management/ResourceManager.cs:175-190 | Loading any lines only appends bound, well-formed buttons to the lists. |
| ConfigCodec.LoadLinesConcat | Fribzel3D/Fribzel3D/Management/ResourceManager.cs:180-189 | Loading two blocks of lines is loading the first, then the second. |
| ConfigCodec.BoundButtons | Fribzel3D/Fribzel3D/Management/ResourceManager.cs:286-303 | The buttons a saved line lists are exactly the bound ones. |
| ConfigCodec.BoundButtonsCount | Fribzel3D/Fribzel3D/Management/ResourceManager.cs:286-303 | Each bound button occurs as often as in the list. An unbound one does not occur. |
| ConfigCodec.BoundButtonsConcat | Fribzel3D/Fribzel3D/Management/ResourceManager.cs:286-303 | The bound buttons keep the list's order: those of two lists are the first list's, then the second's. |
| ConfigCodec.CommentBlock | Fribzel3D/Fribzel3D/Management/ResourceManager.cs:308-322 | The kept block is the longest prefix made only of comments. |
| ConfigCodec.SaveConfig | Fribzel3D/Fribzel3D/Management/ResourceManager.cs:278-306 | The default file is untouched, and a configuration is written. |
| ConfigCodec.CommentsPreserved | Fribzel3D/Fribzel3D/Management/ResourceManager.cs:278-322 | Saving keeps the existing leading comment block exactly. |
| ConfigRoundTrip.ButtonTextRoundTrip | Fribzel3D/Fribzel3D/Management/ResourceManager.cs:205-225 | A bound button's saved text, upper-cased as the loader does, parses back to that button. |
| ConfigRoundTrip.ButtonNameIsToken | Fribzel3D/Fribzel3D/Management/Button.cs:79-106 | A bound button's text is non-empty and free of white space, `:` and `,`, so it survives a configuration line. |
| ConfigRoundTrip.ParseBindingLine | Fribzel3D/Fribzel3D/Management/ResourceManager.cs:180-186 | The loader splits `name:rest` into the upper-cased name and the upper-cased, white-space-free tokens of `rest`. |
| ConfigRoundTrip.ReadSavedLine | Fribzel3D/Fribzel3D/Management/ResourceManager.cs:180-186 | The loader reads a saved line `name:\tb1,\tb2…` as a binding line for the upper-cased name. Its tokens are the bound buttons' upper-cased names, or one empty token when none is bound. |
| ConfigRoundTrip.SavedTokens | Fribzel3D/Fribzel3D/Management/ResourceManager.cs:286-303 | The saved `,\t` list splits back into the upper-cased names. An empty list gives one empty token. |
| ConfigRoundTrip.EmptyTokenIgnored | Fribzel3D/Fribzel3D/Management/ResourceManager.cs:192-225 | The empty token of a line with no buttons adds nothing. |
| ConfigRoundTrip.LoadActionLine | Fribzel3D/Fribzel3D/Management/ResourceManager.cs:175-203 | Loading the line saved for an action appends that action's bound buttons, in order, to its list and changes no other list. |
| ConfigRoundTrip.LoadComments | Fribzel3D/Fribzel3D/Management/ResourceManager.cs:180 | Comment lines load nothing. |
| ConfigRoundTrip.LoadSavedLines | Fribzel3D/Fribzel3D/Management/ResourceManager.cs:175-190 | Comments, then one saved line per action, load into an empty table as the table with unbound buttons dropped. |
| ConfigRoundTrip.SaveLoadRoundTrip | Fribzel3D/Fribzel3D/Management/ResourceManager.cs:175-190 | After saving, validation leaves the files alone, and loading into empty lists gives back every action's bound buttons in order. |
| ConfigRoundTrip.BoundButtonsIdempotent | Fribzel3D/Fribzel3D/Management/ResourceManager.cs:286-303 | Dropping unbound buttons twice is dropping them once. |
| ConfigRoundTrip.ActionLinesBoundOnly | Fribzel3D/Fribzel3D/Management/ResourceManager.cs:286-303 | The saved lines do not depend on unbound buttons. |
| ConfigRoundTrip.ResaveIsIdentity | Fribzel3D/Fribzel3D/Management/ResourceManager.cs:278-306 | Loading a saved configuration and saving again reproduces the same files. |
| ConfigRoundTrip.LoadKeyLine | Fribzel3D/Fribzel3D/Management/ResourceManager.cs:175-203 | A line `name:k1[,k2]` of key names, in any case, appends those key buttons to the named action. |
| ConfigRoundTrip.DefaultLinesLoaded | Fribzel3D/Fribzel3D/Management/ResourceManager.cs:242-254 | Loading the generated default lines appends each action's default buttons to its list. |
| ConfigRoundTrip.DefaultBootstrap | Fribzel3D/Fribzel3D/Management/ResourceManager.cs:227-254 | With no files at all, validation generates the default lines, and they load into Up → Up, W; Down → Down, S; Left → Left, A; Right → Right, D; Back → Escape; Accept → Enter. |
| ResourceManager.GetValidInputActions | Fribzel3D/Fribzel3D/Management/ResourceManager.cs:57-67 | Each enumeration name parses back, giving every action in declaration order. |
| ResourceManager.BuildActionLine | Fribzel3D/Fribzel3D/Management/ResourceManager.cs:288-302 | The loop with the `added` flag builds exactly the saved line: name, `:\t`, and the bound buttons joined by `,\t`. |
| ResourceManager.AppendCommentsFromConfigFile | Fribzel3D/Fribzel3D/Management/ResourceManager.cs:308-322 | The loop copies exactly the leading comment block. |
| ResourceManager.BuildActionLines | Fribzel3D/Fribzel3D/Management/ResourceManager.cs:286-303 | One saved line per action, in order. |
| ResourceManager.RM.constructor | Fribzel3D/Fribzel3D/Management/ResourceManager.cs:45-51 | The table has an empty list for every action. |
| ResourceManager.RM.AddKey | Fribzel3D/Fribzel3D/Management/ResourceManager.cs:74-77 | The button is appended to the action's list, and every other list is kept. |
| ResourceManager.RM.InsertKey | Fribzel3D/Fribzel3D/Management/ResourceManager.cs:85-102 | The action's list becomes its `InsertSpec` image, whose reserved-slot and growth properties are proved. Other lists are kept. |
| ResourceManager.RM.IsActive | Fribzel3D/Fribzel3D/Management/ResourceManager.cs:109-170 | The early-return loop answers exactly whether some button of the action answers the query. |
| ResourceManager.RM.GetButtons | Fribzel3D/Fribzel3D/Management/ResourceManager.cs:261-264 | The result is the action's list. |
| ResourceManager.RM.GetFirstMappedButton | Fribzel3D/Fribzel3D/Management/ResourceManager.cs:266-273 | The result is the first slot's text, or `<EMPTY>` when the list is empty. |
| ResourceManager.RM.AddButton | Fribzel3D/Fribzel3D/Management/ResourceManager.cs:192-203 | The table becomes the `ConfigCodec.AddButton` image. |
| ResourceManager.RM.ConfigureKeys | Fribzel3D/Fribzel3D/Management/ResourceManager.cs:175-190 | The files are validated first. Then the nested loops load the configuration's lines onto the current table, exactly as `LoadLines`. |
| ResourceManager.RM.SaveConfig | Fribzel3D/Fribzel3D/Management/ResourceManager.cs:278-306 | The files become the `ConfigCodec.SaveConfig` image, whose round trip is proved. |
| Screens.CycleIndex | Fribzel3D/Fribzel3D/Screens/Screen.cs:21-24 | Below zero gives `max`, above `max` gives `min`, and anything else is kept. |
| Screens.CycleStaysInRange | Fribzel3D/Fribzel3D/Screens/Screen.cs:21-24 | One step either way from an index in `[0, max]` stays in range, wrapping at both ends. |
| Screens.CycleInverse | Fribzel3D/Fribzel3D/Screens/Screen.cs:21-24 | A step back and a step forward cancel out, in either order. |
| Screens.CycleIgnoresMin | Fribzel3D/Fribzel3D/Screens/Screen.cs:21-24 | A value between 0 and a non-zero `min` is returned as is, below `min`. |
| Screens.CycleNegativeMax | Fribzel3D/Fribzel3D/Screens/Screen.cs:21-24 | With a negative `max` the result is out of range for every input. |
| Screens.Navigate | Fribzel3D/Fribzel3D/Screens/ControlScreen.cs:133-208 | The cursor stays on the grid. Without focus, only a moving pointer over a cell moves it, to that cell. |
| Screens.OppositeArrowsCancel | Fribzel3D/Fribzel3D/Screens/ControlScreen.cs:149-171 | Left and Right pressed in one frame leave the column where the pointer put it. Up and Down pressed in one frame leave the row. Each axis holds on its own. |
| Screens.NavigatePointerFirst | Fribzel3D/Fribzel3D/Screens/ControlScreen.cs:133-147 | The pointer is applied before the arrow keys. |
| Screens.Capture | Fribzel3D/Fribzel3D/Screens/ControlScreen.cs:223-252 | A single newly pressed key other than Backspace is captured as that key's button. Backspace alone is captured as the unbound button. A captured key is always the only newly pressed key. Nothing is captured without focus. |
| Screens.CaptureKeyFirst | Fribzel3D/Fribzel3D/Screens/ControlScreen.cs:210-252 | A single newly pressed key wins over any mouse button. Otherwise the first newly pressed mouse button is taken. |
| Screens.BackspaceClears | Fribzel3D/Fribzel3D/Screens/ControlScreen.cs:226-229 | Backspace writes the unbound button into a non-reserved slot. |
| Screens.CaptureLandsAt | Fribzel3D/Fribzel3D/Screens/ControlScreen.cs:223-252 | A captured button lands in the selected slot, or at the end of a shorter list. |
| Screens.UnfocusedCapturesNothing | Fribzel3D/Fribzel3D/Screens/ControlScreen.cs:223-252 | Without focus nothing is captured. |
| Screens.Column | Fribzel3D/Fribzel3D/Screens/ControlScreen.cs:86-119 | A grid cell shows `<EMPTY>` exactly when the slot is missing or unbound. |
| Screens.GridSnoc | Fribzel3D/Fribzel3D/Screens/ControlScreen.cs:86-119 | Appending an action adds its name and its three slot labels to the grid. |
| Screens.ControlScreen.constructor | Fribzel3D/Fribzel3D/Screens/ControlScreen.cs:19-35 | The screen starts with an empty grid, the cursor at the origin, and navigation mode. |
| Screens.ControlScreen.Show | Fribzel3D/Fribzel3D/Screens/ControlScreen.cs:37-43 | Pointer snapping is switched off and the grid is built. |
| Screens.ControlScreen.CreateControls | Fribzel3D/Fribzel3D/Screens/ControlScreen.cs:48-61 | The grid is rebuilt from the table, one row per action. |
| Screens.ControlScreen.AppendInputActions | Fribzel3D/Fribzel3D/Screens/ControlScreen.cs:86-119 | One row is appended: the action's name and the labels of its first three slots. |
| Screens.ControlScreen.Update | Fribzel3D/Fribzel3D/Screens/ControlScreen.cs:121-131 | In navigation mode: cursor as `Navigate`; a left click on a cell or Enter starts rebinding; Escape saves and leaves. In rebinding mode: Escape cancels; a capture is inserted into the selected slot via `InsertSpec`; otherwise it keeps waiting. Except after a capture, the table and the grid (names and slot texts) are unchanged. A grid that showed the table still shows it after any frame. |
| Screens.ControlScreen.UpdateNavigating | Fribzel3D/Fribzel3D/Screens/ControlScreen.cs:133-147 | As the navigation half of `Update`. |
| Screens.ControlScreen.HandleMouseInput | Fribzel3D/Fribzel3D/Screens/ControlScreen.cs:173-208 | The cursor follows a moving pointer onto the hovered cell. |
| Screens.ControlScreen.HandleKeyboardInput | Fribzel3D/Fribzel3D/Screens/ControlScreen.cs:149-171 | The arrows move the cursor with wrap-around. Escape saves the configuration and reports going back. |
| Screens.ControlScreen.UpdateRebinding | Fribzel3D/Fribzel3D/Screens/ControlScreen.cs:210-221 | As the rebinding half of `Update`. Escape changes only the mode. While waiting, nothing changes. A grid that showed the table still shows it. |
| Screens.ControlScreen.RebindKey | Fribzel3D/Fribzel3D/Screens/ControlScreen.cs:223-240 | The method succeeds exactly when one key is newly pressed, and then inserts that key's button into the selected slot. Backspace inserts the unbound button. |
| Screens.ControlScreen.RebindMouse | Fribzel3D/Fribzel3D/Screens/ControlScreen.cs:242-252 | The method succeeds exactly when a mouse button is newly pressed, and then inserts the first one. Otherwise neither the screen nor the table changes. |
| Screens.ControlScreen.SelectedValidKey | Fribzel3D/Fribzel3D/Screens/ControlScreen.cs:254-258 | Rebinding mode ends and the grid is rebuilt. |
| Legacy.LAddKey | Fribzel3D/Fribzel3D/ManagementHelpers.cs:83-94 | The name is upper-cased. A known, non-blank name gets the button appended. Anything else leaves the dictionary alone. The key set never changes. |
| Legacy.LegacyButton | Fribzel3D/Fribzel3D/ManagementHelpers.cs:305-335 | A token fails exactly when it is neither a mouse token nor a key name (`Enum.Parse` throws). |
| Legacy.LLoadLines | Fribzel3D/Fribzel3D/ManagementHelpers.cs:275-339 | The key set never changes. |
| Legacy.LAddTokensOk | Fribzel3D/Fribzel3D/ManagementHelpers.cs:305-336 | A line's tokens load completely exactly when every token is a mouse token or a key name. |
| Legacy.LAddTokensAppend | Fribzel3D/Fribzel3D/ManagementHelpers.cs:305-336 | Tokens that all parse append their buttons, in order, to the upper-cased name's list. This happens when that name is known and not blank; otherwise nothing changes. |
| Legacy.LLoadLinesOk | Fribzel3D/Fribzel3D/ManagementHelpers.cs:298-337 | The legacy load completes exactly when every binding line has only tokens that are mouse tokens or key names. |
| Legacy.LegacyButtonText | Fribzel3D/Fribzel3D/ManagementHelpers.cs:305-331 | A bound button's saved text, upper-cased, parses back to that button in the legacy loader. |
| Legacy.LegacyLoadKeyLine | Fribzel3D/Fribzel3D/ManagementHelpers.cs:298-337 | A line `name:k1,k2…` of key names, in any case, loads completely. It appends those keys' buttons to the upper-cased name's list when that name is a key of the dictionary. |
| Legacy.LegacySavedLineLoads | Fribzel3D/Fribzel3D/ManagementHelpers.cs:298-395 | A saved line with at least one bound button loads completely. It appends exactly its bound buttons, in order, to the upper-cased name's list. |
| Legacy.LLoadLinesGrows | Fribzel3D/Fribzel3D/ManagementHelpers.cs:275-339 | Loading only appends to the lists, whether or not it aborts. |
| Legacy.LegacyIsVersusIs | Fribzel3D/Fribzel3D/ManagementHelpers.cs:133-270 | A legacy answer is the current answer, plus a spurious one when the button has no key and the None key answers. |
| Legacy.LegacyMouseButtonAlwaysUp | Fribzel3D/Fribzel3D/ManagementHelpers.cs:169-198 | A left-mouse binding reports Up while the left button is held. |
| Legacy.LegacyEmptyLineAborts | Fribzel3D/Fribzel3D/ManagementHelpers.cs:305-337 | A saved line with no bound button makes the load abort, whatever follows it. |
| Legacy.LegacySavedLineRead | Fribzel3D/Fribzel3D/ManagementHelpers.cs:375-392 | The legacy loader reads the saved line of a key as a binding line for that key, upper-cased. Its tokens are the upper-cased names of the key's bound buttons, or one empty token when none is bound. |
| Legacy.RM.constructor | Fribzel3D/Fribzel3D/ManagementHelpers.cs:45-51 | The keys are the upper-cased names, each with an empty list. |
| Legacy.RM.AddKey | Fribzel3D/Fribzel3D/ManagementHelpers.cs:83-94 | The dictionary becomes its `LAddKey` image. |
| Legacy.RM.InsertKey | Fribzel3D/Fribzel3D/ManagementHelpers.cs:102-126 | An unknown name changes nothing. A known one's list becomes its `InsertSpec` image. |
| Legacy.RM.IsActive | Fribzel3D/Fribzel3D/ManagementHelpers.cs:133-270 | The answer is whether some button of the list answers under the legacy predicate. |
| Legacy.RM.GetButtons | Fribzel3D/Fribzel3D/ManagementHelpers.cs:348-351 | The result is the list under the upper-cased name. |
| Legacy.RM.ConfigureKeys | Fribzel3D/Fribzel3D/ManagementHelpers.cs:275-339 | The files are validated. The dictionary and the success flag are those of `LLoadLines`, which stops at the first unparsable token. |
| Legacy.RM.SaveConfig | Fribzel3D/Fribzel3D/ManagementHelpers.cs:356-395 | The comment block, then one line per key in key order. |

## Left out

- File I/O: `File.Exists`, `ReadAllLines`, `WriteAllText` and `Copy` act on a `Files` value. Reading back written text is taken to give the written lines.
- Device sampling (`Keyboard.GetState`, `Mouse.GetState`), `Mouse.SetPosition`, the window size and the focus flag are parameters of `IM`.
- The `Keys` enumeration is a finite subset of its names. Numeric strings, which `Enum.Parse` also accepts, are not modelled.
- `InputAction` is not part of this model's sources. It is taken to be Up, Down, Left, Right, Back, Accept, in the order of the default configuration.
- Upper-casing folds ASCII letters only. The culture-sensitive `StartsWith("//")` of the legacy saver (`ManagementHelpers.cs:364`) is treated as ordinal.
- A null `Button` is `Option.None`.
- Bindings.ParseAction: accepts only the six action names, in any case. `Enum.TryParse<InputAction>` also accepts:
  - numeric strings, so `0:W` binds W to the action of value 0, and an undefined value such as `7:W` parses and then makes `AddKey` throw `KeyNotFoundException`;
  - comma-joined names such as `UP,DOWN`, which it ORs.
  The model rejects all three forms.
- Legacy.RM.IsActive: requires a known name. The source throws `KeyNotFoundException` on an unknown one; that exception is not modelled.
- Legacy.RM.GetButtons: requires a known name. The source throws `KeyNotFoundException` on an unknown one; that exception is not modelled.
- Legacy.RM.constructor: requires names that stay distinct after upper-casing. `Dictionary.Add` throws on a repeated one; that exception is not modelled.
- A negative `InsertKey` position, which throws in the source, is excluded by the `nat` type.
- Legacy `GetValidInputStrings` uses reflection over the game's types. The legacy constructor takes the names as a parameter instead.
- The legacy `IM` in `ManagementHelpers.cs` is the same input manager as `Management/InputManager.cs`. It is modelled once, as `InputState`.
- `ControlScreen` drawing, fonts, layout and hit testing are not modelled. The hovered cell is a parameter `hit`.
- The transition to the previous screen in `ControlScreen` is the `back` result.
- `IsMouseVisible` is not modelled.
- `MouseDelta.Length() > 0` is modelled as a non-zero delta vector.
- Frame timing (`GameTime`) is not modelled.
- A `Dictionary`'s key enumeration is taken to follow insertion order. `SaveConfig` in both generations therefore writes the actions in the order the static constructor added them.

## Findings

| source | as written | input that shows it | evidently intended | confidence | as-written member | corrected member |
|---|---|---|---|---|---|---|
| Fribzel3D/Fribzel3D/ManagementHelpers.cs:169-198 | The legacy `IsUp` (and `IsDown`) consults `IM.IsKeyUp(key)` even when the button has no key (`Keys.None`). | Button LeftMouse, left mouse button held, `Keys.None` not held: `IsUp` answers true. | A key-less button answers only through its mouse flags, as `Management/Button.cs` does with its `key != Keys.None` guard. | not executed | Legacy.LegacyMouseButtonAlwaysUp | Buttons.Button.Is |
| Fribzel3D/Fribzel3D/ManagementHelpers.cs:356-395 | The legacy saver writes `Name:\t` for an action with no bound button. The legacy loader then calls `Enum.Parse` on the empty token, which throws and aborts the load. | Save a table whose Back list is empty, then load it: the load stops at the `BACK:` line. | Saving then loading gives back the bound buttons, as the `Management` loader does by dropping the unbound button the empty token makes. | not executed | Legacy.LegacyEmptyLineAborts | ConfigRoundTrip.SaveLoadRoundTrip |
