# PlayerList rich text and key bindings, modelled in Dafny

This project models four parts of the PlayerList mod's utility code.

- **The tree-based rich-text parser** (`XMLParser`, `Formatting.Clone`, `TextSegmentFlattener`):
  - reads TextMeshPro-style markup into a `RichTextNode` tree;
  - keeps unknown tags and malformed elements as literal text;
  - flattens the tree into `TextSegment`s, each carrying the formatting in force.
- **The single-pass markup parser** (`TextStyle.Clone`, `MarkupParser.Parse`, `ParseInternal`, `CreateTextSegment`, `ParseColor`):
  - walks the input once, with a recursive call per opening tag;
  - emits text and sprite segments;
  - throws where `int.Parse` and `Convert.FromHexString` throw.
- **`KeyMapper`**:
  - the ImGui-name-to-Unity-`KeyCode` table;
  - the reverse table its static constructor builds, where the first row for a code wins;
  - the two conversions.
- **`InputsManager`**:
  - the blacklisted and modifier key lists;
  - `ShouldCancel`, which decides whether a hotkey's required modifiers are held;
  - `GetKeybind`, which captures a new keybind from the keys ImGui reports down.

## How the code is modelled

Each parser is a class whose methods move a cursor (`pos`) over the input, with loops and early exits as in the source. Every method is proved equal to a functional specification on the input string: `ParseNodesSpec`, `ParseElementSpec`, `Level`, `TagStep`, and so on. The properties are lemmas about those functions:
- where a tag is rolled back as literal text;
- what a closing tag does at top level;
- that every flag set above a node is set in all its segments;
- that no text segment is empty;
- that the text of the segments is the input with the tags taken out;
- worked examples;
- the error cases.

.NET library behaviour is written out in `DotNetText`:
- `IndexOf`, `Trim`, `Split`, `Replace`, `StartsWith`;
- `int.Parse` and `int.TryParse`, with Int32 bounds and the trailing run of '\0' characters .NET accepts;
- `Convert.FromHexString` and `Convert.ToInt32(_, 16)`.

Exceptions are `Failure` values of a `Result`.

Colours (`System.Numerics.Vector4`) have exact channels: a byte over 255, or one of the two float literals of the name tables.

Unity's `KeyCode` and ImGui's `ImGuiKey` are int enumerations. The named values used here follow `UnityEngine.KeyCode` and Dear ImGui's `imgui.h` (1.91 numbering). Neither of those files is part of this model. For `ImGuiKey`, only the order of the values and the range `[NamedKeyBegin, NamedKeyEnd)` matter.

## Model

| member | source | states |
|---|---|---|
| XmlParsing.XMLParser.Parse | src/Utils/XMLParser.cs:65 | the segments are the flattened nodes read from the cursor |
| XmlParsing.XMLParser.ParseNodes | src/Utils/XMLParser.cs:70-135 | the nodes read and the new cursor are ParseNodesSpec's, and the cursor stays in the input |
| XmlParsing.XMLParser.PeekTagName | src/Utils/XMLParser.cs:141-161 | the name is TagNameFrom at the cursor and the cursor does not move |
| XmlParsing.XMLParser.ConsumeUnknownTag | src/Utils/XMLParser.cs:167-188 | moves to UnknownTagEnd and returns exactly the text passed over |
| XmlParsing.XMLParser.PeekTagNameFrom | src/Utils/XMLParser.cs:193-211 | the result is TagNameFrom at the given position |
| XmlParsing.XMLParser.ParseElement | src/Utils/XMLParser.cs:216-300 | the element and the new cursor are ParseElementSpec's; on failure the cursor is put back |
| XmlParsing.XMLParser.ParseOpeningTag | src/Utils/XMLParser.cs:218-256 | the opening tag read is OpeningTagAt, and the cursor is at its content |
| XmlParsing.XMLParser.ParseAttribute | src/Utils/XMLParser.cs:234-241 | the attribute read and the cursor are AttributeAt's |
| XmlParsing.XMLParser.ParseNoparseContent | src/Utils/XMLParser.cs:264-280 | the content is the raw text up to the first `</` whose whole name is noparse, ignoring case, or to the end; then that closing tag is consumed (`</noparsed>` does not end it) |
| XmlParsing.XMLParser.ParseText | src/Utils/XMLParser.cs:121-126 | reads exactly the run of characters up to the next '<' |
| XmlParsing.XMLParser.TryConsumeClosingTag | src/Utils/XMLParser.cs:305-332 | succeeds and moves past `</name>` exactly as ClosingTag says; on failure the cursor stays after the leading white space |
| XmlParsing.XMLParser.ParseQuotedValue | src/Utils/XMLParser.cs:334-347 | the text between the quotes, or null with the cursor at the end when no quote closes it |
| XmlParsing.XMLParser.ParseUnquotedValue | src/Utils/XMLParser.cs:349-356 | the text up to white space or '>' |
| XmlParsing.XMLParser.SkipWhitespace | src/Utils/XMLParser.cs:358-362 | the cursor moves to the end of the white-space run |
| XmlParsing.XMLParser.SkipWhitespaceAt | src/Utils/XMLParser.cs:364-368 | returns the end of the white-space run at the given position |
| XmlProperties.TagNameFromSpec | src/Utils/XMLParser.cs:193-211 | a name is found exactly when a letter or digit follows `<` or `</`, and it is the whole run of them |
| XmlProperties.UnknownTagEndSpec | src/Utils/XMLParser.cs:167-188 | a literal tag runs through its '>', and through a later `</name>` when there is one |
| XmlProperties.OpeningTagAtSpec | src/Utils/XMLParser.cs:218-256 | an opening tag starts with '<' and ends with '>', and its name is the whole run of letters and digits |
| XmlProperties.ClosingTagSpec | src/Utils/XMLParser.cs:305-332 | a closing tag is consumed only when its name equals the element's, ignoring case, and it ends with '>' |
| XmlProperties.NoparseEndSpec | src/Utils/XMLParser.cs:266-276 | noparse content ends at the first `</` followed by the whole name noparse, ignoring case, or at the end of the input; a longer name such as `</noparsed>` is content |
| XmlProperties.MissingCloseBracketRollsBack | src/Utils/XMLParser.cs:250-255 | an opening tag with no '>' after it fails and puts the cursor back |
| XmlProperties.UnterminatedQuoteRollsBack | src/Utils/XMLParser.cs:234-255 | an attribute whose quote is never closed makes the element fail and puts the cursor back |
| XmlProperties.UnclosedElementRollsBack | src/Utils/XMLParser.cs:293-298 | an element whose content runs to the end of the input fails and puts the cursor back |
| XmlProperties.MismatchedClosingRollsBack | src/Utils/XMLParser.cs:284-291 | an element ended by another name's closing tag fails and puts the cursor back |
| XmlProperties.RolledBackIsLiteral | src/Utils/XMLParser.cs:106-110 | what ParseElement rolls back is read again as literal text |
| XmlProperties.NodeAtNone | src/Utils/XMLParser.cs:76-118 | a turn of ParseNodes reads nothing exactly at an allowed closing tag, and otherwise moves on |
| XmlProperties.ParseNodesSpecEnd | src/Utils/XMLParser.cs:74-128 | ParseNodes stops only at the end of the input or at an allowed closing tag |
| XmlProperties.PlainTextNodes | src/Utils/XMLParser.cs:119-127 | text without '<' is one text node, and empty input gives no node |
| XmlProperties.TopLevelClosingDropsRest | src/Utils/XMLParser.cs:79-87 | after plain text, an allowed closing tag stops the parse, and everything after it is dropped |
| XmlProperties.WellFormedElement | src/Utils/XMLParser.cs:216-300 | `<name>` content `</name>` is read as that element holding that content |
| XmlProperties.NestedExampleTree | src/Utils/XMLParser.cs:70-300 | `<b>A<i>B</i>C</b>D` is read as b(A, i(B), C) followed by D |
| XmlProperties.ElementFormatting | src/Utils/XMLParser.cs:451-479 | children get the parent's formatting with Rotate reset to 0, plus the one property their tag sets, ignoring case: b, i, u or s its flag, size the attribute, color the colour ParseColor reads from the attribute, rotate the Int32 int.Parse reads from it |
| XmlProperties.NodesSegmentsAppend | src/Utils/XMLParser.cs:432-483 | flattening two sibling lists is flattening the first and then the second, stopping at the first exception |
| XmlProperties.NestedExample | src/Utils/XMLParser.cs:65 | `<b>A<i>B</i>C</b>D` flattens to A bold, B bold and italic, C bold, and D plain |
| XmlProperties.PlainTextOneSegment | src/Utils/XMLParser.cs:65 | input without '<' is one segment with the initial formatting, and empty input gives none |
| XmlProperties.EmptyElementNoSegments | src/Utils/XMLParser.cs:432-483 | an element with no children emits no segment |
| XmlProperties.NodesSegmentsNonEmpty | src/Utils/XMLParser.cs:432-483 | every segment the flattener emits has nonempty text |
| XmlProperties.NodesSegmentsKeepFlags | src/Utils/XMLParser.cs:432-483 | bold, italic, underline and strikethrough set above a node are set in every segment below it |
| XmlProperties.NamedColors | src/Utils/XMLParser.cs:485-497 | the six colour names match exactly, with alpha 1; the same name in another case is not matched |
| XmlProperties.HexColor | src/Utils/XMLParser.cs:499-517 | `#` and the hex of three bytes or more gives the first three over 255 with alpha 1; further bytes are ignored |
| XmlProperties.HashColor | src/Utils/XMLParser.cs:499-508 | any `#` string whose hex decodes to three bytes or more is the colour of the first three |
| XmlProperties.OtherColorIsZero | src/Utils/XMLParser.cs:499-517 | any other string without '#' gives the zero vector |
| XmlProperties.BadColorsThrow | src/Utils/XMLParser.cs:499-517 | a null colour throws NullReferenceException; `#` with malformed hex throws FormatException, and with fewer than three bytes IndexOutOfRangeException |
| XmlProperties.BadRotateThrows | src/Utils/XMLParser.cs:474-476 | `rotate` with no value or with a value that is not an Int32 throws |
| XmlFlatten.FlattenNode | src/Utils/XMLParser.cs:432-483 | the list after the call is the list before it plus NodeSegments, or the exception |
| XmlFlatten.Flatten | src/Utils/XMLParser.cs:420-430 | the segments are Flattened of the root's children |
| XmlFlatten.Clone | src/Utils/XMLParser.cs:404-412 | the copy has Rotate 0 and every other property of the original |
| XmlFlatten.ParseColor | src/Utils/XMLParser.cs:485-497 | throws exactly for a null colour or a `#` string with bad hex or fewer than three bytes; otherwise the colour is opaque or the zero vector |
| XmlFlatten.ParseColorFallback | src/Utils/XMLParser.cs:499-517 | the same exceptions; otherwise an opaque colour from `#` hex, or the zero vector |
| XmlFlatten.ApplyTag | src/Utils/XMLParser.cs:451-479 | only color and rotate, ignoring case, can throw; a tag never clears bold, italic, underline or strikethrough |
| XmlText.NodesSegmentsText | src/Utils/XMLParser.cs:432-483 | when flattening succeeds, the segments' text is the text of the nodes in order |
| XmlText.NodesLayout | src/Utils/XMLParser.cs:70-135 | the input ParseNodes consumes splits into pieces that join back to it exactly; the dropped ones are tags, and the kept ones are the text of the nodes |
| XmlText.NodeLayout | src/Utils/XMLParser.cs:76-127 | the same for one node |
| XmlText.ElementLayout | src/Utils/XMLParser.cs:216-300 | the same for one element: its opening and closing tags are dropped, its content is kept as its children's text |
| XmlText.XmlTextKept | src/Utils/XMLParser.cs:65 | the text of the segments is the consumed input with the tags taken out, so it is a subsequence of the input |
| XmlText.PrefixCanChangeParse | src/Utils/XMLParser.cs:79-116 | `<b><x></b></b></x>` stops at index 10 with one literal segment, yet its first ten characters parse to other segments: the parse of the consumed prefix is not always the parse of the input |
| MarkupParsing.CloneStyle | src/Utils/RichTextParser.cs:47-62 | the clone has every property of the original, Rotate and CSpace included |
| MarkupParsing.CreateTextSegment | src/Utils/RichTextParser.cs:234-251 | the segment holds the text, is not a sprite, and has every property of the style |
| MarkupParsing.SpriteSegment | src/Utils/RichTextParser.cs:126-141 | a sprite segment has no text, the given index, and every property of the style |
| MarkupParsing.MarkupParser.Parse | src/Utils/RichTextParser.cs:71-77 | the segments are Level's from the cursor under the default style, after those already gathered, or the exception |
| MarkupParsing.MarkupParser.ParseInternal | src/Utils/RichTextParser.cs:80-232 | the segments added and the new cursor are Level's, or the exception Level throws |
| MarkupParsing.MarkupParser.ParseTag | src/Utils/RichTextParser.cs:86-219 | one tag handled as TagStep says: the segments it adds, where the cursor goes, and whether the level stops |
| MarkupParsing.MarkupParser.FlushText | src/Utils/RichTextParser.cs:89-93 | a segment is added for the pending text only when it is nonempty |
| MarkupParsing.MarkupParser.SpriteIndexOf | src/Utils/RichTextParser.cs:116-125 | the index is SpriteIndex of the tag text |
| MarkupProperties.MarkupPlainText | src/Utils/RichTextParser.cs:221-231 | input without '<' is one segment with the default style, and empty input gives none |
| MarkupProperties.TextThenTag | src/Utils/RichTextParser.cs:86-93 | text up to a '<' is flushed as one segment before the tag is handled |
| MarkupProperties.AnyClosingEndsLevel | src/Utils/RichTextParser.cs:96-104 | a closing tag ends the level whatever its name, after flushing the pending text |
| MarkupProperties.UnterminatedEndsLevel | src/Utils/RichTextParser.cs:108-109 | an opening tag without '>' ends the level with the pending text flushed |
| MarkupProperties.TopLevelClosingDropsRest | src/Utils/RichTextParser.cs:71-104 | after plain text, a closing tag ends the parse and the rest of the input is dropped |
| MarkupProperties.TagKindsExclusive | src/Utils/RichTextParser.cs:167-203 | a tag is at most one of b, i, u and s, and then it is none of the parameter tags |
| MarkupProperties.TagEffectFlags | src/Utils/RichTextParser.cs:167-182 | b, i, u and s, ignoring case, set exactly their flag |
| MarkupProperties.TagEffectParameters | src/Utils/RichTextParser.cs:184-203 | color=, size=, mark=, align= and rotate= set exactly their property from the rest of the tag; any other tag changes nothing |
| MarkupProperties.RotateQuoted | src/Utils/RichTextParser.cs:200-203 | `rotate="45"` sets Rotate to 45 once the quotes are removed |
| MarkupProperties.RotateInvalid | src/Utils/RichTextParser.cs:200-203 | `rotate=abc` throws FormatException |
| MarkupProperties.IndexSettingLast | src/Utils/RichTextParser.cs:118-125 | the sprite index is the one the last `index=` part sets |
| MarkupProperties.IndexSettingNone | src/Utils/RichTextParser.cs:116-125 | without an `index=` part the sprite index is 0 |
| MarkupProperties.SpriteIndexSetting | src/Utils/RichTextParser.cs:116-125 | `sprite index=n` has sprite index n for every Int32 n |
| MarkupProperties.LevelKeepsInvariant | src/Utils/RichTextParser.cs:80-232 | every text segment of a level is nonempty, and carries every flag of the level's style |
| MarkupProperties.TagStepKeepsInvariant | src/Utils/RichTextParser.cs:86-219 | the same for the segments a tag adds, nested levels included |
| MarkupProperties.NestedMarkupExample | src/Utils/RichTextParser.cs:80-232 | `<b>A<i>B</i>C</b>D` gives A bold, B bold and italic, C bold, and D plain |
| MarkupProperties.CrossedMarkupExample | src/Utils/RichTextParser.cs:96-104 | in `<b><i>X</b>Y</i>Z` the first closing tag ends the i level, whatever its name |
| MarkupProperties.NoparseKeepsText | src/Utils/RichTextParser.cs:146-161 | any text without `</noparse>` (ignoring case) between `<noparse>` and `</noparse>`, tags and closing tags included, is kept as is and joins the plain text after it |
| MarkupProperties.NoparseClosingTagExample | src/Utils/RichTextParser.cs:146-161 | `<noparse></b></noparse>x` is the one segment "</b>x": a closing tag inside noparse is text |
| MarkupProperties.NoparseMarkupExample | src/Utils/RichTextParser.cs:146-161 | `<noparse><b></noparse>x` is the one segment "<b>x" |
| MarkupProperties.SpriteMarkupExample | src/Utils/RichTextParser.cs:114-143 | `<sprite index=3>A` is a sprite with index 3, then the text "A" |
| MarkupProperties.HashColor | src/Utils/RichTextParser.cs:257-267 | `#` and the hex of three bytes or more gives the first three over 255 with alpha 1; further bytes are ignored |
| MarkupProperties.HashColorBytes | src/Utils/RichTextParser.cs:257-267 | any `#` string whose hex decodes to three bytes or more is the colour of the first three |
| MarkupProperties.SixHexDigits | src/Utils/RichTextParser.cs:283-287 | six characters without '#' are a colour exactly when all three pairs are hex (either case, or '+' and a digit), and then the pairs are its channels |
| MarkupProperties.SixCharsNotHexThrow | src/Utils/RichTextParser.cs:283-285 | six characters without '#' holding a character that is not a hex digit throw |
| MarkupProperties.LowerCaseHex | src/Utils/RichTextParser.cs:283-287 | `ff8000` reads as (255, 128, 0), the same as `FF8000` |
| MarkupProperties.HexPairsOfBytes | src/Utils/RichTextParser.cs:283-287 | the six hex digits of any three bytes give those bytes back |
| MarkupProperties.TableNames | src/Utils/RichTextParser.cs:269-280 | black, blue and green have their colours; red is (1, 0, 1, 1) as the table has it |
| MarkupProperties.SixLetterNamesThrow | src/Utils/RichTextParser.cs:269-285 | "orange" and "purple" are six characters long, so they are read as hex and throw |
| MarkupProperties.UnknownColorIsWhite | src/Utils/RichTextParser.cs:269-280 | any other string without '#' and not six characters long is white |
| MarkupProperties.BadHashColorThrows | src/Utils/RichTextParser.cs:257-267 | `#` with malformed hex throws FormatException, and with fewer than three bytes IndexOutOfRangeException |
| MarkupParsing.ParseColor | src/Utils/RichTextParser.cs:253-287 | a colour is always opaque; a `#` string with bad hex or too few bytes throws, and only `#` strings and six-character strings can throw |
| MarkupParsing.TagEffect | src/Utils/RichTextParser.cs:163-203 | only color= and rotate= can throw; a tag never clears a flag of the outer style, and CSpace is kept |
| MarkupText.LevelPrefix | src/Utils/RichTextParser.cs:80-232 | a level that stops at or before `m` gives the same result on the input cut at `m` |
| MarkupText.StopDropsRest | src/Utils/RichTextParser.cs:71-104 | cutting the input anywhere after the point where the top level stops does not change the parse |
| MarkupText.ClosingEndsParse | src/Utils/RichTextParser.cs:96-104 | whatever text and tags come before, a closing tag reached at top level ends the parse with the pending text flushed |
| MarkupText.UnterminatedDropsRest | src/Utils/RichTextParser.cs:108-109 | whatever comes before, an opening tag without '>' reached at top level ends the parse, and the result is the parse of the input before it |
| MarkupText.CascadeExample | src/Utils/RichTextParser.cs:106-110 | in `<b>x<y` the unterminated tag ends the bold level and then the top level: the result is "x" bold, as for `<b>x` |
| MarkupText.LevelLayout | src/Utils/RichTextParser.cs:80-232 | the input a level consumes splits into pieces that join back to it exactly; the dropped ones are tags, and the segments' text is the pending text and the kept pieces |
| MarkupText.TagStepLayout | src/Utils/RichTextParser.cs:86-219 | the same for one tag, its nested level included |
| MarkupText.MarkupTextKept | src/Utils/RichTextParser.cs:71-77 | the text of the segments is the consumed input with the tags taken out, so it is a subsequence of the input |
| DotNetText.IndexOfCharSpec | src/Utils/RichTextParser.cs:98 | IndexOf(char) is the first match at or after the start, or -1 when there is none |
| DotNetText.IndexOfIgnoreCaseSpec | src/Utils/RichTextParser.cs:149 | IndexOf(string, OrdinalIgnoreCase) is the first match ignoring case, or -1 |
| DotNetText.ParseInt32IgnoresTrailingNuls | src/Utils/XMLParser.cs:475 | int.Parse gives the same result with any run of '\0' characters appended |
| DotNetText.TrailingNulExamples | src/Utils/RichTextParser.cs:202 | "5\0" and "5 \0\0" parse to 5, while "5\0 " and "\0" throw FormatException |
| DotNetText.ParseInt32OfToString | src/Utils/RichTextParser.cs:202 | int.Parse reads back every Int32 written in decimal |
| DotNetText.FromHexStringOfToHexString | src/Utils/XMLParser.cs:503 | Convert.FromHexString reads back every byte string written as hex |
| DotNetText.SplitOnSpaceKeepsText | src/Utils/RichTextParser.cs:118 | splitting on spaces keeps every character except the spaces, in order |
| DotNetText.RemoveCharAbsent | src/Utils/RichTextParser.cs:202 | removing a character the string does not hold leaves the string unchanged |
| KeyMapping.ConvertImGuiToUnity | src/Utils/KeyMapper.cs:106 | a name gives None exactly when no row's name equals it ignoring case, and otherwise the code of a row whose name does |
| KeyMapping.LookupNameSpec | src/Utils/KeyMapper.cs:106 | over rows with no None code, the lookup is None exactly when no name matches, and otherwise a matching row's code |
| KeyMapping.LetterRows | src/Utils/KeyMapper.cs:53-59 | rows 32 to 57 of the table are the letters A to Z with Unity's letter codes |
| KeyMapping.LetterKeys | src/Utils/KeyMapper.cs:106 | a one-letter name in either case converts to Unity's code for that letter |
| KeyMapping.KeyMapper.constructor | src/Utils/KeyMapper.cs:94-100 | the reverse map is ReverseTable of the rows, whose domain and first-wins behaviour ReverseDomain, ReverseFirstWins and ReverseKeeps state |
| KeyMapping.LookupNameFirst | src/Utils/KeyMapper.cs:106 | a name converts to the code of the first row whose name equals it ignoring case |
| KeyMapping.LookupNameMissing | src/Utils/KeyMapper.cs:106 | a name that no row has converts to None |
| KeyMapping.LookupIgnoresCase | src/Utils/KeyMapper.cs:12 | names equal ignoring case convert to the same code |
| KeyMapping.ReverseDomain | src/Utils/KeyMapper.cs:94-100 | the reverse map holds exactly the codes of the rows |
| KeyMapping.ReverseFirstWins | src/Utils/KeyMapper.cs:94-100 | the first row with a code puts its name in the reverse map |
| KeyMapping.ReverseKeeps | src/Utils/KeyMapper.cs:94-100 | later rows never overwrite a code already in the reverse map |
| KeyMapping.TableCodesDistinct | src/Utils/KeyMapper.cs:12-88 | no two rows of the table map to the same Unity code |
| KeyMapping.NoneUnmapped | src/Utils/KeyMapper.cs:12-88 | no row maps to KeyCode.None |
| KeyMapping.KeyMapper.ConvertUnityToImGui | src/Utils/KeyMapper.cs:112 | a code gives the name of its row, and "None" for a code no row has |
| KeyMapping.RoundTrip | src/Utils/KeyMapper.cs:106-112 | a name in the table goes to Unity and back to the table's spelling, which equals it ignoring case |
| KeyMapping.UnmappedName | src/Utils/KeyMapper.cs:106-112 | an unknown name gives None, and None gives back "None" |
| KeyMapping.TabExample | src/Utils/KeyMapper.cs:15 | "tab" converts to Tab, and Tab converts back to "Tab" |
| Inputs.BlacklistedKeysAre | src/Utils/InputsManager.cs:11-26 | a key is blacklisted exactly when it is a mouse button or wheel, Tab, Enter, Keypad Enter or Caps Lock |
| Inputs.ModKeysAre | src/Utils/InputsManager.cs:27-40 | a key is a modifier key exactly when it is a Mod flag, a reserved Mod alias, a Super key or Print Screen |
| Inputs.KeyListsDisjoint | src/Utils/InputsManager.cs:11-40 | no key is in both lists, and Escape is in neither |
| Inputs.ShouldCancel | src/Utils/InputsManager.cs:51-65 | cancel exactly while a keybind is being set, or when a modifier the hotkey needs is not held |
| Inputs.CancelMonotone | src/Utils/InputsManager.cs:56-62 | holding more keys never turns a hotkey that is let through into a cancelled one |
| Inputs.EitherSideCounts | src/Utils/InputsManager.cs:56-58 | outside ImGui the left and the right key of each modifier pair count the same |
| Inputs.PlainKeyCancels | src/Utils/InputsManager.cs:54-64 | a hotkey with no modifiers is cancelled only while a keybind is being set |
| Inputs.FirstCapturableSpec | src/Utils/InputsManager.cs:88-100 | the scan finds the least capturable named key, or None when there is none |
| Inputs.GetKeybind | src/Utils/InputsManager.cs:86-106 | the key is the first named key that is down and not Escape, blacklisted or a modifier, with the Ctrl, Shift and Alt flags; with no such key everything is clear |
| Inputs.CapturedKeyAllowed | src/Utils/InputsManager.cs:11-40 | a captured key is never Escape, a blacklisted key or a modifier key |
| Inputs.CaptureIgnoresUnnamed | src/Utils/InputsManager.cs:88 | keys outside the named range, such as the Mod flags, never change which key is captured |
| Inputs.CapturedNotCancelled | src/Utils/InputsManager.cs:51-65 | a keybind just captured is not cancelled in ImGui mode by the same key state |

## Left out

- Logging (`Plugin.Log.LogInfo`) is not modelled. It has no effect on results.
- `RenderRichText` is not modelled. It draws through ImGui.
- `InputsManager.Update` and `DetectImGuiKeybinds` are not modelled. They read configuration and call UI and window code. This model keeps only `ShouldCancel` and `GetKeybind`.
- Key state is passed in rather than read:
  - `ConfigTab.CurrentlySettingKeybind != null` is a boolean parameter;
  - `ImGuiP.IsKeyPressed` and `ImGuiP.IsKeyDown` are sets of ImGui keys;
  - `Input.GetKey` is a set of Unity codes.
- `ImGuiKey.ToString()` is not modelled. `ConvertImGuiToUnity` takes the key's name as a string.
- Dictionary enumeration order is taken to be insertion order. The static constructor walks the table rows in the order the source lists them.
- No proof shows that the table's names are distinct ignoring case. A duplicate would throw in the dictionary initializer. The lookup takes the first matching row.
- Unity codes that the table does not mention are just other ints.
- Culture is not modelled: case-insensitive comparisons fold ASCII letters only. `char.IsLetterOrDigit` is taken over ASCII letters and digits.
- Floating point is not modelled. Colour channels are exact fractions, or the two literals 0.647f and 0.502f kept as named values.
- An exception is a `Failure` result. The state that the parser and the segment list are left in after an exception is not modelled. The source is never called again after one.
- The nullable `Color` of the markup parser's `TextSegment` is always set: `CreateTextSegment` and the sprite branch always copy the style's colour.
- The second `rotate=` branch of `ParseInternal` (lines 204-214) is unreachable, because the branch before it tests the same prefix. It is not modelled.
- `XMLParser.ParseNodes` and `ParseElement`: the helper methods `ParseText`, `ParseOpeningTag`, `ParseAttribute` and `ParseNoparseContent` are pieces of their bodies. They are not separate methods in the source.
- XmlProperties.TopLevelClosingDropsRest: states the drop only after plain text. The general form, that the parse of the input cut where the parse stops equals the parse of the whole input, is false: XmlText.PrefixCanChangeParse gives an input where a rolled-back literal tag read past the stopping point.
- MarkupProperties.TopLevelClosingDropsRest: states the drop only after plain text. The general forms are MarkupText.StopDropsRest and MarkupText.ClosingEndsParse.
- Inputs.CapturedNotCancelled: assumes that ImGui reports pressed the same keys it reported down. The model does not relate `IsKeyPressed` and `IsKeyDown` in general, because their timing is ImGui's.
