/**
 * KeyMapper: the table from ImGui key names to Unity key codes, the reverse
 * table the static constructor builds from it, and the two conversions.
 */
module KeyMapping {
  import DotNetText

  /**
   * Unity's KeyCode, an enumeration over int: the named codes below carry
   * the values UnityEngine.KeyCode gives them, and every other int is some
   * other Unity code.
   */
  type KeyCode = int

  const None: KeyCode := 0
  const Tab: KeyCode := 9
  const LeftArrow: KeyCode := 276
  const RightArrow: KeyCode := 275
  const UpArrow: KeyCode := 273
  const DownArrow: KeyCode := 274
  const PageUp: KeyCode := 280
  const PageDown: KeyCode := 281
  const Home: KeyCode := 278
  const End: KeyCode := 279
  const Insert: KeyCode := 277
  const Delete: KeyCode := 127
  const Backslash: KeyCode := 92
  const BackQuote: KeyCode := 96
  const Comma: KeyCode := 44
  const Period: KeyCode := 46
  const Slash: KeyCode := 47
  const Quote: KeyCode := 39
  const Semicolon: KeyCode := 59
  const ScrollLock: KeyCode := 302
  const Pause: KeyCode := 19
  const Backspace: KeyCode := 8
  const Space: KeyCode := 32
  const Return: KeyCode := 13
  const Escape: KeyCode := 27
  const LeftControl: KeyCode := 306
  const RightControl: KeyCode := 305
  const LeftShift: KeyCode := 304
  const RightShift: KeyCode := 303
  const LeftAlt: KeyCode := 308
  const RightAlt: KeyCode := 307
  const LeftCommand: KeyCode := 310
  const RightCommand: KeyCode := 309
  const A: KeyCode := 97
  const B: KeyCode := 98
  const C: KeyCode := 99
  const D: KeyCode := 100
  const E: KeyCode := 101
  const F: KeyCode := 102
  const G: KeyCode := 103
  const H: KeyCode := 104
  const I: KeyCode := 105
  const J: KeyCode := 106
  const K: KeyCode := 107
  const L: KeyCode := 108
  const M: KeyCode := 109
  const N: KeyCode := 110
  const O: KeyCode := 111
  const P: KeyCode := 112
  const Q: KeyCode := 113
  const R: KeyCode := 114
  const S: KeyCode := 115
  const T: KeyCode := 116
  const U: KeyCode := 117
  const V: KeyCode := 118
  const W: KeyCode := 119
  const X: KeyCode := 120
  const Y: KeyCode := 121
  const Z: KeyCode := 122
  const Keypad0: KeyCode := 256
  const Keypad1: KeyCode := 257
  const Keypad2: KeyCode := 258
  const Keypad3: KeyCode := 259
  const Keypad4: KeyCode := 260
  const Keypad5: KeyCode := 261
  const Keypad6: KeyCode := 262
  const Keypad7: KeyCode := 263
  const Keypad8: KeyCode := 264
  const Keypad9: KeyCode := 265
  const F1: KeyCode := 282
  const F2: KeyCode := 283
  const F3: KeyCode := 284
  const F4: KeyCode := 285
  const F5: KeyCode := 286
  const F6: KeyCode := 287
  const F7: KeyCode := 288
  const F8: KeyCode := 289
  const F9: KeyCode := 290
  const F10: KeyCode := 291
  const F11: KeyCode := 292
  const F12: KeyCode := 293
  const Mouse0: KeyCode := 323
  const Mouse1: KeyCode := 324
  const Mouse2: KeyCode := 325

  /** One row of ImGuiToUnity: an ImGui key name and the Unity code it maps to. */
  datatype KeyPair = KeyPair(name: string, code: KeyCode)

  /** Navigation keys. */
  const NavigationKeys: seq<KeyPair> := [
    KeyPair("Tab", Tab), KeyPair("LeftArrow", LeftArrow), KeyPair("RightArrow", RightArrow),
    KeyPair("UpArrow", UpArrow), KeyPair("DownArrow", DownArrow), KeyPair("PageUp", PageUp),
    KeyPair("PageDown", PageDown), KeyPair("Home", Home), KeyPair("End", End), KeyPair("Insert", Insert),
    KeyPair("Delete", Delete)
  ]

  /** Keys without a category. */
  const UncategorizedKeys: seq<KeyPair> := [
    KeyPair("Backslash", Backslash), KeyPair("GraveAccent", BackQuote), KeyPair("Comma", Comma),
    KeyPair("Period", Period), KeyPair("Slash", Slash), KeyPair("Apostrophe", Quote),
    KeyPair("Semicolon", Semicolon), KeyPair("ScrollLock", ScrollLock), KeyPair("Pause", Pause)
  ]

  /** Editing keys; ImGui's Enter is Unity's Return. */
  const EditingKeys: seq<KeyPair> := [
    KeyPair("Backspace", Backspace), KeyPair("Space", Space), KeyPair("Enter", Return),
    KeyPair("Escape", Escape)
  ]

  /** Modifier keys; Super is Unity's Command. */
  const ModifierKeys: seq<KeyPair> := [
    KeyPair("LeftCtrl", LeftControl), KeyPair("RightCtrl", RightControl), KeyPair("LeftShift", LeftShift),
    KeyPair("RightShift", RightShift), KeyPair("LeftAlt", LeftAlt), KeyPair("RightAlt", RightAlt),
    KeyPair("LeftSuper", LeftCommand), KeyPair("RightSuper", RightCommand)
  ]

  /** Letter keys A to M. */
  const LettersAToM: seq<KeyPair> := [
    KeyPair("A", A), KeyPair("B", B), KeyPair("C", C), KeyPair("D", D), KeyPair("E", E), KeyPair("F", F),
    KeyPair("G", G), KeyPair("H", H), KeyPair("I", I), KeyPair("J", J), KeyPair("K", K), KeyPair("L", L),
    KeyPair("M", M)
  ]

  /** Letter keys N to Z. */
  const LettersNToZ: seq<KeyPair> := [
    KeyPair("N", N), KeyPair("O", O), KeyPair("P", P), KeyPair("Q", Q), KeyPair("R", R), KeyPair("S", S),
    KeyPair("T", T), KeyPair("U", U), KeyPair("V", V), KeyPair("W", W), KeyPair("X", X), KeyPair("Y", Y),
    KeyPair("Z", Z)
  ]

  /** Keypad digit keys. */
  const KeypadDigits: seq<KeyPair> := [
    KeyPair("Keypad0", Keypad0), KeyPair("Keypad1", Keypad1), KeyPair("Keypad2", Keypad2),
    KeyPair("Keypad3", Keypad3), KeyPair("Keypad4", Keypad4), KeyPair("Keypad5", Keypad5),
    KeyPair("Keypad6", Keypad6), KeyPair("Keypad7", Keypad7), KeyPair("Keypad8", Keypad8),
    KeyPair("Keypad9", Keypad9)
  ]

  /** Function keys F1 to F12. */
  const FunctionKeys: seq<KeyPair> := [
    KeyPair("F1", F1), KeyPair("F2", F2), KeyPair("F3", F3), KeyPair("F4", F4), KeyPair("F5", F5),
    KeyPair("F6", F6), KeyPair("F7", F7), KeyPair("F8", F8), KeyPair("F9", F9), KeyPair("F10", F10),
    KeyPair("F11", F11), KeyPair("F12", F12)
  ]

  /** Mouse buttons. */
  const MouseButtons: seq<KeyPair> := [
    KeyPair("MouseLeft", Mouse0), KeyPair("MouseRight", Mouse1), KeyPair("MouseMiddle", Mouse2)
  ]

  /** ImGuiToUnity, row by row in the order the source lists them. */
  const ImGuiToUnity: seq<KeyPair> :=
    NavigationKeys + UncategorizedKeys + EditingKeys + ModifierKeys + LettersAToM
    + LettersNToZ + KeypadDigits + FunctionKeys + MouseButtons

  /** The codes the table maps names to. */
  ghost const TableCodes: set<KeyCode> := set p | p in ImGuiToUnity :: p.code

  // ---------------------------------------------------------------------------
  // ImGui name to Unity code
  // ---------------------------------------------------------------------------

  /** The code of the first row whose name equals `name` ignoring case, or None. */
  function LookupName(entries: seq<KeyPair>, name: string): KeyCode {
    if |entries| == 0 then None
    else if DotNetText.EqualsIgnoreCase(entries[0].name, name) then entries[0].code
    else LookupName(entries[1..], name)
  }

  /** LookupName gives None when no row's name matches ignoring case. */
  lemma {:induction false} LookupNameMissing(entries: seq<KeyPair>, name: string)
    requires forall i | 0 <= i < |entries| :: !DotNetText.EqualsIgnoreCase(entries[i].name, name)
    ensures LookupName(entries, name) == None
  {
    if |entries| > 0 {
      var rest := entries[1..];
      assert forall i | 0 <= i < |rest| :: rest[i] == entries[i + 1];
      LookupNameMissing(rest, name);
    }
  }

  /** LookupName finds the first row whose name matches ignoring case. */
  lemma {:induction false} LookupNameFirst(entries: seq<KeyPair>, name: string, i: nat)
    requires i < |entries| && DotNetText.EqualsIgnoreCase(entries[i].name, name)
    requires forall j | 0 <= j < i :: !DotNetText.EqualsIgnoreCase(entries[j].name, name)
    ensures LookupName(entries, name) == entries[i].code
  {
    if i > 0 {
      var rest := entries[1..];
      assert forall j | 0 <= j < i - 1 :: rest[j] == entries[j + 1];
      LookupNameFirst(rest, name, i - 1);
    }
  }

  /** Two names equal ignoring case map to the same code. */
  lemma {:induction false} LookupIgnoresCase(entries: seq<KeyPair>, a: string, b: string)
    requires DotNetText.EqualsIgnoreCase(a, b)
    ensures LookupName(entries, a) == LookupName(entries, b)
  {
    if |entries| > 0 {
      LookupIgnoresCase(entries[1..], a, b);
    }
  }

  /** With no row mapping to None, LookupName gives None exactly when no row matches, and otherwise the code of a matching row. */
  lemma {:induction false} LookupNameSpec(entries: seq<KeyPair>, name: string)
    requires forall i | 0 <= i < |entries| :: entries[i].code != None
    ensures LookupName(entries, name) == None <==>
      forall i | 0 <= i < |entries| :: !DotNetText.EqualsIgnoreCase(entries[i].name, name)
    ensures LookupName(entries, name) != None ==>
      exists i | 0 <= i < |entries| :: (DotNetText.EqualsIgnoreCase(entries[i].name, name)
        && entries[i].code == LookupName(entries, name))
  {
    if |entries| > 0 {
      var rest := entries[1..];
      assert forall i | 0 <= i < |rest| :: rest[i] == entries[i + 1];
      LookupNameSpec(rest, name);
      if !DotNetText.EqualsIgnoreCase(entries[0].name, name) && LookupName(rest, name) != None {
        var i :| 0 <= i < |rest| && DotNetText.EqualsIgnoreCase(rest[i].name, name) && rest[i].code == LookupName(rest, name);
        assert entries[i + 1] == rest[i];
      }
    }
  }

  /** No row of the table maps to None. */
  lemma TableCodesNotNone()
    ensures forall i | 0 <= i < |ImGuiToUnity| :: ImGuiToUnity[i].code != None
  {
    NoneUnmapped();
    forall i | 0 <= i < |ImGuiToUnity|
      ensures ImGuiToUnity[i].code != None
    {
      assert ImGuiToUnity[i] in ImGuiToUnity;
    }
  }

  /**
   * ConvertImGuiToUnity on the key's name (ImGuiKey.ToString()): the table's
   * code for that name, compared ignoring case, and None for a name it lacks.
   */
  function ConvertImGuiToUnity(keyName: string): (code: KeyCode)
    ensures code == None <==>
      forall i | 0 <= i < |ImGuiToUnity| :: !DotNetText.EqualsIgnoreCase(ImGuiToUnity[i].name, keyName)
    ensures code != None ==>
      exists i | 0 <= i < |ImGuiToUnity| :: (DotNetText.EqualsIgnoreCase(ImGuiToUnity[i].name, keyName)
        && ImGuiToUnity[i].code == code)
  {
    TableCodesNotNone();
    LookupNameSpec(ImGuiToUnity, keyName);
    LookupName(ImGuiToUnity, keyName)
  }

  /** Rows 32 to 57 of the table are the letters A to Z, mapped to Unity's letter codes. */
  lemma LetterRows()
    ensures forall i | 32 <= i < 58 :: ImGuiToUnity[i] == KeyPair([('A' as int + (i - 32)) as char], A + (i - 32))
  {
    assert ImGuiToUnity[32..45] == LettersAToM;
    assert ImGuiToUnity[45..58] == LettersNToZ;
    forall i | 32 <= i < 58
      ensures ImGuiToUnity[i] == KeyPair([('A' as int + (i - 32)) as char], A + (i - 32))
    {
      if i < 45 {
        assert ImGuiToUnity[i] == LettersAToM[i - 32];
      } else {
        assert ImGuiToUnity[i] == LettersNToZ[i - 45];
      }
    }
  }

  /** The rows before the letters have names longer than one character. */
  lemma NamesBeforeLetters()
    ensures forall j | 0 <= j < 32 :: |ImGuiToUnity[j].name| > 1
  {
    assert ImGuiToUnity[..32] == NavigationKeys + UncategorizedKeys + EditingKeys + ModifierKeys;
    forall j | 0 <= j < 32
      ensures |ImGuiToUnity[j].name| > 1
    {
      assert ImGuiToUnity[j] == ImGuiToUnity[..32][j];
    }
  }

  /** Folded to lower case, a letter row's name is its lower-case letter. */
  lemma LetterRowsFolded()
    ensures forall i | 32 <= i < 58 :: DotNetText.Lower(ImGuiToUnity[i].name) == [('a' as int + (i - 32)) as char]
  {
    LetterRows();
  }

  /** A one-letter name in either case converts to Unity's code for that letter, which is its lower-case character code. */
  lemma LetterKeys(c: char)
    requires 'A' <= c <= 'Z' || 'a' <= c <= 'z'
    ensures ConvertImGuiToUnity([c]) == DotNetText.LowerChar(c) as int
  {
    var k := DotNetText.LowerChar(c) as int - 'a' as int;
    var i := 32 + k;
    LetterRows();
    NamesBeforeLetters();
    LetterRowsFolded();
    assert DotNetText.Lower([c]) == [DotNetText.LowerChar(c)];
    hide DotNetText.Lower, ImGuiToUnity;
    forall j | 0 <= j < i
      ensures !DotNetText.EqualsIgnoreCase(ImGuiToUnity[j].name, [c])
    {
      if j >= 32 {
        assert DotNetText.Lower(ImGuiToUnity[j].name)[0] != DotNetText.Lower([c])[0];
      }
    }
    LookupNameFirst(ImGuiToUnity, [c], i);
    assert ImGuiToUnity[i].code == A + k;
  }

  // ---------------------------------------------------------------------------
  // Unity code to ImGui name
  // ---------------------------------------------------------------------------

  /**
   * The reverse map after the static constructor has gone through `entries`
   * in order: a code is added with its row's name only when it is not there
   * yet, so the first name for a code wins.
   */
  function ReverseTable(entries: seq<KeyPair>): map<KeyCode, string> {
    if |entries| == 0 then map[]
    else
      var m := ReverseTable(entries[..|entries| - 1]);
      var last := entries[|entries| - 1];
      if last.code in m then m else m[last.code := last.name]
  }

  /** The reverse map holds exactly the codes of the rows. */
  lemma {:induction false} ReverseDomain(entries: seq<KeyPair>)
    ensures ReverseTable(entries).Keys == set p | p in entries :: p.code
  {
    if |entries| > 0 {
      var init := entries[..|entries| - 1];
      ReverseDomain(init);
      assert entries == init + [entries[|entries| - 1]];
    }
  }

  /** A row whose code no earlier row has puts its own name in the reverse map. */
  lemma {:induction false} ReverseFirstWins(entries: seq<KeyPair>, i: nat)
    requires i < |entries| && forall j | 0 <= j < i :: entries[j].code != entries[i].code
    ensures entries[i].code in ReverseTable(entries) && ReverseTable(entries)[entries[i].code] == entries[i].name
  {
    var init := entries[..|entries| - 1];
    if i == |entries| - 1 {
      ReverseDomain(init);
      assert forall j | 0 <= j < |init| :: init[j].code != entries[i].code;
    } else {
      ReverseFirstWins(init, i);
    }
  }

  /** Later rows never overwrite a code already in the reverse map. */
  lemma {:induction false} ReverseKeeps(entries: seq<KeyPair>, more: seq<KeyPair>)
    ensures forall c | c in ReverseTable(entries) ::
      c in ReverseTable(entries + more) && ReverseTable(entries + more)[c] == ReverseTable(entries)[c]
    decreases |more|
  {
    if |more| > 0 {
      var init := more[..|more| - 1];
      ReverseKeeps(entries, init);
      assert (entries + more)[..|entries + more| - 1] == entries + init;
    } else {
      assert entries + more == entries;
    }
  }

  /**
   * The row of ImGuiToUnity that holds each code it mentions: a left inverse
   * of the table's codes, which shows that no code appears twice.
   */
  ghost function TableRow(code: KeyCode): int {
    if A <= code <= Z then 32 + (code - A)
    else if Keypad0 <= code <= Keypad9 then 58 + (code - Keypad0)
    else if F1 <= code <= F12 then 68 + (code - F1)
    else if Mouse0 <= code <= Mouse2 then 80 + (code - Mouse0)
    else if code == Tab then 0
    else if code == LeftArrow then 1
    else if code == RightArrow then 2
    else if code == UpArrow then 3
    else if code == DownArrow then 4
    else if code == PageUp then 5
    else if code == PageDown then 6
    else if code == Home then 7
    else if code == End then 8
    else if code == Insert then 9
    else if code == Delete then 10
    else if code == Backslash then 11
    else if code == BackQuote then 12
    else if code == Comma then 13
    else if code == Period then 14
    else if code == Slash then 15
    else if code == Quote then 16
    else if code == Semicolon then 17
    else if code == ScrollLock then 18
    else if code == Pause then 19
    else if code == Backspace then 20
    else if code == Space then 21
    else if code == Return then 22
    else if code == Escape then 23
    else if code == LeftControl then 24
    else if code == RightControl then 25
    else if code == LeftShift then 26
    else if code == RightShift then 27
    else if code == LeftAlt then 28
    else if code == RightAlt then 29
    else if code == LeftCommand then 30
    else if code == RightCommand then 31
    else -1
  }

  // Each group's codes, row by row, at the group's offset in ImGuiToUnity.

  lemma NavigationKeysRows()
    ensures forall i | 0 <= i < |NavigationKeys| :: TableRow(NavigationKeys[i].code) == i
  {
  }

  lemma UncategorizedKeysRows()
    ensures forall i | 0 <= i < |UncategorizedKeys| :: TableRow(UncategorizedKeys[i].code) == 11 + i
  {
  }

  lemma EditingKeysRows()
    ensures forall i | 0 <= i < |EditingKeys| :: TableRow(EditingKeys[i].code) == 20 + i
  {
  }

  lemma ModifierKeysRows()
    ensures forall i | 0 <= i < |ModifierKeys| :: TableRow(ModifierKeys[i].code) == 24 + i
  {
  }

  lemma LettersAToMRows()
    ensures forall i | 0 <= i < |LettersAToM| :: TableRow(LettersAToM[i].code) == 32 + i
  {
  }

  lemma LettersNToZRows()
    ensures forall i | 0 <= i < |LettersNToZ| :: TableRow(LettersNToZ[i].code) == 45 + i
  {
  }

  lemma KeypadDigitsRows()
    ensures forall i | 0 <= i < |KeypadDigits| :: TableRow(KeypadDigits[i].code) == 58 + i
  {
  }

  lemma FunctionKeysRows()
    ensures forall i | 0 <= i < |FunctionKeys| :: TableRow(FunctionKeys[i].code) == 68 + i
  {
  }

  lemma MouseButtonsRows()
    ensures forall i | 0 <= i < |MouseButtons| :: TableRow(MouseButtons[i].code) == 80 + i
  {
  }

  /** Each row's code points back to that row. */
  lemma TableRows()
    ensures forall i | 0 <= i < |ImGuiToUnity| :: TableRow(ImGuiToUnity[i].code) == i
  {
    NavigationKeysRows();
    UncategorizedKeysRows();
    EditingKeysRows();
    ModifierKeysRows();
    LettersAToMRows();
    LettersNToZRows();
    KeypadDigitsRows();
    FunctionKeysRows();
    MouseButtonsRows();
  }

  /** The table's codes are pairwise distinct. */
  lemma TableCodesDistinct()
    ensures forall i, j | 0 <= i < j < |ImGuiToUnity| :: ImGuiToUnity[i].code != ImGuiToUnity[j].code
  {
    TableRows();
  }

  /** Every code in the table has a row. */
  lemma TableCodesHaveRows()
    ensures forall p | p in ImGuiToUnity :: TableRow(p.code) >= 0
  {
    hide TableRow;
    TableRows();
    forall p | p in ImGuiToUnity
      ensures TableRow(p.code) >= 0
    {
      var i :| 0 <= i < |ImGuiToUnity| && ImGuiToUnity[i] == p;
    }
  }

  /** No row maps a name to None. */
  lemma NoneUnmapped()
    ensures None !in TableCodes
  {
    hide TableRow;
    NoneHasNoRow();
    TableCodesHaveRows();
  }

  lemma NoneHasNoRow()
    ensures TableRow(None) == -1
  {
  }

  /**
   * KeyMapper's static state: UnityToImGui, built once from ImGuiToUnity by
   * the static constructor and only read afterwards.
   */
  class KeyMapper {
    var unityToImGui: map<KeyCode, string>

    ghost predicate Valid()
      reads this
    {
      unityToImGui == ReverseTable(ImGuiToUnity)
    }

    /** The static constructor: every row in order, adding its code only when it is absent. */
    constructor()
      ensures Valid()
    {
      var m: map<KeyCode, string> := map[];
      for i := 0 to |ImGuiToUnity|
        invariant m == ReverseTable(ImGuiToUnity[..i])
      {
        var pair := ImGuiToUnity[i];
        assert ImGuiToUnity[..i + 1][..i] == ImGuiToUnity[..i];
        if pair.code !in m {
          m := m[pair.code := pair.name];
        }
      }
      assert ImGuiToUnity[..|ImGuiToUnity|] == ImGuiToUnity;
      unityToImGui := m;
    }

    /**
     * ConvertUnityToImGui: the name of the table row with this code, and
     * "None" for a code no row has.
     */
    function ConvertUnityToImGui(code: KeyCode): (name: string)
      requires Valid()
      reads this
      ensures code !in TableCodes ==> name == "None"
      ensures forall i | 0 <= i < |ImGuiToUnity| :: ImGuiToUnity[i].code == code ==> name == ImGuiToUnity[i].name
    {
      ReverseDomain(ImGuiToUnity);
      TableCodesDistinct();
      forall i | 0 <= i < |ImGuiToUnity| && ImGuiToUnity[i].code == code
        ensures code in unityToImGui && unityToImGui[code] == ImGuiToUnity[i].name
      {
        ReverseFirstWins(ImGuiToUnity, i);
      }
      if code in unityToImGui then unityToImGui[code] else "None"
    }
  }

  /**
   * A name the table maps comes back from the round trip as the table's
   * spelling of it, which equals it ignoring case.
   */
  lemma RoundTrip(mapper: KeyMapper, name: string, i: nat)
    requires mapper.Valid() && i < |ImGuiToUnity| && DotNetText.EqualsIgnoreCase(ImGuiToUnity[i].name, name)
    requires forall j | 0 <= j < i :: !DotNetText.EqualsIgnoreCase(ImGuiToUnity[j].name, name)
    ensures ConvertImGuiToUnity(name) == ImGuiToUnity[i].code
    ensures mapper.ConvertUnityToImGui(ConvertImGuiToUnity(name)) == ImGuiToUnity[i].name
    ensures DotNetText.EqualsIgnoreCase(mapper.ConvertUnityToImGui(ConvertImGuiToUnity(name)), name)
  {
    LookupNameFirst(ImGuiToUnity, name, i);
  }

  /** A name no row has maps to None, and None maps back to "None". */
  lemma UnmappedName(mapper: KeyMapper, name: string)
    requires mapper.Valid()
    requires forall i | 0 <= i < |ImGuiToUnity| :: !DotNetText.EqualsIgnoreCase(ImGuiToUnity[i].name, name)
    ensures ConvertImGuiToUnity(name) == None
    ensures mapper.ConvertUnityToImGui(None) == "None"
  {
    LookupNameMissing(ImGuiToUnity, name);
    NoneUnmapped();
  }

  /** "tab" in any case converts to Unity's Tab, which converts back to "Tab". */
  lemma TabExample(mapper: KeyMapper)
    requires mapper.Valid()
    ensures ConvertImGuiToUnity("tab") == Tab
    ensures mapper.ConvertUnityToImGui(Tab) == "Tab"
  {
    assert DotNetText.Lower("Tab") == "tab";
    RoundTrip(mapper, "tab", 0);
  }
}
