/**
 * InputsManager: which hotkeys a frame's modifier state cancels, and how a
 * new keybind is captured from the keys ImGui reports down.
 */
module Inputs {
  import KeyMapping

  /**
   * ImGuiKey, an enumeration over int. Named keys occupy
   * [NamedKeyBegin, NamedKeyEnd); the Mod* flags lie above that range.
   */
  type ImGuiKey = int

  const None: ImGuiKey := 0
  const NamedKeyBegin: ImGuiKey := 512
  const NamedKeyEnd: ImGuiKey := 666

  const Tab: ImGuiKey := 512
  const Enter: ImGuiKey := 525
  const Escape: ImGuiKey := 526
  const LeftSuper: ImGuiKey := 530
  const RightSuper: ImGuiKey := 534
  const CapsLock: ImGuiKey := 607
  const PrintScreen: ImGuiKey := 610
  const KeypadEnter: ImGuiKey := 627
  const MouseLeft: ImGuiKey := 655
  const MouseRight: ImGuiKey := 656
  const MouseMiddle: ImGuiKey := 657
  const MouseX1: ImGuiKey := 658
  const MouseX2: ImGuiKey := 659
  const MouseWheelX: ImGuiKey := 660
  const MouseWheelY: ImGuiKey := 661
  const ReservedForModCtrl: ImGuiKey := 662
  const ReservedForModShift: ImGuiKey := 663
  const ReservedForModAlt: ImGuiKey := 664
  const ReservedForModSuper: ImGuiKey := 665
  const ModCtrl: ImGuiKey := 0x1000
  const ModShift: ImGuiKey := 0x2000
  const ModAlt: ImGuiKey := 0x4000
  const ModSuper: ImGuiKey := 0x8000

  /** Keys a keybind may never use: mouse buttons and wheels, Tab, and keys Unity cannot read back. */
  const BlacklistedKeys: seq<ImGuiKey> := [
    MouseLeft, MouseMiddle, MouseRight, Tab, MouseWheelX, MouseWheelY, MouseX1, MouseX2,
    Enter, KeypadEnter, CapsLock
  ]

  /** Modifier keys and their reserved aliases, which only qualify a keybind. */
  const ModKeys: seq<ImGuiKey> := [
    ModCtrl, ReservedForModCtrl, ModShift, ReservedForModShift, ReservedForModAlt, ModAlt,
    ReservedForModSuper, ModSuper, LeftSuper, RightSuper, PrintScreen
  ]

  /** The blacklist holds exactly the seven mouse keys, Tab, both Enter keys and Caps Lock. */
  lemma BlacklistedKeysAre(k: ImGuiKey)
    ensures k in BlacklistedKeys <==>
      (MouseLeft <= k <= MouseWheelY || k == Tab || k == Enter || k == KeypadEnter || k == CapsLock)
  {
  }

  /** The modifier list holds the four Mod flags, their four reserved aliases, both Super keys and Print Screen. */
  lemma ModKeysAre(k: ImGuiKey)
    ensures k in ModKeys <==>
      (ReservedForModCtrl <= k <= ReservedForModSuper || k == ModCtrl || k == ModShift || k == ModAlt
       || k == ModSuper || k == LeftSuper || k == RightSuper || k == PrintScreen)
  {
  }

  /** No key is both blacklisted and a modifier, and Escape is neither. */
  lemma KeyListsDisjoint(k: ImGuiKey)
    ensures !(k in BlacklistedKeys && k in ModKeys)
    ensures Escape !in BlacklistedKeys && Escape !in ModKeys
  {
    BlacklistedKeysAre(k);
    ModKeysAre(k);
  }

  /** A configured hotkey: the modifiers it needs and its key. */
  datatype Keybind = Keybind(control: bool, shift: bool, alt: bool, key: ImGuiKey)

  // ---------------------------------------------------------------------------
  // ShouldCancel
  // ---------------------------------------------------------------------------

  datatype Modifier = Control | Shift | Alt

  predicate Needs(hotkey: Keybind, m: Modifier) {
    match m
    case Control => hotkey.control
    case Shift => hotkey.shift
    case Alt => hotkey.alt
  }

  /**
   * Whether modifier `m` counts as held: in ImGui mode the ImGui Mod flag
   * reported pressed, otherwise either Unity key of the pair held.
   */
  predicate Held(m: Modifier, isImGui: bool, imguiPressed: set<ImGuiKey>, unityHeld: set<KeyMapping.KeyCode>) {
    if isImGui then
      match m
      case Control => ModCtrl in imguiPressed
      case Shift => ModShift in imguiPressed
      case Alt => ModAlt in imguiPressed
    else
      match m
      case Control => KeyMapping.LeftControl in unityHeld || KeyMapping.RightControl in unityHeld
      case Shift => KeyMapping.LeftShift in unityHeld || KeyMapping.RightShift in unityHeld
      case Alt => KeyMapping.LeftAlt in unityHeld || KeyMapping.RightAlt in unityHeld
  }

  /**
   * ShouldCancel: `settingKeybind` says whether the settings tab is
   * capturing a keybind; the frame's key state comes in as the ImGui keys
   * pressed and the Unity keys held. A hotkey is cancelled while a keybind
   * is being set, and otherwise exactly when a modifier it needs is not held.
   */
  function ShouldCancel(hotkey: Keybind, settingKeybind: bool, isImGui: bool,
                        imguiPressed: set<ImGuiKey>, unityHeld: set<KeyMapping.KeyCode>): (cancel: bool)
    ensures cancel <==> settingKeybind
                        || exists m: Modifier :: Needs(hotkey, m) && !Held(m, isImGui, imguiPressed, unityHeld)
  {
    var controlPressed := Held(Control, isImGui, imguiPressed, unityHeld);
    var shiftPressed := Held(Shift, isImGui, imguiPressed, unityHeld);
    var altPressed := Held(Alt, isImGui, imguiPressed, unityHeld);
    if settingKeybind then true
    else if !controlPressed && hotkey.control then true
    else if !shiftPressed && hotkey.shift then true
    else if !altPressed && hotkey.alt then true
    else false
  }

  /** Holding more keys never cancels a hotkey that fewer keys let through. */
  lemma CancelMonotone(hotkey: Keybind, settingKeybind: bool, isImGui: bool,
                       pressed: set<ImGuiKey>, morePressed: set<ImGuiKey>,
                       held: set<KeyMapping.KeyCode>, moreHeld: set<KeyMapping.KeyCode>)
    requires pressed <= morePressed && held <= moreHeld
    ensures ShouldCancel(hotkey, settingKeybind, isImGui, morePressed, moreHeld) ==>
      ShouldCancel(hotkey, settingKeybind, isImGui, pressed, held)
  {
    forall m: Modifier | Held(m, isImGui, pressed, held)
      ensures Held(m, isImGui, morePressed, moreHeld)
    {
    }
  }

  /** Outside ImGui, the left and the right key of a modifier pair stand for each other. */
  lemma EitherSideCounts(hotkey: Keybind, settingKeybind: bool, pressed: set<ImGuiKey>)
    ensures ShouldCancel(hotkey, settingKeybind, false, pressed,
                         {KeyMapping.LeftControl, KeyMapping.LeftShift, KeyMapping.LeftAlt})
        == ShouldCancel(hotkey, settingKeybind, false, pressed,
                        {KeyMapping.RightControl, KeyMapping.RightShift, KeyMapping.RightAlt})
    ensures !ShouldCancel(hotkey, false, false, pressed,
                          {KeyMapping.RightControl, KeyMapping.RightShift, KeyMapping.RightAlt})
  {
    var left := {KeyMapping.LeftControl, KeyMapping.LeftShift, KeyMapping.LeftAlt};
    var right := {KeyMapping.RightControl, KeyMapping.RightShift, KeyMapping.RightAlt};
    forall m: Modifier
      ensures Held(m, false, pressed, left) && Held(m, false, pressed, right)
    {
    }
  }

  /** A hotkey that needs no modifier is cancelled only while a keybind is being set. */
  lemma PlainKeyCancels(key: ImGuiKey, settingKeybind: bool, isImGui: bool,
                        pressed: set<ImGuiKey>, held: set<KeyMapping.KeyCode>)
    ensures ShouldCancel(Keybind(false, false, false, key), settingKeybind, isImGui, pressed, held)
      == settingKeybind
  {
  }

  // ---------------------------------------------------------------------------
  // GetKeybind
  // ---------------------------------------------------------------------------

  /** A key that GetKeybind may capture: down, not Escape, not blacklisted, not a modifier. */
  predicate Capturable(k: ImGuiKey, down: set<ImGuiKey>) {
    k in down && k != Escape && k !in BlacklistedKeys && k !in ModKeys
  }

  /** The first capturable named key at or after `from`, or None. */
  function FirstCapturable(down: set<ImGuiKey>, from: ImGuiKey): ImGuiKey
    decreases NamedKeyEnd - from
  {
    if from >= NamedKeyEnd then None
    else if Capturable(from, down) then from
    else FirstCapturable(down, from + 1)
  }

  /** FirstCapturable is the least capturable key in [from, NamedKeyEnd), and None when there is none. */
  lemma {:induction false} FirstCapturableSpec(down: set<ImGuiKey>, from: ImGuiKey)
    requires NamedKeyBegin <= from
    ensures var k := FirstCapturable(down, from);
      if k == None then (forall j | from <= j < NamedKeyEnd :: !Capturable(j, down))
      else (from <= k < NamedKeyEnd && Capturable(k, down)
            && forall j | from <= j < k :: !Capturable(j, down))
    decreases NamedKeyEnd - from
  {
    hide Capturable;
    if from < NamedKeyEnd && !Capturable(from, down) {
      FirstCapturableSpec(down, from + 1);
    }
  }

  /** The keybind GetKeybind captures: the first capturable key with the Mod flags down, or all clear. */
  function Captured(down: set<ImGuiKey>): Keybind {
    var key := FirstCapturable(down, NamedKeyBegin);
    if key == None then Keybind(false, false, false, None)
    else Keybind(ModCtrl in down, ModShift in down, ModAlt in down, key)
  }

  /**
   * GetKeybind: `down` is the set of keys ImGui reports down this frame.
   * Walks the named keys in order and returns the first one that can be a
   * keybind, with the Ctrl, Shift and Alt flags; with none, all clear.
   */
  method GetKeybind(down: set<ImGuiKey>) returns (control: bool, shift: bool, alt: bool, key: ImGuiKey)
    ensures Keybind(control, shift, alt, key) == Captured(down)
    ensures key == None ==> (!control && !shift && !alt
                             && forall k | NamedKeyBegin <= k < NamedKeyEnd :: !Capturable(k, down))
    ensures key != None ==> (NamedKeyBegin <= key < NamedKeyEnd && Capturable(key, down)
                             && (forall k | NamedKeyBegin <= k < key :: !Capturable(k, down))
                             && control == (ModCtrl in down) && shift == (ModShift in down)
                             && alt == (ModAlt in down))
  {
    FirstCapturableSpec(down, NamedKeyBegin);
    var eventKey := NamedKeyBegin;
    while eventKey < NamedKeyEnd
      invariant NamedKeyBegin <= eventKey <= NamedKeyEnd
      invariant FirstCapturable(down, eventKey) == FirstCapturable(down, NamedKeyBegin)
      decreases NamedKeyEnd - eventKey
    {
      if eventKey !in down || eventKey == Escape || eventKey in BlacklistedKeys || eventKey in ModKeys {
        eventKey := eventKey + 1;
        continue;
      }
      control := ModCtrl in down;
      shift := ModShift in down;
      alt := ModAlt in down;
      key := eventKey;
      return;
    }
    control, shift, alt, key := false, false, false, None;
  }

  /** A captured key is never Escape, a blacklisted key or a modifier, nor one of the Mod flags. */
  lemma CapturedKeyAllowed(down: set<ImGuiKey>)
    ensures var k := Captured(down).key;
      k != Escape && k !in BlacklistedKeys && k !in ModKeys
      && (k == None || NamedKeyBegin <= k < NamedKeyEnd)
  {
    FirstCapturableSpec(down, NamedKeyBegin);
  }

  /** Extra keys at or above NamedKeyEnd, such as the Mod flags, never change which key is captured. */
  lemma {:induction false} CaptureIgnoresUnnamed(down: set<ImGuiKey>, extra: set<ImGuiKey>, from: ImGuiKey)
    requires forall k | k in extra :: k >= NamedKeyEnd
    ensures FirstCapturable(down + extra, from) == FirstCapturable(down, from)
    decreases NamedKeyEnd - from
  {
    if from < NamedKeyEnd {
      assert from in down + extra <==> from in down;
      CaptureIgnoresUnnamed(down, extra, from + 1);
    }
  }

  /**
   * A keybind just captured is not cancelled in ImGui mode when ImGui
   * reports pressed the same keys it reported down, once no keybind is
   * being set any more.
   */
  lemma CapturedNotCancelled(down: set<ImGuiKey>, held: set<KeyMapping.KeyCode>)
    ensures !ShouldCancel(Captured(down), false, true, down, held)
  {
  }
}
