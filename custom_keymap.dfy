/**
 * The custom keymap's key handling: the same scroll key as the Vial
 * keymap, plus six macro keys that type a short string on press.
 */
module CustomKeymap {
  import opened Wrappers
  import opened Bytes
  import ScrollMode

  /** The macro keys: "../", "~/", and non-dead ^, ~, acute and grave accents. */
  datatype MacroKey = UpDir | HomeDir | NdHat | NdTilde | NdAcc | NdSacc

  datatype CustomKeycode = Scroll | Macro(m: MacroKey) | Other(code: uint16)

  /**
   * process_record_user: the scroll key toggles the mode as in the Vial
   * keymap and is consumed; a macro key sends its string when pressed
   * (nothing on release) and, like every other key, passes on.
   */
  method ProcessRecord(s: ScrollMode.ScrollState, k: CustomKeycode, pressed: bool)
    returns (cont: bool, sent: Option<MacroKey>)
    modifies s`scrolling
    ensures cont <==> !IsMouseRecord(k)
    ensures k.Scroll? ==> s.scrolling == pressed
    ensures !k.Scroll? ==> s.scrolling == old(s.scrolling)
    ensures sent.Some? <==> k.Macro? && pressed
    ensures sent.Some? ==> sent.value == k.m
  {
    sent := None;
    match k {
      case Scroll =>
        cont := s.ProcessRecord(ScrollMode.ScrollModeKey, pressed);
        return;
      case Macro(m) =>
        if pressed {
          sent := Some(m);
        }
      case Other(_) =>
    }
    cont := true;
  }

  /** is_mouse_record_user. */
  predicate IsMouseRecord(k: CustomKeycode)
  {
    k == Scroll
  }
}
