/**
 * The card's process-wide state and the hooks the keyboard firmware
 * calls every scan: the cached card type, the one-shot initialisation
 * latch with the pin setup it performs, the joystick's rate-limit timer,
 * the matrix hook, the encoder hook and the pointing-device driver.
 */
module MyriadCard {
  import opened Bytes
  import opened Platform
  import opened MyriadFormat
  import opened MyriadDecoder
  import opened Joystick

  /** The card's general-purpose lines. */
  datatype Pin = Gpio1 | Gpio2 | Gpio3 | Gpio4

  /** Levels read from the card's lines: true is high. Switches and buttons pull their line low. */
  datatype GpioLevels = GpioLevels(gpio1: bool, gpio2: bool, gpio3: bool, gpio4: bool)

  /** The matrix row after the five rows of on-board keys. */
  const CardRow: nat := 5
  /** Minimum number of milliseconds between two joystick samples. */
  const JoystickInterval: nat := 10

  /** The lines that the card's init routine configures as pulled-up inputs. */
  function PullUps(c: Card): (pins: set<Pin>)
    ensures pins <= {Gpio1, Gpio2, Gpio3, Gpio4}
    ensures pins != {} <==> c == Switches || c == Encoder || c == Joystick
    ensures pins != {} ==> Gpio1 in pins
    ensures Gpio4 in pins <==> c == Switches
    ensures |pins| == match c case Switches => 4 case Encoder => 3 case Joystick => 1 case _ => 0
  {
    match c
    case Switches => {Gpio1, Gpio2, Gpio3, Gpio4}
    case Encoder => {Gpio1, Gpio2, Gpio3}
    case Joystick => {Gpio1}
    case _ => {}
  }

  /** The whole state that the card code keeps between calls. */
  datatype CardState = CardState(card: Card, initialized: bool, pulledUp: set<Pin>, joystickTimer: uint16)

  /** detect_myriad: run detection while the cache is empty, otherwise return the cache. */
  function DetectStep(card: Card, hw: Hardware): (c: Card)
    ensures c != Uninitialized
    ensures card != Uninitialized ==> c == card
    ensures card == Uninitialized ==> c == DetectSpec(hw)
  {
    DetectOutcomes(hw);
    if card == Uninitialized then DetectSpec(hw) else card
  }

  /** myriad_card_init: detect, then on the first call only, set up the card's pins. */
  function InitStep(s: CardState, hw: Hardware, now: uint16): (t: CardState)
    ensures t.initialized && t.card == DetectStep(s.card, hw) && t.card != Uninitialized
    ensures s.initialized ==> t == s.(card := DetectStep(s.card, hw))
    ensures !s.initialized ==> t.pulledUp == s.pulledUp + PullUps(t.card)
    ensures !s.initialized ==> t.joystickTimer == if t.card == Joystick then now else s.joystickTimer
  {
    var c := DetectStep(s.card, hw);
    if s.initialized then s.(card := c)
    else CardState(c, true, s.pulledUp + PullUps(c), if c == Joystick then now else s.joystickTimer)
  }

  /** Once a card type is cached, no later hardware state changes it. */
  lemma DetectCached(card: Card, hw: Hardware, hw': Hardware)
    ensures DetectStep(DetectStep(card, hw), hw') == DetectStep(card, hw)
  {
  }

  /** Initialisation happens once: a second call, at any time and on any hardware, changes nothing. */
  lemma InitOnce(s: CardState, hw: Hardware, now: uint16, hw': Hardware, now': uint16)
    ensures InitStep(InitStep(s, hw, now), hw', now') == InitStep(s, hw, now)
  {
    var t := InitStep(s, hw, now);
    DetectCached(s.card, hw, hw');
    assert DetectStep(t.card, hw') == t.card;
  }

  /** The pins are set up only for the card that detection found, never for the encoder. */
  lemma InitFromBoot(hw: Hardware, now: uint16)
    ensures var t := InitStep(CardState(Uninitialized, false, {}, 0), hw, now);
      && t.card == DetectSpec(hw)
      && t.pulledUp == PullUps(DetectSpec(hw))
      && t.pulledUp != {Gpio1, Gpio2, Gpio3}
  {
    var c := DetectSpec(hw);
    DetectOutcomes(hw);
    PullUpsNotEncoder(c);
  }

  /** The encoder card's init pulls up exactly GPIO 1 to 3: the push button and the A and B lines. */
  lemma EncoderPullUps()
    ensures PullUps(Encoder) == {Gpio1, Gpio2, Gpio3}
  {
  }

  /** Only the encoder card pulls up exactly GPIO 1 to 3. */
  lemma PullUpsNotEncoder(c: Card)
    requires c != Encoder
    ensures PullUps(c) != {Gpio1, Gpio2, Gpio3}
  {
    match c
    case Switches => assert Gpio4 in PullUps(c);
    case Joystick => assert Gpio2 !in PullUps(c);
    case Uninitialized => assert Gpio1 !in PullUps(c);
    case NoCard => assert Gpio1 !in PullUps(c);
    case Invalid => assert Gpio1 !in PullUps(c);
    case Unknown => assert Gpio1 !in PullUps(c);
  }

  function BitValue(b: bool): nat
  {
    if b then 1 else 0
  }

  /** Bit `k` (0 to 4) of `w`. */
  function Bit(w: nat, k: nat): bool
    requires k <= 4
  {
    (w / [1, 2, 4, 8, 16][k]) % 2 == 1
  }

  /**
   * The word the matrix hook writes: for the switch array the four
   * inverted lines GPIO3, GPIO2, GPIO4, GPIO1 in bits 0 to 3; for the
   * encoder and the joystick the inverted press line GPIO1 in bit 4.
   */
  function MatrixWord(c: Card, g: GpioLevels): (w: nat)
    requires c == Switches || c == Encoder || c == Joystick
    ensures c == Switches ==> w < 16 && Bit(w, 0) == !g.gpio3 && Bit(w, 1) == !g.gpio2
                                     && Bit(w, 2) == !g.gpio4 && Bit(w, 3) == !g.gpio1
    ensures c != Switches ==> w < 32 && w % 16 == 0 && Bit(w, 4) == !g.gpio1
  {
    if c == Switches then
      BitValue(!g.gpio3) * 1 + BitValue(!g.gpio2) * 2 + BitValue(!g.gpio4) * 4 + BitValue(!g.gpio1) * 8
    else
      BitValue(!g.gpio1) * 16
  }

  class Myriad {
    var card: Card
    var initialized: bool
    var pulledUp: set<Pin>
    var joystickTimer: uint16

    function State(): CardState
      reads this
    {
      CardState(card, initialized, pulledUp, joystickTimer)
    }

    /** The static cells at power-on. */
    constructor ()
      ensures State() == CardState(Uninitialized, false, {}, 0)
    {
      card := Uninitialized;
      initialized := false;
      pulledUp := {};
      joystickTimer := 0;
    }

    /** detect_myriad. */
    method Detect(hw: Hardware) returns (c: Card)
      modifies this`card
      ensures card == DetectStep(old(card), hw) && c == card
    {
      if card == Uninitialized {
        card := DetectOnce(hw);
      }
      c := card;
    }

    /** myriad_card_init. */
    method CardInit(hw: Hardware, now: uint16) returns (c: Card)
      modifies this
      ensures State() == InitStep(old(State()), hw, now) && c == card
    {
      c := Detect(hw);
      if initialized {
        return;
      }
      initialized := true;
      match c {
        case Switches =>
          pulledUp := pulledUp + {Gpio1, Gpio2, Gpio3, Gpio4};
        case Encoder =>
          pulledUp := pulledUp + {Gpio1, Gpio2, Gpio3};
        case Joystick =>
          pulledUp := pulledUp + {Gpio1};
          joystickTimer := now;
        case _ =>
      }
    }

    /**
     * myriad_hook_matrix: writes the card's word into row 5 and reports
     * whether it differs from what was there; other cards leave the
     * matrix alone and report no change.
     */
    method HookMatrix(hw: Hardware, now: uint16, gpio: GpioLevels, matrix: array<nat>) returns (changed: bool)
      requires matrix.Length > CardRow
      modifies this, matrix
      ensures State() == InitStep(old(State()), hw, now)
      ensures !(card == Switches || card == Encoder || card == Joystick) ==>
        !changed && matrix[..] == old(matrix[..])
      ensures card == Switches || card == Encoder || card == Joystick ==>
        && matrix[..] == old(matrix[..])[CardRow := MatrixWord(card, gpio)]
        && changed == (old(matrix[CardRow]) != MatrixWord(card, gpio))
    {
      var c := CardInit(hw, now);
      var word: nat := 0;
      if c == Switches {
        word := BitValue(!gpio.gpio3) * 1 + BitValue(!gpio.gpio2) * 2
              + BitValue(!gpio.gpio4) * 4 + BitValue(!gpio.gpio1) * 8;
      } else if c == Encoder {
        word := BitValue(!gpio.gpio1) * 16;
      } else if c == Joystick {
        word := BitValue(!gpio.gpio1) * 16;
      } else {
        return false;
      }
      changed := matrix[CardRow] != word;  // row ^ word is nonzero exactly when they differ
      matrix[CardRow] := word;
    }

    /** myriad_hook_encoder: for the encoder card, the inverted A and B lines go to pads 6 and 7. */
    method HookEncoder(hw: Hardware, now: uint16, gpio: GpioLevels, pads: array<bool>)
      requires pads.Length > 7
      modifies this, pads
      ensures State() == InitStep(old(State()), hw, now)
      ensures card == Encoder ==> pads[..] == old(pads[..])[6 := !gpio.gpio2][7 := !gpio.gpio3]
      ensures card != Encoder ==> pads[..] == old(pads[..])
    {
      var c := CardInit(hw, now);
      if c != Encoder {
        return;
      }
      pads[6] := !gpio.gpio2;
      pads[7] := !gpio.gpio3;
    }

    /**
     * pointing_device_driver_get_report: for the joystick, at most one
     * sample per 10 ms; within the interval the caller's report comes back
     * unchanged (after a 2 ms busy wait) and the timer is kept.
     */
    method GetReport(hw: Hardware, now: uint16, adc1: int, adc2: int, report: MouseReport) returns (r: MouseReport)
      modifies this
      ensures var s := InitStep(old(State()), hw, now);
        if s.card != Joystick || Elapsed(now, s.joystickTimer) < JoystickInterval then
          r == report && State() == s
        else
          && r == report.(x := Sample(adc1, adc2).0, y := Sample(adc1, adc2).1)
          && State() == s.(joystickTimer := now)
    {
      var c := CardInit(hw, now);
      if c != Joystick {
        return report;
      }
      if Elapsed(now, joystickTimer) < JoystickInterval {
        return report;
      }
      joystickTimer := now;
      var y := (adc1 - Centre) * -1;  // the axis is mounted flipped
      var x := adc2 - Centre;
      if (y < 0 && y > -1 * DeadZone) || (y > 0 && y < DeadZone) {
        y := 0;
      }
      if (x < 0 && x > -1 * DeadZone) || (x > 0 && x < DeadZone) {
        x := 0;
      }
      x := TruncDiv(x, Divisor);
      y := TruncDiv(y, Divisor);
      if y < -127 { y := -127; }
      if y > 127 { y := 127; }
      if x < -127 { x := -127; }
      if x > 127 { x := 127; }
      r := report.(x := x, y := y);
    }
  }
}
