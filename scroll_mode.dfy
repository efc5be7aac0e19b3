/**
 * The keymaps' scroll mode: while the scroll key is held, the motion of
 * each half's pointing device becomes single-step wheel pulses whose rate
 * grows with the deflection, and the cursor stands still.
 */
module ScrollMode {
  import opened Bytes
  import opened Platform

  /** Milliseconds times deflection that must pass between two pulses of one half. */
  const ScrollBaseDelay: nat := 32 * 20

  /** The keycodes the scroll logic distinguishes. */
  datatype Keycode = ScrollModeKey | OtherKey(code: uint16)

  function Abs(v: int): (r: nat)
    ensures r == v || r == -v
  {
    if v < 0 then -v else v
  }

  /** signum_mouse_report: (v > 0) - (v < 0). */
  function Signum(v: int): (s: int)
    ensures -1 <= s <= 1
    ensures s > 0 <==> v > 0
    ensures s < 0 <==> v < 0
    ensures s * v == Abs(v)
  {
    (if v > 0 then 1 else 0) - (if v < 0 then 1 else 0)
  }

  /** max_mouse_report. */
  function Max(a: int, b: int): (m: int)
    ensures m >= a && m >= b
    ensures m == a || m == b
  {
    if a > b then a else b
  }

  /** The larger deflection of the two axes of one half. */
  function Magnitude(rep: MouseReport): (m: nat)
    ensures m >= Abs(rep.x) && m >= Abs(rep.y)
    ensures m == Abs(rep.x) || m == Abs(rep.y)
    ensures m == 0 <==> rep.x == 0 && rep.y == 0
  {
    Max(Abs(rep.y), Abs(rep.x))
  }

  /** A half pulses when its deflection times the time since its last pulse exceeds the base delay. */
  predicate Fires(rep: MouseReport, elapsed: uint16)
  {
    Magnitude(rep) * elapsed > ScrollBaseDelay
  }

  /** One half's report and timer after a scroll-mode tick. */
  datatype Half = Half(report: MouseReport, timer: uint16)

  /**
   * One half in scroll mode at time `now`: on a pulse, the vertical wheel
   * moves one step against the sign of y, the horizontal wheel one step
   * with the sign of x, and the timer restarts; x and y are cleared either way.
   */
  function ScrollHalf(rep: MouseReport, timer: uint16, now: uint16): (h: Half)
    ensures h.report.x == 0 && h.report.y == 0 && h.report.buttons == rep.buttons
    ensures Fires(rep, Elapsed(now, timer)) ==>
      && h.timer == now
      && h.report.v == -Signum(rep.y) && h.report.h == Signum(rep.x)
      && h.report.v * rep.y <= 0 && h.report.h * rep.x >= 0
      && (h.report.v != 0 || h.report.h != 0)
    ensures !Fires(rep, Elapsed(now, timer)) ==>
      h.timer == timer && h.report.v == rep.v && h.report.h == rep.h
  {
    var fired := Fires(rep, Elapsed(now, timer));
    var wheel := if fired then rep.(v := -Signum(rep.y), h := Signum(rep.x)) else rep;
    Half(wheel.(x := 0, y := 0), if fired then now else timer)
  }

  /** A half that does not move never pulses and keeps its timer. */
  lemma ZeroMotionNeverFires(rep: MouseReport, timer: uint16, now: uint16)
    requires rep.x == 0 && rep.y == 0
    ensures !Fires(rep, Elapsed(now, timer))
    ensures ScrollHalf(rep, timer, now) == Half(rep, timer)
  {
  }

  /** Right after a pulse, a second tick at the same time cannot pulse again, whatever the motion. */
  lemma NoDoublePulse(rep: MouseReport, timer: uint16, now: uint16, next: MouseReport)
    requires Fires(rep, Elapsed(now, timer))
    ensures !Fires(next, Elapsed(now, ScrollHalf(rep, timer, now).timer))
  {
    ElapsedSelf(now);
  }

  /**
   * The cadence: with deflection m, a pulse is due exactly when more than
   * 640 / m (rounded down) milliseconds have passed.
   */
  lemma Cadence(rep: MouseReport, elapsed: uint16)
    requires Magnitude(rep) > 0
    ensures Fires(rep, elapsed) <==> elapsed > ScrollBaseDelay / Magnitude(rep)
  {
    var m := Magnitude(rep);
    var q := ScrollBaseDelay / m;
    assert ScrollBaseDelay == m * q + ScrollBaseDelay % m;
    if elapsed > q {
      MulMonotone(m, q + 1, m, elapsed);
      assert m * (q + 1) == m * q + m;
    } else {
      MulMonotone(m, elapsed, m, q);
    }
  }

  /** A larger deflection, or a longer wait, never turns a pulse off. */
  lemma FiresMonotone(rep: MouseReport, e: uint16, rep': MouseReport, e': uint16)
    requires Fires(rep, e)
    requires Magnitude(rep') >= Magnitude(rep) && e' >= e
    ensures Fires(rep', e')
  {
    MulMonotone(Magnitude(rep), e, Magnitude(rep'), e');
  }

  lemma MulMonotone(a: nat, b: nat, c: nat, d: nat)
    requires a <= c && b <= d
    ensures a * b <= c * d
  {
    assert a * b <= c * b;
    assert c * b <= c * d;
  }

  /** Any motion at all pulses once 641 ms have passed; full deflection needs only 6 ms. */
  lemma CadenceBounds(rep: MouseReport)
    requires Magnitude(rep) > 0
    ensures Fires(rep, ScrollBaseDelay as uint16 + 1)
    ensures Magnitude(rep) >= 127 ==> Fires(rep, 6)
    ensures !Fires(rep, 0)
  {
    assert Magnitude(rep) * (ScrollBaseDelay + 1) >= ScrollBaseDelay + 1;
    if Magnitude(rep) >= 127 {
      assert Magnitude(rep) * 6 >= 127 * 6;
    }
  }

  /** is_mouse_record_user: only the scroll key counts as a mouse key. */
  predicate IsMouseRecord(k: Keycode)
  {
    k == ScrollModeKey
  }

  /** The keymap's static scroll state: the mode flag and one pulse timer per half. */
  class ScrollState {
    var scrolling: bool
    var timerLeft: uint16
    var timerRight: uint16

    constructor ()
      ensures !scrolling && timerLeft == 0 && timerRight == 0
    {
      scrolling := false;
      timerLeft := 0;
      timerRight := 0;
    }

    /**
     * process_record_user: the scroll key sets the mode while held and
     * clears it on release and is consumed; every other key passes on.
     */
    method ProcessRecord(k: Keycode, pressed: bool) returns (cont: bool)
      modifies this`scrolling
      ensures cont <==> !IsMouseRecord(k)
      ensures k == ScrollModeKey ==> scrolling == pressed
      ensures k != ScrollModeKey ==> scrolling == old(scrolling)
    {
      match k {
        case ScrollModeKey =>
          if pressed {
            scrolling := true;
          } else {
            scrolling := false;
          }
          return false;
        case OtherKey(_) =>
      }
      return true;
    }

    /**
     * pointing_device_task_combined_user: outside scroll mode both reports
     * go to `combine` untouched; in scroll mode each half is turned into
     * wheel pulses against its own timer only, and its motion is cleared.
     */
    method TaskCombined(left: MouseReport, right: MouseReport, now: uint16,
                        combine: (MouseReport, MouseReport) -> MouseReport) returns (r: MouseReport)
      modifies this`timerLeft, this`timerRight
      ensures !scrolling ==>
        r == combine(left, right) && timerLeft == old(timerLeft) && timerRight == old(timerRight)
      ensures scrolling ==>
        var l := ScrollHalf(left, old(timerLeft), now);
        var rr := ScrollHalf(right, old(timerRight), now);
        r == combine(l.report, rr.report) && timerLeft == l.timer && timerRight == rr.timer
    {
      var leftReport, rightReport := left, right;
      if scrolling {
        var leftMult := Max(Abs(leftReport.y), Abs(leftReport.x));
        if leftMult * Elapsed(now, timerLeft) > ScrollBaseDelay {
          leftReport := leftReport.(v := -Signum(leftReport.y), h := Signum(leftReport.x));
          timerLeft := now;
        }
        var rightMult := Max(Abs(rightReport.y), Abs(rightReport.x));
        if rightMult * Elapsed(now, timerRight) > ScrollBaseDelay {
          rightReport := rightReport.(v := -Signum(rightReport.y), h := Signum(rightReport.x));
          timerRight := now;
        }
        leftReport := leftReport.(x := 0, y := 0);
        rightReport := rightReport.(x := 0, y := 0);
      }
      r := combine(leftReport, rightReport);
    }
  }
}
