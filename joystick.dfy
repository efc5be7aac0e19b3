/**
 * The joystick card's sample filter: two 10-bit ADC readings become the
 * x and y of a mouse report. Values are recentred on 512, y is flipped,
 * a dead zone of 10 is applied, the result is divided by 16 with C's
 * truncation toward zero and clamped to the signed 8-bit range.
 */
module Joystick {

  const Centre: int := 512
  const DeadZone: int := 10
  const Divisor: int := 16

  /** C's `/` on int16_t: truncates toward zero (Dafny's `/` is Euclidean). */
  function TruncDiv(v: int, d: int): (q: int)
    requires d > 0
    ensures var r := v - q * d; -d < r < d && (r == 0 || (r < 0 <==> v < 0))
  {
    if v >= 0 then v / d else -((-v) / d)
  }

  /** Zero strictly inside the dead zone; the boundary value passes. */
  function ApplyDeadZone(v: int): (r: int)
    ensures -DeadZone < v < DeadZone ==> r == 0
    ensures v <= -DeadZone || v >= DeadZone ==> r == v
  {
    if (v < 0 && v > -1 * DeadZone) || (v > 0 && v < DeadZone) then 0 else v
  }

  function Clamp127(v: int): (r: int)
    ensures -127 <= r <= 127
    ensures -127 <= v <= 127 ==> r == v
    ensures v < -127 ==> r == -127
    ensures v > 127 ==> r == 127
  {
    if v < -127 then -127 else if v > 127 then 127 else v
  }

  /** One recentred axis through dead zone, division and clamp. */
  function Axis(v: int): (r: int)
    ensures -127 <= r <= 127
    ensures -DeadZone < v < DeadZone ==> r == 0
    ensures r > 0 ==> v > 0
    ensures r < 0 ==> v < 0
  {
    Clamp127(TruncDiv(ApplyDeadZone(v), Divisor))
  }

  /** The x and y of a sample: ADC2 gives x, ADC1 gives y with its sign flipped. */
  function Sample(adc1: int, adc2: int): (xy: (int, int))
    ensures -127 <= xy.0 <= 127 && -127 <= xy.1 <= 127
    ensures xy.0 == 0 <==> -Divisor < adc2 - Centre < Divisor
    ensures xy.1 == 0 <==> -Divisor < adc1 - Centre < Divisor
  {
    DeadZoneSubsumed(adc2 - Centre);
    DeadZoneSubsumed((adc1 - Centre) * -1);
    (Axis(adc2 - Centre), Axis((adc1 - Centre) * -1))
  }

  /**
   * For a recentred ADC value the clamp never acts: the axis is the
   * truncated sixteenth, between -32 and 32.
   */
  lemma AxisOfAdc(v: int)
    requires -Centre <= v <= Centre
    ensures -32 <= Axis(v) <= 32
    ensures -DeadZone < v < DeadZone ==> Axis(v) == 0
    ensures v <= -DeadZone || v >= DeadZone ==> Axis(v) == TruncDiv(v, Divisor)
  {
  }

  /**
   * The dead zone changes nothing the division would not: every value
   * below 16 in magnitude gives 0, so the effective dead zone is 16.
   */
  lemma DeadZoneSubsumed(v: int)
    ensures Axis(v) == Clamp127(TruncDiv(v, Divisor))
    ensures -Divisor < v < Divisor <==> Axis(v) == 0
  {
  }

  /** For ADC readings in 0..1023 both axes lie in -32..32, and the extremes give about 32. */
  lemma SampleRange(adc1: int, adc2: int)
    requires 0 <= adc1 <= 1023 && 0 <= adc2 <= 1023
    ensures -32 <= Sample(adc1, adc2).0 <= 31
    ensures -31 <= Sample(adc1, adc2).1 <= 32
  {
    AxisOfAdc(adc2 - Centre);
    AxisOfAdc((adc1 - Centre) * -1);
  }

  lemma SampleExtremes()
    ensures Sample(0, 0) == (-32, 32)
    ensures Sample(1023, 1023) == (31, -31)
    ensures Sample(512, 512) == (0, 0)
  {
  }
}
