/**
 * What the firmware receives from its host: the mouse report that the
 * pointing-device code produces and rewrites, and the free-running
 * 16-bit millisecond timer.
 */
module Platform {
  import opened Bytes

  /** report_mouse_t: button mask, motion deltas, vertical and horizontal scroll. */
  datatype MouseReport = MouseReport(buttons: nat, x: int, y: int, v: int, h: int)

  /** timer_elapsed(last) with timer_read() == now: the 16-bit difference, wrapping around. */
  function Elapsed(now: uint16, last: uint16): (e: uint16)
    ensures (last + e) % 0x1_0000 == now
    ensures now >= last ==> e == now - last
  {
    (now - last) % 0x1_0000
  }

  lemma ElapsedSelf(now: uint16)
    ensures Elapsed(now, now) == 0
  {
  }
}
