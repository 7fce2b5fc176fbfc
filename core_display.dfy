/** The brightness service of the CoreDisplay framework
    (`CoreDisplay_Display_GetUserBrightness` / `SetUserBrightness`), as a
    mutable map from CoreGraphics display ID to brightness level. */
module CoreDisplay {
  import opened MonitorPanel
  import opened Rounding

  /** The level read for a display the service holds no level for: outside
      [0, 1], which the tool reads as "not available". */
  const Unsupported: real := -1.0

  /** The level the service answers for `id`: the stored level of a display
      with brightness control, and a level outside [0, 1] for any other. */
  function ReadingOf(levels: map<u32, real>, id: u32): (r: real)
    ensures id in levels ==> r == levels[id]
    ensures id !in levels ==> !InUnitRange(r)
  {
    if id in levels then levels[id] else Unsupported
  }

  predicate InUnitRange(b: real)
  {
    0.0 <= b <= 1.0
  }

  /** `(b * 100.0).round() as u32` for a level in [0, 1]. */
  function ToPercent(b: real): (pct: nat)
    requires InUnitRange(b)
    ensures pct <= 100
    ensures RealAbs(b * 100.0 - pct as real) <= 0.5
  {
    RoundHalfAway(b * 100.0)
  }

  /** `pct as f64 / 100.0`: a percentage of at most 100 becomes a level in
      [0, 1], and the level scaled back by 100 is the percentage itself. */
  function ToFraction(pct: u32): (b: real)
    ensures pct <= 100 ==> InUnitRange(b)
    ensures b * 100.0 == pct as real
  {
    pct as real / 100.0
  }

  /** Every accepted percentage becomes a level in [0, 1] that reads back as
      the same percentage. */
  lemma PercentRoundTrip(pct: u32)
    requires pct <= 100
    ensures InUnitRange(ToFraction(pct))
    ensures ToPercent(ToFraction(pct)) == pct
  {
    assert ToFraction(pct) * 100.0 == pct as real;
    RoundIntegerIsIdentity(pct);
  }

  /** The levels after writing `b` for `id`: a display with brightness
      control takes the new level, a display without it ignores the write, and
      no other display's level changes. */
  function Written(levels: map<u32, real>, id: u32, b: real): (r: map<u32, real>)
    ensures id in levels ==> ReadingOf(r, id) == b
    ensures id !in levels ==> r == levels
    ensures r.Keys == levels.Keys
    ensures forall other :: other != id ==> ReadingOf(r, other) == ReadingOf(levels, other)
  {
    if id in levels then levels[id := b] else levels
  }

  class Brightness {
    var levels: map<u32, real>

    constructor (initial: map<u32, real>)
      ensures levels == initial
    {
      levels := initial;
    }

    function Reading(id: u32): real
      reads this
    {
      ReadingOf(levels, id)
    }

    /** `CoreDisplay_Display_GetUserBrightness`. */
    method GetUserBrightness(id: u32) returns (b: real)
      ensures b == Reading(id)
    {
      b := ReadingOf(levels, id);
    }

    /** `CoreDisplay_Display_SetUserBrightness`: the level of `id` changes
        when the display has brightness control, and no other level does. */
    method SetUserBrightness(id: u32, b: real)
      modifies this
      ensures levels == Written(old(levels), id, b)
    {
      if id in levels {
        levels := levels[id := b];
      }
    }
  }
}
