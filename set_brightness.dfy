/** The `set-brightness --display <id> --brightness <0-100>` command. */
module SetBrightness {
  import opened Wrappers
  import opened MonitorPanel
  import opened Report
  import opened Lookup
  import opened CoreDisplay

  /** What `set-brightness` does when the display's level is `before`: the
      range check comes first, then the active-display check, and only when
      both pass is the level read once and written once; the new percentage
      reported is the one requested, and the old one is reported only when
      the level read lies in [0, 1]. */
  function SetBrightnessRun(id: u32, pct: u32, active: seq<u32>, cg: u32 -> CgDisplay, p: Option<Manager>, before: real): (r: Run)
    ensures pct > 100 ==> r == Run([], [], Failure(InvalidBrightnessRange))
    ensures pct <= 100 && id !in active ==> r == Run([], [QueryActiveDisplays], Failure(RequestedDisplayNotFound(id)))
    ensures r.result.Success? <==> pct <= 100 && id in active
    ensures r.result.Success? ==>
            r.calls == [QueryActiveDisplays, ReadBrightness(id), WriteBrightness(id, ToFraction(pct))]
    ensures r.result.Success? ==> |r.out| >= 2 && r.out[|r.out| - 2] == NewBrightness(pct)
    ensures r.result.Success? ==>
            ((exists i :: 0 <= i < |r.out| && r.out[i].CurrentBrightness?) <==> InUnitRange(before))
    ensures r.result.Success? && InUnitRange(before) ==> CurrentBrightness(ToPercent(before)) in r.out
  {
    if pct > 100 then Run([], [], Failure(InvalidBrightnessRange))
    else if id !in active then Run([], [QueryActiveDisplays], Failure(RequestedDisplayNotFound(id)))
    else
      var info := TargetInfo(id, cg, p);
      var previous := PreviousLevel(before);
      var shown := info + previous + [NewBrightness(pct), BrightnessUpdated];
      assert forall i :: |info| + |previous| <= i < |shown| ==> !shown[i].CurrentBrightness?;
      assert InUnitRange(before) ==> shown[|info|].CurrentBrightness?;
      Run(shown, [QueryActiveDisplays, ReadBrightness(id), WriteBrightness(id, ToFraction(pct))], Success)
  }

  /** The lines naming the target display before its levels are shown. */
  function TargetInfo(id: u32, cg: u32 -> CgDisplay, p: Option<Manager>): (r: seq<Line>)
    ensures |r| >= 3 && r[0] == Heading(SettingBrightness) && r[1] == TargetDisplay(id)
    ensures forall i :: 0 <= i < |r| ==> !r[i].CurrentBrightness?
  {
    [Heading(SettingBrightness), TargetDisplay(id)]
    + PersistentIdLines(p, id)
    + [ModelAndBuiltin(cg(id).modelNumber, cg(id).isBuiltin)]
  }

  /** The old level, shown as a percentage only when it lies in [0, 1]. */
  function PreviousLevel(before: real): (r: seq<Line>)
    ensures |r| <= 1
    ensures r != [] <==> InUnitRange(before)
    ensures InUnitRange(before) ==> r == [CurrentBrightness(ToPercent(before))]
  {
    if InUnitRange(before) then [CurrentBrightness(ToPercent(before))] else []
  }

  /** `set_brightness`: the two guards with early exit, the report, and the
      single set call, which changes that display's level (when it has
      brightness control) and nothing else. */
  method SetBrightness(id: u32, pct: u32, active: seq<u32>, cg: u32 -> CgDisplay, p: Option<Manager>, core: Brightness)
    returns (out: seq<Line>, calls: seq<Call>, result: Outcome)
    modifies core
    ensures Run(out, calls, result) == SetBrightnessRun(id, pct, active, cg, p, old(core.Reading(id)))
    ensures core.levels == if result.Success? then Written(old(core.levels), id, ToFraction(pct)) else old(core.levels)
  {
    out, calls := [], [];
    if pct > 100 {
      return out, calls, Failure(InvalidBrightnessRange);
    }
    calls := calls + [QueryActiveDisplays];
    if id !in active {
      return out, calls, Failure(RequestedDisplayNotFound(id));
    }
    out := out + [Heading(SettingBrightness), TargetDisplay(id)];
    var persistent := ReportPersistentId(p, id);
    out := out + persistent + [ModelAndBuiltin(cg(id).modelNumber, cg(id).isBuiltin)];
    assert out == TargetInfo(id, cg, p);
    var before := core.GetUserBrightness(id);
    calls := calls + [ReadBrightness(id)];
    if 0.0 <= before && before <= 1.0 {
      out := out + [CurrentBrightness(ToPercent(before))];
    }
    assert out == TargetInfo(id, cg, p) + PreviousLevel(before);
    var level := ToFraction(pct);
    core.SetUserBrightness(id, level);
    calls := calls + [WriteBrightness(id, level)];
    out := out + [NewBrightness(pct), BrightnessUpdated];
    assert calls == [QueryActiveDisplays, ReadBrightness(id), WriteBrightness(id, ToFraction(pct))];
    result := Success;
  }
}
