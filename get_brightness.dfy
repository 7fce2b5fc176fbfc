/** The `get-brightness [--display <id>]` command. */
module GetBrightness {
  import opened Wrappers
  import opened MonitorPanel
  import opened Report
  import opened Rounding
  import opened Lookup
  import opened CoreDisplay

  /** A level in [0, 1] is shown as a rounded percentage; any other level is
      "Not available", which is information and not an error. */
  function BrightnessLine(b: real): (l: Line)
    ensures l.BrightnessPercent? <==> InUnitRange(b)
    ensures !InUnitRange(b) ==> l == BrightnessNotAvailable
    ensures l.BrightnessPercent? ==> l.percent <= 100 && RealAbs(b * 100.0 - l.percent as real) <= 0.5
  {
    if InUnitRange(b) then BrightnessPercent(ToPercent(b)) else BrightnessNotAvailable
  }

  /** After `set-brightness` has written `pct` for a display with brightness
      control, `get-brightness` shows exactly `pct` for it; a display without
      control still shows "Not available"; every other display's line is
      unchanged. */
  lemma SetThenGetRoundTrip(levels: map<u32, real>, id: u32, pct: u32, other: u32)
    requires pct <= 100 && other != id
    ensures id in levels ==> BrightnessLine(ReadingOf(Written(levels, id, ToFraction(pct)), id)) == BrightnessPercent(pct)
    ensures id !in levels ==> BrightnessLine(ReadingOf(Written(levels, id, ToFraction(pct)), id)) == BrightnessNotAvailable
    ensures BrightnessLine(ReadingOf(Written(levels, id, ToFraction(pct)), other)) == BrightnessLine(ReadingOf(levels, other))
  {
    PercentRoundTrip(pct);
  }

  /** The block printed for the `ordinal`-th selected display. */
  function BrightnessBlock(ordinal: nat, id: u32, cg: u32 -> CgDisplay, p: Option<Manager>, levels: map<u32, real>): seq<Line>
  {
    [DisplayNumber(ordinal), ContextualId(id)]
    + PersistentIdLines(p, id)
    + [ModelAndBuiltin(cg(id).modelNumber, cg(id).isBuiltin), BrightnessLine(ReadingOf(levels, id)), EndOfDisplay]
  }

  /** A display's block opens with its number and ID, shows the brightness
      line for the level read just before the end-of-display line, and shows
      no other brightness. */
  lemma BrightnessBlockShape(ordinal: nat, id: u32, cg: u32 -> CgDisplay, p: Option<Manager>, levels: map<u32, real>)
    ensures var r := BrightnessBlock(ordinal, id, cg, p, levels);
            |r| >= 5 && r[0] == DisplayNumber(ordinal) && r[1] == ContextualId(id) && r[|r| - 1] == EndOfDisplay
            && r[|r| - 2] == BrightnessLine(ReadingOf(levels, id))
            && forall k :: 0 <= k < |r| - 2 ==> !r[k].BrightnessPercent? && !r[k].BrightnessNotAvailable?
  {
  }

  /** The blocks of the selected displays, numbered from 1 in selection order. */
  function BrightnessBlocks(ids: seq<u32>, cg: u32 -> CgDisplay, p: Option<Manager>, levels: map<u32, real>): seq<Line>
  {
    if ids == [] then []
    else BrightnessBlocks(ids[..|ids| - 1], cg, p, levels) + BrightnessBlock(|ids|, ids[|ids| - 1], cg, p, levels)
  }

  lemma BrightnessBlocksSnoc(ids: seq<u32>, i: nat, cg: u32 -> CgDisplay, p: Option<Manager>, levels: map<u32, real>)
    requires i < |ids|
    ensures BrightnessBlocks(ids[..i + 1], cg, p, levels)
            == BrightnessBlocks(ids[..i], cg, p, levels) + BrightnessBlock(i + 1, ids[i], cg, p, levels)
  {
    assert ids[..i + 1][..i] == ids[..i];
  }

  /** The body of the loop over the selected displays. */
  method ReportBrightness(ordinal: nat, id: u32, cg: u32 -> CgDisplay, p: Option<Manager>, core: Brightness)
    returns (block: seq<Line>)
    ensures block == BrightnessBlock(ordinal, id, cg, p, core.levels)
  {
    block := [DisplayNumber(ordinal), ContextualId(id)];
    var persistent := ReportPersistentId(p, id);
    block := block + persistent + [ModelAndBuiltin(cg(id).modelNumber, cg(id).isBuiltin)];
    var b := core.GetUserBrightness(id);
    if 0.0 <= b && b <= 1.0 {
      block := block + [BrightnessPercent(ToPercent(b))];
    } else {
      block := block + [BrightnessNotAvailable];
    }
    block := block + [EndOfDisplay];
  }

  /** The loop over the selected displays. */
  method ReportBrightnesses(ids: seq<u32>, cg: u32 -> CgDisplay, p: Option<Manager>, core: Brightness)
    returns (out: seq<Line>)
    ensures out == BrightnessBlocks(ids, cg, p, core.levels)
  {
    out := [];
    var i := 0;
    while i < |ids|
      invariant 0 <= i <= |ids|
      invariant out == BrightnessBlocks(ids[..i], cg, p, core.levels)
    {
      var block := ReportBrightness(i + 1, ids[i], cg, p, core);
      BrightnessBlocksSnoc(ids, i, cg, p, core.levels);
      out := out + block;
      i := i + 1;
    }
    assert ids[..|ids|] == ids;
  }

  /** `get_brightness`: banner, `--display` selection, the count, then one
      block per selected display. Only an inactive requested ID fails the
      command, after the banner and before any display data; a missing
      manager or an unavailable level never does. */
  method GetBrightness(filter: Option<u32>, active: seq<u32>, cg: u32 -> CgDisplay, p: Option<Manager>, core: Brightness)
    returns (out: seq<Line>, result: Outcome)
    ensures result.Failure? <==> filter.Some? && filter.value !in active
    ensures result.Failure? ==> result.error == RequestedDisplayNotFound(filter.value) && out == [Heading(BrightnessInformation)]
    ensures result.Success? ==>
      var ids := if filter.Some? then [filter.value] else active;
      out == [Heading(BrightnessInformation)] + [FoundDisplays(|ids|)] + BrightnessBlocks(ids, cg, p, core.levels)
  {
    out := [Heading(BrightnessInformation)];
    var selection := SelectDisplays(active, filter);
    if selection.Err? {
      return out, Failure(selection.error);
    }
    var ids := selection.value;
    assert ids == if filter.Some? then [filter.value] else active;
    var blocks := ReportBrightnesses(ids, cg, p, core);
    out := out + [FoundDisplays(|ids|)] + blocks;
    result := Success;
  }
}
