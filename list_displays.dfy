/** The `list [--verbose] [--display <id>]` command. */
module ListDisplays {
  import opened Wrappers
  import opened MonitorPanel
  import opened Report
  import opened Lookup
  import opened ModeListing

  /** What the verbose listing prints for one CoreGraphics display ID: a
      placeholder for a missing manager, a missing displays array, an ID no
      manager display has, or a display without modes; the mode listing
      otherwise. It never fails the command. */
  function ModesReport(p: Option<Manager>, id: u32, cgMode: Option<CgMode>): seq<Line>
  {
    [AvailableModes] +
    match Resolve(p, ById(AsI32(id)))
    case NoManager => [Unavailable(ManagerNotAvailable)]
    case NoDisplayList => [Unavailable(NoDisplaysArray)]
    case NoMatch => [Unavailable(DisplayNotInPanel(id))]
    case Resolved(d) =>
      match d.allModes
      case None => [Unavailable(NoModesAvailable)]
      case Some(modes) => ModeListingLines(modes, SignalOf(d, cgMode))
  }

  /** The mode report is the heading, then either exactly one placeholder,
      when no mode list is found for the display, or the listing. */
  lemma ModesReportShape(p: Option<Manager>, id: u32, cgMode: Option<CgMode>)
    ensures var r := ModesReport(p, id, cgMode);
            var res := Resolve(p, ById(AsI32(id)));
            |r| >= 2 && r[0] == AvailableModes
            && (r[1].Unavailable? <==> !(res.Resolved? && res.display.allModes.Some?))
            && (r[1].Unavailable? ==> |r| == 2)
  {
  }

  /** Sorting and printing the two groups of one display's modes. */
  method ReportModes(modes: seq<Mode>, sig: CurrentSignal) returns (lines: seq<Line>)
    ensures lines == ModeListingLines(modes, sig)
  {
    lines := [TotalModes(|modes|)];
    var hidpi, standard := PartitionModes(modes, sig);
    hidpi := SortByNumber(hidpi);
    standard := SortByNumber(standard);
    if hidpi != [] {
      lines := lines + GroupBlock(HiDpiRetina, hidpi);
    }
    assert lines == [TotalModes(|modes|)] + GroupBlock(HiDpiRetina, hidpi);
    if standard != [] {
      lines := lines + GroupBlock(Standard, standard);
    }
    assert lines == Layout(|modes|, hidpi, standard);
  }

  /** `list_display_modes`: scan the manager's displays for the first one whose
      ID equals `id as i32`, list its modes, and stop there. */
  method ListDisplayModes(p: Option<Manager>, id: u32, cgMode: Option<CgMode>) returns (out: seq<Line>)
    ensures out == ModesReport(p, id, cgMode)
  {
    out := [AvailableModes];
    if p.Some? {
      if p.value.displays.Some? {
        var ds := p.value.displays.value;
        var found := false;
        var i := 0;
        while i < |ds|
          invariant 0 <= i <= |ds|
          invariant !found
          invariant forall j :: 0 <= j < i ==> !Matches(ds[j], ById(AsI32(id)))
          invariant out == [AvailableModes]
        {
          if ds[i].displayId == AsI32(id) {
            found := true;
            FirstMatchUnique(ds, ById(AsI32(id)), i);
            if ds[i].allModes.Some? {
              var listing := ReportModes(ds[i].allModes.value, SignalOf(ds[i], cgMode));
              out := out + listing;
            } else {
              out := out + [Unavailable(NoModesAvailable)];
            }
            break;
          }
          i := i + 1;
        }
        if !found {
          out := out + [Unavailable(DisplayNotInPanel(id))];
        }
      } else {
        out := out + [Unavailable(NoDisplaysArray)];
      }
    } else {
      out := out + [Unavailable(ManagerNotAvailable)];
    }
  }

  /** A mode listing is made of counts, headings, mode lines and gaps only. */
  lemma ListingHasNoPlaceholder(modes: seq<Mode>, sig: CurrentSignal)
    ensures forall l :: l in ModeListingLines(modes, sig) ==> !l.Unavailable?
  {
    var hi := GroupBlock(HiDpiRetina, SortByNumber(Collect(modes, HiDpiRetina, sig)));
    var st := GroupBlock(Standard, SortByNumber(Collect(modes, Standard, sig)));
    assert forall l :: l in hi ==> !l.Unavailable?;
    assert forall l :: l in st ==> !l.Unavailable?;
  }

  /** "Not found in MonitorPanel" is printed exactly when the manager's
      displays array exists and none of its displays has the requested ID. */
  lemma NotInPanelIffNoEqualId(p: Option<Manager>, id: u32, cgMode: Option<CgMode>)
    ensures Unavailable(DisplayNotInPanel(id)) in ModesReport(p, id, cgMode) <==>
            p.Some? && p.value.displays.Some?
            && forall j :: 0 <= j < |p.value.displays.value| ==> p.value.displays.value[j].displayId != AsI32(id)
  {
    var r := Resolve(p, ById(AsI32(id)));
    match r
    case NoManager =>
      assert ModesReport(p, id, cgMode) == [AvailableModes, Unavailable(ManagerNotAvailable)];
    case NoDisplayList =>
      assert ModesReport(p, id, cgMode) == [AvailableModes, Unavailable(NoDisplaysArray)];
    case NoMatch =>
      assert ModesReport(p, id, cgMode) == [AvailableModes, Unavailable(DisplayNotInPanel(id))];
    case Resolved(d) =>
      var ds := p.value.displays.value;
      var i: nat :| IsFirstMatch(ds, ById(AsI32(id)), i) && ds[i] == d;
      assert !(forall j :: 0 <= j < |ds| ==> ds[j].displayId != AsI32(id));
      if d.allModes.Some? {
        ListingHasNoPlaceholder(d.allModes.value, SignalOf(d, cgMode));
        assert ModesReport(p, id, cgMode) == [AvailableModes] + ModeListingLines(d.allModes.value, SignalOf(d, cgMode));
      } else {
        assert ModesReport(p, id, cgMode) == [AvailableModes, Unavailable(NoModesAvailable)];
      }
  }

  /** The block printed for the `ordinal`-th selected display. */
  function DisplayBlock(ordinal: nat, id: u32, verbose: bool, cg: u32 -> CgDisplay, p: Option<Manager>): seq<Line>
  {
    [DisplayNumber(ordinal), ContextualId(id)]
    + PersistentIdLines(p, id)
    + [DisplayDetails(cg(id))]
    + (if cg(id).displayMode.Some? then [CurrentCgMode(cg(id).displayMode.value)] else [])
    + (if verbose then ModesReport(p, id, cg(id).displayMode) else [VerboseHint])
    + [EndOfDisplay]
  }

  /** A display's block opens with its number and ID and closes with the
      end-of-display line; it holds the mode report iff `--verbose` is given,
      and the hint otherwise. */
  lemma DisplayBlockShape(ordinal: nat, id: u32, verbose: bool, cg: u32 -> CgDisplay, p: Option<Manager>)
    ensures var r := DisplayBlock(ordinal, id, verbose, cg, p);
            |r| >= 4 && r[0] == DisplayNumber(ordinal) && r[1] == ContextualId(id) && r[|r| - 1] == EndOfDisplay
            && (verbose <==> AvailableModes in r) && (!verbose ==> VerboseHint in r)
  {
    var head := [DisplayNumber(ordinal), ContextualId(id)] + PersistentIdLines(p, id) + [DisplayDetails(cg(id))]
                + (if cg(id).displayMode.Some? then [CurrentCgMode(cg(id).displayMode.value)] else []);
    var tail := if verbose then ModesReport(p, id, cg(id).displayMode) else [VerboseHint];
    var r := DisplayBlock(ordinal, id, verbose, cg, p);
    assert r == head + tail + [EndOfDisplay];
    assert AvailableModes !in head;
    if verbose {
      assert r[|head|] == AvailableModes;
    }
  }

  /** The body of the loop over the selected displays. */
  method ReportDisplay(ordinal: nat, id: u32, verbose: bool, cg: u32 -> CgDisplay, p: Option<Manager>)
    returns (block: seq<Line>)
    ensures block == DisplayBlock(ordinal, id, verbose, cg, p)
  {
    var display := cg(id);
    block := [DisplayNumber(ordinal), ContextualId(id)];
    var persistent := ReportPersistentId(p, id);
    block := block + persistent + [DisplayDetails(display)];
    if display.displayMode.Some? {
      block := block + [CurrentCgMode(display.displayMode.value)];
    }
    if verbose {
      var modes := ListDisplayModes(p, id, cg(id).displayMode);
      block := block + modes;
    } else {
      block := block + [VerboseHint];
    }
    block := block + [EndOfDisplay];
  }

  /** The blocks of the selected displays, numbered from 1 in selection order. */
  function DisplayBlocks(ids: seq<u32>, verbose: bool, cg: u32 -> CgDisplay, p: Option<Manager>): seq<Line>
  {
    if ids == [] then []
    else DisplayBlocks(ids[..|ids| - 1], verbose, cg, p) + DisplayBlock(|ids|, ids[|ids| - 1], verbose, cg, p)
  }

  lemma DisplayBlocksSnoc(ids: seq<u32>, i: nat, verbose: bool, cg: u32 -> CgDisplay, p: Option<Manager>)
    requires i < |ids|
    ensures DisplayBlocks(ids[..i + 1], verbose, cg, p)
            == DisplayBlocks(ids[..i], verbose, cg, p) + DisplayBlock(i + 1, ids[i], verbose, cg, p)
  {
    assert ids[..i + 1][..i] == ids[..i];
  }

  /** The loop over the selected displays. */
  method ReportDisplays(ids: seq<u32>, verbose: bool, cg: u32 -> CgDisplay, p: Option<Manager>)
    returns (out: seq<Line>)
    ensures out == DisplayBlocks(ids, verbose, cg, p)
  {
    out := [];
    var i := 0;
    while i < |ids|
      invariant 0 <= i <= |ids|
      invariant out == DisplayBlocks(ids[..i], verbose, cg, p)
    {
      var block := ReportDisplay(i + 1, ids[i], verbose, cg, p);
      DisplayBlocksSnoc(ids, i, verbose, cg, p);
      out := out + block;
      i := i + 1;
    }
    assert ids[..|ids|] == ids;
  }

  /** `list_displays`: banner, `--display` selection, the count, then one block
      per selected display. An inactive requested ID fails the command after
      the banner and before any display data. */
  method ListDisplays(verbose: bool, filter: Option<u32>, active: seq<u32>, cg: u32 -> CgDisplay, p: Option<Manager>)
    returns (out: seq<Line>, result: Outcome)
    ensures result.Failure? <==> filter.Some? && filter.value !in active
    ensures result.Failure? ==> result.error == RequestedDisplayNotFound(filter.value) && out == [Heading(DisplayInformation)]
    ensures result.Success? ==>
      var ids := if filter.Some? then [filter.value] else active;
      out == [Heading(DisplayInformation)] + [FoundDisplays(|ids|)] + DisplayBlocks(ids, verbose, cg, p)
  {
    out := [Heading(DisplayInformation)];
    var selection := SelectDisplays(active, filter);
    if selection.Err? {
      return out, Failure(selection.error);
    }
    var ids := selection.value;
    assert ids == if filter.Some? then [filter.value] else active;
    var blocks := ReportDisplays(ids, verbose, cg, p);
    out := out + [FoundDisplays(|ids|)] + blocks;
    result := Success;
  }
}
