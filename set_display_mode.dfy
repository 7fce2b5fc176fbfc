/** The `set-mode --display <uuid> --mode <n>` command. */
module SetDisplayMode {
  import opened Wrappers
  import opened MonitorPanel
  import opened Report
  import opened Ascii
  import opened Lookup

  /** `modes.iter().any(|m| m.mode_number() == n)`. */
  function HasMode(modes: seq<Mode>, n: i32): (b: bool)
    ensures b <==> exists k :: 0 <= k < |modes| && modes[k].modeNumber == n
  {
    modes != [] && (modes[0].modeNumber == n || HasMode(modes[1..], n))
  }

  /** What `set-mode` does, given the result code `code` the framework's
      `setModeNumber:` would return: the set call is made at most once, only
      for the first display whose UUID matches and only for a mode number in
      that display's mode list; success means result code 0. */
  function SetModeRun(p: Option<Manager>, uuid: string, n: i32, code: i32): (r: Run)
    ensures |r.calls| <= 1
    ensures r.calls != [] <==>
            var res := Resolve(p, ByUuid(uuid));
            res.Resolved? && res.display.allModes.Some? && HasMode(res.display.allModes.value, n)
    ensures r.calls != [] ==> r.calls == [SetModeNumber(Resolve(p, ByUuid(uuid)).display.displayId, n)]
    ensures r.result.Success? <==> r.calls != [] && code == 0
    ensures r.calls != [] && code != 0 ==> r.result == Failure(SetOperationFailed(code))
    ensures p.None? ==> r.result == Failure(ManagerUnavailable)
    ensures p.Some? && p.value.displays.None? ==> r.result == Failure(DisplaysUnavailable)
    ensures Resolve(p, ByUuid(uuid)).NoMatch? ==> r.result == Failure(PersistentDisplayNotFound)
    ensures var res := Resolve(p, ByUuid(uuid));
            res.Resolved? && res.display.allModes.None? ==> r.result == Failure(ModesUnavailableForDisplay)
    ensures var res := Resolve(p, ByUuid(uuid));
            res.Resolved? && res.display.allModes.Some? && !HasMode(res.display.allModes.value, n) ==>
            r.result == Failure(ModeNotFoundForDisplay(n))
    ensures |r.out| >= 1 && r.out[0] == Heading(SettingDisplayMode)
    ensures r.calls == [] ==> r.out == [Heading(SettingDisplayMode)]
    ensures r.calls != [] ==>
            r.out == [Heading(SettingDisplayMode), SettingMode(uuid, Resolve(p, ByUuid(uuid)).display.displayId, n)]
                     + (if code == 0 then [ModeSetSucceeded] else [])
  {
    var banner := [Heading(SettingDisplayMode)];
    match Resolve(p, ByUuid(uuid))
    case NoManager => Run(banner, [], Failure(ManagerUnavailable))
    case NoDisplayList => Run(banner, [], Failure(DisplaysUnavailable))
    case NoMatch => Run(banner, [], Failure(PersistentDisplayNotFound))
    case Resolved(d) =>
      match d.allModes
      case None => Run(banner, [], Failure(ModesUnavailableForDisplay))
      case Some(modes) =>
        if !HasMode(modes, n) then Run(banner, [], Failure(ModeNotFoundForDisplay(n)))
        else
          Run(banner + [SettingMode(uuid, d.displayId, n)] + (if code == 0 then [ModeSetSucceeded] else []),
              [SetModeNumber(d.displayId, n)],
              if code == 0 then Success else Failure(SetOperationFailed(code)))
  }

  /** No false negatives: every mode number in the matched display's list
      passes the existence check and is handed to the set call. */
  lemma ListedModeIsSet(p: Option<Manager>, uuid: string, k: nat, code: i32)
    requires Resolve(p, ByUuid(uuid)).Resolved?
    requires Resolve(p, ByUuid(uuid)).display.allModes.Some?
    requires k < |Resolve(p, ByUuid(uuid)).display.allModes.value|
    ensures var d := Resolve(p, ByUuid(uuid)).display;
            SetModeRun(p, uuid, d.allModes.value[k].modeNumber, code).calls
            == [SetModeNumber(d.displayId, d.allModes.value[k].modeNumber)]
  {
  }

  /** A mode number missing from the matched display's list is rejected
      before any set call. */
  lemma UnlistedModeIsRejected(p: Option<Manager>, uuid: string, n: i32, code: i32)
    requires Resolve(p, ByUuid(uuid)).Resolved?
    requires Resolve(p, ByUuid(uuid)).display.allModes.Some?
    requires forall k :: 0 <= k < |Resolve(p, ByUuid(uuid)).display.allModes.value| ==>
               Resolve(p, ByUuid(uuid)).display.allModes.value[k].modeNumber != n
    ensures SetModeRun(p, uuid, n, code).calls == []
    ensures SetModeRun(p, uuid, n, code).result == Failure(ModeNotFoundForDisplay(n))
  {
  }

  /** Only the first matching display is acted on: when it has no mode list
      the command fails, whatever later displays with a matching UUID hold. */
  lemma FirstMatchWithoutModesFails(ds: seq<MpDisplay>, uuid: string, i: nat, n: i32, code: i32)
    requires IsFirstMatch(ds, ByUuid(uuid), i) && ds[i].allModes.None?
    ensures SetModeRun(Some(Manager(Some(ds))), uuid, n, code)
            == Run([Heading(SettingDisplayMode)], [], Failure(ModesUnavailableForDisplay))
  {
    FirstMatchUnique(ds, ByUuid(uuid), i);
  }

  /** The letter case of the UUID argument does not change which call is
      made or how the command ends. */
  lemma SetModeIgnoresCase(p: Option<Manager>, a: string, b: string, n: i32, code: i32)
    requires EqIgnoreAsciiCase(a, b)
    ensures SetModeRun(p, a, n, code).calls == SetModeRun(p, b, n, code).calls
    ensures SetModeRun(p, a, n, code).result == SetModeRun(p, b, n, code).result
  {
    ResolveIgnoresCase(p, a, b);
  }

  /** `set_display_mode`: scan for the first UUID match, check the mode
      exists, make the one set call, and judge its result code. */
  method SetDisplayMode(p: Option<Manager>, uuid: string, n: i32, code: i32)
    returns (out: seq<Line>, calls: seq<Call>, result: Outcome)
    ensures Run(out, calls, result) == SetModeRun(p, uuid, n, code)
  {
    out := [Heading(SettingDisplayMode)];
    calls := [];
    if p.Some? {
      if p.value.displays.Some? {
        var ds := p.value.displays.value;
        var found := false;
        var i := 0;
        while i < |ds|
          invariant 0 <= i <= |ds|
          invariant !found
          invariant forall j :: 0 <= j < i ==> !Matches(ds[j], ByUuid(uuid))
        {
          if ds[i].uuid.Some? && EqIgnoreAsciiCase(ds[i].uuid.value, uuid) {
            found := true;
            FirstMatchUnique(ds, ByUuid(uuid), i);
            var displayId := ds[i].displayId;
            if ds[i].allModes.Some? {
              var modeExists := HasMode(ds[i].allModes.value, n);
              if !modeExists {
                return out, calls, Failure(ModeNotFoundForDisplay(n));
              }
              out := out + [SettingMode(uuid, displayId, n)];
              calls := calls + [SetModeNumber(displayId, n)];
              if code == 0 {
                out := out + [ModeSetSucceeded];
                result := Success;
              } else {
                return out, calls, Failure(SetOperationFailed(code));
              }
            } else {
              return out, calls, Failure(ModesUnavailableForDisplay);
            }
            break;
          }
          i := i + 1;
        }
        if !found {
          return out, calls, Failure(PersistentDisplayNotFound);
        }
      } else {
        return out, calls, Failure(DisplaysUnavailable);
      }
    } else {
      return out, calls, Failure(ManagerUnavailable);
    }
  }
}
