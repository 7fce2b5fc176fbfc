/** The `get-mode --display <uuid>` command. */
module GetDisplayMode {
  import opened Wrappers
  import opened MonitorPanel
  import opened Report
  import opened Ascii
  import opened Lookup

  /** What `get-mode` does: print the current mode number of the first display
      whose UUID equals the argument ignoring ASCII case, and nothing else;
      every other case is an error with nothing printed. */
  function GetModeRun(p: Option<Manager>, uuid: string): (r: Run)
    ensures r.calls == []
    ensures r.result.Success? <==>
            Resolve(p, ByUuid(uuid)).Resolved? && Resolve(p, ByUuid(uuid)).display.currentMode.Some?
    ensures r.result.Success? ==>
            r.out == [CurrentModeNumber(Resolve(p, ByUuid(uuid)).display.currentMode.value.modeNumber)]
    ensures r.result.Failure? ==> r.out == []
    ensures p.None? ==> r.result == Failure(ManagerUnavailable)
    ensures p.Some? && p.value.displays.None? ==> r.result == Failure(DisplaysUnavailable)
    ensures Resolve(p, ByUuid(uuid)).NoMatch? ==> r.result == Failure(PersistentDisplayNotFound)
  {
    match Resolve(p, ByUuid(uuid))
    case NoManager => Run([], [], Failure(ManagerUnavailable))
    case NoDisplayList => Run([], [], Failure(DisplaysUnavailable))
    case NoMatch => Run([], [], Failure(PersistentDisplayNotFound))
    case Resolved(d) =>
      match d.currentMode
      case None => Run([], [], Failure(CurrentModeUnavailable))
      case Some(m) => Run([CurrentModeNumber(m.modeNumber)], [], Success)
  }

  /** The scan returns at the first display whose UUID matches: when that
      display has no current mode the command fails, even if a later display
      with a matching UUID has one. */
  lemma FirstMatchWithoutCurrentModeFails(ds: seq<MpDisplay>, uuid: string, i: nat)
    requires IsFirstMatch(ds, ByUuid(uuid), i) && ds[i].currentMode.None?
    ensures GetModeRun(Some(Manager(Some(ds))), uuid) == Run([], [], Failure(CurrentModeUnavailable))
  {
    FirstMatchUnique(ds, ByUuid(uuid), i);
  }

  /** A UUID given in another letter case than stored gives the same run. */
  lemma GetModeIgnoresCase(p: Option<Manager>, a: string, b: string)
    requires EqIgnoreAsciiCase(a, b)
    ensures GetModeRun(p, a) == GetModeRun(p, b)
  {
    ResolveIgnoresCase(p, a, b);
  }

  /** `get_display_mode`: scan the manager's displays and return at the first
      UUID match. */
  method GetDisplayMode(p: Option<Manager>, uuid: string) returns (out: seq<Line>, result: Outcome)
    ensures Run(out, [], result) == GetModeRun(p, uuid)
  {
    out := [];
    if p.Some? {
      if p.value.displays.Some? {
        var ds := p.value.displays.value;
        var i := 0;
        while i < |ds|
          invariant 0 <= i <= |ds|
          invariant forall j :: 0 <= j < i ==> !Matches(ds[j], ByUuid(uuid))
        {
          if ds[i].uuid.Some? {
            if EqIgnoreAsciiCase(ds[i].uuid.value, uuid) {
              FirstMatchUnique(ds, ByUuid(uuid), i);
              if ds[i].currentMode.Some? {
                out := [CurrentModeNumber(ds[i].currentMode.value.modeNumber)];
                return out, Success;
              } else {
                return out, Failure(CurrentModeUnavailable);
              }
            }
          }
          i := i + 1;
        }
        return out, Failure(PersistentDisplayNotFound);
      } else {
        return out, Failure(DisplaysUnavailable);
      }
    } else {
      return out, Failure(ManagerUnavailable);
    }
  }
}
