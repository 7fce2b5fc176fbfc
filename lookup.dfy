/** The display lookups every command shares: the `--display` filter over the
    active CoreGraphics IDs, and the first-match scans of the MonitorPanel
    display list by numeric ID or by persistent UUID. */
module Lookup {
  import opened Wrappers
  import opened MonitorPanel
  import opened Report
  import opened Ascii

  /** The `--display <id>` filter of `list` and `get-brightness`: every active
      display when no filter is given, the one requested display when it is
      active, otherwise the "Display ID not found" error. */
  function SelectDisplays(active: seq<u32>, filter: Option<u32>): (r: Result<seq<u32>, Error>)
    ensures r.Ok? <==> filter.None? || filter.value in active
    ensures filter.None? ==> r == Ok(active)
    ensures filter.Some? && r.Ok? ==> r.value == [filter.value]
    ensures r.Ok? ==> forall id :: id in r.value ==> id in active
    ensures r.Err? ==> r.error == RequestedDisplayNotFound(filter.value)
  {
    match filter
    case Some(id) => if id in active then Ok([id]) else Err(RequestedDisplayNotFound(id))
    case None => Ok(active)
  }

  /** How a MonitorPanel display is looked up: by its numeric ID (compared with
      the CoreGraphics ID cast to `i32`) or by its persistent UUID. */
  datatype Key = ById(id: i32) | ByUuid(uuid: string)

  /** A display matches a UUID only if it has one and it is equal ignoring
      ASCII case; a display without a UUID never matches one. */
  predicate Matches(d: MpDisplay, key: Key)
    ensures key.ByUuid? && d.uuid.None? ==> !Matches(d, key)
    ensures key.ById? ==> (Matches(d, key) <==> d.displayId == key.id)
  {
    match key
    case ById(id) => d.displayId == id
    case ByUuid(u) => d.uuid.Some? && EqIgnoreAsciiCase(d.uuid.value, u)
  }

  /** `i` is the position of the first display matching `key`. */
  predicate IsFirstMatch(ds: seq<MpDisplay>, key: Key, i: nat)
  {
    i < |ds| && Matches(ds[i], key) && forall j :: 0 <= j < i ==> !Matches(ds[j], key)
  }

  /** The position at which a front-to-back scan that stops at the first match stops. */
  function FirstMatch(ds: seq<MpDisplay>, key: Key): (r: Option<nat>)
    ensures r.Some? ==> IsFirstMatch(ds, key, r.value)
    ensures r.None? ==> forall j :: 0 <= j < |ds| ==> !Matches(ds[j], key)
  {
    if ds == [] then None
    else if Matches(ds[0], key) then Some(0)
    else match FirstMatch(ds[1..], key)
      case None => None
      case Some(i) => Some(i + 1)
  }

  /** There is only one first match, so the scan's answer is determined. */
  lemma FirstMatchUnique(ds: seq<MpDisplay>, key: Key, i: nat)
    requires IsFirstMatch(ds, key, i)
    ensures FirstMatch(ds, key) == Some(i)
  {
  }

  /** The outcome of looking a display up through the manager. */
  datatype Resolution = Resolved(display: MpDisplay) | NoManager | NoDisplayList | NoMatch

  /** The lookup cascade: no manager, then no displays array, then no
      matching display, otherwise the first matching display. */
  function Resolve(p: Option<Manager>, key: Key): (r: Resolution)
    ensures r.NoManager? <==> p.None?
    ensures r.NoDisplayList? <==> p.Some? && p.value.displays.None?
    ensures r.NoMatch? <==> p.Some? && p.value.displays.Some?
                            && forall j :: 0 <= j < |p.value.displays.value| ==> !Matches(p.value.displays.value[j], key)
    ensures r.Resolved? ==> p.Some? && p.value.displays.Some?
                            && exists i: nat :: IsFirstMatch(p.value.displays.value, key, i) && p.value.displays.value[i] == r.display
  {
    match p
    case None => NoManager
    case Some(mgr) =>
      match mgr.displays
      case None => NoDisplayList
      case Some(ds) =>
        match FirstMatch(ds, key)
        case None => NoMatch
        case Some(i) => Resolved(ds[i])
  }

  /** UUID lookup does not depend on how the argument is cased: two arguments
      that are equal ignoring ASCII case resolve to the same display. */
  lemma {:induction false} FirstMatchIgnoresCase(ds: seq<MpDisplay>, a: string, b: string)
    requires EqIgnoreAsciiCase(a, b)
    ensures FirstMatch(ds, ByUuid(a)) == FirstMatch(ds, ByUuid(b))
  {
    if ds != [] {
      if ds[0].uuid.Some? {
        var u := ds[0].uuid.value;
        EqIgnoreAsciiCaseSymmetric(a, b);
        if EqIgnoreAsciiCase(u, a) { EqIgnoreAsciiCaseTransitive(u, a, b); }
        if EqIgnoreAsciiCase(u, b) { EqIgnoreAsciiCaseTransitive(u, b, a); }
      }
      FirstMatchIgnoresCase(ds[1..], a, b);
    }
  }

  lemma ResolveIgnoresCase(p: Option<Manager>, a: string, b: string)
    requires EqIgnoreAsciiCase(a, b)
    ensures Resolve(p, ByUuid(a)) == Resolve(p, ByUuid(b))
  {
    if p.Some? && p.value.displays.Some? {
      FirstMatchIgnoresCase(p.value.displays.value, a, b);
    }
  }

  /** Giving the stored UUID of display `i`, in any letter case, resolves to
      display `i` or to an earlier display whose UUID is the same ignoring case;
      when UUIDs are distinct ignoring case it resolves to display `i` itself. */
  lemma RecasedUuidResolves(ds: seq<MpDisplay>, i: nat, t: string)
    requires i < |ds| && ds[i].uuid.Some?
    requires EqIgnoreAsciiCase(t, ds[i].uuid.value)
    ensures FirstMatch(ds, ByUuid(t)).Some?
    ensures FirstMatch(ds, ByUuid(t)).value <= i
    ensures (forall j :: 0 <= j < i && ds[j].uuid.Some? ==> !EqIgnoreAsciiCase(ds[j].uuid.value, ds[i].uuid.value))
            ==> FirstMatch(ds, ByUuid(t)) == Some(i)
  {
    var u := ds[i].uuid.value;
    EqIgnoreAsciiCaseSymmetric(t, u);
    FirstMatchIgnoresCase(ds, t, u);
    EqIgnoreAsciiCaseReflexive(u);
    assert Matches(ds[i], ByUuid(u));
    if forall j :: 0 <= j < i && ds[j].uuid.Some? ==> !EqIgnoreAsciiCase(ds[j].uuid.value, u) {
      FirstMatchUnique(ds, ByUuid(u), i);
    }
  }

  /** The "Persistent screen id" line shown for a numeric display ID: the UUID
      of the first manager display whose ID equals `id as i32`, or nothing. */
  function PersistentIdLines(p: Option<Manager>, id: u32): (r: seq<Line>)
    ensures |r| <= 1
    ensures forall i :: 0 <= i < |r| ==> r[i].PersistentId?
    ensures p.None? ==> r == []
    ensures r != [] <==> Resolve(p, ById(AsI32(id))).Resolved? && Resolve(p, ById(AsI32(id))).display.uuid.Some?
  {
    match Resolve(p, ById(AsI32(id)))
    case Resolved(d) => if d.uuid.Some? then [PersistentId(d.uuid.value)] else []
    case _ => []
  }

  /** The UUID shown is that of the first display with an equal ID; when that
      display has no UUID nothing is shown, whatever later displays hold. */
  lemma PersistentIdFromFirstEqualId(ds: seq<MpDisplay>, id: u32, i: nat)
    requires IsFirstMatch(ds, ById(AsI32(id)), i)
    ensures PersistentIdLines(Some(Manager(Some(ds))), id)
            == if ds[i].uuid.Some? then [PersistentId(ds[i].uuid.value)] else []
  {
    FirstMatchUnique(ds, ById(AsI32(id)), i);
  }

  /** The scan the three numeric-ID commands run: stop at the first display
      whose ID equals `id as i32` and print its UUID if it has one. */
  method ReportPersistentId(p: Option<Manager>, id: u32) returns (lines: seq<Line>)
    ensures lines == PersistentIdLines(p, id)
  {
    lines := [];
    if p.Some? {
      if p.value.displays.Some? {
        var ds := p.value.displays.value;
        var i := 0;
        while i < |ds|
          invariant 0 <= i <= |ds|
          invariant forall j :: 0 <= j < i ==> !Matches(ds[j], ById(AsI32(id)))
          invariant lines == []
        {
          if ds[i].displayId == AsI32(id) {
            FirstMatchUnique(ds, ById(AsI32(id)), i);
            if ds[i].uuid.Some? {
              lines := [PersistentId(ds[i].uuid.value)];
            }
            break;
          }
          i := i + 1;
        }
      }
    }
  }
}
