/** The data the tool reads from the private MonitorPanel framework and from
    CoreGraphics, with every framework object replaced by a plain record.
    An accessor that returns `None` on a null handle becomes an `Option` field. */
module MonitorPanel {
  import opened Wrappers

  /** Rust's `u32` (CoreGraphics display IDs, brightness percentages). */
  type u32 = x: int | 0 <= x < 0x1_0000_0000

  /** Rust's `i32` (MonitorPanel display IDs, mode numbers, result codes). */
  type i32 = x: int | -0x8000_0000 <= x < 0x8000_0000

  /** Rust's `display_id as i32`: the same 32 bits read as a signed number. */
  function AsI32(x: u32): (r: i32)
    ensures (r - x) % 0x1_0000_0000 == 0
    ensures x < 0x8000_0000 <==> r >= 0
  {
    if x < 0x8000_0000 then x else x - 0x1_0000_0000
  }

  /** Distinct CoreGraphics IDs never collide after the cast, so comparing
      `mp_display.display_id() == id as i32` identifies one CoreGraphics ID. */
  lemma AsI32Injective(a: u32, b: u32)
    ensures AsI32(a) == AsI32(b) <==> a == b
  {
  }

  /** One MPDisplayMode: geometry, refresh rate, scale factor and flags. */
  datatype Mode = Mode(
    modeNumber: i32,
    width: i32,
    height: i32,
    pixelsWide: i32,
    pixelsHigh: i32,
    refreshRate: i32,
    scale: real,
    isHiDpi: bool,
    isRetina: bool,
    isNative: bool,
    isDefault: bool,
    isUserVisible: bool)

  /** One MPDisplay: its numeric ID, its persistent UUID (absent when any of
      the three handles on the way to the UTF-8 string is null), its mode list
      and its current mode. */
  datatype MpDisplay = MpDisplay(
    displayId: i32,
    uuid: Option<string>,
    allModes: Option<seq<Mode>>,
    currentMode: Option<Mode>)

  /** An MPDisplayMgr; `displays` is absent when the manager returns a null array. */
  datatype Manager = Manager(displays: Option<seq<MpDisplay>>)

  /** `MPDisplayMgr::new().or_else(|| MPDisplayMgr::shared())`: a freshly
      initialised manager if there is one, otherwise the shared instance. */
  function ObtainManager(created: Option<Manager>, shared: Option<Manager>): (r: Option<Manager>)
    ensures r.Some? <==> created.Some? || shared.Some?
    ensures created.Some? ==> r == created
    ensures created.None? ==> r == shared
  {
    if created.Some? then created else shared
  }

  /** A CGDisplayMode as the tool reads it: logical size and refresh rate. */
  datatype CgMode = CgMode(width: nat, height: nat, refreshRate: real)

  /** What CoreGraphics reports for one numeric display ID. */
  datatype CgDisplay = CgDisplay(
    modelNumber: u32,
    pixelsWide: nat,
    pixelsHigh: nat,
    isMain: bool,
    isBuiltin: bool,
    displayMode: Option<CgMode>)
}
