# displayconfig — a Dafny model of the command core

`displayconfig` is a macOS command-line tool. It lists displays and their
modes, reads and sets a display's mode through the private MonitorPanel
framework, and reads and sets brightness through CoreDisplay. This project
models the five command functions and proves what they print, which
framework calls they make, and how they end:

- `list` (`list_displays`, `list_display_modes`)
- `get-mode` (`get_display_mode`)
- `set-mode` (`set_display_mode`)
- `get-brightness` (`get_brightness`)
- `set-brightness` (`set_brightness`)

How the model is built:

- **Framework objects are records.** A MonitorPanel manager, its displays
  and their modes are `Manager`, `MpDisplay` and `Mode`. An accessor that
  answers `None` on a null handle becomes an `Option` field. The manager
  obtained with `MPDisplayMgr::new().or_else(|| MPDisplayMgr::shared())`
  (`MonitorPanel.ObtainManager`) is a parameter `p: Option<Manager>`.
- **CoreGraphics is an input.** The active display list is
  `active: seq<u32>`. The per-display data is a function
  `cg: u32 -> CgDisplay`.
- **Brightness is mutable state.** CoreDisplay is a class `Brightness`
  whose `levels` map the set call updates in place. A display with an entry
  in the map has brightness control. A display without one reads as
  unsupported and ignores a write.
- **Effects are values.** Standard output is a sequence of `Line` values.
  An error message on standard error followed by `exit(1)` is
  `Failure(error)`. The framework calls whose order matters are a sequence
  of `Call` values.
- **Each command is specified twice.** An imperative method follows the
  Rust loops and early exits. Its `ensures` equates its results with a
  specification function: `GetModeRun`, `SetModeRun`, `SetBrightnessRun`,
  `ModesReport`, `DisplayBlocks` or `BrightnessBlocks`. The lemmas are
  proved about those functions.

Modules:

- `Wrappers`: `Option`, `Result`.
- `MonitorPanel`: the records, the `u32`/`i32` types, and the `as i32` cast.
- `Report`: output lines, errors, calls.
- `Ascii`: `eq_ignore_ascii_case`.
- `Lookup`: the `--display` filter and the first-match scans.
- `Rounding`: the rounding used for percentages and pixels.
- `ModeListing`: describing, marking, grouping and sorting modes.
- `ListDisplays`, `GetDisplayMode`, `SetDisplayMode`, `GetBrightness` and
  `SetBrightness`: one module per command.
- `CoreDisplay`: the brightness service.

Three consequences of the code are worth stating:

- **Brightness round trip.** `set-brightness` stores `p / 100` and
  `get-brightness` shows `round(level * 100)`. On exact reals
  `round((p / 100) * 100) = p`, so the percentage read back is the one set
  (`CoreDisplay.PercentRoundTrip`, `GetBrightness.SetThenGetRoundTrip`).
- **The fallback current-mode heuristic.** The comment at
  `src/commands/list_displays.rs:185-188` says the scaled-pixel test
  "narrows down HiDPI duplicate entries". The test compares a mode's pixel
  size with the CoreGraphics logical size times that mode's own scale. The
  logical-size test has already required the mode's logical size to equal
  the CoreGraphics one. So the expected pixels are the mode's own logical
  size times its own scale. The test therefore rejects only a mode whose
  pixel size disagrees with its own scale (`ModeListing.GeometryMatchesIff`).
  A 2x mode (2880x1800 pixels, scale 2) and a 1x mode (1440x900 pixels,
  scale 1) of the same logical size and refresh rate both pass
  (`ModeListing.ScaleVariantsBothMatch`). The model keeps this behaviour. It
  only matters when MonitorPanel reports no current mode.
- **`set-brightness` ordering.** The range check and the active-display
  check run before the banner is printed, so a rejected call prints nothing
  on standard output.

## Model

| member | source | states |
|---|---|---|
| `MonitorPanel.AsI32` | src/commands/list_displays.rs:36 | `id as i32` keeps the 32-bit pattern: the result is congruent to the ID modulo 2^32, and is non-negative exactly when the ID is below 2^31 |
| `MonitorPanel.AsI32Injective` | src/commands/list_displays.rs:89 | two CoreGraphics IDs compare equal after the cast exactly when they are equal |
| `MonitorPanel.ObtainManager` | src/monitor_panel/monitor_panel.rs:23-43 | `new().or_else(shared)`: a manager exists iff either constructor yields one; the freshly created one wins, otherwise the shared one is used |
| `Lookup.SelectDisplays` | src/commands/list_displays.rs:12-21 | no filter selects all active displays in order; a filter selects exactly `[id]` iff `id` is active; otherwise "display not found" for that ID; selected IDs are always active |
| `Lookup.Matches` | src/commands/set_display_mode.rs:15-16 | a display without a UUID never matches a UUID key; an ID key matches exactly the display with that ID |
| `Lookup.FirstMatch` | src/commands/set_display_mode.rs:14-17 | the scan stops at the first display matching the key, and finds none only if no display matches |
| `Lookup.Resolve` | src/commands/set_display_mode.rs:8-17 | the lookup cascade, both directions: no manager, no displays array, no matching display (iff none matches), or the first matching display |
| `Lookup.FirstMatchIgnoresCase` | src/commands/set_display_mode.rs:16 | two UUID arguments equal ignoring ASCII case stop the scan at the same display |
| `Lookup.ResolveIgnoresCase` | src/commands/get_display_mode.rs:13 | the whole resolution is independent of the letter case of the UUID argument |
| `Lookup.RecasedUuidResolves` | src/commands/get_display_mode.rs:11-13 | a stored UUID given in any letter case resolves to that display or an earlier one with the same UUID ignoring case; with case-distinct UUIDs, to that display itself |
| `Lookup.PersistentIdLines` | src/commands/list_displays.rs:32-45 | at most one "Persistent screen id" line; shown iff a manager display with the cast ID is found first and has a UUID; nothing without a manager |
| `Lookup.PersistentIdFromFirstEqualId` | src/commands/list_displays.rs:35-41 | the UUID shown is that of the first display with an equal ID; if that display has none, nothing is shown whatever later displays hold |
| `Lookup.ReportPersistentId` | src/commands/get_brightness.rs:37-50 | the scan with `break` yields exactly the persistent-ID lines of the specification |
| `Ascii.EqIgnoreAsciiCase` | src/commands/set_display_mode.rs:16 | strings of different lengths never compare equal ignoring ASCII case |
| `Ascii.EqIgnoreAsciiCaseIsLowerEquality` | src/commands/set_display_mode.rs:16 | comparing ignoring ASCII case is equality of the ASCII-lower-cased strings |
| `Ascii.EqIgnoreAsciiCaseReflexive` | src/commands/get_display_mode.rs:13 | every string matches itself |
| `Ascii.EqIgnoreAsciiCaseSymmetric` | src/commands/get_display_mode.rs:13 | the comparison is symmetric |
| `Ascii.EqIgnoreAsciiCaseTransitive` | src/commands/get_display_mode.rs:13 | the comparison is transitive |
| `Ascii.RecasingMatches` | src/commands/set_display_mode.rs:16 | a string whose characters are each kept, upper-cased or lower-cased matches the original |
| `Ascii.CaseConversionsMatch` | src/commands/set_display_mode.rs:16 | the all-upper and all-lower spellings of a UUID match it |
| `Ascii.NonLetterDifferenceDistinguishes` | src/commands/set_display_mode.rs:16 | folding is ASCII-only: a difference in a non-letter position makes the strings differ |
| `Rounding.RoundHalfAway` | src/commands/get_brightness.rs:61 | `f64::round`: within 0.5 of the input, and halves go away from zero |
| `Rounding.RoundIntegerIsIdentity` | src/commands/set_brightness.rs:54 | rounding an integral value gives that integer |
| `CoreDisplay.ToPercent` | src/commands/get_brightness.rs:61 | a level in [0, 1] becomes a percentage of at most 100 within 0.5 of `level * 100` |
| `CoreDisplay.PercentRoundTrip` | src/commands/set_brightness.rs:59 | every accepted percentage becomes a level in [0, 1] that reads back as the same percentage |
| `CoreDisplay.ToFraction` | src/commands/set_brightness.rs:59 | an accepted percentage becomes a level in [0, 1] that is the percentage divided by 100 |
| `CoreDisplay.ReadingOf` | src/commands/get_brightness.rs:57 | a display with brightness control reads its stored level; any other reads outside [0, 1] |
| `CoreDisplay.Written` | src/commands/set_brightness.rs:62-64 | a write reaches a display with brightness control, leaves a display without it unsupported, and keeps every other display's reading |
| `CoreDisplay.Brightness.GetUserBrightness` | src/commands/get_brightness.rs:57 | the read returns the display's stored level, or the out-of-range "unsupported" level |
| `CoreDisplay.Brightness.SetUserBrightness` | src/commands/set_brightness.rs:62-64 | the write sets the level of a display with brightness control, is ignored by a display without it, and changes no other display's level |
| `ModeListing.KeepFlags` | src/commands/list_displays.rs:143-155 | the kept flags are exactly those the mode has, in the given order |
| `ModeListing.FlagList` | src/commands/list_displays.rs:142-161 | each of HiDPI, Retina, Native and Default is listed iff its flag is set, in that fixed order |
| `ModeListing.Describe` | src/commands/list_displays.rs:126-162 | a mode's line keeps its number, size and refresh rate; the pixel suffix appears iff pixel size differs from logical size; the scale suffix, showing the mode's scale, iff scale ≠ 1 |
| `ModeListing.SignalOf` | src/commands/list_displays.rs:102-104 | the reported current mode number exists iff MonitorPanel reports a current mode, and is its number |
| `ModeListing.IsCurrent` | src/commands/list_displays.rs:169-204 | a reported current number decides alone; without one the geometry heuristic decides when CoreGraphics has a mode; otherwise nothing is current |
| `ModeListing.ExpectedPixels` | src/commands/list_displays.rs:189-190 | the expected pixel count is within 0.5 of logical size times scale, and is the logical size itself at scale 1 |
| `ModeListing.GeometryMatchPinsSize` | src/commands/list_displays.rs:178-203 | on integer sizes the tolerances collapse: a matching mode has exactly the CoreGraphics logical size and the rounded scaled pixel size |
| `ModeListing.GeometryMatchesIff` | src/commands/list_displays.rs:178-203 | both directions: a mode matches iff it has the CoreGraphics logical size, a refresh rate within 1 Hz, and pixels equal to its own logical size times its own scale, rounded |
| `ModeListing.ScaleVariantsBothMatch` | src/commands/list_displays.rs:185-201 | the 2x HiDPI and the 1x variant of 1440x900 at 60 Hz both match a 1440x900 60 Hz CoreGraphics mode |
| `ModeListing.GeometryMatchSameScaleAgree` | src/commands/list_displays.rs:185-194 | two matching modes of the same scale agree on every dimension, so two matching modes that differ in any dimension differ in scale |
| `ModeListing.GroupOf` | src/commands/list_displays.rs:212-216 | HiDPI/Retina iff the mode is HiDPI or Retina |
| `ModeListing.CollectMembership` | src/commands/list_displays.rs:110-217 | a line is in a group iff it describes some user-visible mode of that group |
| `ModeListing.GroupsPartitionVisible` | src/commands/list_displays.rs:212-216 | the two groups together are a permutation of the lines of all visible modes |
| `ModeListing.CollectMarksReported` | src/commands/list_displays.rs:171-174 | with a reported current number, a grouped line is marked current iff its mode number equals it |
| `ModeListing.CollectMarksNothingWithoutSignal` | src/commands/list_displays.rs:169-175 | with neither signal no line is marked current |
| `ModeListing.PartitionModes` | src/commands/list_displays.rs:106-218 | the push loop builds exactly the two groups of the specification |
| `ModeListing.SortByNumberCorrect` | src/commands/list_displays.rs:220-222 | the sort is ascending by mode number, a permutation of its input, and stable (each equal-number run keeps its order) |
| `ModeListing.SortOfSortedIsIdentity` | src/commands/list_displays.rs:221-222 | sorting an ascending list changes nothing |
| `ModeListing.SortIdempotent` | src/commands/list_displays.rs:221-222 | sorting twice is sorting once |
| `ModeListing.SortedByRunsUnique` | src/commands/list_displays.rs:221-222 | an ascending list is determined by its equal-number runs |
| `ModeListing.StableSortIsSortByNumber` | src/commands/list_displays.rs:221-222 | any stable ascending sort by mode number gives the same result as the model's sort |
| `ModeListing.GroupBlock` | src/commands/list_displays.rs:224-239 | an empty group prints nothing at all, a non-empty group prints something |
| `ModeListing.ModeListingLines` | src/commands/list_displays.rs:93 | the listing starts with the count of all modes |
| `ModeListing.LayoutShowsHiDpi` | src/commands/list_displays.rs:225-231 | the `j`-th sorted HiDPI/Retina line is printed right after the count and the group heading |
| `ModeListing.LayoutShowsStandard` | src/commands/list_displays.rs:234-239 | the `j`-th sorted Standard line is printed right after the HiDPI/Retina block and the Standard heading |
| `ModeListing.VisibleInSortedGroup` | src/commands/list_displays.rs:212-222 | a visible mode's line is in its group after sorting |
| `ModeListing.ListingShowsEveryVisibleMode` | src/commands/list_displays.rs:110-239 | every user-visible mode's line is printed in the listing |
| `ModeListing.ListingOrder` | src/commands/list_displays.rs:220-239 | every HiDPI/Retina line is printed before every Standard line; within a group mode numbers ascend |
| `ModeListing.ListingMarksReported` | src/commands/list_displays.rs:164-208 | with a reported current number, a printed mode line is marked `[Current]` iff its number equals it |
| `ModeListing.ListingShowsOnlyVisibleModes` | src/commands/list_displays.rs:93-125 | the count line counts all modes, hidden ones included, and every printed mode line describes a user-visible mode |
| `ModeListing.ListingHeadings` | src/commands/list_displays.rs:224-239 | each group heading is printed iff that group has a visible mode |
| `ListDisplays.ModesReportShape` | src/commands/list_displays.rs:72-256 | the mode report is the heading, then exactly one placeholder when no mode list is found for the cast ID, otherwise the listing |
| `ListDisplays.ReportModes` | src/commands/list_displays.rs:106-239 | partition, sort and print produce exactly the specified listing |
| `ListDisplays.ListDisplayModes` | src/commands/list_displays.rs:72-257 | the scan prints exactly the specified mode report: the listing for the first display with the cast ID, or the placeholder for each failure on the way |
| `ListDisplays.ListingHasNoPlaceholder` | src/commands/list_displays.rs:92-239 | a display with a mode list prints no placeholder line |
| `ListDisplays.NotInPanelIffNoEqualId` | src/commands/list_displays.rs:247-249 | "display ID not found in MonitorPanel" is printed iff the manager's displays array holds no display with the cast ID |
| `ListDisplays.DisplayBlockShape` | src/commands/list_displays.rs:26-68 | a display block opens with its number and ID, ends with the end-of-display line, holds the mode report iff `--verbose` is given, and the hint otherwise |
| `ListDisplays.ReportDisplay` | src/commands/list_displays.rs:26-68 | one display's block: number, ID, persistent ID, details, current mode, then the modes or the `--verbose` hint |
| `ListDisplays.ReportDisplays` | src/commands/list_displays.rs:25-69 | the loop prints each selected display's block numbered from 1 in selection order |
| `ListDisplays.ListDisplays` | src/commands/list_displays.rs:5-70 | fails iff the requested display is not active, then after the banner only; otherwise banner, count, and one block per selected display |
| `SetDisplayMode.HasMode` | src/commands/set_display_mode.rs:22-23 | `any`: true iff some listed mode has the number |
| `SetDisplayMode.SetModeRun` | src/commands/set_display_mode.rs:3-78 | the banner comes first; no manager, no displays array, no UUID match, no mode list and an unlisted number each fail with their own error and print only the banner; otherwise exactly one set call for the first UUID match, the "setting" line, and success with its message iff the call returns 0, else that nonzero code is the failure |
| `SetDisplayMode.ListedModeIsSet` | src/commands/set_display_mode.rs:20-41 | every mode number in the matched display's list reaches the set call for that display |
| `SetDisplayMode.UnlistedModeIsRejected` | src/commands/set_display_mode.rs:22-34 | an unlisted mode number is rejected with "mode not found" before any set call |
| `SetDisplayMode.FirstMatchWithoutModesFails` | src/commands/set_display_mode.rs:52-59 | a first match without a mode list fails the command whatever later matches hold |
| `SetDisplayMode.SetModeIgnoresCase` | src/commands/set_display_mode.rs:16 | the UUID argument's letter case changes neither the call made nor the result |
| `SetDisplayMode.SetDisplayMode` | src/commands/set_display_mode.rs:3-78 | the scan with early exits produces exactly the specified output, calls and result |
| `GetDisplayMode.GetModeRun` | src/commands/get_display_mode.rs:3-39 | only the current mode number is printed, iff the first UUID match has a current mode; each failure prints nothing and names its cause; no framework call changes state |
| `GetDisplayMode.FirstMatchWithoutCurrentModeFails` | src/commands/get_display_mode.rs:13-21 | the scan returns at the first match: without a current mode it fails even if a later match has one |
| `GetDisplayMode.GetModeIgnoresCase` | src/commands/get_display_mode.rs:13 | the UUID argument's letter case does not change the run |
| `GetDisplayMode.GetDisplayMode` | src/commands/get_display_mode.rs:3-39 | the scan with early returns produces exactly the specified output and result |
| `GetBrightness.BrightnessLine` | src/commands/get_brightness.rs:59-66 | a percentage is shown iff the level is in [0, 1], rounded to within 0.5; any other level shows "Not available" and is not an error |
| `GetBrightness.SetThenGetRoundTrip` | src/commands/set_brightness.rs:59-66 | after `set-brightness` writes `p`, `get-brightness` shows exactly `p` for a display with brightness control and still "Not available" for one without; every other display's line is unchanged |
| `GetBrightness.BrightnessBlockShape` | src/commands/get_brightness.rs:31-68 | a display block opens with its number and ID, and shows exactly one brightness line, for the level read, just before the end-of-display line |
| `GetBrightness.ReportBrightness` | src/commands/get_brightness.rs:31-68 | one display's block, with the brightness line for the level read |
| `GetBrightness.ReportBrightnesses` | src/commands/get_brightness.rs:30-69 | the loop prints each selected display's block numbered from 1 in selection order |
| `GetBrightness.GetBrightness` | src/commands/get_brightness.rs:10-70 | fails iff the requested display is not active, then after the banner only; otherwise banner, count and one block per selected display |
| `SetBrightness.TargetInfo` | src/commands/set_brightness.rs:29-49 | the target block starts with the banner and the display ID and shows no brightness |
| `SetBrightness.PreviousLevel` | src/commands/set_brightness.rs:52-56 | the old level is shown, as its percentage, iff it lies in [0, 1] |
| `SetBrightness.SetBrightnessRun` | src/commands/set_brightness.rs:11-68 | a percentage above 100 fails with no output and no call; an inactive display fails after only the display query; success iff both checks pass, then read once, write `p/100` once, report the new percentage |
| `SetBrightness.SetBrightness` | src/commands/set_brightness.rs:11-68 | the command produces exactly the specified run and changes the stored levels only on success, and then only the level of that display when it has brightness control |

## Left out

- `watch` (`src/commands/watch.rs`): the reconfiguration callback and the run loop are concurrency and OS event delivery.
- Command-line parsing (`src/main.rs`), `build.rs` and the `mod.rs` files: argument parsing is not part of the core. Each command is modelled from its typed arguments on.
- Objective-C message sending in `src/monitor_panel/monitor_panel.rs`: each accessor is modelled by the value it returns. A null handle becomes `None`. A display UUID that fails at any of its three handles is a missing UUID.
- `CGDisplay::active_displays().expect(...)`: the panic on failure is not modelled. The active list is always available.
- Floating point: levels, scales and refresh rates are exact reals. NaN, `f32`→`f64` widening, and rounding error in `scale * width` or `p / 100.0` are not modelled.
- The `{:.1}` and `{:.2}` formatting, and the exact text of every message: lines are typed values that carry their data.
- The two standard-error hint lines ("Use 'list' …", "Use 'list --verbose' …"): each is folded into the `Error` it follows.
- `set_mode_number`: the framework's effect on the display is not modelled. Its result code is a parameter of `SetModeRun`.
- The CoreGraphics per-display data is an input function, so it cannot change during a run.
- CoreDisplay's own behaviour is not visible from the tool. The model assumes that a display either has brightness control or does not, for the whole run. A display with control stores every level written to it. A display without control reads as the out-of-range level -1, which the tool shows as not available, and ignores writes. A display whose control accepts a write but reads back differently is not modelled.
- A fresh MonitorPanel manager: the source calls `MPDisplayMgr::new().or_else(..)` anew for every use, on each pass of the display loop (`src/commands/list_displays.rs:33`, `src/commands/list_displays.rs:80`, `src/commands/get_brightness.rs:38`). The model passes one `p` to every use in a run, so a manager that appears or changes between passes is not modelled.
- `hidpi_modes.sort_by_key`: a library call, modelled as a functional stable insertion sort. `ModeListing.StableSortIsSortByNumber` shows that every stable ascending sort gives its result.
- The printing loops over the sorted groups are modelled as the functions `ModeEntries` and `GroupBlock`.
- `display_name`, `display_with_id` and the display-level HiDPI/Retina accessors of the MonitorPanel binding: no core command uses them.
- The list commands do not record the `QueryActiveDisplays` call. `set-brightness` records it because its place relative to the range check matters.
