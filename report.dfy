/** What a command leaves behind, without its formatting: the lines it prints
    on standard output, the framework calls that change something, and how it
    ends (exit 0, or an error message on standard error and exit 1). */
module Report {
  import opened Wrappers
  import opened MonitorPanel

  /** The two groups a mode listing is split into. */
  datatype Group = HiDpiRetina | Standard

  /** The flags a mode line may carry, in the order they are printed. */
  datatype Flag = HiDpi | Retina | Native | Default

  /** One printed mode line: `Mode #n: WxH (PWxPH pixels) @ RHz scale=S [flags] [Current]`.
      `pixels` and `scale` are the optional suffixes. */
  datatype ModeLine = ModeLine(
    modeNumber: i32,
    width: i32,
    height: i32,
    pixels: Option<(i32, i32)>,
    refreshRate: i32,
    scale: Option<real>,
    flags: seq<Flag>,
    current: bool)

  /** The banner a command prints first. */
  datatype Banner = DisplayInformation | BrightnessInformation | SettingDisplayMode | SettingBrightness

  /** The soft-unavailability messages of the mode listing, printed instead of failing. */
  datatype Placeholder =
    | ManagerNotAvailable
    | NoDisplaysArray
    | DisplayNotInPanel(id: u32)
    | NoModesAvailable

  /** One line (or block of lines) on standard output. */
  datatype Line =
    | Heading(banner: Banner)
    | FoundDisplays(count: nat)
    | DisplayNumber(ordinal: nat)
    | ContextualId(id: u32)
    | PersistentId(uuid: string)
    | DisplayDetails(info: CgDisplay)
    | CurrentCgMode(mode: CgMode)
    | VerboseHint
    | AvailableModes
    | TotalModes(count: nat)
    | GroupHeading(group: Group)
    | ModeEntry(line: ModeLine)
    | Gap
    | Unavailable(placeholder: Placeholder)
    | ModelAndBuiltin(modelNumber: u32, isBuiltin: bool)
    | BrightnessPercent(percent: nat)
    | BrightnessNotAvailable
    | TargetDisplay(id: u32)
    | CurrentBrightness(percent: nat)
    | NewBrightness(requested: u32)
    | BrightnessUpdated
    | SettingMode(uuid: string, displayId: i32, modeNumber: i32)
    | ModeSetSucceeded
    | CurrentModeNumber(modeNumber: i32)
    | EndOfDisplay

  /** The hard errors: each one is printed on standard error and ends the
      process with exit code 1. */
  datatype Error =
    | RequestedDisplayNotFound(id: u32)
    | PersistentDisplayNotFound
    | ModeNotFoundForDisplay(modeNumber: i32)
    | ManagerUnavailable
    | DisplaysUnavailable
    | ModesUnavailableForDisplay
    | CurrentModeUnavailable
    | InvalidBrightnessRange
    | SetOperationFailed(code: i32)

  /** Exit 0, or an error and exit 1. */
  datatype Outcome = Success | Failure(error: Error)

  /** Framework calls whose order or absence matters. */
  datatype Call =
    | QueryActiveDisplays
    | ReadBrightness(id: u32)
    | WriteBrightness(id: u32, level: real)
    | SetModeNumber(displayId: i32, modeNumber: i32)

  /** Everything one command run leaves behind. */
  datatype Run = Run(out: seq<Line>, calls: seq<Call>, result: Outcome)
}
