/**
 * The decision layer of the platform's climate entity: which value each
 * read-side property shows (live device value, restored snapshot or
 * nothing), how the device's mode and preset lists are filtered, which
 * feature flags are announced, and which device command each of the write
 * actions issues, if any.
 *
 * The device handle and the restored snapshot are inputs: a record of what
 * the device currently reports and an optional record of the last state
 * the platform persisted. A write action is a function to the command it
 * sends to the device, `None` when it declines.
 */
module HomematicClimate {
  import opened Wrappers
  import opened ClimateTables

  /** What the device handle reports at the moment of reading. */
  datatype Device = Device(
    isValid: bool,
    targetTemperature: Option<real>,
    currentTemperature: Option<real>,
    currentHumidity: Option<int>,
    hvacAction: Option<HmHvacAction>,
    hvacMode: HmHvacMode,
    hvacModes: seq<HmHvacMode>,
    presetMode: Option<string>,
    presetModes: seq<string>,
    supportsPreset: bool)

  /** The state string of a restored snapshot, already read as a platform mode. */
  datatype StoredState = Unknown | Unavailable | Stored(mode: HaHvacMode)

  /** A restored snapshot: its state and the attributes this entity reads back. */
  datatype RestoredState = RestoredState(
    state: StoredState,
    temperature: Option<real>,
    currentTemperature: Option<real>,
    currentHumidity: Option<int>,
    presetMode: Option<string>)

  /** The climate entity: its device handle and what was restored for it. */
  datatype Climate = Climate(device: Device, isRestored: bool, restoredState: Option<RestoredState>)

  /** The commands this entity sends to its device handle. */
  datatype Command =
    | SetTemperature(temperature: real)
    | SetHvacMode(mode: HmHvacMode)
    | SetPresetMode(preset: string)

  /** Where a read-side property takes its value from. */
  datatype Source = Live | Snapshot | Absent

  /**
   * The fallback policy shared by the restorable properties: the device while
   * it reports valid data, else the restored snapshot if there is one.
   */
  function ValueSource(c: Climate): (s: Source)
    ensures s == Live <==> c.device.isValid
    ensures s == Snapshot <==> !c.device.isValid && c.isRestored && c.restoredState.Some?
  {
    if c.device.isValid then Live
    else if c.isRestored && c.restoredState.Some? then Snapshot
    else Absent
  }

  // ---------------------------------------------------------------------
  // Read side
  // ---------------------------------------------------------------------

  /** The temperature the thermostat tries to reach. */
  function TargetTemperature(c: Climate): (r: Option<real>)
    ensures ValueSource(c) == Live ==> r == c.device.targetTemperature
    ensures ValueSource(c) == Snapshot ==> r == c.restoredState.value.temperature
    ensures ValueSource(c) == Absent ==> r == None
  {
    if c.device.isValid then c.device.targetTemperature
    else if c.isRestored && c.restoredState.Some? then c.restoredState.value.temperature
    else None
  }

  /** The measured temperature. */
  function CurrentTemperature(c: Climate): (r: Option<real>)
    ensures ValueSource(c) == Live ==> r == c.device.currentTemperature
    ensures ValueSource(c) == Snapshot ==> r == c.restoredState.value.currentTemperature
    ensures ValueSource(c) == Absent ==> r == None
  {
    if c.device.isValid then c.device.currentTemperature
    else if c.isRestored && c.restoredState.Some? then c.restoredState.value.currentTemperature
    else None
  }

  /** The measured humidity. */
  function CurrentHumidity(c: Climate): (r: Option<int>)
    ensures ValueSource(c) == Live ==> r == c.device.currentHumidity
    ensures ValueSource(c) == Snapshot ==> r == c.restoredState.value.currentHumidity
    ensures ValueSource(c) == Absent ==> r == None
  {
    if c.device.isValid then c.device.currentHumidity
    else if c.isRestored && c.restoredState.Some? then c.restoredState.value.currentHumidity
    else None
  }

  /**
   * What the thermostat is doing now. Read live whatever the device's
   * validity; a missing or untranslatable action shows as absent.
   */
  function HvacAction(c: Climate): (r: Option<HaHvacAction>)
    ensures r.Some? <==> c.device.hvacAction.Some? && c.device.hvacAction.value != HmHvacAction.Other
    ensures r.Some? ==> r.value != HaHvacAction.Other
    ensures r.Some? ==> c.device.hvacAction.value in HmToHaAction && HmToHaAction[c.device.hvacAction.value] == r.value
  {
    HvacActionTable();
    if c.device.hvacAction.Some? && c.device.hvacAction.value in HmToHaAction then
      Some(HmToHaAction[c.device.hvacAction.value])
    else None
  }

  /** A snapshot state that names a mode (neither unknown nor unavailable). */
  predicate KnownState(s: StoredState)
  {
    s !in {StoredState.Unknown, StoredState.Unavailable}
  }

  /**
   * The requested operating mode. A valid device always shows a mode: its
   * own when it has a platform counterpart, OFF otherwise. An invalid one
   * shows the restored mode if a snapshot with a known state exists.
   */
  function HvacMode(c: Climate): (r: Option<HaHvacMode>)
    ensures c.device.isValid ==> r.Some?
    ensures c.device.isValid && c.device.hvacMode != HmHvacMode.Other ==>
      r.value in HaToHmHvacMode && HaToHmHvacMode[r.value] == c.device.hvacMode
    ensures c.device.isValid && c.device.hvacMode == HmHvacMode.Other ==> r == Some(HaHvacMode.Off)
    ensures !c.device.isValid ==>
      (r.Some? <==> ValueSource(c) == Snapshot && c.restoredState.value.state.Stored?)
    ensures !c.device.isValid && r.Some? ==> r.value == c.restoredState.value.state.mode
  {
    HvacModeRoundTrip();
    if c.device.isValid then
      if c.device.hvacMode in HmToHaHvacMode then Some(HmToHaHvacMode[c.device.hvacMode])
      else Some(HaHvacMode.Off)
    else if c.isRestored && c.restoredState.Some? && KnownState(c.restoredState.value.state) then
      Some(c.restoredState.value.state.mode)
    else None
  }

  /**
   * The platform modes the device offers: the device's own list, in order,
   * with every mode that has no platform counterpart dropped.
   */
  function HvacModes(modes: seq<HmHvacMode>): (r: seq<HaHvacMode>)
    ensures |r| <= |modes|
    ensures forall x :: x in r ==> x != HaHvacMode.Other
  {
    HvacModeRoundTrip();
    if modes == [] then []
    else
      (if modes[0] in HmToHaHvacMode then [HmToHaHvacMode[modes[0]]] else [])
      + HvacModes(modes[1..])
  }

  /** Python's `str()` of the device's preset: `None` prints as "None". */
  function PresetText(p: Option<string>): string
  {
    if p.Some? then p.value else "None"
  }

  /** A standard platform preset. */
  predicate IsSupportedPreset(p: string)
  {
    p in SupportedHaPresetModes
  }

  /**
   * Whether the live preset is shown. As written, `and` binds tighter than
   * `or`: validity gates only the standard presets, a prefixed profile is
   * shown even while the device is invalid.
   */
  predicate ShowsLivePreset(prefix: string, d: Device): (b: bool)
    ensures d.isValid ==>
      (b <==> (d.presetMode.Some? && IsSupportedPreset(d.presetMode.value)) || prefix <= PresetText(d.presetMode))
    ensures !d.isValid ==> (b <==> prefix <= PresetText(d.presetMode))
  {
    (d.isValid && d.presetMode.Some? && IsSupportedPreset(d.presetMode.value))
    || prefix <= PresetText(d.presetMode)
  }

  /** The current preset; `prefix` is the device library's profile prefix. */
  function PresetMode(prefix: string, c: Climate): (r: Option<string>)
    ensures c.device.isValid && c.device.presetMode.Some? && IsSupportedPreset(c.device.presetMode.value)
      ==> r == c.device.presetMode
    ensures prefix <= PresetText(c.device.presetMode) ==> r == c.device.presetMode
    ensures !ShowsLivePreset(prefix, c.device) && c.isRestored && c.restoredState.Some?
      ==> r == c.restoredState.value.presetMode
    ensures !ShowsLivePreset(prefix, c.device) && !(c.isRestored && c.restoredState.Some?) ==> r == None
  {
    if ShowsLivePreset(prefix, c.device) then c.device.presetMode
    else if c.isRestored && c.restoredState.Some? then c.restoredState.value.presetMode
    else None
  }

  /**
   * What one loop iteration appends for a device preset: the preset once if
   * it is a standard preset, and once more if it carries the profile prefix.
   */
  function Emitted(prefix: string, p: string): (r: seq<string>)
    ensures |r| <= 2
    ensures forall x :: x in r ==> x == p
    ensures r != [] <==> IsSupportedPreset(p) || prefix <= p
  {
    (if IsSupportedPreset(p) then [p] else []) + (if prefix <= p then [p] else [])
  }

  /** The preset list the entity offers, as its loop builds it. */
  function PresetModes(prefix: string, presets: seq<string>): (r: seq<string>)
    ensures |r| <= 2 * |presets|
    ensures forall x :: x in r ==> x in presets && (IsSupportedPreset(x) || prefix <= x)
  {
    if presets == [] then []
    else
      var init := presets[..|presets| - 1];
      PresetModes(prefix, init) + Emitted(prefix, presets[|presets| - 1])
  }

  /** The preset list, built by a loop over the device presets. */
  method CollectPresetModes(prefix: string, presets: seq<string>) returns (modes: seq<string>)
    ensures modes == PresetModes(prefix, presets)
  {
    modes := [];
    for i := 0 to |presets|
      invariant modes == PresetModes(prefix, presets[..i])
    {
      var p := presets[i];
      assert presets[..i + 1][..i] == presets[..i];
      if IsSupportedPreset(p) {
        modes := modes + [p];
      }
      if prefix <= p {
        modes := modes + [p];
      }
    }
    assert presets[..|presets|] == presets;
  }

  /**
   * The feature flags the entity announces: always target temperature,
   * turn off and turn on; the preset feature exactly when the device
   * supports presets; nothing else.
   */
  method SupportedFeatures(d: Device) returns (features: set<ClimateEntityFeature>)
    ensures ClimateEntityFeature.TargetTemperatureFlag in features
    ensures ClimateEntityFeature.TurnOffFlag in features && ClimateEntityFeature.TurnOnFlag in features
    ensures ClimateEntityFeature.PresetModeFlag in features <==> d.supportsPreset
    ensures ClimateEntityFeature.OtherFlag !in features
  {
    features := {ClimateEntityFeature.TargetTemperatureFlag, ClimateEntityFeature.TurnOffFlag, ClimateEntityFeature.TurnOnFlag};
    if d.supportsPreset {
      features := features + {ClimateEntityFeature.PresetModeFlag};
    }
  }

  // ---------------------------------------------------------------------
  // Write side
  // ---------------------------------------------------------------------

  /** Set the target temperature; no command without a temperature argument. */
  function AsyncSetTemperature(temperature: Option<real>): (r: Option<Command>)
    ensures r.None? <==> temperature.None?
    ensures r.Some? ==> r.value == SetTemperature(temperature.value)
  {
    if temperature.None? then None
    else Some(SetTemperature(temperature.value))
  }

  /**
   * Set the operating mode: declined for a mode with no device counterpart,
   * otherwise the device mode that translates back to the requested one.
   */
  function AsyncSetHvacMode(mode: HaHvacMode): (r: Option<Command>)
    ensures r.None? <==> mode == HaHvacMode.Other
    ensures r.Some? ==>
      r.value.SetHvacMode? && r.value.mode in HmToHaHvacMode && HmToHaHvacMode[r.value.mode] == mode
  {
    HvacModeRoundTrip();
    if mode !in HaToHmHvacMode then None
    else Some(SetHvacMode(HaToHmHvacMode[mode]))
  }

  /** Set the preset: declined unless the preset is one the entity offers. */
  function AsyncSetPresetMode(prefix: string, c: Climate, preset: string): (r: Option<Command>)
    ensures r.Some? <==> preset in PresetModes(prefix, c.device.presetModes)
    ensures r.Some? ==> r.value == SetPresetMode(preset)
    ensures r.Some? ==> preset in c.device.presetModes && (IsSupportedPreset(preset) || prefix <= preset)
  {
    if preset !in PresetModes(prefix, c.device.presetModes) then None
    else Some(SetPresetMode(preset))
  }
}
