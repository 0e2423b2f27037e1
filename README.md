# Homematic(IP) Local climate entity — decision layer

This project models the decision layer of the Homematic(IP) Local climate
platform (`HaHomematicClimate` in `custom_components/homematicip_local/climate.py`):
the adapter that exposes a thermostat of the `hahomematic` device library as a
Home Assistant climate entity.

What is modelled:

- **Translation tables** (module `ClimateTables`). The device-to-platform mode
  dictionary `HM_TO_HA_HVAC_MODE`, its inverse built by a dict comprehension
  `HA_TO_HM_HVAC_MODE`, the action dictionary `HM_TO_HA_ACTION`, and the
  allow-list of standard presets. All three dictionaries are modelled as a fold
  over their items (`ItemsToMap`), as a Python dict literal or comprehension
  builds them: a later item overwrites an earlier one with the same key. The
  inverse is the same fold over the swapped items (`Swapped`).

  Constants and the lines they model:
  - `SupportedHaPresetModes`: climate.py:58-64.
  - `HmToHaHvacModeItems` and `HmToHaHvacMode`: climate.py:66-71.
  - `HaToHmHvacMode`: climate.py:73.
  - `HmToHaActionItems` and `HmToHaAction`: climate.py:75-80.
 The external enums get an extra `Other` constructor for the
  values the platform does not name.
- **Read side** (module `HomematicClimate`). The device handle is the record
  `Device`: what it reports at the moment of reading. The restored state is the
  flag `isRestored` together with an optional `RestoredState` snapshot. Each
  property is a function of the `Climate` record. The shared fallback policy is
  `ValueSource`: the live value while the device is valid, else the snapshot if
  one exists, else absent.
- **List filters and feature flags.** `hvac_modes` becomes `HvacModes`.
  `preset_modes` becomes `PresetModes`, and its loop is `CollectPresetModes`.
  `supported_features` becomes the method `SupportedFeatures`, which returns the
  flag set.
- **Write side.** Each action is a function returning the command it sends to
  the device (`Option<Command>`), and `None` when it declines.
- **Cross-operation properties** (module `ClimateProperties`). These cover:
  - the order and membership of the filtered lists;
  - the round trip from the offered or shown mode back to the device;
  - that every offered value is accepted by its setter;
  - that a valid device's temperatures, humidity and mode do not depend on
    the snapshot (its preset can, see below).

Decisions:

- The preset guard follows the code's operator precedence:
  `is_valid and preset in SUPPORTED or str(preset).startswith(PREFIX)`, read as
  `(valid && supported) || prefixed`. So a prefixed profile preset is shown
  even while the device is invalid. `PresetGuardReading` proves that this
  differs from the reading where validity gates both conditions in exactly that
  case. That conjunctive reading may have been the intent; the model follows the code.
- The preset is the one read-side value whose snapshot fallback is not gated by
  validity. A valid device whose preset is neither standard nor prefixed falls
  through to the restored snapshot's preset. This also holds for a missing
  preset. `ValidPresetFallsBack` states it.
- `str()` of a missing preset is `"None"`. That string also takes part in the
  prefix test (`PresetText`, climate.py:242).
- A snapshot state counts as known when it is neither unknown nor unavailable
  (`KnownState`, climate.py:208-213).
- The preset loop has two independent `if`s. So a preset that is both standard
  and prefixed is appended twice. `PresetModesCount` states the exact
  multiplicity. `PresetModesIsFilter` shows that the loop is a plain filter when
  no standard preset carries the prefix.
- The device library's `PRESET_MODE_PREFIX` is not visible here. Every function
  that depends on it takes it as the parameter `prefix`, so the properties hold
  for every prefix.
- Temperatures (`real`) and humidity (`int`) are only passed through, so they
  are treated as opaque values.

## Model

| member | source | states |
|---|---|---|
| `ClimateTables.ItemsToMap` | custom_components/homematicip_local/climate.py:66-71 | a dictionary built from items has exactly the items' keys |
| `ClimateTables.ItemsToMapLookup` | custom_components/homematicip_local/climate.py:66-71 | with distinct keys, every item's key maps to that item's value |
| `ClimateTables.SwappedIsInverse` | custom_components/homematicip_local/climate.py:73 | the swapped-items comprehension of an injective item list is the exact inverse of the original dictionary, in both directions |
| `ClimateTables.HmToHaHvacModeEntries` | custom_components/homematicip_local/climate.py:66-71 | the device-to-platform mode dictionary maps AUTO, COOL, HEAT and OFF to their namesakes and nothing else |
| `ClimateTables.HaToHmHvacModeEntries` | custom_components/homematicip_local/climate.py:73 | the inverse mode dictionary maps the four platform modes back to their namesakes and nothing else |
| `ClimateTables.HvacModeRoundTrip` | custom_components/homematicip_local/climate.py:66-73 | both mode maps cover exactly the non-Other modes; HM→HA→HM and HA→HM→HA are the identity; both maps are injective |
| `ClimateTables.HvacActionTable` | custom_components/homematicip_local/climate.py:75-80 | the action dictionary built from its items is exactly COOL→COOLING, HEAT→HEATING, IDLE→IDLE, OFF→OFF; it never yields Other and is injective |
| `HomematicClimate.ValueSource` | custom_components/homematicip_local/climate.py:167-171 | the live source is chosen iff the device is valid; the snapshot iff it is invalid, restored and a snapshot exists |
| `HomematicClimate.TargetTemperature` | custom_components/homematicip_local/climate.py:164-171 | the live target temperature, else the snapshot's temperature attribute, else absent, as `ValueSource` chooses |
| `HomematicClimate.CurrentTemperature` | custom_components/homematicip_local/climate.py:173-180 | the live current temperature, else the snapshot's, else absent |
| `HomematicClimate.CurrentHumidity` | custom_components/homematicip_local/climate.py:182-189 | the live humidity, else the snapshot's, else absent |
| `HomematicClimate.HvacAction` | custom_components/homematicip_local/climate.py:191-196 | present iff the device reports an action the table translates; then it is the table image, never Other |
| `HomematicClimate.HvacMode` | custom_components/homematicip_local/climate.py:198-215 | a valid device always shows a mode: one that translates back to its own, or OFF for an untranslatable one; an invalid device shows the restored mode iff restored with a snapshot whose state is known |
| `HomematicClimate.HvacModes` | custom_components/homematicip_local/climate.py:217-224 | the offered modes are no more than the device's and never Other |
| `HomematicClimate.ShowsLivePreset` | custom_components/homematicip_local/climate.py:239-243 | on a valid device the live preset is shown iff it is standard or prefixed; on an invalid device iff it is prefixed |
| `HomematicClimate.PresetMode` | custom_components/homematicip_local/climate.py:236-247 | the live preset when valid and standard, or when prefixed regardless of validity; otherwise the snapshot's preset, or absent without a snapshot |
| `HomematicClimate.Emitted` | custom_components/homematicip_local/climate.py:253-257 | one iteration appends only its own preset, at most twice, and something iff the preset is standard or prefixed |
| `HomematicClimate.PresetModes` | custom_components/homematicip_local/climate.py:249-258 | every offered preset is a device preset that is standard or prefixed; the list is at most twice as long as the device's list |
| `HomematicClimate.CollectPresetModes` | custom_components/homematicip_local/climate.py:252-258 | the loop with its appends builds exactly `PresetModes` |
| `HomematicClimate.SupportedFeatures` | custom_components/homematicip_local/climate.py:260-270 | target temperature, turn off and turn on are always announced, the preset feature iff the device supports presets, nothing else |
| `HomematicClimate.AsyncSetTemperature` | custom_components/homematicip_local/climate.py:272-277 | no command iff no temperature is given, else a set-temperature command with that value |
| `HomematicClimate.AsyncSetHvacMode` | custom_components/homematicip_local/climate.py:279-284 | declined iff the mode has no device counterpart; otherwise it sends the device mode that translates back to the requested one |
| `HomematicClimate.AsyncSetPresetMode` | custom_components/homematicip_local/climate.py:286-295 | a command iff the preset is in the offered list; the command carries that preset, which is a device preset that is standard or prefixed |
| `ClimateProperties.HvacModesAppend` | custom_components/homematicip_local/climate.py:220-224 | the mode list distributes over concatenation: the device order is kept |
| `ClimateProperties.HvacModesMembership` | custom_components/homematicip_local/climate.py:220-224 | a platform mode is offered iff some device mode translates to it |
| `ClimateProperties.HvacModesRoundTrip` | custom_components/homematicip_local/climate.py:218-224 | translating the offered list back gives exactly the device's translatable modes, in order |
| `ClimateProperties.OfferedHvacModesAccepted` | custom_components/homematicip_local/climate.py:279-284 | every offered mode is accepted by the set-mode action |
| `ClimateProperties.ShownHvacModeWriteBack` | custom_components/homematicip_local/climate.py:199-204 | requesting the mode a valid device shows sends the device's own mode back, or the device's OFF when its mode was untranslatable |
| `ClimateProperties.EmittedCount` | custom_components/homematicip_local/climate.py:254-257 | one iteration appends its preset as many times as the conditions it meets |
| `ClimateProperties.PresetModesComplete` | custom_components/homematicip_local/climate.py:252-258 | no device preset that is standard or prefixed is dropped |
| `ClimateProperties.PresetModesAppend` | custom_components/homematicip_local/climate.py:252-258 | the preset list distributes over concatenation: the device order is kept |
| `ClimateProperties.PresetModesCount` | custom_components/homematicip_local/climate.py:252-258 | each preset occurs as often as on the device times the number of conditions it meets (0, 1 or 2) |
| `ClimateProperties.PresetModesIsFilter` | custom_components/homematicip_local/climate.py:252-258 | when no standard preset carries the prefix, the list is the plain in-order filter of standard or prefixed presets |
| `ClimateProperties.OfferedPresetsAccepted` | custom_components/homematicip_local/climate.py:286-295 | every offered preset is accepted and sent unchanged |
| `ClimateProperties.UnlistedPresetDeclined` | custom_components/homematicip_local/climate.py:288-294 | a preset that is neither standard nor prefixed issues no command |
| `ClimateProperties.ValidIgnoresSnapshot` | custom_components/homematicip_local/climate.py:164-204 | while the device is valid, no restore state changes temperatures, humidity or mode |
| `ClimateProperties.ValidPresetFallsBack` | custom_components/homematicip_local/climate.py:239-246 | a valid device whose preset is neither standard nor prefixed shows the restored snapshot's preset |
| `ClimateProperties.HvacActionAlwaysLive` | custom_components/homematicip_local/climate.py:192-196 | the action depends neither on validity nor on the restore state |
| `ClimateProperties.InvalidWithoutSnapshot` | custom_components/homematicip_local/climate.py:164-247 | an invalid device without a snapshot shows no temperature, humidity or mode, and a preset only when it is prefixed |
| `ClimateProperties.UnknownSnapshotRestoresNoMode` | custom_components/homematicip_local/climate.py:205-215 | a snapshot whose state is unknown or unavailable restores no mode |
| `ClimateProperties.PresetGuardReading` | custom_components/homematicip_local/climate.py:239-243 | the guard as written and the reading in which validity gates both conditions differ exactly for a prefixed preset on an invalid device |

## Left out

- `async_setup_entry`: the dispatcher subscription, entity registration and service registration are host-platform plumbing. Their voluptuous schemas validate floats and datetimes (range 5.0–30.5, positive integer hours).
- `async_enable_away_mode_by_calendar`: it reads the wall clock (`datetime.now()` minus ten minutes) and otherwise only forwards its arguments.
- `async_enable_away_mode_by_duration` and `async_disable_away_mode`: pure pass-through calls with no decision in them.
- `min_temp`, `max_temp` and the constructor's temperature unit and step: plain reads of the device handle.
- The device commands themselves, the async/await behaviour and the restore-entity base class all live outside this file. `is_restored` and the restored snapshot are inputs of the model.
- Logging of declined actions: a side effect with no bearing on which command is issued.
- `HVACMode(value=restored_state)` raising for a state string that is no platform mode: the snapshot state is modelled as already typed (`StoredState`). The model therefore does not capture that exception.
- Temperature and humidity arithmetic: the values are passed through unchanged and are treated as opaque numbers.
- The `PresetMode(preset_mode)` conversion before sending: the command carries the preset string. That string is always one the device reported.
