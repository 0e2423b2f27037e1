/**
 * Properties of the climate entity that relate several of its operations,
 * or one operation to an independent reference definition.
 */
module ClimateProperties {
  import opened Wrappers
  import opened ClimateTables
  import opened HomematicClimate

  // ---------------------------------------------------------------------
  // The offered mode list
  // ---------------------------------------------------------------------

  /** Reference definition: the device modes that have a platform counterpart, in order. */
  ghost function MappedModes(modes: seq<HmHvacMode>): seq<HmHvacMode>
  {
    if modes == [] then []
    else (if modes[0] != HmHvacMode.Other then [modes[0]] else []) + MappedModes(modes[1..])
  }

  /** The mode list is built element by element: it distributes over concatenation. */
  lemma {:induction false} HvacModesAppend(a: seq<HmHvacMode>, b: seq<HmHvacMode>)
    ensures HvacModes(a + b) == HvacModes(a) + HvacModes(b)
  {
    if a == [] {
      assert a + b == b;
    } else {
      assert (a + b)[0] == a[0];
      assert (a + b)[1..] == a[1..] + b;
      HvacModesAppend(a[1..], b);
    }
  }

  /** A platform mode is offered exactly when some device mode translates to it. */
  lemma {:induction false} HvacModesMembership(modes: seq<HmHvacMode>, x: HaHvacMode)
    ensures x in HvacModes(modes) <==>
      exists i :: 0 <= i < |modes| && modes[i] in HmToHaHvacMode && HmToHaHvacMode[modes[i]] == x
  {
    if modes != [] {
      HvacModesMembership(modes[1..], x);
      if x in HvacModes(modes[1..]) {
        var i :| 0 <= i < |modes[1..]| && modes[1..][i] in HmToHaHvacMode && HmToHaHvacMode[modes[1..][i]] == x;
        assert modes[i + 1] == modes[1..][i];
      }
      forall i | 0 < i < |modes| ensures modes[i] == modes[1..][i - 1] { }
    }
  }

  /**
   * Translating the offered list back to device modes gives exactly the
   * device's translatable modes, in their order.
   */
  lemma {:induction false} HvacModesRoundTrip(modes: seq<HmHvacMode>)
    ensures |HvacModes(modes)| == |MappedModes(modes)|
    ensures forall i :: 0 <= i < |HvacModes(modes)| ==>
      HvacModes(modes)[i] in HaToHmHvacMode && HaToHmHvacMode[HvacModes(modes)[i]] == MappedModes(modes)[i]
  {
    HvacModeRoundTrip();
    if modes != [] {
      HvacModesRoundTrip(modes[1..]);
    }
  }

  /** Every mode the entity offers is accepted by the set-mode action. */
  lemma OfferedHvacModesAccepted(c: Climate, m: HaHvacMode)
    requires m in HvacModes(c.device.hvacModes)
    ensures AsyncSetHvacMode(m).Some?
  {
  }

  /**
   * Requesting the mode a valid device shows sends a mode command; when the
   * device's own mode has a platform counterpart it is sent back unchanged,
   * otherwise the shown OFF is sent as the device's OFF.
   */
  lemma ShownHvacModeWriteBack(c: Climate)
    requires c.device.isValid
    ensures c.device.hvacMode != HmHvacMode.Other ==>
      AsyncSetHvacMode(HvacMode(c).value) == Some(SetHvacMode(c.device.hvacMode))
    ensures c.device.hvacMode == HmHvacMode.Other ==>
      AsyncSetHvacMode(HvacMode(c).value) == Some(SetHvacMode(HmHvacMode.Off))
  {
  }

  // ---------------------------------------------------------------------
  // The offered preset list
  // ---------------------------------------------------------------------

  /** How many times the loop appends a preset: once per condition it meets. */
  function PresetWeight(prefix: string, p: string): nat
  {
    (if IsSupportedPreset(p) then 1 else 0) + (if prefix <= p then 1 else 0)
  }

  /** One iteration appends `PresetWeight` copies of its preset and nothing else. */
  lemma EmittedCount(prefix: string, q: string, p: string)
    ensures multiset(Emitted(prefix, q))[p] == if q == p then PresetWeight(prefix, p) else 0
  {
  }

  /** No device preset that is standard or prefixed is dropped. */
  lemma {:induction false} PresetModesComplete(prefix: string, presets: seq<string>, p: string)
    requires p in presets && (IsSupportedPreset(p) || prefix <= p)
    ensures p in PresetModes(prefix, presets)
  {
    var n := |presets| - 1;
    if presets[n] != p {
      assert p in presets[..n] by {
        var i :| 0 <= i < |presets| && presets[i] == p;
        assert i < n && presets[..n][i] == p;
      }
      PresetModesComplete(prefix, presets[..n], p);
    }
  }

  /** The preset list keeps the device's order: it distributes over concatenation. */
  lemma {:induction false} PresetModesAppend(prefix: string, a: seq<string>, b: seq<string>)
    ensures PresetModes(prefix, a + b) == PresetModes(prefix, a) + PresetModes(prefix, b)
    decreases |b|
  {
    if b != [] {
      var n := |b| - 1;
      assert (a + b)[..|a + b| - 1] == a + b[..n];
      assert (a + b)[|a + b| - 1] == b[n];
      PresetModesAppend(prefix, a, b[..n]);
    }
    else {
      assert a + b == a;
    }
  }

  /**
   * Each preset occurs in the offered list as often as on the device, times
   * the number of the two conditions it meets: a preset that is both
   * standard and prefixed is offered twice per occurrence.
   */
  lemma {:induction false} PresetModesCount(prefix: string, presets: seq<string>, p: string)
    ensures multiset(PresetModes(prefix, presets))[p] == multiset(presets)[p] * PresetWeight(prefix, p)
  {
    if presets != [] {
      var n := |presets| - 1;
      var init, q := presets[..n], presets[n];
      var before, emitted := PresetModes(prefix, init), Emitted(prefix, q);
      assert PresetModes(prefix, presets) == before + emitted;
      assert presets == init + [q];
      var d := if q == p then 1 else 0;
      assert multiset(presets)[p] == multiset(init)[p] + d;
      PresetModesCount(prefix, init, p);
      EmittedCount(prefix, q, p);
      CountStep(multiset(init)[p], d, PresetWeight(prefix, p),
        multiset(before)[p], multiset(emitted)[p]);
    }
  }

  /** Arithmetic step of the count: `k * w + d * w == (k + d) * w`. */
  lemma CountStep(k: nat, d: nat, w: nat, a: nat, e: nat)
    requires d <= 1 && a == k * w && e == if d == 1 then w else 0
    ensures a + e == (k + d) * w
  {
  }

  /** Reference definition: the device presets that are standard or prefixed, in order. */
  ghost function KeptPresets(prefix: string, presets: seq<string>): seq<string>
  {
    if presets == [] then []
    else
      (if IsSupportedPreset(presets[0]) || prefix <= presets[0] then [presets[0]] else [])
      + KeptPresets(prefix, presets[1..])
  }

  /**
   * When no standard preset carries the profile prefix, the loop is a plain
   * order-preserving filter of the device presets.
   */
  lemma {:induction false} PresetModesIsFilter(prefix: string, presets: seq<string>)
    requires forall s :: s in SupportedHaPresetModes ==> !(prefix <= s)
    ensures PresetModes(prefix, presets) == KeptPresets(prefix, presets)
  {
    if presets != [] {
      var x := presets[0];
      PresetModesIsFilter(prefix, presets[1..]);
      PresetModesAppend(prefix, [x], presets[1..]);
      assert [x] + presets[1..] == presets;
      assert PresetModes(prefix, [x]) == Emitted(prefix, x) by {
        assert [x][..0] == [];
      }
      assert Emitted(prefix, x) == if IsSupportedPreset(x) || prefix <= x then [x] else [];
    }
  }

  /** Every preset the entity offers is accepted by the set-preset action. */
  lemma OfferedPresetsAccepted(prefix: string, c: Climate, p: string)
    requires p in PresetModes(prefix, c.device.presetModes)
    ensures AsyncSetPresetMode(prefix, c, p) == Some(SetPresetMode(p))
  {
  }

  /** A device preset that is neither standard nor prefixed is declined. */
  lemma UnlistedPresetDeclined(prefix: string, c: Climate, p: string)
    requires !IsSupportedPreset(p) && !(prefix <= p)
    ensures AsyncSetPresetMode(prefix, c, p) == None
  {
  }

  // ---------------------------------------------------------------------
  // Live value versus restored snapshot
  // ---------------------------------------------------------------------

  /**
   * While the device is valid, the restored snapshot has no influence on
   * temperatures, humidity or mode.
   */
  lemma ValidIgnoresSnapshot(c: Climate, isRestored: bool, restored: Option<RestoredState>)
    requires c.device.isValid
    ensures var c' := c.(isRestored := isRestored, restoredState := restored);
      && TargetTemperature(c') == TargetTemperature(c)
      && CurrentTemperature(c') == CurrentTemperature(c)
      && CurrentHumidity(c') == CurrentHumidity(c)
      && HvacMode(c') == HvacMode(c)
  {
  }

  /**
   * The preset fallback is not gated by validity: a valid device whose
   * preset is neither standard nor prefixed (a missing one included) shows
   * the restored snapshot's preset.
   */
  lemma ValidPresetFallsBack(prefix: string, c: Climate)
    requires c.device.isValid && !ShowsLivePreset(prefix, c.device)
    requires c.isRestored && c.restoredState.Some?
    ensures PresetMode(prefix, c) == c.restoredState.value.presetMode
  {
  }

  /** The action is read live: neither validity nor the snapshot changes it. */
  lemma HvacActionAlwaysLive(c: Climate, isValid: bool, isRestored: bool, restored: Option<RestoredState>)
    ensures HvacAction(c.(device := c.device.(isValid := isValid), isRestored := isRestored, restoredState := restored))
      == HvacAction(c)
  {
  }

  /** Without a snapshot an invalid device shows nothing but its action and a prefixed preset. */
  lemma InvalidWithoutSnapshot(prefix: string, c: Climate)
    requires !c.device.isValid && !(c.isRestored && c.restoredState.Some?)
    ensures TargetTemperature(c) == None && CurrentTemperature(c) == None && CurrentHumidity(c) == None
    ensures HvacMode(c) == None
    ensures PresetMode(prefix, c) == if prefix <= PresetText(c.device.presetMode) then c.device.presetMode else None
  {
  }

  /** A snapshot whose state is unknown or unavailable restores no mode. */
  lemma UnknownSnapshotRestoresNoMode(c: Climate)
    requires !c.device.isValid && c.restoredState.Some? && !c.restoredState.value.state.Stored?
    ensures HvacMode(c) == None
  {
  }

  /**
   * The preset guard as written against the reading that lets validity gate
   * both conditions: they send the live preset in the same cases except for
   * a prefixed preset on an invalid device, which only the code as written
   * shows.
   */
  lemma PresetGuardReading(prefix: string, d: Device)
    ensures ShowsLivePreset(prefix, d) !=
      (d.isValid && ((d.presetMode.Some? && IsSupportedPreset(d.presetMode.value)) || prefix <= PresetText(d.presetMode)))
      <==> !d.isValid && prefix <= PresetText(d.presetMode)
  {
  }
}
