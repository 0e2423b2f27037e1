/**
 * The fixed lookup tables of the climate platform: the enums of the device
 * library and of the home-automation platform, the allow-list of standard
 * presets, and the three translation maps between the enums.
 *
 * The enums of both external libraries are only partly visible, so each one
 * carries an extra `Other` constructor standing for every value that this
 * platform does not name.
 */
module ClimateTables {

  /** HVAC mode as the device library reports and accepts it. */
  datatype HmHvacMode = Auto | Cool | Heat | Off | Other

  /** HVAC mode as the home-automation platform shows and requests it. */
  datatype HaHvacMode = Auto | Cool | Heat | Off | Other

  /** Current physical activity of the thermostat, device library side. */
  datatype HmHvacAction = Cool | Heat | Idle | Off | Other

  /** Current physical activity of the thermostat, platform side. */
  datatype HaHvacAction = Cooling | Heating | Idle | Off | Other

  /** Feature flags of a platform climate entity. */
  datatype ClimateEntityFeature = TargetTemperatureFlag | TurnOffFlag | TurnOnFlag | PresetModeFlag | OtherFlag

  /** The platform's standard preset names. */
  const PresetAway: string := "away"
  const PresetBoost: string := "boost"
  const PresetComfort: string := "comfort"
  const PresetEco: string := "eco"
  const PresetNone: string := "none"

  /** The presets the platform shows without a profile prefix. */
  const SupportedHaPresetModes: seq<string> := [PresetAway, PresetBoost, PresetComfort, PresetEco, PresetNone]

  // ---------------------------------------------------------------------
  // Dictionaries built from key/value items, as a Python dict literal or
  // dict comprehension builds them: the items are inserted in order and a
  // later item overwrites an earlier one with the same key.
  // ---------------------------------------------------------------------

  function ItemsToMap<K, V>(items: seq<(K, V)>): (m: map<K, V>)
    ensures m.Keys == set i | 0 <= i < |items| :: items[i].0
  {
    if items == [] then map[]
    else
      var init := items[..|items| - 1];
      var last := items[|items| - 1];
      assert forall i :: 0 <= i < |init| ==> init[i] == items[i];
      ItemsToMap(init)[last.0 := last.1]
  }

  /** The items with key and value exchanged: `(v, k) for k, v in items`. */
  function Swapped<K, V>(items: seq<(K, V)>): seq<(V, K)>
  {
    seq(|items|, i requires 0 <= i < |items| => (items[i].1, items[i].0))
  }

  ghost predicate DistinctKeys<K, V>(items: seq<(K, V)>)
  {
    forall i, j :: 0 <= i < j < |items| ==> items[i].0 != items[j].0
  }

  ghost predicate DistinctValues<K, V>(items: seq<(K, V)>)
  {
    forall i, j :: 0 <= i < j < |items| ==> items[i].1 != items[j].1
  }

  /** With distinct keys every item survives: its key maps to its value. */
  lemma {:induction false} ItemsToMapLookup<K, V>(items: seq<(K, V)>, i: int)
    requires DistinctKeys(items)
    requires 0 <= i < |items|
    ensures items[i].0 in ItemsToMap(items) && ItemsToMap(items)[items[i].0] == items[i].1
  {
    var n := |items| - 1;
    var init := items[..n];
    if i < n {
      assert DistinctKeys(init) by {
        forall a, b | 0 <= a < b < |init| ensures init[a].0 != init[b].0 {
          assert init[a] == items[a] && init[b] == items[b];
        }
      }
      ItemsToMapLookup(init, i);
      assert init[i] == items[i];
      assert items[i].0 != items[n].0;
    }
  }

  /**
   * The dictionary built from the swapped items of an injective item list is
   * the exact inverse of the dictionary built from the items themselves.
   */
  lemma {:induction false} SwappedIsInverse<K, V>(items: seq<(K, V)>)
    requires DistinctKeys(items) && DistinctValues(items)
    ensures forall k :: k in ItemsToMap(items) ==>
      ItemsToMap(items)[k] in ItemsToMap(Swapped(items)) && ItemsToMap(Swapped(items))[ItemsToMap(items)[k]] == k
    ensures forall v :: v in ItemsToMap(Swapped(items)) ==>
      ItemsToMap(Swapped(items))[v] in ItemsToMap(items) && ItemsToMap(items)[ItemsToMap(Swapped(items))[v]] == v
  {
    var m, inv, sw := ItemsToMap(items), ItemsToMap(Swapped(items)), Swapped(items);
    assert DistinctKeys(sw) by {
      forall a, b | 0 <= a < b < |sw| ensures sw[a].0 != sw[b].0 {
        assert sw[a].0 == items[a].1 && sw[b].0 == items[b].1;
      }
    }
    forall k | k in m
      ensures m[k] in inv && inv[m[k]] == k
    {
      var i :| 0 <= i < |items| && items[i].0 == k;
      ItemsToMapLookup(items, i);
      ItemsToMapLookup(sw, i);
    }
    forall v | v in inv
      ensures inv[v] in m && m[inv[v]] == v
    {
      var i :| 0 <= i < |sw| && sw[i].0 == v;
      ItemsToMapLookup(sw, i);
      ItemsToMapLookup(items, i);
    }
  }

  // ---------------------------------------------------------------------
  // The three tables of the platform.
  // ---------------------------------------------------------------------

  /** The items of the device-to-platform mode dictionary, in literal order. */
  const HmToHaHvacModeItems: seq<(HmHvacMode, HaHvacMode)> := [
    (HmHvacMode.Auto, HaHvacMode.Auto),
    (HmHvacMode.Cool, HaHvacMode.Cool),
    (HmHvacMode.Heat, HaHvacMode.Heat),
    (HmHvacMode.Off, HaHvacMode.Off)
  ]

  /** Device mode to platform mode (a dict literal). */
  const HmToHaHvacMode: map<HmHvacMode, HaHvacMode> := ItemsToMap(HmToHaHvacModeItems)

  /** Platform mode to device mode: `{v: k for k, v in HM_TO_HA_HVAC_MODE.items()}`. */
  const HaToHmHvacMode: map<HaHvacMode, HmHvacMode> := ItemsToMap(Swapped(HmToHaHvacModeItems))

  /** The items of the action dictionary, in literal order. */
  const HmToHaActionItems: seq<(HmHvacAction, HaHvacAction)> := [
    (HmHvacAction.Cool, HaHvacAction.Cooling),
    (HmHvacAction.Heat, HaHvacAction.Heating),
    (HmHvacAction.Idle, HaHvacAction.Idle),
    (HmHvacAction.Off, HaHvacAction.Off)
  ]

  /** Device action to platform action (a dict literal). */
  const HmToHaAction: map<HmHvacAction, HaHvacAction> := ItemsToMap(HmToHaActionItems)

  ghost predicate Injective<K, V>(m: map<K, V>)
  {
    forall x, y :: x in m && y in m && x != y ==> m[x] != m[y]
  }

  /** The device-to-platform dictionary, written out entry by entry. */
  lemma HmToHaHvacModeEntries()
    ensures HmToHaHvacMode == map[
      HmHvacMode.Auto := HaHvacMode.Auto, HmHvacMode.Cool := HaHvacMode.Cool,
      HmHvacMode.Heat := HaHvacMode.Heat, HmHvacMode.Off := HaHvacMode.Off]
  {
    var items := HmToHaHvacModeItems;
    assert DistinctKeys(items);
    forall i | 0 <= i < |items| ensures items[i].0 in HmToHaHvacMode && HmToHaHvacMode[items[i].0] == items[i].1 {
      ItemsToMapLookup(items, i);
    }
    assert HmToHaHvacMode.Keys == {HmHvacMode.Auto, HmHvacMode.Cool, HmHvacMode.Heat, HmHvacMode.Off} by {
      assert items[0].0 == HmHvacMode.Auto && items[1].0 == HmHvacMode.Cool;
      assert items[2].0 == HmHvacMode.Heat && items[3].0 == HmHvacMode.Off;
    }
  }

  /** The inverse dictionary, written out entry by entry. */
  lemma HaToHmHvacModeEntries()
    ensures HaToHmHvacMode == map[
      HaHvacMode.Auto := HmHvacMode.Auto, HaHvacMode.Cool := HmHvacMode.Cool,
      HaHvacMode.Heat := HmHvacMode.Heat, HaHvacMode.Off := HmHvacMode.Off]
  {
    var items := Swapped(HmToHaHvacModeItems);
    assert items == [
      (HaHvacMode.Auto, HmHvacMode.Auto), (HaHvacMode.Cool, HmHvacMode.Cool),
      (HaHvacMode.Heat, HmHvacMode.Heat), (HaHvacMode.Off, HmHvacMode.Off)];
    assert DistinctKeys(items);
    forall i | 0 <= i < |items| ensures items[i].0 in HaToHmHvacMode && HaToHmHvacMode[items[i].0] == items[i].1 {
      ItemsToMapLookup(items, i);
    }
    assert HaToHmHvacMode.Keys == {HaHvacMode.Auto, HaHvacMode.Cool, HaHvacMode.Heat, HaHvacMode.Off} by {
      assert items[0].0 == HaHvacMode.Auto && items[1].0 == HaHvacMode.Cool;
      assert items[2].0 == HaHvacMode.Heat && items[3].0 == HaHvacMode.Off;
    }
  }

  /**
   * The mode dictionaries translate exactly AUTO, COOL, HEAT and OFF and are
   * inverse to each other in both directions; both are injective.
   */
  lemma HvacModeRoundTrip()
    ensures forall m :: m in HmToHaHvacMode <==> m != HmHvacMode.Other
    ensures forall m :: m in HaToHmHvacMode <==> m != HaHvacMode.Other
    ensures forall m :: m in HmToHaHvacMode ==>
      HmToHaHvacMode[m] in HaToHmHvacMode && HaToHmHvacMode[HmToHaHvacMode[m]] == m
    ensures forall m :: m in HaToHmHvacMode ==>
      HaToHmHvacMode[m] in HmToHaHvacMode && HmToHaHvacMode[HaToHmHvacMode[m]] == m
    ensures Injective(HmToHaHvacMode) && Injective(HaToHmHvacMode)
  {
    var items := HmToHaHvacModeItems;
    assert DistinctKeys(items) && DistinctValues(items);
    SwappedIsInverse(items);
    HmToHaHvacModeEntries();
    HaToHmHvacModeEntries();
  }

  /** The action dictionary translates exactly COOL, HEAT, IDLE and OFF, injectively. */
  lemma HvacActionTable()
    ensures HmToHaAction == map[
      HmHvacAction.Cool := HaHvacAction.Cooling, HmHvacAction.Heat := HaHvacAction.Heating,
      HmHvacAction.Idle := HaHvacAction.Idle, HmHvacAction.Off := HaHvacAction.Off]
    ensures forall a :: a in HmToHaAction <==> a != HmHvacAction.Other
    ensures forall a :: a in HmToHaAction ==> HmToHaAction[a] != HaHvacAction.Other
    ensures Injective(HmToHaAction)
  {
    var items := HmToHaActionItems;
    assert DistinctKeys(items);
    forall i | 0 <= i < |items| ensures items[i].0 in HmToHaAction && HmToHaAction[items[i].0] == items[i].1 {
      ItemsToMapLookup(items, i);
    }
    assert HmToHaAction.Keys == {HmHvacAction.Cool, HmHvacAction.Heat, HmHvacAction.Idle, HmHvacAction.Off} by {
      assert items[0].0 == HmHvacAction.Cool && items[1].0 == HmHvacAction.Heat;
      assert items[2].0 == HmHvacAction.Idle && items[3].0 == HmHvacAction.Off;
    }
  }
}
