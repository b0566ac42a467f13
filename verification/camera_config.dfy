/** The camera configuration interface: eleven numeric settings and the preset rule that
    links them to the `cam_preset` selector. */
module CameraConfig {
  import opened Wrappers
  import opened Seqs
  import opened Items
  import opened Registry
  import Persistence
  import Debounce
  import Subscriptions

  /** One numeric setting: its default, range and step. */
  datatype Setting = Setting(name: string, title: string, default: real, lo: real, hi: real, step: real)

  /** The settings in registration order. */
  const Settings: seq<Setting> := [
    Setting("cam_brightness", "Brightness", 0.0, -1.0, 1.0, 0.1),
    Setting("cam_sharpness", "Sharpness", 1.0, 0.0, 10.0, 0.5),
    Setting("cam_contrast", "Contrast", 1.0, 0.0, 10.0, 0.5),
    Setting("cam_saturation", "Saturation", 1.0, 0.0, 10.0, 0.5),
    Setting("cam_exposure", "Exposure", 0.0, -3.0, 3.0, 0.25),
    Setting("cam_white_balance_mode", "White Balance Mode", 0.0, 0.0, 6.0, 1.0),
    Setting("cam_ae_mode", "Auto Exposure Mode", 0.0, 0.0, 2.0, 1.0),
    Setting("cam_ae_metering_mode", "Auto Exposure Metering Mode", 0.0, 0.0, 2.0, 1.0),
    Setting("cam_ae_constraint_mode", "Auto Exposure Constraint Mode", 0.0, 0.0, 2.0, 1.0),
    Setting("cam_noise_reduction_mode", "Noise Reduction", 2.0, 0.0, 3.0, 1.0),
    Setting("cam_preset", "Preset", 0.0, 0.0, 7.0, 1.0)
  ]

  const Names: seq<string> := [
    "cam_brightness", "cam_sharpness", "cam_contrast", "cam_saturation", "cam_exposure",
    "cam_white_balance_mode", "cam_ae_mode", "cam_ae_metering_mode", "cam_ae_constraint_mode",
    "cam_noise_reduction_mode", "cam_preset"
  ]

  /** The seven presets, selected by `cam_preset` values 1 to 7 (0 is "Custom"). */
  const Presets: seq<Snapshot> := [
    PresetDefault, PresetPortrait, PresetLandscape, PresetLowLight, PresetCinematic, PresetVivid, PresetBlackAndWhite
  ]

  const PresetDefault: Snapshot := [
    ("cam_brightness", Num(0.0)), ("cam_contrast", Num(1.0)), ("cam_saturation", Num(1.0)), ("cam_sharpness", Num(1.0)), ("cam_exposure", Num(0.0)), ("cam_white_balance_mode", Num(0.0)), ("cam_noise_reduction_mode", Num(0.0))
  ]

  const PresetPortrait: Snapshot := [
    ("cam_brightness", Num(0.2)), ("cam_contrast", Num(0.8)), ("cam_saturation", Num(1.2)), ("cam_sharpness", Num(2.0)), ("cam_white_balance_mode", Num(4.0)), ("cam_noise_reduction_mode", Num(2.0))
  ]

  const PresetLandscape: Snapshot := [
    ("cam_brightness", Num(0.0)), ("cam_contrast", Num(1.8)), ("cam_saturation", Num(1.8)), ("cam_sharpness", Num(4.0)), ("cam_exposure", Num(0.3)), ("cam_white_balance_mode", Num(5.0)), ("cam_noise_reduction_mode", Num(1.0))
  ]

  const PresetLowLight: Snapshot := [
    ("cam_brightness", Num(0.4)), ("cam_contrast", Num(1.2)), ("cam_saturation", Num(0.8)), ("cam_sharpness", Num(2.0)), ("cam_exposure", Num(1.5)), ("cam_noise_reduction_mode", Num(2.0))
  ]

  const PresetCinematic: Snapshot := [
    ("cam_brightness", Num(-0.2)), ("cam_contrast", Num(2.5)), ("cam_saturation", Num(0.8)), ("cam_sharpness", Num(1.0)), ("cam_exposure", Num(-0.3)), ("cam_white_balance_mode", Num(2.0)), ("cam_noise_reduction_mode", Num(3.0))
  ]

  const PresetVivid: Snapshot := [
    ("cam_brightness", Num(0.1)), ("cam_contrast", Num(2.0)), ("cam_saturation", Num(2.0)), ("cam_sharpness", Num(5.0)), ("cam_white_balance_mode", Num(5.0)), ("cam_noise_reduction_mode", Num(0.0))
  ]

  const PresetBlackAndWhite: Snapshot := [
    ("cam_brightness", Num(0.1)), ("cam_contrast", Num(1.5)), ("cam_saturation", Num(0.0)), ("cam_sharpness", Num(3.0)), ("cam_white_balance_mode", Num(0.0)), ("cam_noise_reduction_mode", Num(0.0))
  ]

  function FieldOf(s: Setting): (f: Item)
    ensures IsNumeric(f) && f.canSet && f.canSerialize && f.name == s.name
    ensures HasValueRange(f.kind) && HasIncrementDelta(f.kind)
  {
    Field(s.name, s.title, Num(s.default), true, true, Numeric(Some((Num(s.lo), Num(s.hi))), Some(Num(s.step))))
  }

  lemma NamesMatchSettings()
    ensures |Names| == |Settings|
    ensures forall k :: 0 <= k < |Names| ==> Names[k] == Settings[k].name
    ensures NoDup(Names)
  {
  }

  function Fields(ss: seq<Setting>): (fs: seq<Item>)
    ensures |fs| == |ss| && forall k :: 0 <= k < |ss| ==> fs[k] == FieldOf(ss[k])
  {
    if |ss| == 0 then [] else [FieldOf(ss[0])] + Fields(ss[1..])
  }

  lemma FieldNames()
    ensures ItemNames(Fields(Settings)) == Names && NoDup(Names)
  {
    NamesMatchSettings();
    var ns := ItemNames(Fields(Settings));
    assert |ns| == |Names|;
    forall k | 0 <= k < |Names| ensures ns[k] == Names[k] {
      assert Fields(Settings)[k] == FieldOf(Settings[k]);
    }
  }

  /** The freshly constructed configuration: every setting registered in order as a settable,
      persisted numeric field with a range and a step, guarded by the preset rule, not yet
      persisting. */
  function Config(): (i: Interface)
    ensures Registered(i, PresetRule(Presets), Names)
  {
    FieldNames();
    Build(PresetRule(Presets), Settings, Names)
  }

  /** A configuration registering the fields of `ss`, whose names are `names`, in order,
      under `hook`. */
  function Build(hook: Hook, ss: seq<Setting>, names: seq<string>): (i: Interface)
    requires ItemNames(Fields(ss)) == names && NoDup(names)
    ensures Registered(i, hook, names)
  {
    FieldsAreSettings(ss);
    RegisteredSettings(Empty(hook), Fields(ss), names);
    RegisterAll(Empty(hook), Fields(ss))
  }

  /** A well-formed registry, not yet persisting, of setting fields named `names` in order,
      under `hook`. */
  predicate Registered(i: Interface, hook: Hook, names: seq<string>) {
    && Wf(i) && i.hook == hook && i.order == names && !i.persist
    && forall n :: n in i.items ==> SettingField(i.items[n])
  }

  /** What every registered setting is: a settable, persisted number with a range. */
  predicate SettingField(f: Item) {
    IsNumeric(f) && f.canSet && f.canSerialize && HasValueRange(f.kind)
  }

  lemma FieldsAreSettings(ss: seq<Setting>)
    ensures forall k :: 0 <= k < |ss| ==> SettingField(Fields(ss)[k])
  {
  }

  /** Registering setting fields with distinct names into an empty registry gives a
      well-formed registry of exactly those fields, in order. */
  lemma RegisteredSettings(e: Interface, fs: seq<Item>, names: seq<string>)
    requires e.items == map[] && e.order == [] && ItemNames(fs) == names && NoDup(names)
    requires forall k :: 0 <= k < |fs| ==> SettingField(fs[k])
    ensures var r := RegisterAll(e, fs);
      && Wf(r) && r.hook == e.hook && r.order == names && r.persist == e.persist
      && (forall n :: n in r.items <==> n in names)
      && (forall n :: n in r.items ==> SettingField(r.items[n]))
  {
    assert Wf(e);
    RegisterAllFresh(e, fs);
    RegisterAllKeepsWf(e, fs);
    assert e.order + names == names;
    var r := RegisterAll(e, fs);
    forall n | n in r.items ensures SettingField(r.items[n]) {
      var k :| 0 <= k < |fs| && ItemNames(fs)[k] == n;
      assert r.items[fs[k].name] == fs[k];
    }
  }

  /** A preset is well formed for the configuration when it writes distinct registered
      settings and never the selector. */
  predicate PresetFits(s: Snapshot) {
    && (forall a, b :: 0 <= a < b < |s| ==> s[a].0 != s[b].0)
    && (forall k :: 0 <= k < |s| ==> s[k].0 in Names && s[k].0 != PresetName)
  }

  lemma PresetDefaultFits() ensures PresetFits(PresetDefault) {}
  lemma PresetPortraitFits() ensures PresetFits(PresetPortrait) {}
  lemma PresetLandscapeFits() ensures PresetFits(PresetLandscape) {}
  lemma PresetLowLightFits() ensures PresetFits(PresetLowLight) {}
  lemma PresetCinematicFits() ensures PresetFits(PresetCinematic) {}
  lemma PresetVividFits() ensures PresetFits(PresetVivid) {}
  lemma PresetBlackAndWhiteFits() ensures PresetFits(PresetBlackAndWhite) {}

  lemma AllPresetsFit()
    ensures forall p :: 0 <= p < |Presets| ==> PresetFits(Presets[p])
  {
    PresetDefaultFits();
    PresetPortraitFits();
    PresetLandscapeFits();
    PresetLowLightFits();
    PresetCinematicFits();
    PresetVividFits();
    PresetBlackAndWhiteFits();
  }

  lemma FitsMeansApplicable(i: Interface, s: Snapshot)
    requires PresetFits(s) && forall n :: n in i.items ==> i.items[n].Field?
    ensures PresentKeysAreFields(i.items, s) && NoDup(KeysOf(s)) && PresetName !in KeysOf(s)
  {
  }

  // ---------------------------------------------------------------------------------------
  // The preset rule, on any interface that carries it

  /** Selecting preset `v` (1 to the number of presets) with a selector value that stands for
      `v` (the number, or `True` for 1) stores the selector, silently writes every setting the
      preset names, leaves every other item alone, and notifies only the selector's
      subscribers. */
  lemma {:induction false} PresetSelectionApplies(i: Interface, x: Value, v: int, now: int)
    requires Wf(i) && i.hook.PresetRule? && PresetName in i.items && i.items[PresetName].Field?
    requires 1 <= v <= |i.hook.presets| && IsNumber(x) && AsReal(x) == v as real
    requires var p := i.hook.presets[v - 1];
      PresentKeysAreFields(i.items, p) && NoDup(KeysOf(p)) && PresetName !in KeysOf(p)
    ensures var r := OverrideSet(i, PresetName, x, now);
      && r.Ok?
      && r.value.calls == Subscriptions.Listeners(i.subs, PresetName)
      && forall n :: n in i.items ==>
        r.value.iface.items[n] == (if n == PresetName then i.items[n].(value := x)
          else if n in KeysOf(i.hook.presets[v - 1]) then i.items[n].(value := ValueOf(i.hook.presets[v - 1], n))
          else i.items[n])
  {
    var ps := i.hook.presets;
    var stored := i.items[PresetName].(value := x);
    var j := i.(items := i.items[PresetName := stored]);
    WholeFloor(v);
    var p := ps[v - 1];
    PresetOverStored(i.items, x, p);
    assert PresetWrites(j.items, ps, stored) == ApplyPreset(j.items, p);
    var items2 := ApplyPreset(j.items, p).value;
    assert Broadcast(j, stored, now) == Ok(Notify(j.(items := items2), stored, now));
    assert OverrideSet(i, PresetName, x, now) == Broadcast(j, stored, now);
  }

  /** A preset applied after the selector stores `x` writes its own settings and keeps the
      stored selector. */
  lemma PresetOverStored(items: map<string, Item>, x: Value, p: Snapshot)
    requires PresetName in items && items[PresetName].Field?
    requires PresentKeysAreFields(items, p) && NoDup(KeysOf(p)) && PresetName !in KeysOf(p)
    ensures var j := items[PresetName := items[PresetName].(value := x)];
      && PresentKeysAreFields(j, p)
      && ApplyPreset(j, p).Ok?
      && forall n :: n in items ==>
        ApplyPreset(j, p).value[n] == (if n == PresetName then items[n].(value := x)
          else if n in KeysOf(p) then items[n].(value := ValueOf(p, n))
          else items[n])
  {
  }

  /** A selector number outside 1 to the number of presets (0 is "Custom", and `False` counts
      as 0) writes no setting. */
  lemma PresetOutOfRangeWritesNothing(i: Interface, x: Value, now: int)
    requires Wf(i) && i.hook.PresetRule? && PresetName in i.items && i.items[PresetName].Field?
    requires IsNumber(x) && !(1.0 <= AsReal(x) < |i.hook.presets| as real + 1.0)
    ensures var r := OverrideSet(i, PresetName, x, now);
      && r.Ok?
      && r.value.iface.items == Stored(i, PresetName, x).items
      && r.value.calls == Subscriptions.Listeners(i.subs, PresetName)
  {
  }

  /** The preset index must be a whole number: a fractional selector in range, or a selector
      that is neither a number nor a bool, fails. */
  lemma PresetNeedsWholeNumber(i: Interface, x: Value, now: int)
    requires Wf(i) && i.hook.PresetRule? && PresetName in i.items && i.items[PresetName].Field?
    requires !IsNumber(x) || (1.0 <= AsReal(x) < |i.hook.presets| as real + 1.0 && AsReal(x).Floor as real != AsReal(x))
    ensures OverrideSet(i, PresetName, x, now) == Err(TypeError)
  {
  }

  /** Changing any other setting by hand resets the selector to 0 ("Custom") without
      notifying the selector's subscribers. */
  lemma OtherFieldResetsPreset(i: Interface, m: string, v: Value, now: int)
    requires Wf(i) && i.hook.PresetRule? && PresetName in i.items && i.items[PresetName].Field?
    requires m != PresetName && m in i.items && i.items[m].Field?
    ensures var r := OverrideSet(i, m, v, now);
      && r.Ok?
      && r.value.iface.items == i.items[m := i.items[m].(value := v)][PresetName := i.items[PresetName].(value := Num(0.0))]
      && r.value.calls == Subscriptions.Listeners(i.subs, m)
  {
  }

  /** Without a selector, every other update fails. */
  lemma OtherFieldNeedsSelector(i: Interface, m: string, v: Value, now: int)
    requires Wf(i) && i.hook.PresetRule? && PresetName !in i.items
    requires m in i.items && i.items[m].Field?
    ensures OverrideSet(i, m, v, now) == Err(KeyError(PresetName))
  {
  }

  /** Function updates stop at the preset rule: running a function calls its action and
      nothing else, and does not even request a flush. */
  lemma FunctionUpdatesStopAtRule(i: Interface, n: string, now: int, enabled: CallbackId -> bool)
    requires Wf(i) && i.hook.PresetRule? && n in i.items && i.items[n].Function?
    requires i.items[n].onRun.Some? && IsEnabled(i.items[n], enabled)
    ensures Run(i, n, now, enabled) == Ok(Effect(i, [i.items[n].onRun.value]))
  {
    assert [i.items[n].onRun.value] + [] == [i.items[n].onRun.value];
  }

  // ---------------------------------------------------------------------------------------
  // The preset rule on the camera configuration itself

  /** On the camera configuration, in any state it can reach, each of the seven presets
      applies completely. */
  lemma {:induction false} ConfigPresetApplies(i: Interface, v: int, now: int)
    requires Evolves(Config(), i) && 1 <= v <= 7
    ensures var r := OverrideSet(i, PresetName, Num(v as real), now);
      && r.Ok?
      && forall n :: n in i.items && n != PresetName ==>
        r.value.iface.items[n].value == (if n in KeysOf(Presets[v - 1]) then ValueOf(Presets[v - 1], n) else i.items[n].value)
  {
    var c := Config();
    EvolvesKeepsWf(c, i);
    AllPresetsFit();
    FitsMeansApplicable(i, Presets[v - 1]);
    PresetSelectionApplies(i, Num(v as real), v, now);
  }

  // ---------------------------------------------------------------------------------------
  // Saving and reloading the camera configuration

  /** Preset `p` can be applied to `items`: its keys are distinct fields and never the
      selector. */
  predicate Applicable(items: map<string, Item>, p: Snapshot) {
    PresentKeysAreFields(items, p) && NoDup(KeysOf(p)) && PresetName !in KeysOf(p)
  }

  /** The selector agrees with the settings: it is a number (a bool counting as 0 or 1), and
      when it picks a preset it is a whole number and that preset's settings are in place.
      A selector that would make replaying it fail never occurs. */
  predicate PresetConsistent(items: map<string, Item>, presets: seq<Snapshot>) {
    && PresetName in items && items[PresetName].Field? && IsNumber(items[PresetName].value)
    && var x := AsReal(items[PresetName].value);
      1.0 <= x < |presets| as real + 1.0 ==>
        && x.Floor as real == x
        && forall n :: n in KeysOf(presets[x.Floor - 1]) && n in items ==>
          items[n].Field? && items[n].value == ValueOf(presets[x.Floor - 1], n)
  }

  /** What every state the configuration reaches looks like. */
  lemma {:induction false} ConfigShape(i: Interface)
    requires Evolves(Config(), i)
    ensures Wf(i) && i.hook == PresetRule(Presets) && i.order == Names
    ensures forall n :: n in i.items ==> SettingField(i.items[n])
    ensures PresetName in i.items
    ensures forall p :: 0 <= p < |Presets| ==> Applicable(i.items, Presets[p])
  {
    var c := Config();
    EvolvesKeepsWf(c, i);
    forall n | n in i.items ensures SettingField(i.items[n]) {
      assert Erase(c.items[n]) == Erase(i.items[n]);
    }
    assert PresetName == Names[10];
    AllPresetsFit();
    forall p | 0 <= p < |Presets| ensures Applicable(i.items, Presets[p]) {
      FitsMeansApplicable(i, Presets[p]);
    }
  }

  /** An update that succeeds keeps the selector consistent: choosing a preset puts its
      settings in place, a number outside the presets picks none, and any other setting
      resets the selector to 0. */
  lemma OverrideSetKeepsConsistent(i: Interface, n: string, v: Value, now: int)
    requires Wf(i) && i.hook.PresetRule? && PresetConsistent(i.items, i.hook.presets)
    requires forall p :: 0 <= p < |i.hook.presets| ==> Applicable(i.items, i.hook.presets[p])
    requires OverrideSet(i, n, v, now).Ok?
    ensures PresetConsistent(OverrideSet(i, n, v, now).value.iface.items, i.hook.presets)
  {
    if n == PresetName {
      SelectorKeepsConsistent(i, v, now);
    } else {
      OtherFieldResetsPreset(i, n, v, now);
    }
  }

  lemma SelectorKeepsConsistent(i: Interface, v: Value, now: int)
    requires Wf(i) && i.hook.PresetRule? && PresetName in i.items && i.items[PresetName].Field?
    requires forall p :: 0 <= p < |i.hook.presets| ==> Applicable(i.items, i.hook.presets[p])
    requires OverrideSet(i, PresetName, v, now).Ok?
    ensures PresetConsistent(OverrideSet(i, PresetName, v, now).value.iface.items, i.hook.presets)
  {
    var ps := i.hook.presets;
    if !IsNumber(v) || (1.0 <= AsReal(v) < |ps| as real + 1.0 && AsReal(v).Floor as real != AsReal(v)) {
      PresetNeedsWholeNumber(i, v, now);
      assert false;
    } else if 1.0 <= AsReal(v) < |ps| as real + 1.0 {
      SelectedPresetInPlace(i, v, AsReal(v).Floor, now);
    } else {
      PresetOutOfRangeWritesNothing(i, v, now);
    }
  }

  lemma SelectedPresetInPlace(i: Interface, v: Value, k: int, now: int)
    requires Wf(i) && i.hook.PresetRule? && PresetName in i.items && i.items[PresetName].Field?
    requires 1 <= k <= |i.hook.presets| && IsNumber(v) && AsReal(v) == k as real
    requires Applicable(i.items, i.hook.presets[k - 1])
    ensures PresetConsistent(OverrideSet(i, PresetName, v, now).value.iface.items, i.hook.presets)
  {
    PresetSelectionApplies(i, v, k, now);
    var r := OverrideSet(i, PresetName, v, now).value.iface;
    ConsistentAfterApply(i.items, r.items, i.hook.presets, v, k);
  }

  /** The items after preset `k` is applied under a selector standing for `k` are consistent. */
  lemma ConsistentAfterApply(items: map<string, Item>, out: map<string, Item>, ps: seq<Snapshot>, v: Value, k: int)
    requires PresetName in items && items[PresetName].Field?
    requires 1 <= k <= |ps| && IsNumber(v) && AsReal(v) == k as real
    requires Applicable(items, ps[k - 1])
    requires out.Keys == items.Keys
    requires forall n :: n in items ==>
      out[n] == (if n == PresetName then items[n].(value := v)
        else if n in KeysOf(ps[k - 1]) then items[n].(value := ValueOf(ps[k - 1], n))
        else items[n])
    ensures PresetConsistent(out, ps)
  {
    var p := ps[k - 1];
    assert out[PresetName].value == v;
    WholeFloor(k);
    forall m | m in KeysOf(p) && m in out
      ensures out[m].Field? && out[m].value == ValueOf(p, m)
    {
      var j :| 0 <= j < |p| && KeysOf(p)[j] == m;
      assert p[j].0 == m;
    }
  }

  /** `set` goes through `override_set` or does nothing, so it keeps the selector consistent
      too. */
  lemma SetKeepsConsistent(i: Interface, n: string, v: Value, now: int)
    requires Wf(i) && i.hook.PresetRule? && PresetConsistent(i.items, i.hook.presets)
    requires forall p :: 0 <= p < |i.hook.presets| ==> Applicable(i.items, i.hook.presets[p])
    requires Set(i, n, v, now).Ok?
    ensures PresetConsistent(Set(i, n, v, now).value.iface.items, i.hook.presets)
  {
    if i.items[n].canSet {
      OverrideSetKeepsConsistent(i, n, Clamp(i.items[n].kind, v), now);
    }
  }

  /** The freshly built configuration is consistent: its selector is 0 ("Custom"). */
  lemma ConfigStartsConsistent()
    ensures PresetConsistent(Config().items, Presets)
  {
    var c := Config();
    ConfigShape(c);
    SelectorStartsAtZero(c);
  }

  lemma {:induction false} SelectorStartsAtZero(c: Interface)
    requires c == Config()
    ensures PresetName in c.items && c.items[PresetName] == FieldOf(Settings[10])
  {
    FieldNames();
    BuiltItem(PresetRule(Presets), Settings, Names, 10);
  }

  /** The built configuration holds each setting's field under that setting's name. */
  lemma {:induction false} BuiltItem(hook: Hook, ss: seq<Setting>, names: seq<string>, k: nat)
    requires ItemNames(Fields(ss)) == names && NoDup(names) && k < |ss|
    ensures names[k] in Build(hook, ss, names).items && Build(hook, ss, names).items[names[k]] == FieldOf(ss[k])
  {
    RegisterAllFresh(Empty(hook), Fields(ss));
    assert Fields(ss)[k] == FieldOf(ss[k]);
  }

  /** Replaying entries for distinct settings other than the selector, on an interface with
      the preset rule, stores each entry's value and leaves the selector at 0 ("Custom"). */
  lemma {:induction false} LoadOthersAssigns(i: Interface, data: Snapshot, now: int)
    requires Wf(i) && i.hook.PresetRule? && PresetName in i.items && i.items[PresetName].Field?
    requires forall k :: 0 <= k < |data| ==> data[k].0 in i.items && i.items[data[k].0].Field? && data[k].0 != PresetName
    requires NoDup(KeysOf(data))
    ensures Persistence.LoadEntries(i, data, now).Ok?
    ensures var o := Persistence.LoadEntries(i, data, now).value.iface;
      forall n :: n in i.items && n != PresetName ==>
        o.items[n] == (if n in KeysOf(data) then i.items[n].(value := ValueOf(data, n)) else i.items[n])
    ensures |data| > 0 ==> Persistence.LoadEntries(i, data, now).value.iface.items[PresetName] == i.items[PresetName].(value := Num(0.0))
    decreases |data|
  {
    if |data| > 0 {
      var key := data[0].0;
      var rest := data[1..];
      OtherFieldResetsPreset(i, key, data[0].1, now);
      var e := OverrideSet(i, key, data[0].1, now).value.iface;
      EvolvesKeepsWf(i, e);
      OthersTail(i.items, e.items, data);
      LoadOthersAssigns(e, rest, now);
      Persistence.LoadEntriesHead(i, data, now);
      var out := Persistence.LoadEntries(e, rest, now).value.iface;
      AssignOthersHead(i.items, e.items, out.items, data);
    }
  }

  /** After the head entry is stored, the rest of the entries still satisfy the replay's
      conditions. */
  lemma {:induction false} OthersTail(items0: map<string, Item>, items1: map<string, Item>, data: Snapshot)
    requires |data| > 0
    requires forall k :: 0 <= k < |data| ==> data[k].0 in items0 && items0[data[k].0].Field? && data[k].0 != PresetName
    requires NoDup(KeysOf(data))
    requires items1.Keys == items0.Keys && forall n :: n in items0 ==> (items0[n].Field? <==> items1[n].Field?)
    ensures forall k :: 0 <= k < |data| - 1 ==> data[1..][k].0 in items1 && items1[data[1..][k].0].Field? && data[1..][k].0 != PresetName
    ensures NoDup(KeysOf(data[1..]))
  {
    var rest := data[1..];
    KeysTail(data);
    forall k | 0 <= k < |rest| ensures rest[k].0 in items1 && items1[rest[k].0].Field? && rest[k].0 != PresetName {
      assert rest[k] == data[k + 1];
    }
  }

  /** Dropping the head entry of a snapshot without repeated keys leaves none repeated. */
  lemma {:induction false} KeysTail(data: Snapshot)
    requires |data| > 0 && NoDup(KeysOf(data))
    ensures NoDup(KeysOf(data[1..]))
  {
    var rest := data[1..];
    forall a, b | 0 <= a < b < |rest| ensures KeysOf(rest)[a] != KeysOf(rest)[b] {
      assert rest[a] == data[a + 1] && rest[b] == data[b + 1];
      assert KeysOf(data)[a + 1] != KeysOf(data)[b + 1];
    }
  }

  /** Storing the head entry with the selector reset, then the rest's values with the selector
      reset again, is storing every entry's value with the selector reset. */
  lemma AssignOthersHead(items0: map<string, Item>, items1: map<string, Item>, out: map<string, Item>, data: Snapshot)
    requires |data| > 0 && data[0].0 in items0 && data[0].0 != PresetName && PresetName in items0
    requires items0[PresetName].Field? && items0.Keys <= out.Keys
    requires forall k :: 0 <= k < |data| ==> data[k].0 in items0 && items0[data[k].0].Field?
    requires NoDup(KeysOf(data))
    requires items1 == items0[data[0].0 := items0[data[0].0].(value := data[0].1)][PresetName := items0[PresetName].(value := Num(0.0))]
    requires forall n :: n in items1 && n != PresetName ==>
      out[n] == (if n in KeysOf(data[1..]) then items1[n].(value := ValueOf(data[1..], n)) else items1[n])
    requires |data[1..]| > 0 ==> out[PresetName] == items1[PresetName].(value := Num(0.0))
    requires |data[1..]| == 0 ==> out == items1
    ensures forall n :: n in items0 && n != PresetName ==>
      out[n] == (if n in KeysOf(data) then items0[n].(value := ValueOf(data, n)) else items0[n])
    ensures out[PresetName] == items0[PresetName].(value := Num(0.0))
  {
    var key := data[0].0;
    var rest := data[1..];
    assert KeysOf(data) == [key] + KeysOf(rest);
    assert key !in KeysOf(rest);
    forall n | n in items0 && n != PresetName
      ensures out[n] == (if n in KeysOf(data) then items0[n].(value := ValueOf(data, n)) else items0[n])
    {
      if n == key {
        assert ValueOf(data, n) == data[0].1;
      } else if n in KeysOf(rest) {
        assert ValueOf(data, n) == ValueOf(rest, n);
      }
    }
  }

  /** Two fields that differ at most in their values: giving the first the second's value
      gives the second. */
  lemma EraseRestore(p: Item, q: Item)
    requires p.Field? && Erase(p) == Erase(q)
    ensures q.Field? && p.(value := q.value) == q
  {
  }

  /** Replaying the selector last, with every other item already as in `target`, gives exactly
      `target` when `target` is consistent: a preset it picks writes the values `target`
      already holds. */
  lemma SelectorLoad(mid: Interface, target: map<string, Item>, now: int)
    requires Wf(mid) && mid.hook.PresetRule? && PresetName in mid.items && mid.items[PresetName].Field?
    requires forall p :: 0 <= p < |mid.hook.presets| ==> Applicable(mid.items, mid.hook.presets[p])
    requires PresetConsistent(target, mid.hook.presets)
    requires target.Keys == mid.items.Keys
    requires forall n :: n in mid.items && n != PresetName ==> mid.items[n] == target[n]
    requires Erase(mid.items[PresetName]) == Erase(target[PresetName])
    ensures Persistence.LoadEntries(mid, [(PresetName, target[PresetName].value)], now).Ok?
    ensures Persistence.LoadEntries(mid, [(PresetName, target[PresetName].value)], now).value.iface.items == target
  {
    var x := target[PresetName].value;
    SelectorStores(mid, target, now);
    Persistence.LoadEntriesHead(mid, [(PresetName, x)], now);
  }

  lemma {:induction false} SelectorStores(mid: Interface, target: map<string, Item>, now: int)
    requires Wf(mid) && mid.hook.PresetRule? && PresetName in mid.items && mid.items[PresetName].Field?
    requires forall p :: 0 <= p < |mid.hook.presets| ==> Applicable(mid.items, mid.hook.presets[p])
    requires PresetConsistent(target, mid.hook.presets)
    requires target.Keys == mid.items.Keys
    requires forall n :: n in mid.items && n != PresetName ==> mid.items[n] == target[n]
    requires Erase(mid.items[PresetName]) == Erase(target[PresetName])
    ensures OverrideSet(mid, PresetName, target[PresetName].value, now).Ok?
    ensures OverrideSet(mid, PresetName, target[PresetName].value, now).value.iface.items == target
  {
    var x := target[PresetName].value;
    EraseRestore(mid.items[PresetName], target[PresetName]);
    if 1.0 <= AsReal(x) < |mid.hook.presets| as real + 1.0 {
      PickedSelectorStores(mid, target, x, now);
    } else {
      PresetOutOfRangeWritesNothing(mid, x, now);
    }
  }

  /** The selector case of `SelectorStores` that picks a preset. */
  lemma {:induction false} PickedSelectorStores(mid: Interface, target: map<string, Item>, x: Value, now: int)
    requires Wf(mid) && mid.hook.PresetRule? && PresetName in mid.items && mid.items[PresetName].Field?
    requires forall p :: 0 <= p < |mid.hook.presets| ==> Applicable(mid.items, mid.hook.presets[p])
    requires PresetConsistent(target, mid.hook.presets)
    requires target.Keys == mid.items.Keys
    requires forall n :: n in mid.items && n != PresetName ==> mid.items[n] == target[n]
    requires x == target[PresetName].value && mid.items[PresetName].(value := x) == target[PresetName]
    requires 1.0 <= AsReal(x) < |mid.hook.presets| as real + 1.0
    ensures OverrideSet(mid, PresetName, x, now).Ok?
    ensures OverrideSet(mid, PresetName, x, now).value.iface.items == target
  {
    var ps := mid.hook.presets;
    var k := AsReal(x).Floor;
    PresetSelectionApplies(mid, x, k, now);
    var r := OverrideSet(mid, PresetName, x, now).value.iface;
    PickedPresetRestores(mid.items, r.items, target, ps[k - 1], x);
  }

  lemma PickedPresetRestores(items: map<string, Item>, out: map<string, Item>, target: map<string, Item>, p: Snapshot, x: Value)
    requires PresetName in items && items[PresetName].Field? && target.Keys == items.Keys && out.Keys == items.Keys
    requires items[PresetName].(value := x) == target[PresetName]
    requires forall n :: n in items && n != PresetName ==> items[n] == target[n]
    requires forall n :: n in KeysOf(p) && n in target ==> target[n].Field? && target[n].value == ValueOf(p, n)
    requires forall n :: n in items ==>
      out[n] == (if n == PresetName then items[n].(value := x)
        else if n in KeysOf(p) then items[n].(value := ValueOf(p, n))
        else items[n])
    ensures out == target
  {
    forall n | n in items ensures out[n] == target[n] {
      if n != PresetName && n in KeysOf(p) {
        assert target[n].value == ValueOf(p, n);
      }
    }
  }

  /** The snapshot of an interface whose every item is persisted, in the order `others` and
      then the selector: the others' snapshot, then the selector's entry. */
  lemma {:induction false} SnapshotSplit(a: Interface, others: seq<string>)
    requires Wf(a) && a.order == others + [PresetName] && PresetName in a.items
    requires forall n :: n in a.items ==> Serializable(a.items[n])
    ensures a.items[PresetName].Field? && forall n :: n in a.items && n != PresetName ==> n in others
    ensures SaveFields(a) == SaveFrom(a.items, others) + [(PresetName, a.items[PresetName].value)]
    ensures var snap := SaveFrom(a.items, others);
      && NoDup(KeysOf(snap))
      && (forall n :: n in KeysOf(snap) <==> n in others)
      && (forall k :: 0 <= k < |snap| ==> snap[k].0 in a.items && a.items[snap[k].0].Field? && snap[k].0 != PresetName)
      && (forall n :: n in KeysOf(snap) ==> ValueOf(snap, n) == a.items[n].value)
  {
    Persistence.SaveFromAppend(a.items, others, [PresetName]);
    SaveOne(a.items, PresetName);
    OrderSplit(a.order, others);
    forall n | n in others ensures n in a.items {
      assert n in a.order;
    }
    OthersSnapshot(a.items, others);
  }

  /** The snapshot of one persisted name is its one entry. */
  lemma SaveOne(items: map<string, Item>, n: string)
    requires n in items && Serializable(items[n])
    ensures items[n].Field? && SaveFrom(items, [n]) == [(n, items[n].value)]
  {
    assert SaveFrom(items, [n]) == [(n, items[n].value)] + SaveFrom(items, []);
  }

  /** The snapshot of distinct, persisted names other than the selector holds each of them
      once, with its value. */
  lemma OthersSnapshot(items: map<string, Item>, others: seq<string>)
    requires NoDup(others) && PresetName !in others
    requires forall n :: n in others ==> n in items && Serializable(items[n])
    ensures var snap := SaveFrom(items, others);
      && NoDup(KeysOf(snap))
      && (forall n :: n in KeysOf(snap) <==> n in others)
      && (forall k :: 0 <= k < |snap| ==> snap[k].0 in items && items[snap[k].0].Field? && snap[k].0 != PresetName)
      && (forall n :: n in KeysOf(snap) ==> ValueOf(snap, n) == items[n].value)
  {
    var snap := SaveFrom(items, others);
    forall k | 0 <= k < |snap| ensures snap[k].0 in items && items[snap[k].0].Field? && snap[k].0 != PresetName {
      assert KeysOf(snap)[k] == snap[k].0;
    }
  }

  /** An order without repetitions that ends with the selector: the names before it are
      distinct and do not include the selector. */
  lemma OrderSplit(order: seq<string>, others: seq<string>)
    requires NoDup(order) && order == others + [PresetName]
    ensures NoDup(others) && PresetName !in others
  {
    forall p, q | 0 <= p < q < |others| ensures others[p] != others[q] {
      assert order[p] != order[q];
    }
    forall j | 0 <= j < |others| ensures others[j] != PresetName {
      assert order[j] != order[|others|];
    }
  }

  /** The round trip under the preset rule: when the saved interface's selector is consistent,
      loading its snapshot into an interface of the same schema reproduces every item exactly,
      and saving again gives the same snapshot. The settings are replayed first, each one
      resetting the selector to 0; the selector comes last and re-applies its preset, which
      writes the values already loaded. */
  lemma {:induction false} HookedSaveLoadRoundTrip(a: Interface, b: Interface, others: seq<string>, persist: bool, path: string, now: int)
    requires Wf(a) && Wf(b) && b.hook.PresetRule? && Persistence.SameSchema(a, b)
    requires a.order == others + [PresetName]
    requires forall n :: n in a.items ==> Serializable(a.items[n])
    requires forall p :: 0 <= p < |b.hook.presets| ==> Applicable(b.items, b.hook.presets[p])
    requires PresetConsistent(a.items, b.hook.presets)
    ensures Persistence.LoadFields(b, Some(SaveFields(a)), persist, path, now).Ok?
    ensures var c := Persistence.LoadFields(b, Some(SaveFields(a)), persist, path, now).value.iface;
      c.items == a.items && SaveFields(c) == SaveFields(a)
  {
    HookedLoadEntries(a, b, others, now);
  }

  /** Replaying the saved snapshot entry by entry gives back the saved items. */
  lemma {:induction false} HookedLoadEntries(a: Interface, b: Interface, others: seq<string>, now: int)
    requires Wf(a) && Wf(b) && b.hook.PresetRule? && Persistence.SameSchema(a, b)
    requires a.order == others + [PresetName]
    requires forall n :: n in a.items ==> Serializable(a.items[n])
    requires forall p :: 0 <= p < |b.hook.presets| ==> Applicable(b.items, b.hook.presets[p])
    requires PresetConsistent(a.items, b.hook.presets)
    ensures Persistence.LoadEntries(b, SaveFields(a), now).Ok?
    ensures Persistence.LoadEntries(b, SaveFields(a), now).value.iface.items == a.items
  {
    SnapshotSplit(a, others);
    var snap := SaveFrom(a.items, others);
    var x := a.items[PresetName].value;
    SnapshotFitsSchema(a.items, b.items, snap);
    LoadOthersAssigns(b, snap, now);
    var mid := Persistence.LoadEntries(b, snap, now).value.iface;
    EvolvesKeepsWf(b, mid);
    OthersRestored(a.items, b.items, mid.items, others, snap);
    ApplicableUnderErase(b.items, mid.items, b.hook.presets);
    SelectorLoad(mid, a.items, now);
    Persistence.LoadEntriesAppend(b, snap, [(PresetName, x)], now);
  }

  /** A snapshot of another-than-selector fields of one interface names fields of any interface
      of the same schema. */
  lemma SnapshotFitsSchema(x: map<string, Item>, y: map<string, Item>, snap: Snapshot)
    requires x.Keys == y.Keys && forall n :: n in x ==> Erase(x[n]) == Erase(y[n])
    requires forall k :: 0 <= k < |snap| ==> snap[k].0 in x && x[snap[k].0].Field? && snap[k].0 != PresetName
    ensures forall k :: 0 <= k < |snap| ==> snap[k].0 in y && y[snap[k].0].Field? && snap[k].0 != PresetName
  {
    forall k | 0 <= k < |snap| ensures snap[k].0 in y && y[snap[k].0].Field? {
      assert Erase(x[snap[k].0]) == Erase(y[snap[k].0]);
    }
  }

  /** Every preset stays applicable when items change only in their values. */
  lemma ApplicableUnderErase(x: map<string, Item>, y: map<string, Item>, ps: seq<Snapshot>)
    requires x.Keys == y.Keys && forall n :: n in x ==> Erase(x[n]) == Erase(y[n])
    requires forall p :: 0 <= p < |ps| ==> Applicable(x, ps[p])
    ensures forall p :: 0 <= p < |ps| ==> Applicable(y, ps[p])
  {
    forall p, k | 0 <= p < |ps| && 0 <= k < |ps[p]| && ps[p][k].0 in y ensures y[ps[p][k].0].Field? {
      assert Applicable(x, ps[p]);
      assert Erase(x[ps[p][k].0]) == Erase(y[ps[p][k].0]);
    }
  }

  /** Replaying the others' snapshot of `a` into `b` puts every item but the selector back as it
      was in `a`. */
  lemma OthersRestored(x: map<string, Item>, y: map<string, Item>, mid: map<string, Item>, others: seq<string>, snap: Snapshot)
    requires forall n :: n in KeysOf(snap) ==> n in y && y[n].Field?
    requires mid.Keys == y.Keys
    requires forall n :: n in y && n != PresetName ==>
      mid[n] == (if n in KeysOf(snap) then y[n].(value := ValueOf(snap, n)) else y[n])
    requires x.Keys == y.Keys && forall n :: n in x ==> Erase(x[n]) == Erase(y[n])
    requires forall n :: n in x && n != PresetName ==> n in others
    requires forall n :: n in KeysOf(snap) <==> n in others
    requires forall n :: n in KeysOf(snap) ==> n in x && x[n].Field? && ValueOf(snap, n) == x[n].value
    ensures forall n :: n in mid && n != PresetName ==> mid[n] == x[n]
  {
    forall n | n in mid && n != PresetName ensures mid[n] == x[n] {
      assert n in KeysOf(snap);
      EraseRestore(y[n], x[n]);
    }
  }

  /** The round trip on the camera configuration itself: in any state it reaches with a
      consistent selector, saving and loading into any other state it reaches reproduces
      every setting and the selector. */
  lemma {:induction false} ConfigSaveLoadRoundTrip(a: Interface, b: Interface, persist: bool, path: string, now: int)
    requires Evolves(Config(), a) && Evolves(Config(), b) && PresetConsistent(a.items, Presets)
    ensures Persistence.LoadFields(b, Some(SaveFields(a)), persist, path, now).Ok?
    ensures var c := Persistence.LoadFields(b, Some(SaveFields(a)), persist, path, now).value.iface;
      c.items == a.items && SaveFields(c) == SaveFields(a)
  {
    ConfigShape(a);
    ConfigShape(b);
    ConfigSameSchema(a, b);
    NamesSplit();
    HookedSaveLoadRoundTrip(a, b, Names[..10], persist, path, now);
  }

  /** Two states the configuration reaches share its schema. */
  lemma ConfigSameSchema(a: Interface, b: Interface)
    requires Evolves(Config(), a) && Evolves(Config(), b)
    ensures Persistence.SameSchema(a, b)
  {
    var c := Config();
    forall n | n in a.items ensures Erase(a.items[n]) == Erase(b.items[n]) {
      assert Erase(c.items[n]) == Erase(a.items[n]) && Erase(c.items[n]) == Erase(b.items[n]);
    }
  }

  /** The selector is the last of the registered names. */
  lemma NamesSplit()
    ensures Names == Names[..10] + [PresetName]
  {
  }
}
