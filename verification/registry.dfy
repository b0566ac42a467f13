/** A reactive interface: a registry of named items, a subscription table, the three write
    paths (gated `set`, broadcasting `override_set`, silent `set_silently`), the numeric
    step, the list toggle, function runs, and the debounced persistence flush. The camera
    configuration's preset rule is the interface's broadcast hook. */
module Registry {
  import opened Wrappers
  import opened Seqs
  import opened Items
  import Subscriptions
  import Debounce

  /** A persisted snapshot: name -> value pairs in the order they were written. */
  type Snapshot = seq<(string, Value)>

  /** How an interface reacts to an item update before notifying subscribers: the plain
      interface does nothing; the camera configuration applies its preset rule. */
  datatype Hook = NoHook | PresetRule(presets: seq<Snapshot>)

  /** `order` is the insertion order of the item dictionary, which saving and listing follow.
      `saved` is the last snapshot a flush wrote to the persistence target. */
  datatype Interface = Interface(
    items: map<string, Item>,
    order: seq<string>,
    subs: Subscriptions.Table,
    hook: Hook,
    persist: bool,
    path: Option<string>,
    flusher: Debounce.State,
    saved: Option<Snapshot>)

  /** The interface after an operation, and the callbacks the operation invoked, in order. */
  datatype Effect = Effect(iface: Interface, calls: seq<CallbackId>)

  /** The persistence debounce window: 5 seconds, in microseconds. */
  const PersistWindow: int := 5_000_000

  /** The camera configuration's preset selector. */
  const PresetName := "cam_preset"

  /** Every item is stored under its own name, and the order lists each name once. */
  predicate Wf(i: Interface) {
    && (forall n :: n in i.items ==> i.items[n].name == n)
    && NoDup(i.order)
    && (forall n :: n in i.items ==> n in i.order)
    && (forall n :: n in i.order ==> n in i.items)
  }

  function Empty(hook: Hook): (i: Interface)
    ensures Wf(i) && i.items == map[] && i.subs == map[] && !i.persist
  {
    Interface(map[], [], map[], hook, false, None, Debounce.Initial, None)
  }

  /** Registers an item under its name. A duplicate name silently replaces the earlier item,
      which keeps its place in the insertion order. */
  function Register(i: Interface, item: Item): (r: Interface)
    ensures r.items == i.items[item.name := item]
    ensures item.name in i.items ==> r.order == i.order
    ensures item.name !in i.items ==> r.order == i.order + [item.name]
    ensures r.hook == i.hook && r.subs == i.subs && r.persist == i.persist
  {
    if item.name in i.items then i.(items := i.items[item.name := item])
    else i.(items := i.items[item.name := item], order := i.order + [item.name])
  }

  lemma RegisterKeepsWf(i: Interface, item: Item)
    requires Wf(i)
    ensures Wf(Register(i, item))
  {
  }

  function ItemNames(fs: seq<Item>): (ns: seq<string>)
    ensures |ns| == |fs| && forall k :: 0 <= k < |fs| ==> ns[k] == fs[k].name
  {
    if |fs| == 0 then [] else [fs[0].name] + ItemNames(fs[1..])
  }

  /** Registers the items one after another, as a constructor's registration loop does. */
  function RegisterAll(i: Interface, fs: seq<Item>): (r: Interface)
    ensures r.hook == i.hook && r.subs == i.subs && r.persist == i.persist
    decreases |fs|
  {
    if |fs| == 0 then i else RegisterAll(Register(i, fs[0]), fs[1..])
  }

  lemma {:induction false} RegisterAllKeepsWf(i: Interface, fs: seq<Item>)
    requires Wf(i)
    ensures Wf(RegisterAll(i, fs))
    decreases |fs|
  {
    if |fs| > 0 {
      RegisterKeepsWf(i, fs[0]);
      RegisterAllKeepsWf(Register(i, fs[0]), fs[1..]);
    }
  }

  /** Registering items with distinct fresh names appends the names to the order and stores
      each item under its name, keeping the earlier items. */
  lemma {:induction false} RegisterAllFresh(i: Interface, fs: seq<Item>)
    requires NoDup(ItemNames(fs))
    requires forall k :: 0 <= k < |fs| ==> fs[k].name !in i.items
    ensures RegisterAll(i, fs).order == i.order + ItemNames(fs)
    ensures forall n :: n in RegisterAll(i, fs).items <==> n in i.items || n in ItemNames(fs)
    ensures forall k :: 0 <= k < |fs| ==> RegisterAll(i, fs).items[fs[k].name] == fs[k]
    ensures forall n :: n in i.items ==> RegisterAll(i, fs).items[n] == i.items[n]
  {
    RegisterAllFreshOrder(i, fs);
    RegisterAllFreshItems(i, fs);
  }

  lemma {:induction false} RegisterAllFreshOrder(i: Interface, fs: seq<Item>)
    requires NoDup(ItemNames(fs))
    requires forall k :: 0 <= k < |fs| ==> fs[k].name !in i.items
    ensures RegisterAll(i, fs).order == i.order + ItemNames(fs)
    decreases |fs|
  {
    if |fs| > 0 {
      var j := Register(i, fs[0]);
      var rest := fs[1..];
      FreshTail(i, fs);
      assert j.order == i.order + [fs[0].name];
      RegisterAllFreshOrder(j, rest);
      AppendAssoc(i.order, [fs[0].name], ItemNames(rest));
    }
  }

  lemma {:induction false} RegisterAllFreshItems(i: Interface, fs: seq<Item>)
    requires NoDup(ItemNames(fs))
    requires forall k :: 0 <= k < |fs| ==> fs[k].name !in i.items
    ensures forall n :: n in RegisterAll(i, fs).items <==> n in i.items || n in ItemNames(fs)
    ensures forall k :: 0 <= k < |fs| ==> RegisterAll(i, fs).items[fs[k].name] == fs[k]
    ensures forall n :: n in i.items ==> RegisterAll(i, fs).items[n] == i.items[n]
    decreases |fs|
  {
    if |fs| > 0 {
      var j := Register(i, fs[0]);
      var rest := fs[1..];
      FreshTail(i, fs);
      RegisterAllFreshItems(j, rest);
      var r := RegisterAll(j, rest);
      forall k | 0 <= k < |fs| ensures r.items[fs[k].name] == fs[k] {
        if k > 0 {
          assert rest[k - 1] == fs[k];
        }
      }
    }
  }

  /** After registering the first of items with distinct fresh names, the rest are still
      distinct and fresh. */
  lemma {:induction false} FreshTail(i: Interface, fs: seq<Item>)
    requires |fs| > 0 && NoDup(ItemNames(fs))
    requires forall k :: 0 <= k < |fs| ==> fs[k].name !in i.items
    ensures ItemNames(fs) == [fs[0].name] + ItemNames(fs[1..])
    ensures NoDup(ItemNames(fs[1..])) && fs[0].name !in ItemNames(fs[1..])
    ensures forall k :: 0 <= k < |fs[1..]| ==> fs[1..][k].name !in Register(i, fs[0]).items
  {
    NamesTail(fs);
    var rest := fs[1..];
    forall k | 0 <= k < |rest| ensures rest[k].name !in Register(i, fs[0]).items {
      assert rest[k] == fs[k + 1];
    }
  }

  /** The names of items after the first: the first name is not among them and they are
      distinct when all the names are. */
  lemma {:induction false} NamesTail(fs: seq<Item>)
    requires |fs| > 0 && NoDup(ItemNames(fs))
    ensures ItemNames(fs) == [fs[0].name] + ItemNames(fs[1..])
    ensures NoDup(ItemNames(fs[1..])) && fs[0].name !in ItemNames(fs[1..])
  {
    var ns := ItemNames(fs);
    var rest := fs[1..];
    assert ItemNames(rest) == ns[1..] by {
      forall m | 0 <= m < |rest| ensures ItemNames(rest)[m] == ns[m + 1] {
        assert rest[m] == fs[m + 1];
      }
    }
    forall m | 0 <= m < |rest| ensures ItemNames(rest)[m] != fs[0].name {
      assert ns[m + 1] != ns[0];
    }
  }

  /** Registering two items with one name keeps only the second. */
  lemma RegisterDuplicateOverwrites(i: Interface, a: Item, b: Item)
    requires Wf(i) && a.name == b.name
    ensures Register(Register(i, a), b).items[b.name] == b
    ensures Register(Register(i, a), b).items.Keys == i.items.Keys + {a.name}
    ensures |Register(Register(i, a), b).order| == |Register(i, a).order|
  {
  }

  /** Lookup of an item: an absent name is an error, never a default. */
  function GetItem(i: Interface, n: string): (r: Result<Item, Error>)
    ensures r.Ok? <==> n in i.items
    ensures r.Ok? ==> r.value == i.items[n]
    ensures r.Err? ==> r.error == KeyError(n)
  {
    if n in i.items then Ok(i.items[n]) else Err(KeyError(n))
  }

  /** `has_field`: goes through the failing lookup, so an absent name is an error. */
  function HasField(i: Interface, n: string): (r: Result<bool, Error>)
    ensures r.Ok? <==> n in i.items
    ensures r.Ok? ==> r.value == i.items[n].Field?
  {
    var it :- GetItem(i, n);
    Ok(it.Field?)
  }

  /** The field stored under `n`; calling a field method through `get_field` on a non-field
      fails on `None`. */
  function FieldAt(i: Interface, n: string): (r: Result<Item, Error>)
    ensures r.Ok? <==> n in i.items && i.items[n].Field?
    ensures r.Ok? ==> r.value == i.items[n]
    ensures n !in i.items ==> r == Err(KeyError(n))
  {
    var it :- GetItem(i, n);
    if it.Field? then Ok(it) else Err(AttributeError(n))
  }

  predicate Serializable(it: Item) {
    it.Field? && it.canSerialize
  }

  function KeysOf(s: Snapshot): (ks: seq<string>)
    ensures |ks| == |s|
    ensures forall k :: 0 <= k < |s| ==> ks[k] == s[k].0
  {
    if |s| == 0 then [] else [s[0].0] + KeysOf(s[1..])
  }

  /** The value a snapshot holds for a key (its first entry for that key). */
  function ValueOf(s: Snapshot, n: string): Value
    requires n in KeysOf(s)
  {
    if s[0].0 == n then s[0].1 else ValueOf(s[1..], n)
  }

  /** The snapshot of the serializable fields, in the given name order. */
  function SaveFrom(items: map<string, Item>, order: seq<string>): (snap: Snapshot)
    ensures forall n :: n in KeysOf(snap) <==> n in order && n in items && Serializable(items[n])
    ensures forall n :: n in KeysOf(snap) ==> n in items && items[n].Field? && ValueOf(snap, n) == items[n].value
    ensures NoDup(order) ==> NoDup(KeysOf(snap))
  {
    if |order| == 0 then []
    else
      var rest := SaveFrom(items, order[1..]);
      var n := order[0];
      assert forall m :: m in order <==> m == n || m in order[1..];
      if n in items && Serializable(items[n]) then
        var snap := [(n, items[n].value)] + rest;
        assert snap[1..] == rest;
        assert KeysOf(snap) == [n] + KeysOf(rest);
        snap
      else rest
  }

  /** `save_fields`: every serializable field with its current value, in dictionary order. */
  function SaveFields(i: Interface): Snapshot {
    SaveFrom(i.items, i.order)
  }

  /** A persistence path is set when it is present and non-empty. */
  predicate PathSet(p: Option<string>) {
    p.Some? && p.value != ""
  }

  /** The persistence flush run after every notification: when persisting to a set path,
      a debounced request that writes the snapshot when it flushes at once. */
  function Persist(i: Interface, now: int): (r: Interface)
    ensures r.items == i.items && r.subs == i.subs && r.hook == i.hook && r.order == i.order
    ensures !(i.persist && PathSet(i.path)) ==> r == i
  {
    if i.persist && PathSet(i.path) then
      var req := Debounce.Request(i.flusher, now, PersistWindow);
      i.(flusher := req.0, saved := if req.1.FlushNow? then Some(SaveFields(i)) else i.saved)
    else i
  }

  /** The deferred persistence flush firing at `now`. */
  function ScheduledFlush(i: Interface, now: int): (r: Interface)
    ensures r.items == i.items && r.subs == i.subs && !r.flusher.pending
    ensures i.persist && PathSet(i.path) ==> r.saved == Some(SaveFields(i)) && r.flusher.last == Some(now)
    ensures !(i.persist && PathSet(i.path)) ==> r.saved == i.saved && r.flusher.last == i.flusher.last
  {
    if i.persist && PathSet(i.path) then
      i.(flusher := Debounce.Fire(i.flusher, now), saved := Some(SaveFields(i)))
    else i.(flusher := i.flusher.(pending := false))
  }

  /** The base notification: call the item's subscribers, then the wildcard ones, then flush. */
  function Notify(i: Interface, item: Item, now: int): (e: Effect)
    ensures e.iface == Persist(i, now)
    ensures e.calls == Subscriptions.Listeners(i.subs, item.name)
  {
    Effect(Persist(i, now), Subscriptions.Listeners(i.subs, item.name))
  }

  /** `set_silently` on the item stored under `n`. */
  function SetSilentlyIn(items: map<string, Item>, n: string, v: Value): (r: Result<map<string, Item>, Error>)
    ensures r.Ok? <==> n in items && items[n].Field?
    ensures r.Ok? ==> r.value == items[n := items[n].(value := v)]
    ensures n !in items ==> r == Err(KeyError(n))
  {
    if n !in items then Err(KeyError(n))
    else if !items[n].Field? then Err(AttributeError(n))
    else Ok(items[n := items[n].(value := v)])
  }

  /** Every key of the snapshot that names an item names a field. */
  predicate PresentKeysAreFields(items: map<string, Item>, s: Snapshot) {
    forall k :: 0 <= k < |s| && s[k].0 in items ==> items[s[k].0].Field?
  }

  /** Applying one preset: each of its keys the interface has is written silently. */
  function ApplyPreset(items: map<string, Item>, entries: Snapshot): (r: Result<map<string, Item>, Error>)
    ensures r.Ok? <==> PresentKeysAreFields(items, entries)
    ensures r.Ok? ==> r.value.Keys == items.Keys
    ensures r.Ok? && NoDup(KeysOf(entries)) ==> forall n :: n in items ==>
      r.value[n] == (if n in KeysOf(entries) then items[n].(value := ValueOf(entries, n)) else items[n])
    decreases |entries|
  {
    if |entries| == 0 then Ok(items)
    else
      var k := entries[0].0;
      var rest := entries[1..];
      assert KeysOf(entries) == [k] + KeysOf(rest);
      assert forall j :: 0 <= j < |rest| ==> rest[j] == entries[j + 1];
      if k in items then
        var items' :- SetSilentlyIn(items, k, entries[0].1);
        assert forall n :: n in items' ==> (items'[n].Field? <==> items[n].Field?);
        ApplyPreset(items', rest)
      else ApplyPreset(items, rest)
  }

  /** The camera configuration's silent writes for an update of `item`: a change of the preset
      selector to a number `v` (a bool counts as 0 or 1) with `1 <= v <= |presets|` writes
      preset `v - 1`; any other number writes nothing; a change of any other field resets the
      selector to 0. `value - 1` fails on a non-number and indexing the preset list fails on
      a fractional index, both with `TypeError`. */
  function PresetWrites(items: map<string, Item>, presets: seq<Snapshot>, item: Item): (r: Result<map<string, Item>, Error>)
    requires item.Field?
    ensures r.Ok? ==> r.value.Keys == items.Keys
    ensures item.name == PresetName && !IsNumber(item.value) ==> r == Err(TypeError)
    ensures item.name == PresetName && IsNumber(item.value) && !(1.0 <= AsReal(item.value) < |presets| as real + 1.0) ==> r == Ok(items)
    ensures item.name == PresetName && IsNumber(item.value) && 1.0 <= AsReal(item.value) < |presets| as real + 1.0 ==>
      if AsReal(item.value).Floor as real == AsReal(item.value)
      then r == ApplyPreset(items, presets[AsReal(item.value).Floor - 1])
      else r == Err(TypeError)
    ensures item.name != PresetName ==> r == SetSilentlyIn(items, PresetName, Num(0.0))
  {
    if item.name == PresetName then
      if !IsNumber(item.value) then Err(TypeError)
      else
        var v := AsReal(item.value);
        if 0.0 <= v - 1.0 < |presets| as real then
          if v.Floor as real == v then ApplyPreset(items, presets[v.Floor - 1]) else Err(TypeError)
        else Ok(items)
    else SetSilentlyIn(items, PresetName, Num(0.0))
  }

  /** An item update: the hook's silent writes (the preset rule drops non-fields), then one
      notification. */
  function Broadcast(i: Interface, item: Item, now: int): (r: Result<Effect, Error>)
    ensures r.Ok? ==> r.value.iface.items.Keys == i.items.Keys
    ensures r.Ok? ==> r.value.iface.subs == i.subs && r.value.iface.order == i.order && r.value.iface.hook == i.hook
    ensures r.Ok? ==> r.value.iface.persist == i.persist && r.value.iface.path == i.path
    ensures r.Ok? && !(i.persist && PathSet(i.path)) ==> r.value.iface.saved == i.saved && r.value.iface.flusher == i.flusher
  {
    match i.hook
    case NoHook => Ok(Notify(i, item, now))
    case PresetRule(presets) =>
      if item.Function? then Ok(Effect(i, []))
      else
        var items :- PresetWrites(i.items, presets, item);
        Ok(Notify(i.(items := items), item, now))
  }

  /** Only values change: same names, same kinds, flags and titles. */
  function Erase(it: Item): Item {
    if it.Field? then it.(value := Null) else it
  }

  predicate Evolves(a: Interface, b: Interface) {
    && a.items.Keys == b.items.Keys
    && (forall n :: n in a.items ==> Erase(a.items[n]) == Erase(b.items[n]))
    && a.order == b.order && a.hook == b.hook
  }

  lemma EvolvesKeepsWf(a: Interface, b: Interface)
    requires Wf(a) && Evolves(a, b)
    ensures Wf(b)
    ensures forall n :: n in a.items ==> (a.items[n].Field? <==> b.items[n].Field?)
  {
    forall n | n in a.items
      ensures b.items[n].name == n && (a.items[n].Field? <==> b.items[n].Field?)
    {
      assert Erase(a.items[n]) == Erase(b.items[n]);
    }
  }

  lemma ApplyPresetEvolves(items: map<string, Item>, entries: Snapshot)
    requires ApplyPreset(items, entries).Ok?
    ensures forall n :: n in items ==> Erase(items[n]) == Erase(ApplyPreset(items, entries).value[n])
    decreases |entries|
  {
    if |entries| > 0 {
      var k := entries[0].0;
      if k in items {
        var items' := SetSilentlyIn(items, k, entries[0].1).value;
        ApplyPresetEvolves(items', entries[1..]);
      } else {
        ApplyPresetEvolves(items, entries[1..]);
      }
    }
  }

  lemma BroadcastEvolves(i: Interface, item: Item, now: int)
    requires Broadcast(i, item, now).Ok?
    ensures Evolves(i, Broadcast(i, item, now).value.iface)
  {
    if i.hook.PresetRule? && item.Field? {
      PresetWritesEvolves(i.items, i.hook.presets, item);
    }
  }

  /** The camera rule's silent writes change values only. */
  lemma PresetWritesEvolves(items: map<string, Item>, presets: seq<Snapshot>, item: Item)
    requires item.Field? && PresetWrites(items, presets, item).Ok?
    ensures forall n :: n in items ==> Erase(items[n]) == Erase(PresetWrites(items, presets, item).value[n])
  {
    if item.name == PresetName && IsNumber(item.value) {
      var v := AsReal(item.value);
      if 0.0 <= v - 1.0 < |presets| as real && v.Floor as real == v {
        ApplyPresetEvolves(items, presets[v.Floor - 1]);
      }
    }
  }

  /** `override_set`: store unconditionally, then broadcast. */
  function OverrideSet(i: Interface, n: string, v: Value, now: int): (r: Result<Effect, Error>)
    ensures n !in i.items ==> r == Err(KeyError(n))
    ensures n in i.items && !i.items[n].Field? ==> r.Err?
    ensures r.Ok? ==> Evolves(i, r.value.iface)
    ensures r.Ok? ==> r.value.iface.subs == i.subs && r.value.iface.persist == i.persist && r.value.iface.path == i.path
    ensures r.Ok? && !(i.persist && PathSet(i.path)) ==> r.value.iface.saved == i.saved && r.value.iface.flusher == i.flusher
  {
    var f :- FieldAt(i, n);
    var stored := f.(value := v);
    var r := Broadcast(i.(items := i.items[n := stored]), stored, now);
    if r.Ok? then BroadcastEvolves(i.(items := i.items[n := stored]), stored, now); r else r
  }

  /** `set`: clamp (numeric fields only), then store and broadcast only when the field can be
      set from outside. */
  function Set(i: Interface, n: string, v: Value, now: int): (r: Result<Effect, Error>)
    ensures n !in i.items ==> r == Err(KeyError(n))
    ensures n in i.items && i.items[n].Field? && !i.items[n].canSet ==> r == Ok(Effect(i, []))
    ensures n in i.items && i.items[n].Field? && i.items[n].canSet ==> r == OverrideSet(i, n, Clamp(i.items[n].kind, v), now)
    ensures r.Ok? ==> Evolves(i, r.value.iface) && r.value.iface.subs == i.subs
  {
    var f :- FieldAt(i, n);
    if f.canSet then OverrideSet(i, n, Clamp(f.kind, v), now) else Ok(Effect(i, []))
  }

  /** `set_silently`: store only; nothing is called and nothing is flushed. */
  function SetSilently(i: Interface, n: string, v: Value): (r: Result<Interface, Error>)
    ensures n !in i.items ==> r == Err(KeyError(n))
    ensures r.Ok? <==> n in i.items && i.items[n].Field?
    ensures r.Ok? ==> r.value == i.(items := i.items[n := i.items[n].(value := v)])
  {
    var items :- SetSilentlyIn(i.items, n, v);
    Ok(i.(items := items))
  }

  /** `adjust(direction)` of a numeric field: one step through the clamping `set`, only when
      the field can be set, has a numeric step and holds a number (a bool counts as 0 or 1,
      and the sum is a plain number). */
  function Adjust(i: Interface, n: string, direction: int, now: int): (r: Result<Effect, Error>)
    ensures n !in i.items ==> r == Err(KeyError(n))
    ensures n in i.items && !IsNumeric(i.items[n]) ==> r.Err?
    ensures r.Ok? ==> Evolves(i, r.value.iface) && r.value.iface.subs == i.subs
  {
    var f :- FieldAt(i, n);
    if !f.kind.Numeric? then Err(AttributeError(n))
    else if f.canSet && HasIncrementDelta(f.kind) && IsNumber(f.value) then
      Set(i, n, Num(Stepped(AsReal(f.value), AsReal(f.kind.delta.value), direction)), now)
    else Ok(Effect(i, []))
  }

  /** The list toggle of a list field, broadcast once whichever way it went. It does not
      consult `can_set`. */
  function Toggle(i: Interface, n: string, cand: Candidate, now: int): (r: Result<Effect, Error>)
    ensures n !in i.items ==> r == Err(KeyError(n))
    ensures n in i.items && !IsList(i.items[n]) ==> r.Err?
    ensures n in i.items && IsList(i.items[n]) && !i.items[n].value.List? ==>
      r == Err(if i.items[n].value.Str? && cand.value.Str? then AttributeError(n) else TypeError)
    ensures r.Ok? ==> Evolves(i, r.value.iface) && r.value.iface.subs == i.subs
  {
    var f :- FieldAt(i, n);
    if !f.kind.Listing? then Err(AttributeError(n))
    else
      var v :- ToggleField(f.value, cand.value, n);
      var stored := f.(value := v);
      var r := Broadcast(i.(items := i.items[n := stored]), stored, now);
      if r.Ok? then BroadcastEvolves(i.(items := i.items[n := stored]), stored, now); r else r
  }

  /** A function is enabled unless it has an enable check that answers false. The check's
      answer is supplied by `enabled`. */
  predicate IsEnabled(f: Item, enabled: CallbackId -> bool)
    requires f.Function?
  {
    f.checkEnabled.None? || enabled(f.checkEnabled.value)
  }

  /** `run`: when the function has an action and is enabled, call the action, then broadcast
      the function itself; otherwise nothing happens. */
  function Run(i: Interface, n: string, now: int, enabled: CallbackId -> bool): (r: Result<Effect, Error>)
    ensures n !in i.items ==> r == Err(KeyError(n))
    ensures n in i.items && !i.items[n].Function? ==> r.Err?
    ensures r.Ok? ==> Evolves(i, r.value.iface) && r.value.iface.subs == i.subs
  {
    var it :- GetItem(i, n);
    if !it.Function? then Err(AttributeError(n))
    else if it.onRun.Some? && IsEnabled(it, enabled) then
      var e :- Broadcast(i, it, now);
      BroadcastEvolves(i, it, now);
      Ok(Effect(e.iface, [it.onRun.value] + e.calls))
    else Ok(Effect(i, []))
  }

  // ---------------------------------------------------------------------------------------
  // Properties of the write paths on a plain (hook-less) interface

  /** The field `n` of `i` with its value replaced. */
  function Stored(i: Interface, n: string, v: Value): Interface
    requires n in i.items && i.items[n].Field?
  {
    i.(items := i.items[n := i.items[n].(value := v)])
  }

  /** `override_set` stores the value, then calls exactly the field's subscribers followed by
      the wildcard subscribers, then requests the persistence flush. */
  lemma OverrideSetNotifies(i: Interface, n: string, v: Value, now: int)
    requires Wf(i) && i.hook.NoHook? && n in i.items && i.items[n].Field?
    ensures OverrideSet(i, n, v, now).Ok?
    ensures OverrideSet(i, n, v, now).value.iface == Persist(Stored(i, n, v), now)
    ensures OverrideSet(i, n, v, now).value.iface.items[n].value == v
    ensures OverrideSet(i, n, v, now).value.calls == Subscriptions.Topic(i.subs, n) + Subscriptions.Topic(i.subs, Subscriptions.Wildcard)
  {
  }

  /** A callback subscribed once to a field, and nowhere else, is called exactly once per
      update of that field, and updates of other fields do not call it. */
  lemma {:induction false} SubscriberCalledOncePerUpdate(i: Interface, cb: CallbackId, n: string, m: string, v: Value, now: int)
    requires Wf(i) && i.hook.NoHook? && m in i.items && i.items[m].Field? && n != Subscriptions.Wildcard
    requires forall t :: t in i.subs ==> cb !in i.subs[t]
    ensures var j := i.(subs := Subscriptions.Subscribe(i.subs, n, cb));
      multiset(OverrideSet(j, m, v, now).value.calls)[cb] == (if m == n then 1 else 0)
  {
    var j := i.(subs := Subscriptions.Subscribe(i.subs, n, cb));
    OverrideSetNotifies(j, m, v, now);
    Subscriptions.SubscribeAddsOneCall(i.subs, n, cb, m);
    assert cb !in Subscriptions.Topic(i.subs, m) && cb !in Subscriptions.Topic(i.subs, Subscriptions.Wildcard);
    assert multiset(Subscriptions.Listeners(i.subs, m))[cb] == 0;
  }

  /** A numeric field with a well-ordered range ends a `set` of a number (a bool included)
      inside its range; a value strictly inside the range is stored as it is, and one on a
      bound is stored as that bound. */
  lemma SetStaysInRange(i: Interface, n: string, x: Value, now: int)
    requires Wf(i) && i.hook.NoHook? && n in i.items && IsNumeric(i.items[n]) && i.items[n].canSet
    requires HasValueRange(i.items[n].kind) && IsNumber(x)
    requires Lo(i.items[n].kind) <= Hi(i.items[n].kind)
    ensures Set(i, n, x, now).Ok?
    ensures var k := i.items[n].kind;
      var r := Set(i, n, x, now).value.iface.items[n].value;
      && IsNumber(r) && Lo(k) <= AsReal(r) <= Hi(k)
      && (Lo(k) < AsReal(x) < Hi(k) ==> r == x)
      && (Lo(k) <= AsReal(x) <= Hi(k) ==> AsReal(r) == AsReal(x))
  {
    ClampInRange(i.items[n].kind, x);
    OverrideSetNotifies(i, n, Clamp(i.items[n].kind, x), now);
  }

  /** `adjust` moves a settable number (a bool counting as 0 or 1) by one step up (positive
      direction) or down, clamped into the range, and notifies like `set`; without a numeric
      step, or on a value that is not a number, or when the field cannot be set, it does
      nothing at all. */
  lemma AdjustSteps(i: Interface, n: string, direction: int, now: int)
    requires Wf(i) && i.hook.NoHook? && n in i.items && IsNumeric(i.items[n])
    ensures var f := i.items[n];
      f.canSet && HasIncrementDelta(f.kind) && IsNumber(f.value) ==>
        var d := AsReal(f.kind.delta.value);
        var target := if direction > 0 then AsReal(f.value) + d else AsReal(f.value) - d;
        && Adjust(i, n, direction, now) == OverrideSet(i, n, Clamp(f.kind, Num(target)), now)
        && Adjust(i, n, direction, now).value.calls == Subscriptions.Listeners(i.subs, n)
    ensures var f := i.items[n];
      !(f.canSet && HasIncrementDelta(f.kind) && IsNumber(f.value)) ==> Adjust(i, n, direction, now) == Ok(Effect(i, []))
  {
    var f := i.items[n];
    if f.canSet && HasIncrementDelta(f.kind) && IsNumber(f.value) {
      var d := AsReal(f.kind.delta.value);
      var target := if direction > 0 then AsReal(f.value) + d else AsReal(f.value) - d;
      assert Stepped(AsReal(f.value), d, direction) == target;
      OverrideSetNotifies(i, n, Clamp(f.kind, Num(target)), now);
    }
  }

  /** Toggling a candidate that is not selected adds it at the end, toggling it again removes
      it, restoring the list; each toggle calls the subscribers once. */
  lemma {:induction false} ToggleTwiceRestoresField(i: Interface, n: string, c: Candidate, now: int)
    requires Wf(i) && i.hook.NoHook? && n in i.items && IsList(i.items[n]) && i.items[n].value.List?
    requires !PyIn(i.items[n].value.elems, c.value)
    ensures Toggle(i, n, c, now).Ok?
    ensures var once := Toggle(i, n, c, now).value;
      && once.iface.items[n].value == List(i.items[n].value.elems + [c.value])
      && once.calls == Subscriptions.Listeners(i.subs, n)
      && Toggle(once.iface, n, c, now).Ok?
      && Toggle(once.iface, n, c, now).value.iface.items[n].value == i.items[n].value
      && Toggle(once.iface, n, c, now).value.calls == Subscriptions.Listeners(i.subs, n)
  {
    ToggleTwiceRestores(i.items[n].value.elems, c.value);
  }

  /** `run` calls the action, then the subscribers; a function without an action, or one its
      enable check turns off, does nothing. */
  lemma RunCallsActionFirst(i: Interface, n: string, now: int, enabled: CallbackId -> bool)
    requires Wf(i) && i.hook.NoHook? && n in i.items && i.items[n].Function?
    ensures var f := i.items[n];
      f.onRun.Some? && IsEnabled(f, enabled) ==>
        && Run(i, n, now, enabled).Ok?
        && Run(i, n, now, enabled).value.calls == [f.onRun.value] + Subscriptions.Listeners(i.subs, n)
        && Run(i, n, now, enabled).value.iface == Persist(i, now)
    ensures var f := i.items[n];
      !(f.onRun.Some? && IsEnabled(f, enabled)) ==> Run(i, n, now, enabled) == Ok(Effect(i, []))
  {
  }

  // ---------------------------------------------------------------------------------------
  // Properties of the persistence flush

  /** An update on a persisting interface that has been quiet for the whole window writes the
      snapshot at once, and the snapshot holds the value just stored. */
  lemma QuietUpdateWritesAtOnce(i: Interface, n: string, v: Value, now: int)
    requires Wf(i) && i.hook.NoHook? && n in i.items && i.items[n].Field? && i.items[n].canSerialize
    requires i.persist && PathSet(i.path)
    requires Debounce.CooledDown(i.flusher, now, PersistWindow)
    ensures var r := OverrideSet(i, n, v, now).value.iface;
      && r.saved == Some(SaveFields(Stored(i, n, v)))
      && n in KeysOf(r.saved.value) && ValueOf(r.saved.value, n) == v
      && r.flusher.last == Some(now)
  {
    OverrideSetNotifies(i, n, v, now);
  }

  /** An update inside the window writes nothing: it either schedules the single deferred flush
      or joins the one already pending. */
  lemma BusyUpdateDefers(i: Interface, n: string, v: Value, now: int)
    requires Wf(i) && i.hook.NoHook? && n in i.items && i.items[n].Field?
    requires i.persist && PathSet(i.path)
    requires !Debounce.CooledDown(i.flusher, now, PersistWindow)
    ensures var r := OverrideSet(i, n, v, now).value.iface;
      && r.saved == i.saved
      && r.flusher.pending
      && r.flusher.last == i.flusher.last
  {
    OverrideSetNotifies(i, n, v, now);
  }

  /** Without persistence nothing is ever written and the flush state does not move. */
  lemma NoPersistNoWrite(i: Interface, n: string, v: Value, now: int)
    requires Wf(i) && i.hook.NoHook? && n in i.items && i.items[n].Field?
    requires !(i.persist && PathSet(i.path))
    ensures OverrideSet(i, n, v, now).value.iface.saved == i.saved
    ensures OverrideSet(i, n, v, now).value.iface.flusher == i.flusher
  {
    OverrideSetNotifies(i, n, v, now);
  }
}
