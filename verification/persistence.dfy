/** Loading a persisted snapshot into an interface, and the save/load round trip. */
module Persistence {
  import opened Wrappers
  import opened Seqs
  import opened Items
  import opened Registry

  /** Replays the snapshot's entries in order. Every key goes through `has_field`, so a key
      the interface lacks is an error; a key naming a function is skipped; a key naming a
      field goes through `override_set`, which broadcasts and runs the hook. */
  function LoadEntries(i: Interface, data: Snapshot, now: int): (r: Result<Effect, Error>)
    ensures r.Ok? ==> Evolves(i, r.value.iface)
    ensures r.Ok? ==> r.value.iface.subs == i.subs && r.value.iface.persist == i.persist && r.value.iface.path == i.path
    ensures r.Ok? && !(i.persist && PathSet(i.path)) ==> r.value.iface.saved == i.saved && r.value.iface.flusher == i.flusher
    ensures (exists k :: 0 <= k < |data| && data[k].0 !in i.items) ==> r.Err?
    decreases |data|
  {
    if |data| == 0 then Ok(Effect(i, []))
    else
      var key := data[0].0;
      assert forall k :: 1 <= k < |data| ==> data[k] == data[1..][k - 1];
      var isField :- HasField(i, key);
      if isField then
        var e :- OverrideSet(i, key, data[0].1, now);
        var rest :- LoadEntries(e.iface, data[1..], now);
        Ok(Effect(rest.iface, e.calls + rest.calls))
      else LoadEntries(i, data[1..], now)
  }

  /** `load_fields`: a missing file (`None`) loads nothing; either way the persistence flag and
      path are set only after the entries have been replayed. */
  function LoadFields(i: Interface, data: Option<Snapshot>, persist: bool, path: string, now: int): (r: Result<Effect, Error>)
    ensures data.None? ==> r == Ok(Effect(i.(persist := persist, path := Some(path)), []))
    ensures r.Ok? ==> r.value.iface.persist == persist && r.value.iface.path == Some(path)
    ensures r.Ok? ==> Evolves(i, r.value.iface) && r.value.iface.subs == i.subs
    ensures r.Ok? && !(i.persist && PathSet(i.path)) ==> r.value.iface.saved == i.saved
    ensures data.Some? && (exists k :: 0 <= k < |data.value| && data.value[k].0 !in i.items) ==> r.Err?
  {
    if data.None? then Ok(Effect(i.(persist := persist, path := Some(path)), []))
    else
      var e :- LoadEntries(i, data.value, now);
      Ok(Effect(e.iface.(persist := persist, path := Some(path)), e.calls))
  }

  /** On a plain interface, replaying entries whose keys are distinct fields sets each of those
      fields to its entry's value and leaves every other item as it was. */
  lemma {:induction false} LoadEntriesAssigns(i: Interface, data: Snapshot, now: int)
    requires Wf(i) && i.hook.NoHook?
    requires forall n :: n in KeysOf(data) ==> n in i.items && i.items[n].Field?
    requires NoDup(KeysOf(data))
    ensures LoadEntries(i, data, now).Ok?
    ensures forall n :: n in i.items ==>
      LoadEntries(i, data, now).value.iface.items[n] ==
        (if n in KeysOf(data) then i.items[n].(value := ValueOf(data, n)) else i.items[n])
    decreases |data|
  {
    if |data| > 0 {
      var key := data[0].0;
      var rest := data[1..];
      OverrideSetNotifies(i, key, data[0].1, now);
      var e := OverrideSet(i, key, data[0].1, now).value;
      EvolvesKeepsWf(i, e.iface);
      assert KeysOf(data) == [key] + KeysOf(rest);
      forall a, b | 0 <= a < b < |rest| ensures KeysOf(rest)[a] != KeysOf(rest)[b] {
        assert KeysOf(data)[a + 1] != KeysOf(data)[b + 1];
      }
      LoadEntriesAssigns(e.iface, rest, now);
      var out := LoadEntries(e.iface, rest, now).value.iface;
      assert LoadEntries(i, data, now).value.iface == out;
      AssignHead(i.items, e.iface.items, out.items, data);
    }
  }

  /** Writing the head entry and then the rest's values is writing every entry's value. */
  lemma AssignHead(items0: map<string, Item>, items1: map<string, Item>, out: map<string, Item>, data: Snapshot)
    requires |data| > 0 && forall n :: n in KeysOf(data) ==> n in items0 && items0[n].Field?
    requires items1 == items0[data[0].0 := items0[data[0].0].(value := data[0].1)]
    requires NoDup(KeysOf(data))
    requires items1.Keys <= out.Keys
    requires forall n :: n in items1 ==>
      out[n] == (if n in KeysOf(data[1..]) then items1[n].(value := ValueOf(data[1..], n)) else items1[n])
    ensures forall n :: n in items0 ==>
      out[n] == (if n in KeysOf(data) then items0[n].(value := ValueOf(data, n)) else items0[n])
  {
    var key := data[0].0;
    assert KeysOf(data) == [key] + KeysOf(data[1..]);
    assert key !in KeysOf(data[1..]);
  }

  /** Two item maps that agree on which names are serializable fields, and on the values of
      those fields, save the same snapshot. */
  lemma {:induction false} SaveFromAgrees(a: map<string, Item>, b: map<string, Item>, order: seq<string>)
    requires forall n :: n in order ==> (n in a && Serializable(a[n]) <==> n in b && Serializable(b[n]))
    requires forall n :: n in order && n in a && Serializable(a[n]) ==> n in b && b[n].Field? && a[n].value == b[n].value
    ensures SaveFrom(a, order) == SaveFrom(b, order)
    decreases |order|
  {
    if |order| > 0 {
      assert forall n :: n in order[1..] ==> n in order;
      SaveFromAgrees(a, b, order[1..]);
    }
  }

  /** Interfaces with the same items up to their values, in the same order. */
  predicate SameSchema(a: Interface, b: Interface) {
    && a.items.Keys == b.items.Keys
    && (forall n :: n in a.items ==> Erase(a.items[n]) == Erase(b.items[n]))
    && a.order == b.order
  }

  /** The round trip: loading the snapshot an interface saves into a plain, not yet persisting
      interface of the same schema reproduces every serializable value, keeps the others, and
      saves the same snapshot again. */
  lemma {:induction false} SaveLoadRoundTrip(a: Interface, b: Interface, persist: bool, path: string, now: int)
    requires Wf(a) && Wf(b) && b.hook.NoHook? && SameSchema(a, b)
    ensures LoadFields(b, Some(SaveFields(a)), persist, path, now).Ok?
    ensures var c := LoadFields(b, Some(SaveFields(a)), persist, path, now).value.iface;
      && (forall n :: n in a.items && Serializable(a.items[n]) ==> c.items[n] == a.items[n])
      && (forall n :: n in b.items && !Serializable(b.items[n]) ==> c.items[n] == b.items[n])
      && SaveFields(c) == SaveFields(a)
  {
    var snap := SaveFields(a);
    forall n | n in a.items
      ensures Erase(a.items[n]) == Erase(b.items[n])
      ensures b.items[n].Field? <==> a.items[n].Field?
      ensures Serializable(b.items[n]) <==> Serializable(a.items[n])
      ensures a.items[n].Field? ==> a.items[n] == b.items[n].(value := a.items[n].value)
    {
    }
    LoadEntriesAssigns(b, snap, now);
    var c := LoadFields(b, Some(snap), persist, path, now).value.iface;
    SaveFromAgrees(c.items, a.items, a.order);
  }

  /** Saving the names of `o1` and then those of `o2` is saving `o1 + o2`. */
  lemma {:induction false} SaveFromAppend(items: map<string, Item>, o1: seq<string>, o2: seq<string>)
    ensures SaveFrom(items, o1 + o2) == SaveFrom(items, o1) + SaveFrom(items, o2)
    decreases |o1|
  {
    if |o1| > 0 {
      var n := o1[0];
      assert (o1 + o2)[0] == n && (o1 + o2)[1..] == o1[1..] + o2;
      SaveFromAppend(items, o1[1..], o2);
      var tail := SaveFrom(items, o1[1..]);
      if n in items && Serializable(items[n]) {
        assert SaveFrom(items, o1) == [(n, items[n].value)] + tail;
        assert SaveFrom(items, o1 + o2) == [(n, items[n].value)] + (tail + SaveFrom(items, o2));
      } else {
        assert SaveFrom(items, o1) == tail;
        assert SaveFrom(items, o1 + o2) == tail + SaveFrom(items, o2);
      }
    } else {
      assert o1 + o2 == o2;
    }
  }

  /** Replaying `d1 + d2` is replaying `d1` and then, from where it left the interface, `d2`. */
  lemma {:induction false} LoadEntriesAppend(i: Interface, d1: Snapshot, d2: Snapshot, now: int)
    requires LoadEntries(i, d1, now).Ok?
    ensures var mid := LoadEntries(i, d1, now).value.iface;
      LoadEntries(mid, d2, now).Ok? ==>
        && LoadEntries(i, d1 + d2, now).Ok?
        && LoadEntries(i, d1 + d2, now).value.iface == LoadEntries(mid, d2, now).value.iface
    decreases |d1|
  {
    if |d1| > 0 {
      assert (d1 + d2)[0] == d1[0] && (d1 + d2)[1..] == d1[1..] + d2;
      var key := d1[0].0;
      if HasField(i, key).value {
        var e := OverrideSet(i, key, d1[0].1, now).value;
        LoadEntriesAppend(e.iface, d1[1..], d2, now);
      } else {
        LoadEntriesAppend(i, d1[1..], d2, now);
      }
    } else {
      assert d1 + d2 == d2;
    }
  }

  /** Replaying a snapshot whose first key is a field is `override_set` of that entry, then
      the replay of the rest. */
  lemma LoadEntriesHead(i: Interface, data: Snapshot, now: int)
    requires |data| > 0 && data[0].0 in i.items && i.items[data[0].0].Field?
    requires OverrideSet(i, data[0].0, data[0].1, now).Ok?
    ensures var mid := OverrideSet(i, data[0].0, data[0].1, now).value.iface;
      LoadEntries(mid, data[1..], now).Ok? ==>
        && LoadEntries(i, data, now).Ok?
        && LoadEntries(i, data, now).value.iface == LoadEntries(mid, data[1..], now).value.iface
  {
  }

  /** A snapshot naming an item the interface does not have is refused. */
  lemma UnknownKeyRefused(i: Interface, data: Snapshot, key: string, persist: bool, path: string, now: int)
    requires key in KeysOf(data) && key !in i.items
    ensures LoadFields(i, Some(data), persist, path, now).Err?
  {
    var k :| 0 <= k < |data| && KeysOf(data)[k] == key;
  }
}
