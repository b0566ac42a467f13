/** The rotary-driven menu over a list of interfaces: its entries, built from a names field,
    the optional entry that edits that names field, the selection, the edit mode, and the
    redraw subscription that follows the selected field. Drawing is left out; the arrow
    visibility rule is kept. */
module Menu {
  import opened Wrappers
  import opened Seqs
  import opened Items
  import Subscriptions
  import Registry

  /** The interfaces the menu reads, in the order it searches them. */
  type World = seq<Registry.Interface>

  /** A menu entry: an item of interface `iface`, or the editor of the names field. */
  datatype Entry = Ref(iface: nat, name: string) | Editor

  /** The editor item's name. */
  const EditorName := "int_menu_items"

  /** `names` locates the field whose value lists the menu's item names. `editor` holds the
      editor's candidates when that field can be set. `redraw` is the menu's value-redraw
      callback. `cursor` is the selected candidate of a list field being edited. */
  datatype State = State(
    entries: seq<Entry>,
    index: nat,
    editing: bool,
    confirm: bool,
    cursor: nat,
    names: (nat, string),
    editor: Option<seq<Candidate>>,
    redraw: CallbackId)

  // ---------------------------------------------------------------------------------------
  // Resolving entries

  predicate NamesOk(m: State, w: World) {
    && m.names.0 < |w|
    && m.names.1 in w[m.names.0].items
    && w[m.names.0].items[m.names.1].Field?
  }

  function NamesField(m: State, w: World): Item
    requires NamesOk(m, w)
  {
    w[m.names.0].items[m.names.1]
  }

  /** The editor is a list field sharing the names field's value and title, settable, not
      persisted, published on the names field's interface under its own name. */
  function EditorItem(m: State, w: World): (it: Item)
    requires NamesOk(m, w)
    ensures IsList(it) && it.name == EditorName && it.canSet && !it.canSerialize
    ensures it.value == NamesField(m, w).value && it.kind.candidates == m.editor
  {
    var f := NamesField(m, w);
    Field(EditorName, f.title, f.value, true, false, Listing(m.editor))
  }

  predicate Resolves(e: Entry, m: State, w: World) {
    && (e.Ref? ==> e.iface < |w| && e.name in w[e.iface].items)
    && (e.Editor? ==> m.editor.Some?)
  }

  /** Everything the menu refers to exists. */
  predicate Valid(m: State, w: World) {
    && NamesOk(m, w)
    && 0 < |m.entries|
    && m.index < |m.entries|
    && (forall j :: 0 <= j < |m.entries| ==> Resolves(m.entries[j], m, w))
    && (forall k :: 0 <= k < |w| ==> Registry.Wf(w[k]))
  }

  function ItemOf(m: State, w: World, e: Entry): Item
    requires NamesOk(m, w) && Resolves(e, m, w)
  {
    if e.Editor? then EditorItem(m, w) else w[e.iface].items[e.name]
  }

  function Current(m: State, w: World): Item
    requires Valid(m, w)
  {
    ItemOf(m, w, m.entries[m.index])
  }

  /** The candidate cursor only leaves 0 on a list field with that many candidates. */
  predicate CursorOk(m: State, w: World)
    requires Valid(m, w)
  {
    var it := Current(m, w);
    m.cursor == 0 || (IsList(it) && it.kind.candidates.Some? && m.cursor < |it.kind.candidates.value|)
  }

  predicate Wf(m: State, w: World) {
    Valid(m, w) && CursorOk(m, w)
  }

  /** The world after operations that only change values. */
  predicate Evolved(w: World, w2: World) {
    && |w| == |w2|
    && (forall k :: 0 <= k < |w| ==> Registry.Evolves(w[k], w2[k]) && w2[k].subs == w[k].subs)
  }

  lemma {:induction false} EvolvedKeepsWf(m: State, w: World, w2: World)
    requires Wf(m, w) && Evolved(w, w2)
    ensures Wf(m, w2)
    ensures Registry.Erase(Current(m, w2)) == Registry.Erase(Current(m, w))
    ensures WatchTopic(m, w2) == WatchTopic(m, w)
  {
    forall k | 0 <= k < |w| ensures Registry.Wf(w2[k]) {
      Registry.EvolvesKeepsWf(w[k], w2[k]);
    }
    assert Registry.Erase(w[m.names.0].items[m.names.1]) == Registry.Erase(w2[m.names.0].items[m.names.1]);
    var e := m.entries[m.index];
    if e.Ref? {
      assert Registry.Erase(w[e.iface].items[e.name]) == Registry.Erase(w2[e.iface].items[e.name]);
    }
  }

  // ---------------------------------------------------------------------------------------
  // Building the entries

  /** The names a names-field value lists: the strings of a list (a nested list is unhashable
      and fails; other elements name nothing), or the characters of a string. */
  function NamesOf(v: Value): (r: Result<seq<string>, Error>)
    ensures !v.Str? && !v.List? ==> r == Err(TypeError)
    ensures v.Str? ==> r.Ok? && |r.value| == |v.s| && forall j :: 0 <= j < |v.s| ==> r.value[j] == [v.s[j]]
    ensures v.List? ==> (r.Ok? <==> forall x :: x in v.elems ==> !x.List?)
    ensures v.List? && r.Ok? ==> forall n :: n in r.value <==> Str(n) in v.elems
    ensures v.List? ==> r == NamesOfList(v.elems)
    ensures r.Err? ==> r == Err(TypeError)
  {
    match v
    case Str(s) => Ok(Chars(s))
    case List(elems) => NamesOfList(elems)
    case _ => Err(TypeError)
  }

  function Chars(s: string): (r: seq<string>)
    ensures |r| == |s| && forall j :: 0 <= j < |s| ==> r[j] == [s[j]]
  {
    if |s| == 0 then [] else [[s[0]]] + Chars(s[1..])
  }

  /** The strings of a list, in list order and with their repetitions; together with
      `NamesOfListAppend` this fixes the result: one string lists itself, any other element
      that is not a list lists nothing. */
  function NamesOfList(elems: seq<Value>): (r: Result<seq<string>, Error>)
    ensures r.Ok? <==> forall x :: x in elems ==> !x.List?
    ensures r.Ok? ==> forall n :: n in r.value <==> Str(n) in elems
    ensures r.Err? ==> r == Err(TypeError)
    ensures |elems| == 1 && elems[0].Str? ==> r.Ok? && r.value == [elems[0].s]
    ensures |elems| == 1 && !elems[0].Str? && !elems[0].List? ==> r.Ok? && r.value == []
  {
    if |elems| == 0 then Ok([])
    else if elems[0].List? then Err(TypeError)
    else
      var tail := NamesOfList(elems[1..]);
      assert forall x :: x in elems <==> x == elems[0] || x in elems[1..];
      assert |elems| == 1 ==> elems[1..] == [] && tail.Ok? && tail.value == [];
      if tail.Err? then Err(TypeError)
      else Ok(if elems[0].Str? then [elems[0].s] + tail.value else tail.value)
  }

  /** Each name is listed as many times as the list holds its string. */
  lemma {:induction false} NamesOfListCounts(elems: seq<Value>, n: string)
    requires NamesOfList(elems).Ok?
    ensures multiset(NamesOfList(elems).value)[n] == multiset(elems)[Str(n)]
    decreases |elems|
  {
    if |elems| > 0 {
      assert elems == [elems[0]] + elems[1..];
      assert forall x :: x in elems[1..] ==> x in elems;
      NamesOfListCounts(elems[1..], n);
    }
  }

  /** Listing the names of two lists one after the other lists the first's names, then the
      second's. */
  lemma {:induction false} NamesOfListAppend(a: seq<Value>, b: seq<Value>)
    requires NamesOfList(a).Ok? && NamesOfList(b).Ok?
    ensures NamesOfList(a + b).Ok? && NamesOfList(a + b).value == NamesOfList(a).value + NamesOfList(b).value
    decreases |a|
  {
    if |a| == 0 {
      assert a + b == b;
    } else {
      assert (a + b)[1..] == a[1..] + b;
      NamesOfListFront(a);
      NamesOfListAppend(a[1..], b);
      NamesOfListFront(a + b);
      AppendAssoc(NameOf(a[0]), NamesOfList(a[1..]).value, NamesOfList(b).value);
    }
  }

  /** What one element that is not a list contributes to the names. */
  function NameOf(x: Value): seq<string> {
    if x.Str? then [x.s] else []
  }

  /** The names of a non-empty list are its first element's, then the rest's. */
  lemma NamesOfListFront(elems: seq<Value>)
    requires |elems| > 0 && NamesOfList(elems).Ok?
    ensures NamesOfList(elems[1..]).Ok?
    ensures NamesOfList(elems).value == NameOf(elems[0]) + NamesOfList(elems[1..]).value
  {
  }

  /** The entries for one name: that name in each interface that has it, in interface order,
      except the names field itself. */
  function RefsIn(w: World, name: string, skip: (nat, string), k: nat): (es: seq<Entry>)
    ensures forall e :: e in es <==>
      e.Ref? && e.name == name && k <= e.iface < |w| && name in w[e.iface].items && (e.iface, name) != skip
    ensures forall a, b :: 0 <= a < b < |es| ==> es[a].Ref? && es[b].Ref? && es[a].iface < es[b].iface
    decreases |w| - k
  {
    if k >= |w| then []
    else
      var here := if name in w[k].items && (k, name) != skip then [Ref(k, name)] else [];
      var rest := RefsIn(w, name, skip, k + 1);
      assert forall j :: 0 <= j < |rest| ==> rest[j] in rest;
      here + rest
  }

  /** So each entry for one name appears once. */
  lemma {:induction false} RefsInOnce(w: World, name: string, skip: (nat, string), k: nat, e: Entry)
    ensures multiset(RefsIn(w, name, skip, k))[e] == if e in RefsIn(w, name, skip, k) then 1 else 0
    decreases |w| - k
  {
    if k < |w| {
      RefsInOnce(w, name, skip, k + 1, e);
      var rest := RefsIn(w, name, skip, k + 1);
      var here := if name in w[k].items && (k, name) != skip then [Ref(k, name)] else [];
      assert RefsIn(w, name, skip, k) == here + rest;
      assert Ref(k, name) !in rest;
    }
  }

  /** The entries for a list of names, name by name: each pair (interface, name) that exists and
      is not the names field appears as many times as the name is listed. */
  function RefsFor(w: World, names: seq<string>, skip: (nat, string)): (es: seq<Entry>)
    ensures forall e :: e in es <==>
      e.Ref? && e.name in names && e.iface < |w| && e.name in w[e.iface].items && (e.iface, e.name) != skip
    ensures |names| == 1 ==> es == RefsIn(w, names[0], skip, 0)
  {
    if |names| == 0 then []
    else
      assert forall n :: n in names <==> n == names[0] || n in names[1..];
      RefsIn(w, names[0], skip, 0) + RefsFor(w, names[1..], skip)
  }

  /** Each pair (interface, name) that exists and is not the names field appears as many times
      as the name is listed; no other entry appears. */
  lemma {:induction false} RefsForCounts(w: World, names: seq<string>, skip: (nat, string), e: Entry)
    requires e.Ref?
    ensures multiset(RefsFor(w, names, skip))[e] ==
      (if e.iface < |w| && e.name in w[e.iface].items && (e.iface, e.name) != skip then multiset(names)[e.name] else 0)
    decreases |names|
  {
    if |names| > 0 {
      assert names == [names[0]] + names[1..];
      RefsInOnce(w, names[0], skip, 0, e);
      RefsForCounts(w, names[1..], skip, e);
    }
  }

  /** The entries for two lists of names one after the other: the first list's entries, then
      the second's. */
  lemma {:induction false} RefsForAppend(w: World, n1: seq<string>, n2: seq<string>, skip: (nat, string))
    ensures RefsFor(w, n1 + n2, skip) == RefsFor(w, n1, skip) + RefsFor(w, n2, skip)
    decreases |n1|
  {
    if |n1| == 0 {
      assert n1 + n2 == n2;
    } else {
      assert (n1 + n2)[0] == n1[0] && (n1 + n2)[1..] == n1[1..] + n2;
      RefsForAppend(w, n1[1..], n2, skip);
    }
  }

  /** The editor's candidates for interfaces `k` onward: every item of every interface, in
      registration order, except the names field, as (name, title). */
  function EditorCandidatesFrom(w: World, skip: (nat, string), k: nat): (cs: seq<Candidate>)
    requires forall j :: 0 <= j < |w| ==> Registry.Wf(w[j])
    ensures forall j, n :: k <= j < |w| && n in w[j].items && (j, n) != skip ==>
      Candidate(Str(n), w[j].items[n].title) in cs
    ensures forall c :: c in cs ==> Offered(w, skip, k, c)
    ensures k >= |w| ==> cs == []
    ensures k < |w| ==> Registry.Wf(w[k]) && cs == CandidatesOf(w[k], k, skip, w[k].order) + EditorCandidatesFrom(w, skip, k + 1)
    decreases |w| - k
  {
    if k >= |w| then []
    else
      assert Registry.Wf(w[k]);
      var here := CandidatesOf(w[k], k, skip, w[k].order);
      var rest := EditorCandidatesFrom(w, skip, k + 1);
      assert forall c :: c in here + rest ==> Offered(w, skip, k, c) by {
        forall c | c in here + rest ensures Offered(w, skip, k, c) {
          if c in rest {
            var j :| k + 1 <= j < |w| && c.value.s in w[j].items && (j, c.value.s) != skip && c.title == w[j].items[c.value.s].title;
          }
        }
      }
      assert forall j, n :: k <= j < |w| && n in w[j].items && (j, n) != skip ==>
        Candidate(Str(n), w[j].items[n].title) in here + rest by {
        forall j, n | k <= j < |w| && n in w[j].items && (j, n) != skip
          ensures Candidate(Str(n), w[j].items[n].title) in here + rest
        {
          if j == k {
            assert Candidate(Str(n), w[j].items[n].title) in here;
          } else {
            assert Candidate(Str(n), w[j].items[n].title) in rest;
          }
        }
      }
      here + rest
  }

  /** `c` names an item of interface `k` or later, other than `skip`, with that item's title. */
  ghost predicate Offered(w: World, skip: (nat, string), k: nat, c: Candidate) {
    c.value.Str? && exists j :: k <= j < |w| && c.value.s in w[j].items && (j, c.value.s) != skip && c.title == w[j].items[c.value.s].title
  }

  /** The candidates of interface `k` for the item names `order`, one per name other than
      `skip`, in that order. */
  function CandidatesOf(i: Registry.Interface, k: nat, skip: (nat, string), order: seq<string>): (cs: seq<Candidate>)
    requires forall n :: n in order ==> n in i.items
    ensures forall n :: n in order && (k, n) != skip ==> Candidate(Str(n), i.items[n].title) in cs
    ensures forall c :: c in cs ==> c.value.Str? && c.value.s in order && (k, c.value.s) != skip && c.title == i.items[c.value.s].title
    ensures |order| == 1 && (k, order[0]) != skip ==> cs == [Candidate(Str(order[0]), i.items[order[0]].title)]
    ensures |order| == 1 && (k, order[0]) == skip ==> cs == []
  {
    if |order| == 0 then []
    else
      var rest := CandidatesOf(i, k, skip, order[1..]);
      var n := order[0];
      assert forall x :: x in order <==> x == n || x in order[1..];
      if (k, n) != skip then [Candidate(Str(n), i.items[n].title)] + rest else rest
  }

  /** The candidates of `o1 + o2` are those of `o1` followed by those of `o2`: registration
      order is kept. */
  lemma {:induction false} CandidatesOfAppend(i: Registry.Interface, k: nat, skip: (nat, string), o1: seq<string>, o2: seq<string>)
    requires forall n :: n in o1 + o2 ==> n in i.items
    ensures CandidatesOf(i, k, skip, o1 + o2) == CandidatesOf(i, k, skip, o1) + CandidatesOf(i, k, skip, o2)
    decreases |o1|
  {
    if |o1| == 0 {
      assert o1 + o2 == o2;
    } else {
      var o := o1 + o2;
      assert o[0] == o1[0] && o[1..] == o1[1..] + o2;
      var head := if (k, o1[0]) != skip then [Candidate(Str(o1[0]), i.items[o1[0]].title)] else [];
      assert CandidatesOf(i, k, skip, o) == head + CandidatesOf(i, k, skip, o[1..]);
      assert CandidatesOf(i, k, skip, o1) == head + CandidatesOf(i, k, skip, o1[1..]);
      CandidatesOfAppend(i, k, skip, o1[1..], o2);
      AppendAssoc(head, CandidatesOf(i, k, skip, o1[1..]), CandidatesOf(i, k, skip, o2));
    }
  }

  /** Over distinct names, each item other than `skip` is offered exactly once: the
      candidates are distinct and there is one per name, less one when `skip` is among them. */
  lemma {:induction false} CandidatesOfOnce(i: Registry.Interface, k: nat, skip: (nat, string), order: seq<string>)
    requires forall n :: n in order ==> n in i.items
    requires NoDup(order)
    ensures NoDup(CandidatesOf(i, k, skip, order))
    ensures |CandidatesOf(i, k, skip, order)| == |order| - (if k == skip.0 && skip.1 in order then 1 else 0)
  {
    if |order| > 0 {
      var n := order[0];
      assert NoDup(order[1..]);
      assert n !in order[1..];
      assert forall x :: x in order <==> x == n || x in order[1..];
      CandidatesOfOnce(i, k, skip, order[1..]);
    }
  }

  /** The entries the names field currently lists, followed by the editor when there is one. */
  function Entries(w: World, names: (nat, string), editor: Option<seq<Candidate>>): (r: Result<seq<Entry>, Error>)
    requires names.0 < |w| && names.1 in w[names.0].items && w[names.0].items[names.1].Field?
    ensures r.Ok? ==> (Editor in r.value <==> editor.Some?)
    ensures r.Ok? && editor.Some? ==> r.value[|r.value| - 1] == Editor
    ensures r.Ok? <==> NamesOf(w[names.0].items[names.1].value).Ok?
    ensures r.Ok? ==> forall e: Entry :: e.Ref? ==> (e in r.value <==>
      && e.name in NamesOf(w[names.0].items[names.1].value).value
      && e.iface < |w| && e.name in w[e.iface].items && (e.iface, e.name) != names)
  {
    var listed :- NamesOf(w[names.0].items[names.1].value);
    Ok(RefsFor(w, listed, names) + (if editor.Some? then [Editor] else []))
  }

  /** The entries before the editor are those of the listed names, name by name. */
  lemma EntriesListed(w: World, names: (nat, string), editor: Option<seq<Candidate>>)
    requires names.0 < |w| && names.1 in w[names.0].items && w[names.0].items[names.1].Field?
    requires Entries(w, names, editor).Ok?
    ensures var es := Entries(w, names, editor).value;
      es == RefsFor(w, NamesOf(w[names.0].items[names.1].value).value, names) + (if editor.Some? then [Editor] else [])
  {
  }

  /** The menu holds the editor at most once, and each (interface, name) entry as many times as
      the names field lists the name, when the interface has it and it is not the names field
      itself: listing a name twice gives its entries twice. */
  lemma EntriesCounts(w: World, names: (nat, string), editor: Option<seq<Candidate>>, e: Entry)
    requires names.0 < |w| && names.1 in w[names.0].items && w[names.0].items[names.1].Field?
    requires Entries(w, names, editor).Ok?
    ensures e.Editor? ==> multiset(Entries(w, names, editor).value)[e] == if editor.Some? then 1 else 0
    ensures e.Ref? ==> (multiset(Entries(w, names, editor).value)[e] ==
      if e.iface < |w| && e.name in w[e.iface].items && (e.iface, e.name) != names
      then multiset(NamesOf(w[names.0].items[names.1].value).value)[e.name] else 0)
  {
    var listed := NamesOf(w[names.0].items[names.1].value).value;
    var refs := RefsFor(w, listed, names);
    EntriesListed(w, names, editor);
    if e.Ref? {
      RefsForCounts(w, listed, names, e);
    } else {
      assert e !in refs;
    }
  }

  /** The menu's constructor: the listed entries, plus the editor when the names field can be
      set; a menu without any entry is refused. Nothing is subscribed yet. The source raises
      the refusal through `logging.exception`, which returns nothing, so the raise itself fails
      with a `TypeError`; `NoMenuItems` names the refusal the message describes. */
  function Build(w: World, names: (nat, string), redraw: CallbackId): (r: Result<State, Error>)
    requires names.0 < |w| && names.1 in w[names.0].items && w[names.0].items[names.1].Field?
    requires forall k :: 0 <= k < |w| ==> Registry.Wf(w[k])
    ensures r.Ok? ==> Wf(r.value, w) && r.value.index == 0 && !r.value.editing && r.value.names == names
    ensures r.Ok? ==> (r.value.editor ==
      if w[names.0].items[names.1].canSet then Some(EditorCandidatesFrom(w, names, 0)) else None)
    ensures r.Ok? ==> Entries(w, names, r.value.editor) == Ok(r.value.entries)
    ensures NamesOf(w[names.0].items[names.1].value).Err? ==> r == Err(TypeError)
    ensures NamesOf(w[names.0].items[names.1].value).Ok? ==> (r.Err? <==>
      !w[names.0].items[names.1].canSet && RefsFor(w, NamesOf(w[names.0].items[names.1].value).value, names) == [])
    ensures r.Err? && NamesOf(w[names.0].items[names.1].value).Ok? ==> r == Err(NoMenuItems)
  {
    var editor := if w[names.0].items[names.1].canSet then Some(EditorCandidatesFrom(w, names, 0)) else None;
    var entries :- Entries(w, names, editor);
    if |entries| == 0 then Err(NoMenuItems)
    else
      var m := State(entries, 0, false, false, 0, names, editor, redraw);
      assert forall j :: 0 <= j < |entries| ==> Resolves(entries[j], m, w) by {
        forall j | 0 <= j < |entries| ensures Resolves(entries[j], m, w) {
          assert entries[j] in entries;
        }
      }
      Ok(m)
  }

  // ---------------------------------------------------------------------------------------
  // The redraw subscription

  /** Where the redraw callback listens while an entry is selected: the selected field's own
      topic (the editor's on the names field's interface); a function is not watched. */
  function WatchTopic(m: State, w: World): (t: Option<(nat, string)>)
    requires Valid(m, w)
    ensures t.Some? ==> t.value.0 < |w|
    ensures t.Some? <==> Current(m, w).Field?
  {
    var e := m.entries[m.index];
    if e.Editor? then Some((m.names.0, EditorName))
    else if w[e.iface].items[e.name].Field? then Some((e.iface, e.name))
    else None
  }

  function Watch(w: World, at: Option<(nat, string)>, cb: CallbackId): (w2: World)
    requires at.Some? ==> at.value.0 < |w|
    ensures |w2| == |w| && forall k :: 0 <= k < |w| ==> w2[k] == w[k].(subs := w2[k].subs)
  {
    if at.None? then w
    else w[at.value.0 := w[at.value.0].(subs := Subscriptions.Subscribe(w[at.value.0].subs, at.value.1, cb))]
  }

  function Unwatch(w: World, at: Option<(nat, string)>, cb: CallbackId): (w2: World)
    requires at.Some? ==> at.value.0 < |w|
    ensures |w2| == |w| && forall k :: 0 <= k < |w| ==> w2[k] == w[k].(subs := w2[k].subs)
  {
    if at.None? then w
    else w[at.value.0 := w[at.value.0].(subs := Subscriptions.Unsubscribe(w[at.value.0].subs, at.value.1, cb))]
  }

  /** How many times `cb` listens on topic `t` of interface `k`. */
  function Count(w: World, k: nat, t: string, cb: CallbackId): nat
    requires k < |w|
  {
    multiset(Subscriptions.Topic(w[k].subs, t))[cb]
  }

  /** `cb` listens nowhere except `at`, and there exactly `n` times. */
  ghost predicate ListensOnly(w: World, cb: CallbackId, at: Option<(nat, string)>, n: nat) {
    forall k, t :: 0 <= k < |w| ==> Count(w, k, t, cb) == (if at == Some((k, t)) then n else 0)
  }

  /** `cb` listens at most once, and only at `at`. */
  ghost predicate ListensAtMost(w: World, cb: CallbackId, at: Option<(nat, string)>) {
    forall k, t :: 0 <= k < |w| ==> Count(w, k, t, cb) <= (if at == Some((k, t)) then 1 else 0)
  }

  lemma UnwatchClears(w: World, at: Option<(nat, string)>, cb: CallbackId)
    requires at.Some? ==> at.value.0 < |w|
    requires ListensAtMost(w, cb, at)
    ensures ListensOnly(Unwatch(w, at, cb), cb, None, 0)
  {
    var w2 := Unwatch(w, at, cb);
    forall k, t | 0 <= k < |w| ensures Count(w2, k, t, cb) == 0 {
      if at == Some((k, t)) {
        var topic := Subscriptions.Topic(w[k].subs, t);
        if cb in topic {
          Subscriptions.UnsubscribeRemovesOne(w[k].subs, t, cb);
        }
      }
    }
  }

  lemma WatchSets(w: World, at: Option<(nat, string)>, cb: CallbackId)
    requires at.Some? ==> at.value.0 < |w|
    requires ListensOnly(w, cb, None, 0)
    ensures ListensOnly(Watch(w, at, cb), cb, at, 1)
  {
    var w2 := Watch(w, at, cb);
    forall k, t | 0 <= k < |w| ensures Count(w2, k, t, cb) == (if at == Some((k, t)) then 1 else 0) {
      if at.Some? && at.value.0 == k {
        assert Subscriptions.Topic(w2[k].subs, t) ==
          if t == at.value.1 then Subscriptions.Topic(w[k].subs, t) + [cb] else Subscriptions.Topic(w[k].subs, t);
      }
    }
  }

  // ---------------------------------------------------------------------------------------
  // Selection

  /** Worlds that differ only in their subscription tables. */
  predicate SameItems(w: World, w2: World) {
    |w2| == |w| && forall k :: 0 <= k < |w| ==> w2[k] == w[k].(subs := w2[k].subs)
  }

  lemma SameItemsKeepsValid(m: State, w: World, w2: World)
    requires Valid(m, w) && SameItems(w, w2)
    ensures Valid(m, w2) && Current(m, w2) == Current(m, w) && WatchTopic(m, w2) == WatchTopic(m, w)
  {
    forall k | 0 <= k < |w| ensures Registry.Wf(w2[k]) {
      assert w2[k].items == w[k].items && w2[k].order == w[k].order;
    }
    assert w2[m.names.0].items == w[m.names.0].items;
    forall j | 0 <= j < |m.entries| ensures Resolves(m.entries[j], m, w2) {
      var e := m.entries[j];
      if e.Ref? { assert w2[e.iface].items == w[e.iface].items; }
    }
    var e := m.entries[m.index];
    if e.Ref? { assert w2[e.iface].items == w[e.iface].items; }
  }

  /** The entries after the selection change: rebuilt from the names field, or kept. */
  function Reentries(m: State, w: World, rebuild: bool): (r: Result<seq<Entry>, Error>)
    requires Valid(m, w)
    ensures !rebuild ==> r == Ok(m.entries)
    ensures r.Ok? ==> forall j :: 0 <= j < |r.value| ==> Resolves(r.value[j], m, w)
  {
    if rebuild then
      var es :- Entries(w, m.names, m.editor);
      assert forall j :: 0 <= j < |es| ==> es[j] in es;
      Ok(es)
    else Ok(m.entries)
  }

  /** `_change_selected_menu_item(v)`: out-of-range targets are ignored. Otherwise the redraw
      callback leaves the selected field, the entries are rebuilt when the editor asked for it,
      the selection moves with edit mode, confirmation and cursor reset, and the redraw callback
      joins the newly selected field. */
  function ChangeSelected(m: State, w: World, v: int, rebuild: bool): (r: Result<(State, World), Error>)
    requires Wf(m, w)
    ensures !(0 <= v < |m.entries|) ==> r == Ok((m, w))
    ensures !rebuild && 0 <= v < |m.entries| ==> r.Ok? && r.value.0 == m.(index := v, editing := false, confirm := false, cursor := 0)
    ensures r.Ok? ==> Wf(r.value.0, r.value.1) && SameItems(w, r.value.1)
    ensures r.Ok? ==> r.value.0.names == m.names && r.value.0.editor == m.editor && r.value.0.redraw == m.redraw
  {
    if !(0 <= v < |m.entries|) then Ok((m, w))
    else
      var w1 := Unwatch(w, WatchTopic(m, w), m.redraw);
      SameItemsKeepsValid(m, w, w1);
      var entries :- Reentries(m, w1, rebuild);
      if v >= |entries| then Err(IndexError)
      else
        var m2 := m.(entries := entries, index := v, editing := false, confirm := false, cursor := 0);
        ReselectValid(m, w1, entries, v);
        var w2 := Watch(w1, WatchTopic(m2, w1), m.redraw);
        SameItemsKeepsValid(m2, w1, w2);
        Ok((m2, w2))
  }

  /** New entries that all resolve keep the menu valid, whichever of them is selected. */
  lemma ReselectValid(m: State, w: World, entries: seq<Entry>, v: nat)
    requires Valid(m, w) && v < |entries|
    requires forall j :: 0 <= j < |entries| ==> Resolves(entries[j], m, w)
    ensures Valid(m.(entries := entries, index := v, editing := false, confirm := false, cursor := 0), w)
  {
    var m2 := m.(entries := entries, index := v, editing := false, confirm := false, cursor := 0);
    forall j | 0 <= j < |entries| ensures Resolves(entries[j], m2, w) {
      assert Resolves(entries[j], m, w);
    }
  }

  lemma MoveWatch(w: World, from: Option<(nat, string)>, to: Option<(nat, string)>, cb: CallbackId)
    requires from.Some? ==> from.value.0 < |w|
    requires to.Some? ==> to.value.0 < |w|
    requires ListensAtMost(w, cb, from)
    ensures ListensOnly(Watch(Unwatch(w, from, cb), to, cb), cb, to, 1)
  {
    UnwatchClears(w, from, cb);
    WatchSets(Unwatch(w, from, cb), to, cb);
  }

  /** After any selection change, the redraw callback listens exactly once, on the selected
      field, and nowhere else, provided that before it listened at most once, on the field
      selected then. */
  lemma {:induction false} ChangeSelectedWatchesOne(m: State, w: World, v: int, rebuild: bool)
    requires Wf(m, w) && ListensAtMost(w, m.redraw, WatchTopic(m, w))
    requires 0 <= v < |m.entries| && ChangeSelected(m, w, v, rebuild).Ok?
    ensures var r := ChangeSelected(m, w, v, rebuild).value;
      ListensOnly(r.1, m.redraw, WatchTopic(r.0, r.1), 1)
  {
    var w1 := Unwatch(w, WatchTopic(m, w), m.redraw);
    SameItemsKeepsValid(m, w, w1);
    var entries := Reentries(m, w1, rebuild).value;
    assert Reentries(m, w1, rebuild).Ok?;
    var m2 := m.(entries := entries, index := v, editing := false, confirm := false, cursor := 0);
    ReselectValid(m, w1, entries, v);
    var t := WatchTopic(m2, w1);
    var w2 := Watch(w1, t, m.redraw);
    assert ChangeSelected(m, w, v, rebuild) == Ok((m2, w2));
    SameItemsKeepsValid(m2, w1, w2);
    MoveWatch(w, WatchTopic(m, w), t, m.redraw);
  }

  // ---------------------------------------------------------------------------------------
  // Input handling

  /** The menu and world after an input, and the callbacks it invoked in order. */
  datatype Step = Step(menu: State, world: World, calls: seq<CallbackId>)

  lemma EvolvesTrans(a: Registry.Interface, b: Registry.Interface, c: Registry.Interface)
    requires Registry.Evolves(a, b) && Registry.Evolves(b, c)
    ensures Registry.Evolves(a, c)
  {
  }

  /** Replacing one interface by an evolved one evolves the world. */
  lemma ReplaceEvolves(w: World, k: nat, i: Registry.Interface)
    requires k < |w| && Registry.Evolves(w[k], i) && i.subs == w[k].subs
    ensures Evolved(w, w[k := i])
  {
  }

  /** The list toggle of the selected list entry. For the editor, the names field's list is
      toggled in place and the editor item is broadcast on the names field's interface. */
  function ToggleEntry(m: State, w: World, c: Candidate, now: int): (r: Result<(World, seq<CallbackId>), Error>)
    requires Wf(m, w) && IsList(Current(m, w))
    ensures m.entries[m.index].Editor? && !NamesField(m, w).value.List? ==>
      r == Err(if NamesField(m, w).value.Str? && c.value.Str? then AttributeError(m.names.1) else TypeError)
    ensures r.Ok? ==> Evolved(w, r.value.0)
  {
    var e := m.entries[m.index];
    if e.Ref? then
      var eff :- Registry.Toggle(w[e.iface], e.name, c, now);
      ReplaceEvolves(w, e.iface, eff.iface);
      Ok((w[e.iface := eff.iface], eff.calls))
    else
      var f := NamesField(m, w);
      var v :- ToggleField(f.value, c.value, m.names.1);
      var home := w[m.names.0];
      var i1 := home.(items := home.items[m.names.1 := f.(value := v)]);
      var w1 := w[m.names.0 := i1];
      var eff :- Registry.Broadcast(i1, EditorItem(m, w1), now);
      Registry.BroadcastEvolves(i1, EditorItem(m, w1), now);
      EvolvesTrans(home, i1, eff.iface);
      ReplaceEvolves(w, m.names.0, eff.iface);
      Ok((w[m.names.0 := eff.iface], eff.calls))
  }

  /** Drawing the edit arrows of a numeric field with a range subtracts the lower bound from
      the field's value, which Python refuses with a TypeError when the value is not a number
      (a `None` or a string loaded from a saved file). The subtraction comes before the check
      that the menu is being shown. */
  predicate ArrowsRefused(it: Item) {
    IsNumeric(it) && HasValueRange(it.kind) && !IsNumber(it.value)
  }

  /** The numeric part of `_change_value`: one `adjust` step of a ranged field, then the
      subtraction that places the value arrows, which fails when the value left is not a
      number. */
  function StepNumber(m: State, w: World, direction: int, now: int): (r: Result<Step, Error>)
    requires Wf(m, w) && IsNumeric(Current(m, w)) && HasValueRange(Current(m, w).kind)
    ensures !IsNumber(Current(m, w).value) ==> r == Err(TypeError)
    ensures r.Ok? ==> Wf(r.value.menu, r.value.world) && Evolved(w, r.value.world) && r.value.menu == m
    ensures r.Ok? ==> IsNumber(Current(r.value.menu, r.value.world).value)
  {
    var e := m.entries[m.index];
    var eff :- Registry.Adjust(w[e.iface], e.name, direction, now);
    if !IsNumber(eff.iface.items[e.name].value) then Err(TypeError)
    else
      ReplaceEvolves(w, e.iface, eff.iface);
      EvolvedKeepsWf(m, w, w[e.iface := eff.iface]);
      Ok(Step(m, w[e.iface := eff.iface], eff.calls))
  }

  /** `_change_value(direction)` while editing: a numeric field with a range takes one clamped
      step and then fails if its value is not a number (see `ArrowsRefused`); a function flips its confirmation; a list field toggles the candidate under the
      cursor (direction 0) or moves the cursor within the candidates; anything else is left
      alone. */
  function ChangeValue(m: State, w: World, direction: int, now: int): (r: Result<Step, Error>)
    requires Wf(m, w)
    ensures r.Ok? ==> Wf(r.value.menu, r.value.world) && Evolved(w, r.value.world)
    ensures r.Ok? ==> r.value.menu == m.(confirm := r.value.menu.confirm, cursor := r.value.menu.cursor)
    ensures Current(m, w).Function? ==> r == Ok(Step(m.(confirm := !m.confirm), w, []))
    ensures IsList(Current(m, w)) && Current(m, w).kind.candidates.None? ==> r == Err(TypeError)
    ensures ArrowsRefused(Current(m, w)) ==> r == Err(TypeError)
    ensures r.Ok? && IsNumeric(Current(m, w)) && HasValueRange(Current(m, w).kind) ==>
      IsNumber(Current(r.value.menu, r.value.world).value)
  {
    var e := m.entries[m.index];
    var it := Current(m, w);
    if IsNumeric(it) then
      if HasValueRange(it.kind) then StepNumber(m, w, direction, now)
      else Ok(Step(m, w, []))
    else if it.Function? then Ok(Step(m.(confirm := !m.confirm), w, []))
    else if IsList(it) then ListChange(m, w, direction, now)
    else Ok(Step(m, w, []))
  }

  /** The list part of `_change_value`: direction 0 toggles the candidate under the cursor,
      1 and -1 move the cursor one candidate right or left, never past either end. */
  function ListChange(m: State, w: World, direction: int, now: int): (r: Result<Step, Error>)
    requires Wf(m, w) && IsList(Current(m, w))
    ensures Current(m, w).kind.candidates.None? ==> r == Err(TypeError)
    ensures r.Ok? ==> Wf(r.value.menu, r.value.world) && Evolved(w, r.value.world)
    ensures r.Ok? ==> r.value.menu == m.(cursor := r.value.menu.cursor)
    ensures r.Ok? && direction != 0 ==> r.value.world == w && r.value.calls == []
    ensures r.Ok? && direction != 0 ==>
      r.value.menu.cursor < |Current(m, w).kind.candidates.value| || r.value.menu.cursor == m.cursor
  {
    var cands := Current(m, w).kind.candidates;
    if cands.None? then Err(TypeError)
    else if direction == 0 then
      if m.cursor >= |cands.value| then Err(IndexError)
      else
        var t :- ToggleEntry(m, w, cands.value[m.cursor], now);
        EvolvedKeepsWf(m, w, t.0);
        Ok(Step(m, t.0, t.1))
    else if direction == 1 && m.cursor < |cands.value| - 1 then Ok(Step(m.(cursor := m.cursor + 1), w, []))
    else if direction == -1 && m.cursor > 0 then Ok(Step(m.(cursor := m.cursor - 1), w, []))
    else Ok(Step(m, w, []))
  }

  /** Rotating right: a value step while editing, otherwise the next entry (staying on the
      last one). */
  function MoveRight(m: State, w: World, now: int): (r: Result<Step, Error>)
    requires Wf(m, w)
    ensures m.editing ==> r == ChangeValue(m, w, 1, now)
    ensures !m.editing ==> r.Ok? && r.value.calls == [] && !r.value.menu.editing
    ensures !m.editing ==> r.value.menu.index == if m.index + 1 < |m.entries| then m.index + 1 else m.index
    ensures r.Ok? ==> Wf(r.value.menu, r.value.world)
  {
    if m.editing then ChangeValue(m, w, 1, now)
    else if m.index < |m.entries| - 1 then
      var s := ChangeSelected(m, w, m.index + 1, false).value;
      Ok(Step(s.0, s.1, []))
    else Ok(Step(m, w, []))
  }

  /** Rotating left: a value step back while editing, otherwise the previous entry (staying
      on the first one). */
  function MoveLeft(m: State, w: World, now: int): (r: Result<Step, Error>)
    requires Wf(m, w)
    ensures m.editing ==> r == ChangeValue(m, w, -1, now)
    ensures !m.editing ==> r.Ok? && r.value.calls == [] && !r.value.menu.editing
    ensures !m.editing ==> r.value.menu.index == if m.index > 0 then m.index - 1 else m.index
    ensures r.Ok? ==> Wf(r.value.menu, r.value.world)
  {
    if m.editing then ChangeValue(m, w, -1, now)
    else if m.index > 0 then
      var s := ChangeSelected(m, w, m.index - 1, false).value;
      Ok(Step(s.0, s.1, []))
    else Ok(Step(m, w, []))
  }

  /** A short press. Only handled while editing: a function runs if confirmed and editing
      ends (the confirmation is kept); a list toggles the candidate under the cursor; anything
      else ends editing. */
  function Press(m: State, w: World, now: int, enabled: CallbackId -> bool): (r: Result<(bool, Step), Error>)
    requires Wf(m, w)
    ensures !m.editing ==> r == Ok((false, Step(m, w, [])))
    ensures m.editing && r.Ok? ==> r.value.0
    ensures m.editing && IsList(Current(m, w)) ==> r.Ok? == ChangeValue(m, w, 0, now).Ok?
    ensures m.editing && !IsList(Current(m, w)) && r.Ok? ==> r.value.1.menu == m.(editing := false)
    ensures m.editing && !(Current(m, w).Function? && m.confirm) && !IsList(Current(m, w)) ==> r == Ok((true, Step(m.(editing := false), w, [])))
    ensures r.Ok? ==> Wf(r.value.1.menu, r.value.1.world) && Evolved(w, r.value.1.world)
    ensures r.Ok? ==> r.value.1.menu == m.(editing := r.value.1.menu.editing, confirm := r.value.1.menu.confirm, cursor := r.value.1.menu.cursor)
  {
    if !m.editing then Ok((false, Step(m, w, [])))
    else
      var e := m.entries[m.index];
      var it := Current(m, w);
      if it.Function? then
        if m.confirm then
          var eff :- Registry.Run(w[e.iface], e.name, now, enabled);
          ReplaceEvolves(w, e.iface, eff.iface);
          EvolvedKeepsWf(m, w, w[e.iface := eff.iface]);
          Ok((true, Step(m.(editing := false), w[e.iface := eff.iface], eff.calls)))
        else Ok((true, Step(m.(editing := false), w, [])))
      else if IsList(it) then
        var s :- ChangeValue(m, w, 0, now);
        Ok((true, s))
      else Ok((true, Step(m.(editing := false), w, [])))
  }

  /** Whether a long press on the selected item enters edit mode: an enabled function, a list
      field with candidates, or a settable numeric field. */
  predicate Editable(it: Item, enabled: CallbackId -> bool) {
    if it.Function? then Registry.IsEnabled(it, enabled)
    else if IsList(it) then it.kind.candidates.Some?
    else IsNumeric(it) && it.canSet
  }

  /** A long press. While editing it leaves edit mode; on the editor it also rebuilds the
      entries from the edited names and returns to the first entry. While browsing it enters
      edit mode on an editable item and is otherwise not handled; entering edit mode on a
      ranged numeric field whose value is not a number fails while drawing the arrows. */
  function LongPress(m: State, w: World, enabled: CallbackId -> bool): (r: Result<(bool, State, World), Error>)
    requires Wf(m, w)
    ensures m.editing && m.entries[m.index].Ref? ==> r == Ok((true, m.(editing := false), w))
    ensures m.editing && m.entries[m.index].Editor? ==>
      r.Ok? == ChangeSelected(m, w, 0, true).Ok? &&
      (r.Ok? ==> r.value.0 && (r.value.1, r.value.2) == ChangeSelected(m, w, 0, true).value)
    ensures !m.editing && Editable(Current(m, w), enabled) && ArrowsRefused(Current(m, w)) ==> r == Err(TypeError)
    ensures !m.editing && !(Editable(Current(m, w), enabled) && ArrowsRefused(Current(m, w))) ==>
      && r.Ok? && r.value.2 == w
      && (r.value.0 <==> Editable(Current(m, w), enabled))
      && r.value.1 == m.(editing := Editable(Current(m, w), enabled))
    ensures r.Ok? ==> Wf(r.value.1, r.value.2)
  {
    if m.editing then
      if m.entries[m.index].Editor? then
        var s :- ChangeSelected(m, w, 0, true);
        Ok((true, s.0, s.1))
      else Ok((true, m.(editing := false), w))
    else if Editable(Current(m, w), enabled) then
      if ArrowsRefused(Current(m, w)) then Err(TypeError)
      else Ok((true, m.(editing := true), w))
    else Ok((false, m, w))
  }

  /** The arrow rule: the left arrow is drawn when there is something before the index, the
      right one when there is something after it. */
  function Arrows(index: int, length: int): (a: (bool, bool))
    ensures a.0 <==> index > 0
    ensures a.1 <==> index < length - 1
  {
    (index > 0, index < length - 1)
  }

  // ---------------------------------------------------------------------------------------
  // Properties of navigation and editing

  /** An arrow is drawn exactly on the side where rotating while browsing moves the
      selection. */
  lemma ArrowsMatchMoves(m: State, w: World, now: int)
    requires Wf(m, w) && !m.editing
    ensures Arrows(m.index, |m.entries|).0 <==> MoveLeft(m, w, now).value.menu.index != m.index
    ensures Arrows(m.index, |m.entries|).1 <==> MoveRight(m, w, now).value.menu.index != m.index
  {
  }

  /** `n` left rotations in a row. */
  function LeftTimes(m: State, w: World, n: nat, now: int): (r: Result<Step, Error>)
    requires Wf(m, w)
    ensures r.Ok? ==> Wf(r.value.menu, r.value.world)
    decreases n
  {
    if n == 0 then Ok(Step(m, w, []))
    else
      var s :- MoveLeft(m, w, now);
      var t :- LeftTimes(s.menu, s.world, n - 1, now);
      Ok(Step(t.menu, t.world, s.calls + t.calls))
  }

  /** While browsing, rotating left `n` times stops at the first entry and calls nothing. */
  lemma {:induction false} LeftTimesSaturates(m: State, w: World, n: nat, now: int)
    requires Wf(m, w) && !m.editing
    ensures LeftTimes(m, w, n, now).Ok?
    ensures LeftTimes(m, w, n, now).value.menu.index == if m.index >= n then m.index - n else 0
    ensures LeftTimes(m, w, n, now).value.calls == [] && !LeftTimes(m, w, n, now).value.menu.editing
    ensures |LeftTimes(m, w, n, now).value.menu.entries| == |m.entries|
    decreases n
  {
    if n > 0 {
      var s := MoveLeft(m, w, now).value;
      assert s.menu.entries == m.entries by {
        if m.index > 0 {
          assert s.menu == ChangeSelected(m, w, m.index - 1, false).value.0;
        }
      }
      LeftTimesSaturates(s.menu, s.world, n - 1, now);
    }
  }

  /** Five left rotations on a three-entry menu end on the first entry, wherever they start. */
  lemma FiveLeftsOnThreeEntries(m: State, w: World, now: int)
    requires Wf(m, w) && !m.editing && |m.entries| == 3
    ensures LeftTimes(m, w, 5, now).Ok? && LeftTimes(m, w, 5, now).value.menu.index == 0
  {
    LeftTimesSaturates(m, w, 5, now);
  }

  /** Entering and leaving edit mode on a settable number, without rotating, changes
      nothing. */
  lemma NumericEditRoundTrip(m: State, w: World, now: int, enabled: CallbackId -> bool)
    requires Wf(m, w) && !m.editing && IsNumeric(Current(m, w)) && Current(m, w).canSet
    requires !ArrowsRefused(Current(m, w))
    ensures LongPress(m, w, enabled) == Ok((true, m.(editing := true), w))
    ensures Press(m.(editing := true), w, now, enabled) == Ok((true, Step(m, w, [])))
  {
    assert Current(m.(editing := true), w) == Current(m, w);
  }

  /** Rotating twice while editing a function returns the confirmation to where it was. */
  lemma ConfirmTwiceRestores(m: State, w: World, now: int)
    requires Wf(m, w) && m.editing && Current(m, w).Function?
    ensures MoveRight(m, w, now).Ok?
    ensures var s := MoveRight(m, w, now).value;
      s.menu.confirm == !m.confirm && MoveLeft(s.menu, s.world, now) == Ok(Step(m, w, []))
  {
    var m1 := m.(confirm := !m.confirm);
    assert Current(m1, w) == Current(m, w);
    assert m1.(confirm := !m1.confirm) == m;
  }

  /** A confirmed press on a function runs its action, then its subscribers, and leaves edit
      mode keeping the confirmation; an unconfirmed press only leaves edit mode. */
  lemma PressRunsOnlyWhenConfirmed(m: State, w: World, now: int, enabled: CallbackId -> bool)
    requires Wf(m, w) && m.editing && Current(m, w).Function?
    requires w[m.entries[m.index].iface].hook.NoHook?
    ensures var f := Current(m, w); var e := m.entries[m.index];
      m.confirm && f.onRun.Some? && Registry.IsEnabled(f, enabled) ==>
        && Press(m, w, now, enabled).Ok?
        && Press(m, w, now, enabled).value.1.calls == [f.onRun.value] + Subscriptions.Listeners(w[e.iface].subs, e.name)
        && Press(m, w, now, enabled).value.1.menu == m.(editing := false)
    ensures !m.confirm ==> Press(m, w, now, enabled) == Ok((true, Step(m.(editing := false), w, [])))
  {
    var e := m.entries[m.index];
    if m.confirm && Current(m, w).onRun.Some? && Registry.IsEnabled(Current(m, w), enabled) {
      Registry.RunCallsActionFirst(w[e.iface], e.name, now, enabled);
    }
  }

  /** The confirmation survives leaving edit mode: after a confirmed run, a long press and a
      press run the function again without a new confirmation. */
  lemma ConfirmationLingers(m: State, w: World, now: int, enabled: CallbackId -> bool)
    requires Wf(m, w) && m.editing && m.confirm && Current(m, w).Function?
    requires Press(m, w, now, enabled).Ok?
    requires Registry.IsEnabled(Current(m, w), enabled)
    ensures var s := Press(m, w, now, enabled).value.1;
      && LongPress(s.menu, s.world, enabled).Ok?
      && LongPress(s.menu, s.world, enabled).value.1 == m
  {
    var s := Press(m, w, now, enabled).value.1;
    EvolvedKeepsWf(m, w, s.world);
    var e := m.entries[m.index];
    assert Registry.Erase(Current(m, s.world)) == Registry.Erase(Current(m, w));
    assert Current(s.menu, s.world) == Current(m, s.world);
  }

  /** While editing a list field, rotating moves the candidate cursor by one, clamped to the
      candidates, and changes nothing else. */
  lemma {:induction false} CursorMovesClamped(m: State, w: World, now: int)
    requires Wf(m, w) && m.editing && IsList(Current(m, w)) && Current(m, w).kind.candidates.Some?
    ensures var n := |Current(m, w).kind.candidates.value|;
      && MoveRight(m, w, now) == Ok(Step(m.(cursor := if m.cursor + 1 < n then m.cursor + 1 else m.cursor), w, []))
      && MoveLeft(m, w, now) == Ok(Step(m.(cursor := if m.cursor > 0 then m.cursor - 1 else m.cursor), w, []))
  {
  }

  lemma SameSubsSameListeners(w: World, w2: World, cb: CallbackId, at: Option<(nat, string)>)
    requires |w| == |w2| && forall k :: 0 <= k < |w| ==> w2[k].subs == w[k].subs
    requires ListensOnly(w, cb, at, 1)
    ensures ListensOnly(w2, cb, at, 1)
  {
    forall k, t | 0 <= k < |w2| ensures Count(w2, k, t, cb) == (if at == Some((k, t)) then 1 else 0) {
      assert Count(w2, k, t, cb) == Count(w, k, t, cb);
    }
  }

  /** A step that only edits values (the entries, the selection, the editor and the names
      field's place stay, the world evolves) leaves the redraw subscription where it was. */
  lemma EditKeepsWatch(m: State, w: World, m2: State, w2: World)
    requires Wf(m, w) && Evolved(w, w2) && ListensOnly(w, m.redraw, WatchTopic(m, w), 1)
    requires m2 == m.(editing := m2.editing, confirm := m2.confirm, cursor := m2.cursor)
    requires Wf(m2, w2)
    ensures ListensOnly(w2, m2.redraw, WatchTopic(m2, w2), 1)
  {
    EvolvedKeepsWf(m, w, w2);
    assert WatchTopic(m2, w2) == WatchTopic(m, w2);
    SameSubsSameListeners(w, w2, m.redraw, WatchTopic(m, w));
  }

  /** Edits never move the redraw subscription: after a press, or a rotation while editing,
      the redraw callback still listens exactly once, on the selected field. */
  lemma EditsKeepWatch(m: State, w: World, now: int, enabled: CallbackId -> bool)
    requires Wf(m, w) && m.editing && ListensOnly(w, m.redraw, WatchTopic(m, w), 1)
    ensures Press(m, w, now, enabled).Ok? ==>
      var s := Press(m, w, now, enabled).value.1;
      ListensOnly(s.world, s.menu.redraw, WatchTopic(s.menu, s.world), 1)
    ensures MoveRight(m, w, now).Ok? ==>
      var s := MoveRight(m, w, now).value;
      ListensOnly(s.world, s.menu.redraw, WatchTopic(s.menu, s.world), 1)
    ensures MoveLeft(m, w, now).Ok? ==>
      var s := MoveLeft(m, w, now).value;
      ListensOnly(s.world, s.menu.redraw, WatchTopic(s.menu, s.world), 1)
  {
    if Press(m, w, now, enabled).Ok? {
      var s := Press(m, w, now, enabled).value.1;
      EditKeepsWatch(m, w, s.menu, s.world);
    }
    if MoveRight(m, w, now).Ok? {
      var s := MoveRight(m, w, now).value;
      EditKeepsWatch(m, w, s.menu, s.world);
    }
    if MoveLeft(m, w, now).Ok? {
      var s := MoveLeft(m, w, now).value;
      EditKeepsWatch(m, w, s.menu, s.world);
    }
  }

  /** Leaving the editor with a long press rebuilds the entries from the names field: the
      result lists exactly the listed names found in the interfaces (not the names field
      itself), then the editor, and selects the first entry. */
  lemma EditorExitRebuilds(m: State, w: World, enabled: CallbackId -> bool)
    requires Wf(m, w) && m.editing && m.entries[m.index].Editor?
    requires LongPress(m, w, enabled).Ok?
    ensures NamesOf(NamesField(m, w).value).Ok?
    ensures var r := LongPress(m, w, enabled).value.1;
      && r.index == 0 && !r.editing && Editor in r.entries
      && forall e: Entry :: e.Ref? ==> (e in r.entries <==>
        && e.name in NamesOf(NamesField(m, w).value).value
        && e.iface < |w| && e.name in w[e.iface].items && (e.iface, e.name) != m.names)
  {
    var w1 := Unwatch(w, WatchTopic(m, w), m.redraw);
    SameItemsKeepsValid(m, w, w1);
    assert ChangeSelected(m, w, 0, true).Ok?;
    assert Reentries(m, w1, true).Ok?;
    var es := Entries(w1, m.names, m.editor);
    assert es.Ok?;
    assert w1[m.names.0].items == w[m.names.0].items;
    var r := LongPress(m, w, enabled).value.1;
    assert r.entries == es.value;
    forall e: Entry | e.Ref? && e.iface < |w|
      ensures e.name in w1[e.iface].items <==> e.name in w[e.iface].items
    {
      assert w1[e.iface].items == w[e.iface].items;
    }
  }

  /** A press on the editor toggles the candidate under the cursor in the names field's list,
      stays in edit mode, and notifies the editor's subscribers on the names field's
      interface. */
  lemma {:induction false} EditorPressToggles(m: State, w: World, now: int, enabled: CallbackId -> bool)
    requires Wf(m, w) && m.editing && m.entries[m.index].Editor?
    requires w[m.names.0].hook.NoHook? && NamesField(m, w).value.List?
    requires m.cursor < |m.editor.value|
    ensures Press(m, w, now, enabled).Ok?
    ensures var s := Press(m, w, now, enabled).value.1;
      && s.menu == m
      && NamesField(m, s.world).value == List(ToggleValue(NamesField(m, w).value.elems, m.editor.value[m.cursor].value))
      && s.calls == Subscriptions.Listeners(w[m.names.0].subs, EditorName)
  {
    var f := NamesField(m, w);
    var home := w[m.names.0];
    var c := m.editor.value[m.cursor];
    var i1 := home.(items := home.items[m.names.1 := f.(value := List(ToggleValue(f.value.elems, c.value)))]);
    var w1 := w[m.names.0 := i1];
    var eff := Registry.Notify(i1, EditorItem(m, w1), now);
    assert ToggleEntry(m, w, c, now) == Ok((w[m.names.0 := eff.iface], eff.calls));
    assert ChangeValue(m, w, 0, now) == Ok(Step(m, w[m.names.0 := eff.iface], eff.calls));
  }

  /** Toggling a name on in the editor and leaving it puts an entry for that name, for every
      interface that has it, into the rebuilt menu. */
  lemma {:induction false} EditorToggleOnShows(m: State, w: World, now: int, enabled: CallbackId -> bool)
    requires Wf(m, w) && m.editing && m.entries[m.index].Editor?
    requires w[m.names.0].hook.NoHook? && NamesField(m, w).value.List?
    requires forall x :: x in NamesField(m, w).value.elems ==> !x.List?
    requires m.cursor < |m.editor.value|
    requires m.editor.value[m.cursor].value.Str? && m.editor.value[m.cursor].value !in NamesField(m, w).value.elems
    ensures Press(m, w, now, enabled).Ok?
    ensures var s := Press(m, w, now, enabled).value.1;
      && LongPress(s.menu, s.world, enabled).Ok?
      && forall k :: 0 <= k < |w| && m.editor.value[m.cursor].value.s in w[k].items && (k, m.editor.value[m.cursor].value.s) != m.names ==>
        Ref(k, m.editor.value[m.cursor].value.s) in LongPress(s.menu, s.world, enabled).value.1.entries
  {
    EditorPressToggles(m, w, now, enabled);
    var s := Press(m, w, now, enabled).value.1;
    var x := m.editor.value[m.cursor].value;
    var elems := NamesField(m, w).value.elems;
    StrPyCount(elems, x);
    assert ToggleValue(elems, x) == elems + [x];
    assert Str(x.s) in ToggleValue(elems, x);
    ListedNameShows(s.menu, s.world, enabled, x.s);
    forall k | 0 <= k < |w| ensures x.s in s.world[k].items <==> x.s in w[k].items {
      assert s.world[k].items.Keys == w[k].items.Keys;
    }
  }

  /** Leaving the editor while the names field lists `name` (and no nested list) succeeds
      and gives an entry for `name` in every interface that has it. */
  lemma ListedNameShows(m: State, w: World, enabled: CallbackId -> bool, name: string)
    requires Wf(m, w) && m.editing && m.entries[m.index].Editor?
    requires NamesField(m, w).value.List? && Str(name) in NamesField(m, w).value.elems
    requires forall x :: x in NamesField(m, w).value.elems ==> !x.List?
    ensures LongPress(m, w, enabled).Ok?
    ensures forall k :: 0 <= k < |w| && name in w[k].items && (k, name) != m.names ==>
      Ref(k, name) in LongPress(m, w, enabled).value.1.entries
  {
    var w1 := Unwatch(w, WatchTopic(m, w), m.redraw);
    SameItemsKeepsValid(m, w, w1);
    assert w1[m.names.0].items == w[m.names.0].items;
    assert Entries(w1, m.names, m.editor).Ok?;
    assert LongPress(m, w, enabled).Ok?;
    EditorExitRebuilds(m, w, enabled);
  }

  /** Toggling off a name listed once and leaving the editor removes every entry for it. */
  lemma EditorToggleOffHides(m: State, w: World, now: int, enabled: CallbackId -> bool)
    requires Wf(m, w) && m.editing && m.entries[m.index].Editor?
    requires w[m.names.0].hook.NoHook? && NamesField(m, w).value.List?
    requires m.cursor < |m.editor.value|
    requires m.editor.value[m.cursor].value.Str?
    requires multiset(NamesField(m, w).value.elems)[m.editor.value[m.cursor].value] == 1
    ensures Press(m, w, now, enabled).Ok?
    ensures var s := Press(m, w, now, enabled).value.1;
      LongPress(s.menu, s.world, enabled).Ok? ==>
        forall e: Entry :: e in LongPress(s.menu, s.world, enabled).value.1.entries && e.Ref? ==>
          e.name != m.editor.value[m.cursor].value.s
  {
    EditorPressToggles(m, w, now, enabled);
    var s := Press(m, w, now, enabled).value.1;
    var x := m.editor.value[m.cursor].value;
    StrPyCount(NamesField(m, w).value.elems, x);
    ToggleFlipsMembership(NamesField(m, w).value.elems, x);
    StrPyCount(ToggleValue(NamesField(m, w).value.elems, x), x);
    if LongPress(s.menu, s.world, enabled).Ok? {
      EditorExitRebuilds(s.menu, s.world, enabled);
    }
  }
}
