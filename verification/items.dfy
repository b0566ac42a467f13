/** The item model of the reactive interfaces: named fields (plain, numeric, list and
    graph) and functions, with the value-level rules of the numeric clamp, the numeric
    step and the list toggle. Callbacks are opaque identifiers. */
module Items {
  import opened Wrappers
  import opened Seqs

  type CallbackId = nat

  /** The dynamically typed values fields hold. Python's `int` and `float` are both `Num`. */
  datatype Value = Num(n: real) | Bool(b: bool) | Str(s: string) | List(elems: seq<Value>) | Null

  /** A `(value, title)` candidate of a list field. */
  datatype Candidate = Candidate(value: Value, title: string)

  /** What distinguishes the field classes. A numeric field's range and step are
      optional and only count when they are numbers. A list field's candidate
      catalogue is optional (`None` when not given). */
  datatype FieldKind =
    | Plain
    | Graph
    | Numeric(range: Option<(Value, Value)>, delta: Option<Value>)
    | Listing(candidates: Option<seq<Candidate>>)

  datatype Item =
    | Field(name: string, title: string, value: Value, canSet: bool, canSerialize: bool, kind: FieldKind)
    | Function(name: string, title: string, onRun: Option<CallbackId>, checkEnabled: Option<CallbackId>)

  /** The exceptions the modelled code lets escape. */
  datatype Error =
    | KeyError(key: string)      // dictionary lookup of an unregistered name
    | AttributeError(key: string) // a method called on `None` or on an item lacking it
    | TypeError                  // an operation applied to a value of the wrong type
    | IndexError                 // a list index out of range
    | ValueError                 // removing an element a list does not hold; arrays that do not line up
    | ZeroDivisionError          // a division by zero
    | NoMenuItems                // the menu was built with no item at all; the source's raise of
                                 // `logging.exception(...)`, which returns None, fails with a
                                 // TypeError instead, and this names the intended refusal

  /** An item's title: the given title, or the name when the title is missing or empty. */
  function Title(name: string, title: Option<string>): (t: string)
    ensures title.Some? && title.value != "" ==> t == title.value
    ensures title.None? || title.value == "" ==> t == name
  {
    if title.Some? && title.value != "" then title.value else name
  }

  /** A graph field can neither be set from outside nor be persisted. */
  function GraphField(name: string, value: Value, title: Option<string>): (f: Item)
    ensures f.Field? && f.kind.Graph? && !f.canSet && !f.canSerialize
    ensures f.name == name && f.value == value
  {
    Field(name, Title(name, title), value, false, false, Graph)
  }

  predicate IsNumeric(it: Item) { it.Field? && it.kind.Numeric? }
  predicate IsList(it: Item) { it.Field? && it.kind.Listing? }

  /** Python's `bool` is a subclass of `int`, so the numeric tests (`isinstance(v, (int,
      float))` and `numbers.Number`) accept `True` and `False` as well as numbers. */
  predicate IsNumber(v: Value) {
    v.Num? || v.Bool?
  }

  /** The number a numeric value stands for in arithmetic and comparisons: `True` is 1 and
      `False` is 0. */
  function AsReal(v: Value): (x: real)
    requires IsNumber(v)
    ensures v.Num? ==> x == v.n
    ensures v.Bool? ==> x == if v.b then 1.0 else 0.0
  {
    if v.Num? then v.n else if v.b then 1.0 else 0.0
  }

  /** A whole number is its own floor. */
  lemma WholeFloor(v: int)
    ensures (v as real).Floor == v
  {
  }

  /** Both range bounds are present and numbers. */
  predicate HasValueRange(k: FieldKind) {
    k.Numeric? && k.range.Some? && IsNumber(k.range.value.0) && IsNumber(k.range.value.1)
  }

  /** An increment step is present and a number. */
  predicate HasIncrementDelta(k: FieldKind) {
    k.Numeric? && k.delta.Some? && IsNumber(k.delta.value)
  }

  function Lo(k: FieldKind): real
    requires HasValueRange(k)
  {
    AsReal(k.range.value.0)
  }

  function Hi(k: FieldKind): real
    requires HasValueRange(k)
  {
    AsReal(k.range.value.1)
  }

  /** The numeric clamp `max(lo, min(hi, v))` for a number (a bool included) when both bounds
      are numbers; any other value, or any value under another kind, passes unchanged.
      Python's `min` and `max` return one of their arguments, the first one on a tie, so the
      result is the value itself or one of the two bound objects. */
  function Clamp(k: FieldKind, v: Value): (r: Value)
    ensures !(HasValueRange(k) && IsNumber(v)) ==> r == v
    ensures HasValueRange(k) && IsNumber(v) ==>
      && (r == v || r == k.range.value.0 || r == k.range.value.1)
      && IsNumber(r)
  {
    if HasValueRange(k) && IsNumber(v) then
      var lo := k.range.value.0;
      var hi := k.range.value.1;
      var m := if AsReal(v) < AsReal(hi) then v else hi;
      if AsReal(m) > AsReal(lo) then m else lo
    else v
  }

  /** With a well-ordered range the clamp lands in the range, leaves in-range values alone
      (the very value when strictly inside, so a bool stays a bool; an equal bound object on
      the bounds) and saturates outside; it is idempotent. */
  lemma ClampInRange(k: FieldKind, v: Value)
    requires HasValueRange(k) && IsNumber(v)
    requires Lo(k) <= Hi(k)
    ensures Lo(k) <= AsReal(Clamp(k, v)) <= Hi(k)
    ensures Lo(k) < AsReal(v) < Hi(k) ==> Clamp(k, v) == v
    ensures Lo(k) <= AsReal(v) <= Hi(k) ==> AsReal(Clamp(k, v)) == AsReal(v)
    ensures v.Num? && k.range.value.0.Num? && k.range.value.1.Num? && Lo(k) <= v.n <= Hi(k) ==> Clamp(k, v) == v
    ensures AsReal(v) < Lo(k) ==> Clamp(k, v) == k.range.value.0
    ensures AsReal(v) > Hi(k) ==> Clamp(k, v) == if Lo(k) < Hi(k) then k.range.value.1 else k.range.value.0
    ensures Clamp(k, Clamp(k, v)) == Clamp(k, v)
  {
  }

  /** With the bounds reversed, Python's `max(lo, min(hi, v))` always yields the lower bound. */
  lemma ClampReversedRange(k: FieldKind, v: Value)
    requires HasValueRange(k) && IsNumber(v)
    requires Lo(k) > Hi(k)
    ensures Clamp(k, v) == k.range.value.0
  {
  }

  /** The value `adjust(direction)` asks `set` to store: one step up for a positive
      direction, one step down otherwise (zero included). */
  function Stepped(value: real, delta: real, direction: int): (r: real)
    ensures direction > 0 ==> r - value == delta
    ensures direction <= 0 ==> value - r == delta
  {
    if direction > 0 then value + delta else value - delta
  }

  /** Python's `==` on values: numbers compare by value, with `True == 1` and `False == 0`;
      strings by their text; lists element by element; `None` equals only `None`; values of
      different kinds otherwise differ. */
  predicate PyEq(a: Value, b: Value)
    decreases a
  {
    if IsNumber(a) && IsNumber(b) then AsReal(a) == AsReal(b)
    else if a.Str? && b.Str? then a.s == b.s
    else if a.List? && b.List? then
      |a.elems| == |b.elems| && forall k :: 0 <= k < |a.elems| ==> PyEq(a.elems[k], b.elems[k])
    else a.Null? && b.Null?
  }

  lemma {:induction false} PyEqRefl(a: Value)
    ensures PyEq(a, a)
  {
    if a.List? {
      forall k | 0 <= k < |a.elems| ensures PyEq(a.elems[k], a.elems[k]) {
        PyEqRefl(a.elems[k]);
      }
    }
  }

  lemma {:induction false} PyEqSym(a: Value, b: Value)
    requires PyEq(a, b)
    ensures PyEq(b, a)
  {
    if a.List? && b.List? {
      forall k | 0 <= k < |b.elems| ensures PyEq(b.elems[k], a.elems[k]) {
        PyEqSym(a.elems[k], b.elems[k]);
      }
    }
  }

  lemma {:induction false} PyEqTrans(a: Value, b: Value, c: Value)
    requires PyEq(a, b) && PyEq(b, c)
    ensures PyEq(a, c)
  {
    if a.List? && b.List? && c.List? {
      forall k | 0 <= k < |a.elems| ensures PyEq(a.elems[k], c.elems[k]) {
        PyEqTrans(a.elems[k], b.elems[k], c.elems[k]);
      }
    }
  }

  /** Against a string, `==` is plain equality. */
  lemma PyEqStr(x: Value, y: Value)
    requires x.Str?
    ensures PyEq(x, y) <==> y == x
  {
  }

  /** Python's `x in s` on a list: some element equals `x` under `==`. */
  predicate PyIn(s: seq<Value>, x: Value) {
    exists k :: 0 <= k < |s| && PyEq(x, s[k])
  }

  /** Python's `s.count(x)`: the number of elements equal to `x` under `==`. */
  function PyCount(s: seq<Value>, x: Value): nat {
    if s == [] then 0 else (if PyEq(x, s[0]) then 1 else 0) + PyCount(s[1..], x)
  }

  /** A list holds `x` exactly when it counts it at least once. */
  lemma {:induction false} PyCountPositive(s: seq<Value>, x: Value)
    ensures PyCount(s, x) > 0 <==> PyIn(s, x)
  {
    if s != [] {
      PyCountPositive(s[1..], x);
      if PyIn(s[1..], x) {
        var k :| 0 <= k < |s[1..]| && PyEq(x, s[1..][k]);
        assert PyEq(x, s[k + 1]);
      }
      if PyIn(s, x) && !PyEq(x, s[0]) {
        var k :| 0 <= k < |s| && PyEq(x, s[k]);
        assert k > 0 && s[1..][k - 1] == s[k];
      }
    }
  }

  /** Counting distributes over concatenation. */
  lemma {:induction false} PyCountAppend(a: seq<Value>, b: seq<Value>, x: Value)
    ensures PyCount(a + b, x) == PyCount(a, x) + PyCount(b, x)
  {
    if a == [] {
      assert a + b == b;
    } else {
      assert (a + b)[1..] == a[1..] + b;
      PyCountAppend(a[1..], b, x);
    }
  }

  /** For a string, membership and counts under `==` are the structural ones. */
  lemma {:induction false} StrPyCount(s: seq<Value>, x: Value)
    requires x.Str?
    ensures PyCount(s, x) == multiset(s)[x]
    ensures PyIn(s, x) <==> x in s
  {
    if s != [] {
      StrPyCount(s[1..], x);
      assert s == [s[0]] + s[1..];
      PyEqStr(x, s[0]);
    }
    PyCountPositive(s, x);
  }

  /** Position of the first element equal to `x` under `==`, the one `list.remove(x)` drops. */
  function PyIndexOf(s: seq<Value>, x: Value): (i: nat)
    requires PyIn(s, x)
    ensures i < |s| && PyEq(x, s[i])
    ensures forall k :: 0 <= k < i ==> !PyEq(x, s[k])
  {
    if PyEq(x, s[0]) then 0
    else
      assert PyIn(s[1..], x) by {
        var k :| 0 <= k < |s| && PyEq(x, s[k]);
        assert k > 0 && s[1..][k - 1] == s[k];
      }
      1 + PyIndexOf(s[1..], x)
  }

  /** The list toggle `toggle_possible_value`: when no element equals the candidate under
      Python's `==` it is appended; otherwise the first element equal to it is removed, which
      may be another object than the candidate (`True` for the candidate `1`). */
  function ToggleValue(s: seq<Value>, x: Value): (r: seq<Value>)
    ensures !PyIn(s, x) ==> r == s + [x]
    ensures PyIn(s, x) ==> var i := PyIndexOf(s, x);
      && |r| == |s| - 1
      && multiset(r) == multiset(s) - multiset{s[i]}
      && r[..i] == s[..i] && r[i..] == s[i + 1..]
  {
    if PyIn(s, x) then
      var i := PyIndexOf(s, x);
      assert s == s[..i] + [s[i]] + s[i + 1..];
      assert multiset(s) == multiset(s[..i]) + multiset{s[i]} + multiset(s[i + 1..]);
      s[..i] + s[i + 1..]
    else s + [x]
  }

  /** Removing the element at `i` lowers the count of exactly the values equal to it. */
  lemma RemoveAtCount(s: seq<Value>, i: nat, y: Value)
    requires i < |s|
    ensures PyCount(s[..i] + s[i + 1..], y) == PyCount(s, y) - (if PyEq(y, s[i]) then 1 else 0)
  {
    assert s == s[..i] + ([s[i]] + s[i + 1..]);
    PyCountAppend(s[..i], [s[i]] + s[i + 1..], y);
    PyCountAppend([s[i]], s[i + 1..], y);
    PyCountAppend(s[..i], s[i + 1..], y);
  }

  /** A toggle moves the count of the candidate under `==` by exactly one, up when absent and
      down when present, and leaves the count of every value not equal to it alone. */
  lemma ToggleCount(s: seq<Value>, x: Value)
    ensures !PyIn(s, x) ==> PyCount(ToggleValue(s, x), x) == 1
    ensures PyIn(s, x) ==> PyCount(ToggleValue(s, x), x) == PyCount(s, x) - 1
    ensures forall y :: !PyEq(y, x) ==> PyCount(ToggleValue(s, x), y) == PyCount(s, y)
  {
    PyEqRefl(x);
    if PyIn(s, x) {
      var i := PyIndexOf(s, x);
      assert ToggleValue(s, x) == s[..i] + s[i + 1..];
      RemoveAtCount(s, i, x);
      forall y | !PyEq(y, x) ensures PyCount(ToggleValue(s, x), y) == PyCount(s, y) {
        RemoveAtCount(s, i, y);
        if PyEq(y, s[i]) {
          PyEqSym(x, s[i]);
          PyEqTrans(y, s[i], x);
        }
      }
    } else {
      PyCountPositive(s, x);
      PyCountAppend(s, [x], x);
      forall y | !PyEq(y, x) ensures PyCount(ToggleValue(s, x), y) == PyCount(s, y) {
        PyCountAppend(s, [x], y);
      }
    }
  }

  /** When at most one element equals the candidate, the toggle flips `has_possible_value`. */
  lemma ToggleFlipsMembership(s: seq<Value>, x: Value)
    requires PyCount(s, x) <= 1
    ensures PyIn(ToggleValue(s, x), x) <==> !PyIn(s, x)
  {
    ToggleCount(s, x);
    PyCountPositive(s, x);
    PyCountPositive(ToggleValue(s, x), x);
  }

  /** Toggling an absent candidate twice restores the list exactly. */
  lemma ToggleTwiceRestores(s: seq<Value>, x: Value)
    requires !PyIn(s, x)
    ensures ToggleValue(ToggleValue(s, x), x) == s
  {
    var t := s + [x];
    PyEqRefl(x);
    assert PyEq(x, t[|s|]);
    assert forall k :: 0 <= k < |s| ==> t[k] == s[k];
    assert PyIndexOf(t, x) == |s|;
    assert t[..|s|] == s;
  }

  /** `True == 1`: toggling `1` off `[True]` empties the list, and off `[True, 1]` it is the
      `True` that goes. */
  lemma ToggleRemovesEqualNumber()
    ensures ToggleValue([Bool(true)], Num(1.0)) == []
    ensures ToggleValue([Bool(true), Num(1.0)], Num(1.0)) == [Num(1.0)]
  {
  }

  /** `toggle_possible_value` on a field whose value is `v`. A list toggles. A string accepts
      the `in` test only for a string candidate (a substring test), after which it has no
      `append` or `remove`; any other candidate, and any other value, is refused by `in`. */
  function ToggleField(v: Value, x: Value, n: string): (r: Result<Value, Error>)
    ensures v.List? ==> r == Ok(List(ToggleValue(v.elems, x)))
    ensures v.Str? && x.Str? ==> r == Err(AttributeError(n))
    ensures !v.List? && !(v.Str? && x.Str?) ==> r == Err(TypeError)
  {
    if v.List? then Ok(List(ToggleValue(v.elems, x)))
    else if v.Str? && x.Str? then Err(AttributeError(n))
    else Err(TypeError)
  }
}
