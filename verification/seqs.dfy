/** Sequence helpers with the semantics of Python's `list` methods. */
module Seqs {

  /** True when no element occurs twice. */
  predicate NoDup<T(==)>(s: seq<T>) {
    forall i, j :: 0 <= i < j < |s| ==> s[i] != s[j]
  }

  /** Position of the first occurrence of `x` in `s`. */
  function IndexOf<T(==)>(s: seq<T>, x: T): (i: nat)
    requires x in s
    ensures i < |s| && s[i] == x && x !in s[..i]
  {
    if s[0] == x then 0 else 1 + IndexOf(s[1..], x)
  }

  /** Python's `list.remove(x)`: drops the first occurrence of `x`, keeping the order of the rest. */
  function RemoveFirst<T(==)>(s: seq<T>, x: T): (r: seq<T>)
    requires x in s
    ensures |r| == |s| - 1
    ensures multiset(r) == multiset(s) - multiset{x}
    ensures var i := IndexOf(s, x); r[..i] == s[..i] && r[i..] == s[i + 1..]
  {
    var i := IndexOf(s, x);
    assert s == s[..i] + [x] + s[i + 1..];
    assert multiset(s) == multiset(s[..i]) + multiset{x} + multiset(s[i + 1..]);
    s[..i] + s[i + 1..]
  }

  /** Removing an element just appended, when it was not already there, restores the list. */
  lemma RemoveAppended<T>(s: seq<T>, x: T)
    requires x !in s
    ensures RemoveFirst(s + [x], x) == s
  {
    var t := s + [x];
    assert t[|s|] == x;
    assert t[..|s|] == s;
  }

  /** Dropping the last element of a non-empty right operand of `+`. */
  lemma DropLastOfAppend<T>(a: seq<T>, b: seq<T>)
    requires |b| > 0
    ensures (a + b)[..|a + b| - 1] == a + b[..|b| - 1] && (a + b)[|a + b| - 1] == b[|b| - 1]
  {
  }

  lemma AppendAssoc<T>(x: seq<T>, y: seq<T>, z: seq<T>)
    ensures (x + y) + z == x + (y + z)
  {
  }
}
