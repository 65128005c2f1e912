/** JavaScript's `Set` of strings as the allergen helpers use it: `add`,
    `has`, and `Array.from(set)`, which lists the elements in the order they
    were first added. The abstract state is that list. */
module InsertionSets {

  predicate NoDup<T(==)>(s: seq<T>) {
    forall i, j :: 0 <= i < j < |s| ==> s[i] != s[j]
  }

  /** The list after `set.add(x)`: `x` is appended unless already there. */
  function Insert(s: seq<string>, x: string): seq<string> {
    if x in s then s else s + [x]
  }

  /** The list after adding every element of `xs`, first to last. */
  function InsertAll(s: seq<string>, xs: seq<string>): seq<string>
    decreases |xs|
  {
    if xs == [] then s else Insert(InsertAll(s, xs[..|xs| - 1]), xs[|xs| - 1])
  }

  /** Adding elements keeps what was there, in place, adds exactly the new
      elements, and never creates a duplicate. */
  lemma {:induction false} InsertAllSpec(s: seq<string>, xs: seq<string>)
    ensures forall x :: x in InsertAll(s, xs) <==> x in s || x in xs
    ensures s <= InsertAll(s, xs)
    ensures NoDup(s) ==> NoDup(InsertAll(s, xs))
    decreases |xs|
  {
    if xs != [] {
      var init := xs[..|xs| - 1];
      InsertAllSpec(s, init);
      assert xs == init + [xs[|xs| - 1]];
    }
  }

  /** Adding one more element. */
  lemma InsertAllSnoc(s: seq<string>, xs: seq<string>, x: string)
    ensures InsertAll(s, xs + [x]) == Insert(InsertAll(s, xs), x)
  {
    assert (xs + [x])[..|xs|] == xs;
  }

  /** Adding two lists one after the other is adding their concatenation. */
  lemma {:induction false} InsertAllAppend(s: seq<string>, xs: seq<string>, ys: seq<string>)
    ensures InsertAll(s, xs + ys) == InsertAll(InsertAll(s, xs), ys)
    decreases |ys|
  {
    if ys == [] {
      assert xs + ys == xs;
    } else {
      var init := ys[..|ys| - 1];
      InsertAllAppend(s, xs, init);
      assert (xs + ys)[..|xs + ys| - 1] == xs + init;
    }
  }

  /** Starting from an empty set, the elements come out in the order of
      their first occurrence in `xs`. */
  lemma {:induction false} InsertAllFirstOccurrenceOrder(xs: seq<string>, a: int, b: int)
    requires 0 <= a < b < |InsertAll([], xs)|
    ensures exists i, j :: 0 <= i < j < |xs| && xs[i] == InsertAll([], xs)[a] && xs[j] == InsertAll([], xs)[b]
                           && InsertAll([], xs)[a] !in xs[..i] && InsertAll([], xs)[b] !in xs[..j]
    decreases |xs|
  {
    var r := InsertAll([], xs);
    var n := |xs|;
    var init := xs[..n - 1];
    var p := InsertAll([], init);
    InsertAllSpec([], init);
    if b < |p| {
      InsertAllFirstOccurrenceOrder(init, a, b);
      var i, j :| 0 <= i < j < |init| && init[i] == p[a] && init[j] == p[b]
                  && p[a] !in init[..i] && p[b] !in init[..j];
      assert r[a] == p[a] && r[b] == p[b];
      assert init[..i] == xs[..i] && init[..j] == xs[..j];
    } else {
      // `r[b]` is the last element, appended because it is new.
      assert r == p + [xs[n - 1]] && b == |p|;
      assert r[a] == p[a] && p[a] in init;
      var i := FirstIndex(init, p[a]);
      assert init[..i] == xs[..i];
      assert xs[..n - 1] == init;
    }
  }

  /** The position of the first occurrence of `x` in `s`. */
  function FirstIndex(s: seq<string>, x: string): (i: nat)
    requires x in s
    ensures i < |s| && s[i] == x && x !in s[..i]
  {
    if s[0] == x then 0
    else
      var i := FirstIndex(s[1..], x);
      assert s[..i + 1] == [s[0]] + s[1..][..i];
      i + 1
  }

  /** A JavaScript `Set` of strings, remembering insertion order. */
  class StringSet {
    var elems: seq<string>

    ghost predicate Valid()
      reads this
    {
      NoDup(elems)
    }

    /** `new Set()` */
    constructor ()
      ensures Valid() && elems == []
    {
      elems := [];
    }

    /** `set.add(x)` */
    method Add(x: string)
      requires Valid()
      modifies this
      ensures Valid() && elems == Insert(old(elems), x)
    {
      if x !in elems {
        elems := elems + [x];
      }
    }

    /** `set.has(x)` */
    method Has(x: string) returns (b: bool)
      ensures b <==> x in elems
    {
      b := x in elems;
    }
  }
}
