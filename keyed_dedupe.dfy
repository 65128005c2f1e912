/** Removing duplicates from a list where two elements count as the same
    when they have the same key: the first element of each key is kept, in
    place, and the later ones are dropped. `dedupeWarnings` is this with the
    key `String(w).toLowerCase().trim()`. */
module KeyedDedupe {

  /** The keys of the elements of `ws`. */
  function KeySet<T>(ws: seq<T>, key: T -> string): set<string>
    decreases |ws|
  {
    if ws == [] then {} else KeySet(ws[..|ws| - 1], key) + {key(ws[|ws| - 1])}
  }

  /** An element is kept when no earlier element has its key. */
  function DedupeBy<T>(arr: seq<T>, key: T -> string): seq<T>
    decreases |arr|
  {
    if arr == [] then []
    else
      var init := arr[..|arr| - 1];
      var w := arr[|arr| - 1];
      DedupeBy(init, key) + (if key(w) in KeySet(init, key) then [] else [w])
  }

  predicate DistinctKeys<T>(ws: seq<T>, key: T -> string) {
    forall i, j :: 0 <= i < j < |ws| ==> key(ws[i]) != key(ws[j])
  }

  /** No element before position `i` has the key of `arr[i]`. */
  predicate FirstOfItsKey<T>(arr: seq<T>, key: T -> string, i: int)
    requires 0 <= i < |arr|
  {
    forall j :: 0 <= j < i ==> key(arr[j]) != key(arr[i])
  }

  /** The positions below `n` that hold the first element of their key, in
      increasing order. */
  function FirstPositions<T>(arr: seq<T>, key: T -> string, n: int): seq<int>
    requires 0 <= n <= |arr|
    decreases n
  {
    if n == 0 then []
    else FirstPositions(arr, key, n - 1) + (if FirstOfItsKey(arr, key, n - 1) then [n - 1] else [])
  }

  lemma {:induction false} KeySetMembers<T>(ws: seq<T>, key: T -> string)
    ensures forall k :: k in KeySet(ws, key) <==> exists j :: 0 <= j < |ws| && key(ws[j]) == k
    decreases |ws|
  {
    if ws != [] {
      var init := ws[..|ws| - 1];
      KeySetMembers(init, key);
      forall k | k in KeySet(ws, key) ensures exists j :: 0 <= j < |ws| && key(ws[j]) == k {
        if k in KeySet(init, key) {
          var j :| 0 <= j < |init| && key(init[j]) == k;
          assert ws[j] == init[j];
        } else {
          assert key(ws[|ws| - 1]) == k;
        }
      }
      forall k, j | 0 <= j < |ws| && key(ws[j]) == k ensures k in KeySet(ws, key) {
        if j < |ws| - 1 {
          assert init[j] == ws[j];
        }
      }
    }
  }

  lemma KeySetAppend<T>(a: seq<T>, b: seq<T>, key: T -> string)
    ensures KeySet(a + b, key) == KeySet(a, key) + KeySet(b, key)
  {
    KeySetMembers(a, key);
    KeySetMembers(b, key);
    KeySetMembers(a + b, key);
    forall k | k in KeySet(a + b, key) ensures k in KeySet(a, key) + KeySet(b, key) {
      var j :| 0 <= j < |a + b| && key((a + b)[j]) == k;
      if j >= |a| {
        assert (a + b)[j] == b[j - |a|];
      }
    }
    forall k | k in KeySet(a, key) + KeySet(b, key) ensures k in KeySet(a + b, key) {
      if k in KeySet(a, key) {
        var j :| 0 <= j < |a| && key(a[j]) == k;
        assert (a + b)[j] == a[j];
      } else {
        var j :| 0 <= j < |b| && key(b[j]) == k;
        assert (a + b)[|a| + j] == b[j];
      }
    }
  }

  /** One more element: the definition, stated on a prefix of a list. */
  lemma DedupeStep<T>(arr: seq<T>, key: T -> string, i: int)
    requires 0 <= i < |arr|
    ensures KeySet(arr[..i + 1], key) == KeySet(arr[..i], key) + {key(arr[i])}
    ensures DedupeBy(arr[..i + 1], key)
         == DedupeBy(arr[..i], key) + (if key(arr[i]) in KeySet(arr[..i], key) then [] else [arr[i]])
  {
    assert arr[..i + 1][..i] == arr[..i];
  }

  /** Deduplication keeps the set of keys: every key of the input is the
      key of some kept element. */
  lemma {:induction false} DedupeKeys<T>(arr: seq<T>, key: T -> string)
    ensures KeySet(DedupeBy(arr, key), key) == KeySet(arr, key)
    decreases |arr|
  {
    if arr != [] {
      var init := arr[..|arr| - 1];
      var w := arr[|arr| - 1];
      DedupeKeys(init, key);
      var tail := if key(w) in KeySet(init, key) then [] else [w];
      KeySetAppend(DedupeBy(init, key), tail, key);
      assert KeySet([w], key) == KeySet([], key) + {key(w)};
    }
  }

  /** No two kept elements have the same key. */
  lemma {:induction false} DedupeDistinctKeys<T>(arr: seq<T>, key: T -> string)
    ensures DistinctKeys(DedupeBy(arr, key), key)
    decreases |arr|
  {
    if arr != [] {
      var init := arr[..|arr| - 1];
      var w := arr[|arr| - 1];
      DedupeDistinctKeys(init, key);
      if key(w) !in KeySet(init, key) {
        var d := DedupeBy(init, key);
        DedupeKeys(init, key);
        KeySetMembers(d, key);
        var r := d + [w];
        forall i, j | 0 <= i < j < |r| ensures key(r[i]) != key(r[j]) {
          if j == |d| {
            assert key(r[i]) in KeySet(d, key);
          } else {
            assert r[i] == d[i] && r[j] == d[j];
          }
        }
      }
    }
  }

  /** A list without repeated keys is left as it is. */
  lemma {:induction false} DedupeOfDistinct<T>(arr: seq<T>, key: T -> string)
    requires DistinctKeys(arr, key)
    ensures DedupeBy(arr, key) == arr
    decreases |arr|
  {
    if arr != [] {
      var init := arr[..|arr| - 1];
      var w := arr[|arr| - 1];
      assert DistinctKeys(init, key) by {
        forall i, j | 0 <= i < j < |init| ensures key(init[i]) != key(init[j]) {
          assert init[i] == arr[i] && init[j] == arr[j];
        }
      }
      DedupeOfDistinct(init, key);
      KeySetMembers(init, key);
      forall j | 0 <= j < |init| ensures key(init[j]) != key(w) {
        assert init[j] == arr[j];
      }
      assert arr == init + [w];
    }
  }

  /** Deduplicating twice is deduplicating once. */
  lemma DedupeIdempotent<T>(arr: seq<T>, key: T -> string)
    ensures DedupeBy(DedupeBy(arr, key), key) == DedupeBy(arr, key)
  {
    DedupeDistinctKeys(arr, key);
    DedupeOfDistinct(DedupeBy(arr, key), key);
  }

  /** Deduplication keeps, unchanged and in their order, exactly the
      elements that are the first of their key. */
  lemma DedupeKeepsFirstOfEachKey<T>(arr: seq<T>, key: T -> string, n: int)
    requires 0 <= n <= |arr|
    ensures var r := DedupeBy(arr[..n], key);
            var ps := FirstPositions(arr, key, n);
            |ps| == |r|
            && (forall k :: 0 <= k < |r| ==> 0 <= ps[k] < n && r[k] == arr[ps[k]])
            && (forall k1, k2 :: 0 <= k1 < k2 < |r| ==> ps[k1] < ps[k2])
            && (forall i :: 0 <= i < n ==> (i in ps <==> FirstOfItsKey(arr, key, i)))
  {
    DedupeKept(arr, key, n);
  }

  /** `ps` lists, in increasing order, the positions below `n` that hold
      the first element of their key, and `r` the elements at those
      positions. */
  ghost predicate KeptAt<T>(arr: seq<T>, key: T -> string, r: seq<T>, ps: seq<int>, n: int)
    requires 0 <= n <= |arr|
  {
    |ps| == |r|
    && (forall k :: 0 <= k < |r| ==> 0 <= ps[k] < n && r[k] == arr[ps[k]])
    && (forall k1, k2 :: 0 <= k1 < k2 < |r| ==> ps[k1] < ps[k2])
    && (forall i :: 0 <= i < n ==> (i in ps <==> FirstOfItsKey(arr, key, i)))
  }

  lemma {:induction false} DedupeKept<T>(arr: seq<T>, key: T -> string, n: int)
    requires 0 <= n <= |arr|
    ensures KeptAt(arr, key, DedupeBy(arr[..n], key), FirstPositions(arr, key, n), n)
    decreases n
  {
    if n > 0 {
      var init := arr[..n - 1];
      var f := FirstOfItsKey(arr, key, n - 1);
      assert DedupeBy(arr[..n], key) == DedupeBy(init, key) + (if f then [arr[n - 1]] else []) by {
        DedupeStep(arr, key, n - 1);
        KeySetMembers(init, key);
        assert key(arr[n - 1]) in KeySet(init, key) <==> !f by {
          forall j | 0 <= j < n - 1 ensures init[j] == arr[j] { }
        }
      }
      DedupeKept(arr, key, n - 1);
      KeptExtend(arr, key, DedupeBy(init, key), FirstPositions(arr, key, n - 1), n - 1);
    }
  }

  lemma KeptExtend<T>(arr: seq<T>, key: T -> string, r: seq<T>, ps: seq<int>, m: int)
    requires 0 <= m < |arr| && KeptAt(arr, key, r, ps, m)
    ensures var f := FirstOfItsKey(arr, key, m);
            KeptAt(arr, key, r + (if f then [arr[m]] else []), ps + (if f then [m] else []), m + 1)
  {
  }

  /** Deduplication only drops elements: everything kept is an element of
      the input. */
  lemma {:induction false} DedupeMembers<T>(arr: seq<T>, key: T -> string)
    ensures forall x :: x in DedupeBy(arr, key) ==> x in arr
    decreases |arr|
  {
    if arr != [] {
      var init := arr[..|arr| - 1];
      DedupeMembers(init, key);
      assert arr == init + [arr[|arr| - 1]];
    }
  }

  /** Deduplicating a longer list starts with the deduplication of its
      prefix. */
  lemma {:induction false} DedupePrefix<T>(a: seq<T>, b: seq<T>, key: T -> string)
    ensures DedupeBy(a, key) <= DedupeBy(a + b, key)
    decreases |b|
  {
    if b == [] {
      assert a + b == a;
    } else {
      var init := b[..|b| - 1];
      DedupePrefix(a, init, key);
      assert (a + b)[..|a + b| - 1] == a + init;
    }
  }

  /** Deduplicating `a + b`: no two kept elements share a key, the
      deduplicated `a` comes first, every key of `a` and of `b` survives and
      no other does, every kept element comes from `a` or `b`, and with `b`
      empty nothing is added. */
  lemma DedupeAppendSpec<T>(a: seq<T>, b: seq<T>, key: T -> string)
    ensures DistinctKeys(DedupeBy(a + b, key), key)
    ensures DedupeBy(a, key) <= DedupeBy(a + b, key)
    ensures KeySet(DedupeBy(a + b, key), key) == KeySet(a, key) + KeySet(b, key)
    ensures forall x :: x in DedupeBy(a + b, key) ==> x in a || x in b
    ensures b == [] ==> DedupeBy(a + b, key) == DedupeBy(a, key)
  {
    DedupeDistinctKeys(a + b, key);
    DedupePrefix(a, b, key);
    DedupeKeys(a + b, key);
    KeySetAppend(a, b, key);
    DedupeMembers(a + b, key);
    if b == [] {
      assert a + b == a;
    }
  }
}
