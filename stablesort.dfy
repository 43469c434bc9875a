/** Python's `sorted(..., key=sort_key)`: a stable sort of annotated events
    by their `(bucket, ts)` key, written as an insertion sort. */
module StableSort {
  import opened Priority

  /** Keys never decrease along `s`. */
  predicate Sorted(s: seq<Annotated>) {
    forall i, j :: 0 <= i < j < |s| ==> KeyLe(KeyOf(s[i]), KeyOf(s[j]))
  }

  /** The entries of `s` whose key is `k`, in their order in `s`. */
  function WithKey(s: seq<Annotated>, k: SortKey): (r: seq<Annotated>)
    ensures forall a :: a in r ==> a in s && KeyOf(a) == k
  {
    if s == [] then [] else (if KeyOf(s[0]) == k then [s[0]] else []) + WithKey(s[1..], k)
  }

  /** `x` placed after every entry whose key is at most its own. */
  function Insert(x: Annotated, s: seq<Annotated>): (r: seq<Annotated>)
    ensures |r| == |s| + 1
    ensures multiset(r) == multiset(s) + multiset{x}
  {
    if s == [] then [x]
    else if KeyLt(KeyOf(x), KeyOf(s[0])) then [x] + s
    else
      assert s == [s[0]] + s[1..];
      [s[0]] + Insert(x, s[1..])
  }

  /** Inserts the entries in input order, each after its equals. */
  function SortByKey(s: seq<Annotated>): (r: seq<Annotated>)
    ensures |r| == |s|
    ensures multiset(r) == multiset(s)
  {
    if s == [] then []
    else
      assert s == s[..|s| - 1] + [s[|s| - 1]];
      Insert(s[|s| - 1], SortByKey(s[..|s| - 1]))
  }

  lemma {:induction false} WithKeyAppend(a: seq<Annotated>, b: seq<Annotated>, k: SortKey)
    ensures WithKey(a + b, k) == WithKey(a, k) + WithKey(b, k)
  {
    if a == [] {
      assert a + b == b;
    } else {
      assert (a + b)[1..] == a[1..] + b;
      WithKeyAppend(a[1..], b, k);
    }
  }

  lemma {:induction false} WithKeyNone(s: seq<Annotated>, k: SortKey)
    requires forall i :: 0 <= i < |s| ==> KeyOf(s[i]) != k
    ensures WithKey(s, k) == []
  {
    if s != [] {
      WithKeyNone(s[1..], k);
    }
  }

  lemma {:induction false} InsertSorted(x: Annotated, s: seq<Annotated>)
    requires Sorted(s)
    ensures Sorted(Insert(x, s))
  {
    if s != [] && !KeyLt(KeyOf(x), KeyOf(s[0])) {
      var t := s[1..];
      InsertSorted(x, t);
      var r := Insert(x, t);
      forall i | 0 <= i < |r| ensures KeyLe(KeyOf(s[0]), KeyOf(r[i])) {
        assert r[i] in multiset(r);
        if r[i] != x {
          assert r[i] in multiset(t);
          var j :| 0 <= j < |t| && t[j] == r[i];
          assert s[j + 1] == r[i];
        }
      }
    }
  }

  /** Putting `x` in front of a sorted sequence whose keys all exceed its own. */
  lemma PrependWithKey(x: Annotated, s: seq<Annotated>, k: SortKey)
    requires Sorted(s)
    requires s == [] || KeyLt(KeyOf(x), KeyOf(s[0]))
    ensures WithKey([x] + s, k) == WithKey(s, k) + (if KeyOf(x) == k then [x] else [])
  {
    WithKeyCons([x] + s, k);
    assert ([x] + s)[1..] == s;
    if KeyOf(x) == k {
      WithKeyNone(s, k);
    }
  }

  /** Inserting into a sorted sequence appends `x` to the run of its key and
      leaves every other key's run alone. */
  lemma {:induction false} InsertWithKey(x: Annotated, s: seq<Annotated>, k: SortKey)
    requires Sorted(s)
    ensures WithKey(Insert(x, s), k) == WithKey(s, k) + (if KeyOf(x) == k then [x] else [])
  {
    var mine := if KeyOf(x) == k then [x] else [];
    if s == [] || KeyLt(KeyOf(x), KeyOf(s[0])) {
      PrependWithKey(x, s, k);
    } else {
      var head := if KeyOf(s[0]) == k then [s[0]] else [];
      var r := Insert(x, s[1..]);
      assert Sorted(s[1..]);
      calc {
        WithKey(Insert(x, s), k);
        WithKey([s[0]] + r, k);
        { WithKeyCons([s[0]] + r, k); assert ([s[0]] + r)[1..] == r; }
        head + WithKey(r, k);
        { InsertWithKey(x, s[1..], k); }
        head + (WithKey(s[1..], k) + mine);
        (head + WithKey(s[1..], k)) + mine;
        { WithKeyCons(s, k); }
        WithKey(s, k) + mine;
      }
    }
  }

  lemma {:induction false} InsertEvents(x: Annotated, s: seq<Annotated>)
    ensures multiset(EventsOf(Insert(x, s))) == multiset(EventsOf(s)) + multiset{x.event}
  {
    if s == [] {
      assert EventsOf([x]) == [x.event];
    } else if KeyLt(KeyOf(x), KeyOf(s[0])) {
      EventsOfConcat([x], s);
    } else {
      var r := Insert(x, s[1..]);
      InsertEvents(x, s[1..]);
      EventsOfConcat([s[0]], r);
      EventsOfConcat([s[0]], s[1..]);
      assert s == [s[0]] + s[1..];
    }
  }

  /** Sorting permutes the events behind the entries. */
  lemma {:induction false} SortByKeyEvents(s: seq<Annotated>)
    ensures multiset(EventsOf(SortByKey(s))) == multiset(EventsOf(s))
  {
    if s != [] {
      var init, last := s[..|s| - 1], s[|s| - 1];
      calc {
        multiset(EventsOf(SortByKey(s)));
        multiset(EventsOf(Insert(last, SortByKey(init))));
        { InsertEvents(last, SortByKey(init)); }
        multiset(EventsOf(SortByKey(init))) + multiset{last.event};
        { SortByKeyEvents(init); }
        multiset(EventsOf(init)) + multiset{last.event};
        { EventsOfConcat(init, [last]); assert EventsOf([last]) == [last.event]; }
        multiset(EventsOf(init + [last]));
        { assert s == init + [last]; }
        multiset(EventsOf(s));
      }
    }
  }

  lemma {:induction false} SortByKeySorted(s: seq<Annotated>)
    ensures Sorted(SortByKey(s))
  {
    if s != [] {
      SortByKeySorted(s[..|s| - 1]);
      InsertSorted(s[|s| - 1], SortByKey(s[..|s| - 1]));
    }
  }

  /** Stability: for each key, the entries with that key appear in the output
      in the same order as in the input. */
  lemma {:induction false} SortByKeyStable(s: seq<Annotated>, k: SortKey)
    ensures WithKey(SortByKey(s), k) == WithKey(s, k)
  {
    if s != [] {
      var init, last := s[..|s| - 1], s[|s| - 1];
      var tail := if KeyOf(last) == k then [last] else [];
      SortByKeySorted(init);
      calc {
        WithKey(SortByKey(s), k);
        WithKey(Insert(last, SortByKey(init)), k);
        { InsertWithKey(last, SortByKey(init), k); }
        WithKey(SortByKey(init), k) + tail;
        { SortByKeyStable(init, k); }
        WithKey(init, k) + tail;
        { assert WithKey([last], k) == tail + WithKey([last][1..], k); assert [last][1..] == []; }
        WithKey(init, k) + WithKey([last], k);
        { WithKeyAppend(init, [last], k); }
        WithKey(init + [last], k);
        { assert s == init + [last]; }
        WithKey(s, k);
      }
    }
  }

  /** The first entry of a sorted sequence has the least key. */
  lemma SortedHeadLeast(r: seq<Annotated>, a: Annotated)
    requires Sorted(r) && a in r
    ensures KeyLe(KeyOf(r[0]), KeyOf(a))
  {
    var i :| 0 <= i < |r| && r[i] == a;
    assert i == 0 || KeyLe(KeyOf(r[0]), KeyOf(r[i]));
  }

  /** Unfolding WithKey once. */
  lemma WithKeyCons(s: seq<Annotated>, k: SortKey)
    requires s != []
    ensures WithKey(s, k) == (if KeyOf(s[0]) == k then [s[0]] else []) + WithKey(s[1..], k)
  {
  }

  /** A sorted sequence with the same runs per key as `s` is `SortByKey(s)`:
      the sort is determined by its two properties. */
  lemma {:induction false} SortByKeyUnique(s: seq<Annotated>, r: seq<Annotated>)
    requires Sorted(r)
    requires forall k :: WithKey(r, k) == WithKey(s, k)
    ensures r == SortByKey(s)
  {
    var t := SortByKey(s);
    SortByKeySorted(s);
    forall k ensures WithKey(r, k) == WithKey(t, k) {
      SortByKeyStable(s, k);
    }
    SortedRunsEqual(r, t);
  }

  /** Two sorted sequences with equal runs per key are equal. */
  lemma {:induction false} SortedRunsEqual(r: seq<Annotated>, t: seq<Annotated>)
    requires Sorted(r) && Sorted(t)
    requires forall k :: WithKey(r, k) == WithKey(t, k)
    ensures r == t
    decreases |r| + |t|
  {
    if r == [] && t == [] {
    } else if r == [] {
      WithKeyCons(t, KeyOf(t[0]));
      assert false;
    } else if t == [] {
      WithKeyCons(r, KeyOf(r[0]));
      assert false;
    } else {
      var kr, kt := KeyOf(r[0]), KeyOf(t[0]);
      WithKeyCons(r, kr);
      WithKeyCons(t, kt);
      assert r[0] in WithKey(t, kr);
      assert t[0] in WithKey(r, kt);
      SortedHeadLeast(t, r[0]);
      SortedHeadLeast(r, t[0]);
      assert kr == kt;
      assert r[0] == t[0] by {
        assert WithKey(r, kr)[0] == r[0];
        assert WithKey(t, kr)[0] == t[0];
      }
      forall k ensures WithKey(r[1..], k) == WithKey(t[1..], k) {
        WithKeyCons(r, k);
        WithKeyCons(t, k);
        var head := if KeyOf(r[0]) == k then [r[0]] else [];
        assert WithKey(r[1..], k) == WithKey(r, k)[|head|..];
        assert WithKey(t[1..], k) == WithKey(t, k)[|head|..];
      }
      assert Sorted(r[1..]) && Sorted(t[1..]);
      SortedRunsEqual(r[1..], t[1..]);
      assert r == [r[0]] + r[1..] && t == [t[0]] + t[1..];
    }
  }
}
