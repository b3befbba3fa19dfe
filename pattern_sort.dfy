/**
 * The ordering of `getText`: the built-in and user pattern lists are joined
 * and sorted stably by the key
 *   (p.fullName not in ["Uniform", "Selected Ammo"], smartSort(p.fullName)).
 * `smartSort` is an outside function; here it is any map from names to lists
 * of ranks, compared lexicographically as Python compares lists.
 * Python's stable `list.sort` is modelled by insertion sort, which yields the
 * same sequence: the one stably sorted permutation of its input.
 */
module PatternSort {
  import opened DamagePatterns

  /** The two names the menu always lists first. */
  const PinnedNames: seq<string> := ["Uniform", "Selected Ammo"]

  predicate Pinned(p: Pattern)
  {
    p.fullName in PinnedNames
  }

  /** The sort key: `late` is false for the pinned names (Python orders False before True). */
  datatype SortKey = SortKey(late: bool, name: seq<int>)

  function Key(p: Pattern, smartSort: string -> seq<int>): SortKey
  {
    SortKey(!Pinned(p), smartSort(p.fullName))
  }

  /** Python's `<` on lists: lexicographic, a proper prefix before its extensions. */
  predicate LexLess(a: seq<int>, b: seq<int>)
  {
    if a == [] then b != []
    else if b == [] then false
    else a[0] < b[0] || (a[0] == b[0] && LexLess(a[1..], b[1..]))
  }

  lemma {:induction false} LexIrreflexive(a: seq<int>)
    ensures !LexLess(a, a)
  {
    if a != [] {
      LexIrreflexive(a[1..]);
    }
  }

  lemma {:induction false} LexTransitive(a: seq<int>, b: seq<int>, c: seq<int>)
    requires LexLess(a, b) && LexLess(b, c)
    ensures LexLess(a, c)
  {
    if a != [] && a[0] == b[0] && b[0] == c[0] {
      LexTransitive(a[1..], b[1..], c[1..]);
    }
  }

  /** Python's `<` on the key tuples. */
  predicate KeyLess(x: SortKey, y: SortKey)
  {
    (!x.late && y.late) || (x.late == y.late && LexLess(x.name, y.name))
  }

  lemma KeyIrreflexive(x: SortKey)
    ensures !KeyLess(x, x)
  {
    LexIrreflexive(x.name);
  }

  lemma KeyTransitive(x: SortKey, y: SortKey, z: SortKey)
    requires KeyLess(x, y) && KeyLess(y, z)
    ensures KeyLess(x, z)
  {
    if x.late == y.late == z.late {
      LexTransitive(x.name, y.name, z.name);
    }
  }

  /** No pattern is preceded by one with a strictly greater key. */
  predicate Sorted(s: seq<Pattern>, smartSort: string -> seq<int>)
  {
    forall i, j :: 0 <= i < j < |s| ==> !KeyLess(Key(s[j], smartSort), Key(s[i], smartSort))
  }

  /** Dropping the first pattern keeps a list sorted. */
  lemma SortedTail(t: seq<Pattern>, smartSort: string -> seq<int>)
    requires t != [] && Sorted(t, smartSort)
    ensures Sorted(t[1..], smartSort)
  {
    forall i, j | 0 <= i < j < |t[1..]|
      ensures !KeyLess(Key(t[1..][j], smartSort), Key(t[1..][i], smartSort))
    {
      assert t[1..][i] == t[i + 1] && t[1..][j] == t[j + 1];
    }
  }

  /** Inserts `x` before the first pattern whose key is strictly greater than its own. */
  function InsertSorted(t: seq<Pattern>, x: Pattern, smartSort: string -> seq<int>): (r: seq<Pattern>)
    ensures multiset(r) == multiset(t) + multiset{x}
  {
    if t == [] || KeyLess(Key(x, smartSort), Key(t[0], smartSort)) then [x] + t
    else
      assert t == [t[0]] + t[1..];
      [t[0]] + InsertSorted(t[1..], x, smartSort)
  }

  /** No pattern of `s` has a key strictly below `lo`. */
  predicate NoneBelow(s: seq<Pattern>, smartSort: string -> seq<int>, lo: SortKey)
  {
    forall j :: 0 <= j < |s| ==> !KeyLess(Key(s[j], smartSort), lo)
  }

  /** Putting a pattern with the least key in front keeps a list sorted. */
  lemma SortedCons(a: Pattern, t: seq<Pattern>, smartSort: string -> seq<int>)
    requires Sorted(t, smartSort) && NoneBelow(t, smartSort, Key(a, smartSort))
    ensures Sorted([a] + t, smartSort)
  {
    var r := [a] + t;
    forall i, j | 0 <= i < j < |r| ensures !KeyLess(Key(r[j], smartSort), Key(r[i], smartSort)) {
      assert r[j] == t[j - 1];
      if i > 0 {
        assert r[i] == t[i - 1];
      }
    }
  }

  /** Inserting a pattern whose key is not below `lo` keeps every key not below `lo`. */
  lemma {:induction false} InsertSortedNoneBelow(t: seq<Pattern>, x: Pattern, smartSort: string -> seq<int>, lo: SortKey)
    requires NoneBelow(t, smartSort, lo) && !KeyLess(Key(x, smartSort), lo)
    ensures NoneBelow(InsertSorted(t, x, smartSort), smartSort, lo)
  {
    if t != [] && !KeyLess(Key(x, smartSort), Key(t[0], smartSort)) {
      InsertSortedNoneBelow(t[1..], x, smartSort, lo);
      var r := InsertSorted(t, x, smartSort);
      assert r[1..] == InsertSorted(t[1..], x, smartSort);
      forall j | 0 <= j < |r| ensures !KeyLess(Key(r[j], smartSort), lo) {
        if j > 0 {
          assert r[j] == r[1..][j - 1];
        }
      }
    }
  }

  /** Inserting a pattern into a sorted list keeps it sorted. */
  lemma {:induction false} InsertSortedSorted(t: seq<Pattern>, x: Pattern, smartSort: string -> seq<int>)
    requires Sorted(t, smartSort)
    ensures Sorted(InsertSorted(t, x, smartSort), smartSort)
  {
    var kx := Key(x, smartSort);
    if t == [] {
    } else if KeyLess(kx, Key(t[0], smartSort)) {
      forall j | 0 <= j < |t| ensures !KeyLess(Key(t[j], smartSort), kx) {
        if KeyLess(Key(t[j], smartSort), kx) {
          KeyTransitive(Key(t[j], smartSort), kx, Key(t[0], smartSort));
          if j == 0 {
            KeyIrreflexive(Key(t[0], smartSort));
          }
          assert false;
        }
      }
      SortedCons(x, t, smartSort);
    } else {
      SortedTail(t, smartSort);
      InsertSortedSorted(t[1..], x, smartSort);
      forall j | 0 <= j < |t[1..]| ensures !KeyLess(Key(t[1..][j], smartSort), Key(t[0], smartSort)) {
        assert t[1..][j] == t[j + 1];
      }
      InsertSortedNoneBelow(t[1..], x, smartSort, Key(t[0], smartSort));
      SortedCons(t[0], InsertSorted(t[1..], x, smartSort), smartSort);
    }
  }

  /** `self.patterns.sort(key=...)` */
  function SortPatterns(s: seq<Pattern>, smartSort: string -> seq<int>): (r: seq<Pattern>)
    ensures multiset(r) == multiset(s)
    ensures Sorted(r, smartSort)
  {
    if s == [] then []
    else
      var r' := SortPatterns(s[..|s| - 1], smartSort);
      InsertSortedSorted(r', s[|s| - 1], smartSort);
      assert s == s[..|s| - 1] + [s[|s| - 1]];
      InsertSorted(r', s[|s| - 1], smartSort)
  }

  /** The sort files the input's last pattern into the sorted rest. */
  lemma SortPatternsSnoc(s: seq<Pattern>, x: Pattern, smartSort: string -> seq<int>)
    ensures SortPatterns(s + [x], smartSort) == InsertSorted(SortPatterns(s, smartSort), x, smartSort)
  {
    assert (s + [x])[..|s|] == s;
  }

  /** Every pattern named "Uniform" or "Selected Ammo" comes before every other pattern. */
  lemma PinnedFirst(s: seq<Pattern>, smartSort: string -> seq<int>)
    ensures var r := SortPatterns(s, smartSort);
      forall i, j :: 0 <= i < |r| && 0 <= j < |r| && Pinned(r[i]) && !Pinned(r[j]) ==> i < j
  {
    var r := SortPatterns(s, smartSort);
    forall i, j | 0 <= i < |r| && 0 <= j < |r| && Pinned(r[i]) && !Pinned(r[j]) ensures i < j {
      assert KeyLess(Key(r[i], smartSort), Key(r[j], smartSort));
    }
  }

  /** The patterns of `s` whose key is `k`, in their order in `s`. */
  function WithKey(s: seq<Pattern>, smartSort: string -> seq<int>, k: SortKey): seq<Pattern>
  {
    if s == [] then []
    else (if Key(s[0], smartSort) == k then [s[0]] else []) + WithKey(s[1..], smartSort, k)
  }

  lemma {:induction false} WithKeyAppend(a: seq<Pattern>, b: seq<Pattern>, smartSort: string -> seq<int>, k: SortKey)
    ensures WithKey(a + b, smartSort, k) == WithKey(a, smartSort, k) + WithKey(b, smartSort, k)
  {
    if a != [] {
      assert (a + b)[1..] == a[1..] + b;
      WithKeyAppend(a[1..], b, smartSort, k);
    } else {
      assert a + b == b;
    }
  }

  lemma {:induction false} WithKeyNone(s: seq<Pattern>, smartSort: string -> seq<int>, k: SortKey)
    requires forall j :: 0 <= j < |s| ==> Key(s[j], smartSort) != k
    ensures WithKey(s, smartSort, k) == []
  {
    if s != [] {
      WithKeyNone(s[1..], smartSort, k);
    }
  }

  /** Inserting a pattern puts it after every pattern that has the same key. */
  lemma {:induction false} InsertSortedStable(t: seq<Pattern>, x: Pattern, smartSort: string -> seq<int>, k: SortKey)
    requires Sorted(t, smartSort)
    ensures WithKey(InsertSorted(t, x, smartSort), smartSort, k) ==
      WithKey(t, smartSort, k) + if Key(x, smartSort) == k then [x] else []
  {
    var kx := Key(x, smartSort);
    if t == [] {
    } else if KeyLess(kx, Key(t[0], smartSort)) {
      assert ([x] + t)[1..] == t;
      if kx == k {
        // every pattern of t is strictly above x, so none has x's key
        forall j | 0 <= j < |t| ensures Key(t[j], smartSort) != k {
          if j == 0 {
            KeyIrreflexive(kx);
          } else {
            assert !KeyLess(Key(t[j], smartSort), Key(t[0], smartSort));
          }
        }
        WithKeyNone(t, smartSort, k);
      }
    } else {
      var ins := InsertSorted(t[1..], x, smartSort);
      var head := if Key(t[0], smartSort) == k then [t[0]] else [];
      SortedTail(t, smartSort);
      InsertSortedStable(t[1..], x, smartSort, k);
      assert ([t[0]] + ins)[1..] == ins;
      assert WithKey(t, smartSort, k) == head + WithKey(t[1..], smartSort, k);
      assert WithKey([t[0]] + ins, smartSort, k) == head + WithKey(ins, smartSort, k);
    }
  }

  /** Stability: among patterns with equal keys the sort keeps the input order. */
  lemma {:induction false} SortStable(s: seq<Pattern>, smartSort: string -> seq<int>, k: SortKey)
    ensures WithKey(SortPatterns(s, smartSort), smartSort, k) == WithKey(s, smartSort, k)
  {
    if s != [] {
      var s', x := s[..|s| - 1], s[|s| - 1];
      assert s == s' + [x];
      SortPatternsSnoc(s', x, smartSort);
      SortStable(s', smartSort, k);
      InsertSortedStable(SortPatterns(s', smartSort), x, smartSort, k);
      WithKeyAppend(s', [x], smartSort, k);
      assert WithKey([x], smartSort, k) == if Key(x, smartSort) == k then [x] else [];
    }
  }

  /** Built-in patterns stay ahead of user patterns that have the same key. */
  lemma BuiltinsBeforeUsers(builtin: seq<Pattern>, user: seq<Pattern>, smartSort: string -> seq<int>, k: SortKey)
    ensures WithKey(SortPatterns(builtin + user, smartSort), smartSort, k) ==
      WithKey(builtin, smartSort, k) + WithKey(user, smartSort, k)
  {
    SortStable(builtin + user, smartSort, k);
    WithKeyAppend(builtin, user, smartSort, k);
  }

  /** When every pattern at a path shares key `k`, keeping only key `k` keeps the path's patterns. */
  lemma {:induction false} WithPathOfWithKey(s: seq<Pattern>, smartSort: string -> seq<int>, k: SortKey, path: seq<string>, name: string)
    requires forall x :: x in s && At(x, path, name) ==> Key(x, smartSort) == k
    ensures WithPath(WithKey(s, smartSort, k), path, name) == WithPath(s, path, name)
  {
    if s != [] {
      WithPathOfWithKey(s[1..], smartSort, k, path, name);
      var head := if Key(s[0], smartSort) == k then [s[0]] else [];
      WithPathAppend(head, WithKey(s[1..], smartSort, k), path, name);
    }
  }

  /**
   * If all patterns filed at a path share one sort key, the sort does not
   * change which of them is last.
   */
  lemma SortKeepsLastWith(s: seq<Pattern>, smartSort: string -> seq<int>, k: SortKey, path: seq<string>, name: string)
    requires forall x :: x in s && At(x, path, name) ==> Key(x, smartSort) == k
    ensures LastWith(SortPatterns(s, smartSort), path, name) == LastWith(s, path, name)
  {
    var r := SortPatterns(s, smartSort);
    assert forall x :: x in r ==> x in multiset(s);
    WithPathOfWithKey(s, smartSort, k, path, name);
    WithPathOfWithKey(r, smartSort, k, path, name);
    SortStable(s, smartSort, k);
  }
}
