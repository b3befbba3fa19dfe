/**
 * Python's `OrderedDict` with string keys, as the damage-pattern menu uses it:
 * a sequence of (key, value) entries whose keys appear in first-insertion
 * order. Assigning to an existing key replaces its value in place; assigning
 * to a new key appends an entry; `setdefault` only ever appends.
 */
module OrderedDict {
  import opened Options

  type Entries<V> = seq<(string, V)>

  /** `list(d.keys())`. */
  function Keys<V>(d: Entries<V>): (ks: seq<string>)
    ensures |ks| == |d|
    ensures forall i :: 0 <= i < |d| ==> ks[i] == d[i].0
  {
    if d == [] then [] else [d[0].0] + Keys(d[1..])
  }

  predicate Distinct(ks: seq<string>)
  {
    forall i, j :: 0 <= i < j < |ks| ==> ks[i] != ks[j]
  }

  /** The key sequence after `k` has been assigned: unchanged if `k` is already there, else `k` goes last. */
  function AppendNew(ks: seq<string>, k: string): seq<string>
  {
    if k in ks then ks else ks + [k]
  }

  lemma AppendNewDistinct(ks: seq<string>, k: string)
    requires Distinct(ks)
    ensures Distinct(AppendNew(ks, k))
  {
  }

  lemma KeysSnoc<V>(d: Entries<V>, k: string, v: V)
    ensures Keys(d + [(k, v)]) == Keys(d) + [k]
  {
  }

  /** `d.get(k)`: the value of the first entry whose key is `k`. */
  function Get<V>(d: Entries<V>, k: string): (r: Option<V>)
    ensures r.None? <==> k !in Keys(d)
    ensures r.Some? ==> (k, r.value) in d
  {
    if d == [] then None
    else if d[0].0 == k then Some(d[0].1)
    else Get(d[1..], k)
  }

  /** With distinct keys, every entry is what a lookup of its key finds. */
  lemma {:induction false} GetEntry<V>(d: Entries<V>, i: nat)
    requires Distinct(Keys(d)) && i < |d|
    ensures Get(d, d[i].0) == Some(d[i].1)
  {
    if i > 0 {
      assert Keys(d)[0] != Keys(d)[i];
      assert Distinct(Keys(d[1..])) by {
        forall a, b | 0 <= a < b < |d[1..]| ensures Keys(d[1..])[a] != Keys(d[1..])[b] {
          assert Keys(d)[a + 1] != Keys(d)[b + 1];
        }
      }
      GetEntry(d[1..], i - 1);
    }
  }

  lemma GetSnoc<V>(d: Entries<V>, k: string, v: V, k': string)
    ensures Get(d + [(k, v)], k') == if k' in Keys(d) then Get(d, k') else if k' == k then Some(v) else None
  {
    if d != [] {
      assert (d + [(k, v)])[1..] == d[1..] + [(k, v)];
      GetSnoc(d[1..], k, v, k');
    }
  }

  /**
   * `d[k] = v`. The key keeps its position when it is already present (only
   * the value changes) and is appended otherwise; no other key's value moves.
   */
  function Put<V>(d: Entries<V>, k: string, v: V): (r: Entries<V>)
    ensures Keys(r) == AppendNew(Keys(d), k)
  {
    if d == [] then [(k, v)]
    else if d[0].0 == k then [(k, v)] + d[1..]
    else
      assert Keys(d) == [d[0].0] + Keys(d[1..]);
      [d[0]] + Put(d[1..], k, v)
  }

  /** After `d[k] = v` a lookup of `k` finds `v` and a lookup of any other key finds what it found before. */
  lemma {:induction false} PutGet<V>(d: Entries<V>, k: string, v: V, k': string)
    ensures Get(Put(d, k, v), k') == if k' == k then Some(v) else Get(d, k')
  {
    if d != [] {
      var r := Put(d, k, v);
      assert r[1..] == if d[0].0 == k then d[1..] else Put(d[1..], k, v);
      if d[0].0 != k && d[0].0 != k' {
        PutGet(d[1..], k, v, k');
      }
    }
  }

  /** Assignment brings in no entry other than the one assigned. */
  lemma {:induction false} PutEntries<V>(d: Entries<V>, k: string, v: V)
    ensures forall e :: e in Put(d, k, v) ==> e == (k, v) || e in d
  {
    if d != [] && d[0].0 != k {
      PutEntries(d[1..], k, v);
    }
  }

  /**
   * `d.setdefault(k, dflt)`: the dictionary afterwards and the value returned.
   * An existing entry is never replaced; a missing key is appended with `dflt`.
   */
  function SetDefault<V>(d: Entries<V>, k: string, dflt: V): (r: (Entries<V>, V))
    ensures Keys(r.0) == AppendNew(Keys(d), k)
    ensures Get(r.0, k) == Some(r.1)
    ensures forall k' :: k' != k ==> Get(r.0, k') == Get(d, k')
    ensures k in Keys(d) ==> r.0 == d
    ensures k !in Keys(d) ==> r.1 == dflt
  {
    match Get(d, k)
    case Some(v) => (d, v)
    case None =>
      KeysSnoc(d, k, dflt);
      forall k' ensures Get(d + [(k, dflt)], k') == if k' == k then Some(dflt) else Get(d, k') {
        GetSnoc(d, k, dflt, k');
      }
      (d + [(k, dflt)], dflt)
  }

  /** The distinct elements of `s` in order of first occurrence. */
  function Dedup(s: seq<string>): (r: seq<string>)
    ensures Distinct(r)
    ensures forall x :: x in r <==> x in s
  {
    if s == [] then []
    else
      var r' := Dedup(s[..|s| - 1]);
      AppendNewDistinct(r', s[|s| - 1]);
      assert s == s[..|s| - 1] + [s[|s| - 1]];
      AppendNew(r', s[|s| - 1])
  }

  lemma DedupSnoc(s: seq<string>, a: string)
    ensures Dedup(s + [a]) == AppendNew(Dedup(s), a)
  {
    assert (s + [a])[..|s|] == s;
  }

  /** The position of the first occurrence of `x` in `s`. */
  function FirstIndex(s: seq<string>, x: string): (i: nat)
    requires x in s
    ensures i < |s| && s[i] == x && x !in s[..i]
  {
    if s[0] == x then 0 else 1 + FirstIndex(s[1..], x)
  }

  lemma {:induction false} FirstIndexSnoc(s: seq<string>, a: string, x: string)
    requires x in s
    ensures FirstIndex(s + [a], x) == FirstIndex(s, x)
  {
    if s[0] != x {
      assert (s + [a])[1..] == s[1..] + [a];
      FirstIndexSnoc(s[1..], a, x);
    }
  }

  /** `Dedup` keeps first-insertion order: earlier in the result means first seen earlier. */
  lemma {:induction false} DedupOrder(s: seq<string>)
    ensures forall i, j :: 0 <= i < j < |Dedup(s)| ==> FirstIndex(s, Dedup(s)[i]) < FirstIndex(s, Dedup(s)[j])
  {
    if s != [] {
      var s', a := s[..|s| - 1], s[|s| - 1];
      assert s == s' + [a];
      DedupOrder(s');
      var r', r := Dedup(s'), Dedup(s);
      forall x | x in s' ensures FirstIndex(s, x) == FirstIndex(s', x) {
        FirstIndexSnoc(s', a, x);
      }
      if a !in s' {
        assert FirstIndex(s, a) == |s'| by {
          assert s[|s'|] == a && a !in s[..|s'|];
        }
        forall i, j | 0 <= i < j < |r| ensures FirstIndex(s, r[i]) < FirstIndex(s, r[j]) {
          assert r[i] == r'[i] && r[i] in s';
          if j < |r'| {
            assert r[j] == r'[j];
          }
        }
      }
    }
  }
}
