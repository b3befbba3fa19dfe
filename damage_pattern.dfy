/**
 * Damage patterns and fits, as far as the damage-pattern context menu looks
 * at them, and the question the menu tree answers about a list of patterns:
 * which pattern ends up under a given (hierarchy, shortName) path.
 */
module DamagePatterns {
  import opened Options

  /**
   * A damage pattern. `ident` stands for the object's identity (the menu
   * compares patterns with `is`); `hierarchy` is the list of category names
   * the pattern is filed under and `shortName` its label inside the last one.
   */
  datatype Pattern = Pattern(ident: nat, fullName: string, shortName: string, hierarchy: seq<string>)

  /** A fit, reduced to the damage pattern it currently uses (possibly none). */
  datatype Fit = Fit(damagePattern: Option<Pattern>)

  /** `p is q` */
  predicate SameObject(p: Pattern, q: Pattern)
  {
    p.ident == q.ident
  }

  /** `fit and pattern is fit.damagePattern`: a fit is active and uses exactly this pattern object. */
  predicate Uses(fit: Option<Fit>, p: Pattern)
  {
    fit.Some? && fit.value.damagePattern.Some? && SameObject(p, fit.value.damagePattern.value)
  }

  /** `p` is filed under category path `path` with label `name`. */
  predicate At(p: Pattern, path: seq<string>, name: string)
  {
    p.hierarchy == path && p.shortName == name
  }

  /** The patterns of `s` filed at (`path`, `name`), in their order in `s`. */
  function WithPath(s: seq<Pattern>, path: seq<string>, name: string): seq<Pattern>
  {
    if s == [] then []
    else (if At(s[0], path, name) then [s[0]] else []) + WithPath(s[1..], path, name)
  }

  lemma {:induction false} WithPathAppend(a: seq<Pattern>, b: seq<Pattern>, path: seq<string>, name: string)
    ensures WithPath(a + b, path, name) == WithPath(a, path, name) + WithPath(b, path, name)
  {
    if a != [] {
      assert (a + b)[1..] == a[1..] + b;
      WithPathAppend(a[1..], b, path, name);
    } else {
      assert a + b == b;
    }
  }

  /** The last pattern of `s` filed at (`path`, `name`), if any. */
  function LastWith(s: seq<Pattern>, path: seq<string>, name: string): Option<Pattern>
  {
    var w := WithPath(s, path, name);
    if w == [] then None else Some(w[|w| - 1])
  }

  /** Appending one pattern: it becomes the last at its own path and changes no other path. */
  lemma LastWithSnoc(s: seq<Pattern>, x: Pattern, path: seq<string>, name: string)
    ensures LastWith(s + [x], path, name) == if At(x, path, name) then Some(x) else LastWith(s, path, name)
  {
    WithPathAppend(s, [x], path, name);
    assert WithPath([x], path, name) == if At(x, path, name) then [x] else [];
  }

  /**
   * `LastWith` finds exactly the last position of `s` filed at the path, and
   * nothing when no pattern is filed there.
   */
  lemma {:induction false} LastWithIsLast(s: seq<Pattern>, path: seq<string>, name: string)
    ensures LastWith(s, path, name).None? <==> forall i :: 0 <= i < |s| ==> !At(s[i], path, name)
    ensures LastWith(s, path, name).Some? ==>
      exists i :: 0 <= i < |s| && s[i] == LastWith(s, path, name).value && At(s[i], path, name) &&
        forall j :: i < j < |s| ==> !At(s[j], path, name)
  {
    if s != [] {
      var s', x := s[..|s| - 1], s[|s| - 1];
      assert s == s' + [x];
      LastWithSnoc(s', x, path, name);
      LastWithIsLast(s', path, name);
      if !At(x, path, name) && LastWith(s', path, name).Some? {
        var i :| 0 <= i < |s'| && s'[i] == LastWith(s', path, name).value && At(s'[i], path, name) &&
          forall j :: i < j < |s'| ==> !At(s'[j], path, name);
        assert s[i] == s'[i];
      }
    }
  }

  /** A list with a pattern at the path has a last one there. */
  lemma {:induction false} LastWithSome(s: seq<Pattern>, i: nat, path: seq<string>, name: string)
    requires i < |s| && At(s[i], path, name)
    ensures LastWith(s, path, name).Some?
  {
    if i < |s| - 1 {
      LastWithSome(s[..|s| - 1], i, path, name);
      assert s == s[..|s| - 1] + [s[|s| - 1]];
      LastWithSnoc(s[..|s| - 1], s[|s| - 1], path, name);
    } else {
      assert s == s[..i] + [s[i]];
      LastWithSnoc(s[..i], s[i], path, name);
    }
  }

  /** When a later list has a pattern at the path, it hides everything filed there before it. */
  lemma LastWithLaterWins(a: seq<Pattern>, b: seq<Pattern>, path: seq<string>, name: string)
    ensures LastWith(a + b, path, name) == if LastWith(b, path, name).Some? then LastWith(b, path, name) else LastWith(a, path, name)
  {
    WithPathAppend(a, b, path, name);
  }
}
