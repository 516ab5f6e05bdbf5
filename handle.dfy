/**
 * The account handle taken from the `name` query parameter: the truthiness test the
 * service applies to it and the removal of every `@` sign (api/graph.ts, lines 11-16).
 */
module Handle {
  import opened Wrappers

  /** JavaScript truthiness of an optional query string: `undefined` and `""` are falsy. */
  predicate Truthy(v: Option<string>) {
    v.Some? && v.value != ""
  }

  /** `s.replace(/@/g, '')`: the handle with every `@` removed. */
  function StripAt(s: string): (r: string)
    ensures '@' !in r
    ensures |r| <= |s|
  {
    if s == [] then []
    else if s[0] == '@' then StripAt(s[1..])
    else [s[0]] + StripAt(s[1..])
  }

  /** Stripping works piece by piece, so the characters that remain keep their order. */
  lemma {:induction false} StripAtConcat(a: string, b: string)
    ensures StripAt(a + b) == StripAt(a) + StripAt(b)
  {
    if a == [] {
      assert a + b == b;
    } else {
      assert (a + b)[0] == a[0];
      assert (a + b)[1..] == a[1..] + b;
      StripAtConcat(a[1..], b);
    }
  }

  /** Every character other than `@` is kept, as often as it occurs; no `@` is kept. */
  lemma {:induction false} StripAtMultiset(s: string)
    ensures multiset(StripAt(s)) == multiset(s)['@' := 0]
  {
    if s != [] {
      StripAtMultiset(s[1..]);
      assert s == [s[0]] + s[1..];
      assert multiset(s) == multiset([s[0]]) + multiset(s[1..]);
      if s[0] != '@' {
        assert multiset(StripAt(s)) == multiset([s[0]]) + multiset(StripAt(s[1..]));
      }
    }
  }

  /** A handle is left unchanged exactly when it holds no `@`. */
  lemma {:induction false} StripAtFixedPoint(s: string)
    ensures StripAt(s) == s <==> '@' !in s
  {
    if s != [] {
      StripAtFixedPoint(s[1..]);
      assert s == [s[0]] + s[1..];
      if s[0] == '@' {
        assert |StripAt(s)| < |s|;
      } else {
        assert StripAt(s) == [s[0]] + StripAt(s[1..]);
        assert StripAt(s) == s <==> StripAt(s[1..]) == s[1..];
      }
    }
  }

  /** Stripping twice is the same as stripping once. */
  lemma {:induction false} StripAtIdempotent(s: string)
    ensures StripAt(StripAt(s)) == StripAt(s)
  {
    StripAtFixedPoint(StripAt(s));
  }

  /**
   * The truthiness test looks at the raw name, before stripping: a name made only
   * of `@` signs passes it and leaves an empty handle.
   */
  lemma {:induction false} SigilOnlyNamePasses(s: string)
    requires s != []
    requires forall k | 0 <= k < |s| :: s[k] == '@'
    ensures Truthy(Some(s))
    ensures StripAt(s) == []
  {
    if |s| > 1 {
      SigilOnlyNamePasses(s[1..]);
    }
  }
}
