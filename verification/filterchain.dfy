/** The post-traversal filter chain shared by both `search` functions: every token after
    the first keeps, in order, only the paths that contain it (`Vec::retain` with
    `str::contains`). */
module FilterChain {
  import opened Text

  /** `a` is `b` with some elements dropped and the rest kept in order. */
  ghost predicate Subsequence<T>(a: seq<T>, b: seq<T>)
    decreases |b|
  {
    if |a| == 0 then true
    else if |b| == 0 then false
    else (a[0] == b[0] && Subsequence(a[1..], b[1..])) || Subsequence(a, b[1..])
  }

  lemma {:induction false} SubsequenceRefl<T>(a: seq<T>)
    ensures Subsequence(a, a)
    decreases |a|
  {
    if |a| > 0 {
      SubsequenceRefl(a[1..]);
    }
  }

  lemma {:induction false} SubsequenceTrans<T>(a: seq<T>, b: seq<T>, c: seq<T>)
    requires Subsequence(a, b) && Subsequence(b, c)
    ensures Subsequence(a, c)
    decreases |c|
  {
    if |a| == 0 {
    } else if Subsequence(b, c[1..]) {
      SubsequenceTrans(a, b, c[1..]);
    } else if a[0] == b[0] && Subsequence(a[1..], b[1..]) {
      SubsequenceTrans(a[1..], b[1..], c[1..]);
    } else {
      SubsequenceTrans(a, b[1..], c[1..]);
    }
  }

  /** Every token of `tokens` is a substring of `p`. */
  ghost predicate ContainsAll(p: string, tokens: seq<string>) {
    forall k :: 0 <= k < |tokens| ==> Occurs(p, tokens[k])
  }

  /** A path contains all of `[t] + ts` exactly when it contains `t` and all of `ts`. */
  lemma ContainsAllCons(p: string, tokens: seq<string>)
    requires |tokens| > 0
    ensures ContainsAll(p, tokens) <==> Occurs(p, tokens[0]) && ContainsAll(p, tokens[1..])
  {
    if Occurs(p, tokens[0]) && ContainsAll(p, tokens[1..]) {
      forall k | 0 <= k < |tokens| ensures Occurs(p, tokens[k]) {
        if k > 0 { assert tokens[k] == tokens[1..][k - 1]; }
      }
    }
  }

  /** `paths.retain(|x| x.contains(token))`. */
  function Retain(paths: seq<string>, token: string): (r: seq<string>)
    ensures Subsequence(r, paths)
    ensures forall p :: p in r <==> p in paths && Occurs(p, token)
  {
    if |paths| == 0 then []
    else if Contains(paths[0], token) then [paths[0]] + Retain(paths[1..], token)
    else Retain(paths[1..], token)
  }

  /** `retain` keeps a path containing the token as many times as it occurs, and drops
      every other path. */
  lemma {:induction false} RetainMultiplicity(paths: seq<string>, token: string, p: string)
    ensures multiset(Retain(paths, token))[p] == if Occurs(p, token) then multiset(paths)[p] else 0
    decreases |paths|
  {
    if |paths| > 0 {
      assert paths == [paths[0]] + paths[1..];
      RetainMultiplicity(paths[1..], token, p);
    }
  }

  /** The chain of `retain` calls, one per token, in token order. */
  function ApplyFilters(paths: seq<string>, tokens: seq<string>): (r: seq<string>)
    ensures Subsequence(r, paths)
    ensures forall p :: p in r <==> p in paths && ContainsAll(p, tokens)
    decreases |tokens|
  {
    if |tokens| == 0 then
      SubsequenceRefl(paths);
      paths
    else
      var r := ApplyFilters(Retain(paths, tokens[0]), tokens[1..]);
      SubsequenceTrans(r, Retain(paths, tokens[0]), paths);
      forall p ensures ContainsAll(p, tokens) <==> Occurs(p, tokens[0]) && ContainsAll(p, tokens[1..]) {
        ContainsAllCons(p, tokens);
      }
      r
  }

  /** A path that passes every token is kept as many times as it occurs in the input, and
      any other path not at all. */
  lemma {:induction false} ApplyFiltersMultiplicity(paths: seq<string>, tokens: seq<string>, p: string)
    ensures multiset(ApplyFilters(paths, tokens))[p] == if ContainsAll(p, tokens) then multiset(paths)[p] else 0
    decreases |tokens|
  {
    if |tokens| > 0 {
      ContainsAllCons(p, tokens);
      RetainMultiplicity(paths, tokens[0], p);
      ApplyFiltersMultiplicity(Retain(paths, tokens[0]), tokens[1..], p);
    }
  }

  /** Applying tokens one chain after another is the same as applying them all at once. */
  lemma {:induction false} ApplyFiltersCompose(paths: seq<string>, t1: seq<string>, t2: seq<string>)
    ensures ApplyFilters(ApplyFilters(paths, t1), t2) == ApplyFilters(paths, t1 + t2)
    decreases |t1|
  {
    if |t1| == 0 {
      assert t1 + t2 == t2;
    } else {
      assert (t1 + t2)[1..] == t1[1..] + t2;
      ApplyFiltersCompose(Retain(paths, t1[0]), t1[1..], t2);
    }
  }

  /** One more token is one more `retain` on the chain's output. */
  lemma ApplyFiltersSnoc(paths: seq<string>, tokens: seq<string>, token: string)
    ensures ApplyFilters(paths, tokens + [token]) == Retain(ApplyFilters(paths, tokens), token)
  {
    ApplyFiltersCompose(paths, tokens, [token]);
    assert [token][1..] == [];
  }

  /** No token ever adds a path: the chain output is never longer than its input. */
  lemma {:induction false} ApplyFiltersShrinks(paths: seq<string>, tokens: seq<string>)
    ensures |ApplyFilters(paths, tokens)| <= |paths|
    decreases |tokens|
  {
    if |tokens| > 0 {
      RetainShrinks(paths, tokens[0]);
      ApplyFiltersShrinks(Retain(paths, tokens[0]), tokens[1..]);
    }
  }

  lemma {:induction false} RetainShrinks(paths: seq<string>, token: string)
    ensures |Retain(paths, token)| <= |paths|
    decreases |paths|
  {
    if |paths| > 0 {
      RetainShrinks(paths[1..], token);
    }
  }

  /** One pass over the paths keeping those that contain every token. */
  ghost function KeepAll(paths: seq<string>, tokens: seq<string>): seq<string> {
    if |paths| == 0 then []
    else (if ContainsAll(paths[0], tokens) then [paths[0]] else []) + KeepAll(paths[1..], tokens)
  }

  lemma {:induction false} KeepAllNoTokens(paths: seq<string>)
    ensures KeepAll(paths, []) == paths
    decreases |paths|
  {
    if |paths| > 0 {
      KeepAllNoTokens(paths[1..]);
    }
  }

  lemma {:induction false} KeepAllRetain(paths: seq<string>, tokens: seq<string>)
    requires |tokens| > 0
    ensures KeepAll(Retain(paths, tokens[0]), tokens[1..]) == KeepAll(paths, tokens)
    decreases |paths|
  {
    if |paths| > 0 {
      ContainsAllCons(paths[0], tokens);
      KeepAllRetain(paths[1..], tokens);
      if Contains(paths[0], tokens[0]) {
        assert ([paths[0]] + Retain(paths[1..], tokens[0]))[1..] == Retain(paths[1..], tokens[0]);
      }
    }
  }

  lemma {:induction false} KeepAllSameTest(paths: seq<string>, t: seq<string>, u: seq<string>)
    requires forall p :: ContainsAll(p, t) <==> ContainsAll(p, u)
    ensures KeepAll(paths, t) == KeepAll(paths, u)
    decreases |paths|
  {
    if |paths| > 0 {
      KeepAllSameTest(paths[1..], t, u);
    }
  }

  /** The whole chain is one pass that keeps, in order, the paths containing every token. */
  lemma {:induction false} ApplyFiltersKeepsAll(paths: seq<string>, tokens: seq<string>)
    ensures ApplyFilters(paths, tokens) == KeepAll(paths, tokens)
    decreases |tokens|
  {
    if |tokens| == 0 {
      KeepAllNoTokens(paths);
    } else {
      ApplyFiltersKeepsAll(Retain(paths, tokens[0]), tokens[1..]);
      KeepAllRetain(paths, tokens);
    }
  }

  /** The chain is an AND of its tokens: their order does not matter. */
  lemma ApplyFiltersOrderFree(paths: seq<string>, t1: seq<string>, t2: seq<string>)
    ensures ApplyFilters(paths, t1 + t2) == ApplyFilters(paths, t2 + t1)
  {
    forall p ensures ContainsAll(p, t1 + t2) <==> ContainsAll(p, t2 + t1) {
      if ContainsAll(p, t1 + t2) {
        forall k | 0 <= k < |t2 + t1| ensures Occurs(p, (t2 + t1)[k]) {
          if k < |t2| { assert (t2 + t1)[k] == (t1 + t2)[|t1| + k]; }
          else { assert (t2 + t1)[k] == (t1 + t2)[k - |t2|]; }
        }
      }
      if ContainsAll(p, t2 + t1) {
        forall k | 0 <= k < |t1 + t2| ensures Occurs(p, (t1 + t2)[k]) {
          if k < |t1| { assert (t1 + t2)[k] == (t2 + t1)[|t2| + k]; }
          else { assert (t1 + t2)[k] == (t2 + t1)[k - |t1|]; }
        }
      }
    }
    ApplyFiltersKeepsAll(paths, t1 + t2);
    ApplyFiltersKeepsAll(paths, t2 + t1);
    KeepAllSameTest(paths, t1 + t2, t2 + t1);
  }

  /** `paths.retain(|x| x.contains(token))` as a loop that builds the kept list from the
      back; the kept paths keep their order. */
  method RetainLoop(paths: seq<string>, token: string) returns (kept: seq<string>)
    ensures kept == Retain(paths, token)
  {
    kept := [];
    var i := |paths|;
    while i > 0
      invariant 0 <= i <= |paths|
      invariant kept == Retain(paths[i..], token)
    {
      i := i - 1;
      assert paths[i..][1..] == paths[i + 1..];
      if Contains(paths[i], token) {
        kept := [paths[i]] + kept;
      }
    }
  }
}
