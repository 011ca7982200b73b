/** The free functions `visit_dirs` and `search` of `src/main.rs`, the older variant of the
    search: a match records the matching entry's own path and the depth budget is fixed. */
module MainSearch {
  import opened Text
  import opened FilterChain
  import opened DirWalk

  /** The fixed depth budget of `search`. */
  const DepthLimit: nat := 7

  /** `search(dir, filter)` with the filesystem node at `dir` given as `root`: no tokens,
      no walk; otherwise walk for the first token and retain by the others. */
  function Search(root: Node, dir: string, filter: seq<string>): (r: seq<string>)
    ensures |filter| == 0 ==> r == []
    ensures |filter| > 0 ==>
      var walked := Traverse(dir, root, filter[0], DepthLimit, Entry);
      && Subsequence(r, walked)
      && forall p :: p in r <==> p in walked && ContainsAll(p, filter[1..])
  {
    if |filter| == 0 then []
    else ApplyFilters(Traverse(dir, root, filter[0], DepthLimit, Entry), filter[1..])
  }

  /** Every path `search` returns is an entry strictly inside `dir` whose own name is the
      first token. */
  lemma SearchReturnsMarkerPaths(root: Node, dir: string, filter: seq<string>, p: string)
    requires p in Search(root, dir, filter)
    ensures |filter| > 0 && Below(dir, p) && exists q :: p == Join(q, filter[0])
  {
    VisitPathsUnder(dir, root.entries, filter[0], DepthLimit, Entry, p);
  }

  /** Nothing more than seven levels below `dir` is ever looked at. */
  lemma SearchIgnoresBelowSeven(name: string, entries: seq<Node>, dir: string, filter: seq<string>)
    ensures Search(Dir(name, Cut(entries, DepthLimit)), dir, filter) == Search(Dir(name, entries), dir, filter)
  {
    if |filter| > 0 {
      VisitIgnoresBelowLimit(dir, entries, filter[0], DepthLimit, Entry);
    }
  }

  /** A marker `n` directories down is found exactly when `n` is at most seven. */
  lemma SearchFindsMarkerWithinSeven(name: string, dir: string, seg: string, n: nat, marker: string)
    requires !Excluded(seg) && seg != marker
    ensures Search(Dir(name, Chain(seg, n, marker)), dir, [marker])
         == if n <= 7 then [Join(ChainPath(dir, seg, n), marker)] else []
  {
    ChainFoundWithinLimit(dir, seg, n, marker, DepthLimit, Entry);
  }

  /** `search` as the source writes it: a loop over the filter tokens in which the first
      one walks the tree and every later one retains. */
  method SearchSteps(root: Node, dir: string, filter: seq<string>) returns (result: seq<string>)
    ensures result == Search(root, dir, filter)
  {
    result := [];
    if |filter| == 0 {
      return result;
    }
    ghost var walked := Traverse(dir, root, filter[0], DepthLimit, Entry);
    for i := 0 to |filter|
      invariant i == 0 ==> result == []
      invariant i > 0 ==> result == ApplyFilters(walked, filter[1..i])
    {
      if i == 0 {
        if root.Dir? {
          result := VisitDirs(dir, root.entries, filter[i], DepthLimit, Entry, result);
        }
        assert filter[1..1] == [];
      } else {
        ApplyFiltersSnoc(walked, filter[1..i], filter[i]);
        assert filter[1..i] + [filter[i]] == filter[1..i + 1];
        result := RetainLoop(result, filter[i]);
      }
    }
    assert filter[1..|filter|] == filter[1..];
  }
}
