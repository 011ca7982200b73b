/** `SysfsSearch` of `src/sysfssearch.rs`: the property-dump parser and the search that
    walks the tree, filters the candidate paths and keeps the usable `udevadm` outputs. */
module SysfsSearch {
  import opened Base
  import opened Text
  import opened FilterChain
  import opened DirWalk

  // ---------------------------------------------------------------------------------
  // get_property: one value out of a `KEY=VALUE\n` dump

  /** The value span of the first occurrence of `key` starts inside `block` or just after
      its end; otherwise slicing `base_str[offset..]` panics. */
  ghost predicate ValueStartInBounds(block: string, key: string) {
    forall i: nat :: IsFirstOccurrence(block, key, i) ==> i + |key| + 1 <= |block|
  }

  /** A newline stands at index `off` or later. */
  ghost predicate NewlineFrom(block: string, off: nat) {
    exists j :: off <= j < |block| && block[j] == '\n'
  }

  /** `v` is the text from `off` up to, not including, the next newline. */
  ghost predicate ValueAt(block: string, off: nat, v: string) {
    && off + |v| < |block|
    && block[off..off + |v|] == v
    && block[off + |v|] == '\n'
    && forall k :: 0 <= k < |v| ==> v[k] != '\n'
  }

  /** `get_property(base_str, key)`: find the first occurrence of `key`, skip it and exactly
      one more character (whatever it is), and return the text up to the next newline. */
  function GetProperty(block: string, key: string): (r: Option<string>)
    requires ValueStartInBounds(block, key)
    ensures r.Some? <==> exists i: nat :: IsFirstOccurrence(block, key, i) && NewlineFrom(block, i + |key| + 1)
    ensures r.Some? ==> exists i: nat :: IsFirstOccurrence(block, key, i) && ValueAt(block, i + |key| + 1, r.value)
  {
    match Find(block, key)
    case None => None
    case Some(start) =>
      var offset := |key| + start + 1;
      var rest := block[offset..];
      forall i: nat | IsFirstOccurrence(block, key, i) ensures i == start {
        FirstOccurrenceUnique(block, key, i, start);
      }
      forall j: nat ensures OccursAt(rest, "\n", j) <==> j < |rest| && rest[j] == '\n' {
        OccursAtChar(rest, '\n', j);
      }
      match Find(rest, "\n")
      case None =>
        assert !NewlineFrom(block, offset) by {
          forall j | offset <= j < |block| ensures block[j] != '\n' {
            assert rest[j - offset] == block[j];
          }
        }
        None
      case Some(e) =>
        var v := block[offset..offset + e];
        assert rest[e] == '\n';
        assert NewlineFrom(block, offset);
        assert ValueAt(block, offset, v);
        Some(v)
  }

  /** A key that does not occur yields nothing. */
  lemma GetPropertyAbsentKey(block: string, key: string)
    requires !Contains(block, key)
    ensures ValueStartInBounds(block, key) && GetProperty(block, key).None?
  {
  }

  /** Two values both running from `off` to the next newline are the same value. */
  lemma ValueAtUnique(block: string, off: nat, v: string, w: string)
    requires ValueAt(block, off, v) && ValueAt(block, off, w)
    ensures v == w
  {
  }

  /** The converse of `GetProperty`'s contract: when the first occurrence of `key` is
      followed, one character later, by `v` and a newline, the parser returns `v`. */
  lemma GetPropertyFindsValue(block: string, key: string, i: nat, v: string)
    requires IsFirstOccurrence(block, key, i) && ValueAt(block, i + |key| + 1, v)
    ensures ValueStartInBounds(block, key)
    ensures GetProperty(block, key) == Some(v)
  {
    forall j: nat | IsFirstOccurrence(block, key, j) ensures j + |key| + 1 <= |block| {
      FirstOccurrenceUnique(block, key, i, j);
    }
    assert NewlineFrom(block, i + |key| + 1);
    var w := GetProperty(block, key).value;
    var j: nat :| IsFirstOccurrence(block, key, j) && ValueAt(block, j + |key| + 1, w);
    FirstOccurrenceUnique(block, key, i, j);
    ValueAtUnique(block, i + |key| + 1, v, w);
  }

  /** The worked example of a well-formed dump. */
  lemma GetPropertyExample()
    ensures ValueStartInBounds("A=1\nB=22\nC=333\n", "B")
    ensures GetProperty("A=1\nB=22\nC=333\n", "B") == Some("22")
  {
    var block := "A=1\nB=22\nC=333\n";
    forall j: nat | j < 4 ensures !OccursAt(block, "B", j) {
      OccursAtChar(block, 'B', j);
    }
    OccursAtChar(block, 'B', 4);
    assert block[6..8] == "22";
    GetPropertyFindsValue(block, "B", 4, "22");
  }

  /** A key absent from the dump gives nothing. */
  lemma GetPropertyExampleAbsent()
    ensures ValueStartInBounds("A=1\nB=22\nC=333\n", "Z")
    ensures GetProperty("A=1\nB=22\nC=333\n", "Z") == None
  {
    var block := "A=1\nB=22\nC=333\n";
    AbsentChar(block, 'Z');
    GetPropertyAbsentKey(block, "Z");
  }

  /** There is no key boundary check: a key found inside a longer key takes that key's
      value. */
  lemma GetPropertyMatchesInsideKey()
    ensures ValueStartInBounds("AB=1\nB=2\n", "B")
    ensures GetProperty("AB=1\nB=2\n", "B") == Some("1")
  {
    var block := "AB=1\nB=2\n";
    OccursAtChar(block, 'B', 0);
    OccursAtChar(block, 'B', 1);
    assert block[3..4] == "1";
    GetPropertyFindsValue(block, "B", 1, "1");
  }

  /** The character after the key is skipped whatever it is: no `=` is looked for. */
  lemma GetPropertySkipsAnySeparator()
    ensures ValueStartInBounds("B:7\n", "B")
    ensures GetProperty("B:7\n", "B") == Some("7")
  {
    var block := "B:7\n";
    OccursAtChar(block, 'B', 0);
    assert block[2..3] == "7";
    GetPropertyFindsValue(block, "B", 0, "7");
  }

  // ---------------------------------------------------------------------------------
  // search: walk, filter chain, udevadm outputs

  /** `utils::CommandResult` without `stderr`, which `search` never reads. */
  datatype CommandResult = CommandResult(status: Option<int>, stdout: Option<string>)

  /** A result `search` keeps: exit status 0 and some stdout. */
  predicate Usable(c: CommandResult) {
    c.status == Some(0) && c.stdout.Some?
  }

  /** The searcher: root path, optional filter chain, optional depth budget, and the
      buffer of collected property dumps. */
  datatype Searcher = Searcher(path: string, filter: Option<seq<string>>, searchLimit: Option<u32>, buffer: seq<string>)

  /** `SysfsSearch::new`: the buffer starts empty. */
  function New(path: string, filter: Option<seq<string>>, searchLimit: Option<u32>): Searcher {
    Searcher(path, filter, searchLimit, [])
  }

  /** The depth budget: `u32::MAX` when none is given. */
  function Limit(s: Searcher): nat {
    match s.searchLimit
    case None => U32_MAX
    case Some(l) => l as nat
  }

  /** The candidate paths `search` hands to `udevadm`, or `None` when it returns early for
      an empty filter chain. `root` is the filesystem node found at `s.path`. */
  function PathList(s: Searcher, root: Node): (r: Option<seq<string>>)
    ensures s.filter.None? ==> r == Some([s.path])
    ensures r.None? <==> s.filter == Some([])
    ensures s.filter.Some? && |s.filter.value| > 0 ==>
      var walked := Traverse(s.path, root, s.filter.value[0], Limit(s), Parent);
      && Subsequence(r.value, walked)
      && forall p :: p in r.value <==> p in walked && ContainsAll(p, s.filter.value[1..])
  {
    match s.filter
    case None => Some([s.path])
    case Some(tokens) =>
      if |tokens| == 0 then None
      else Some(ApplyFilters(Traverse(s.path, root, tokens[0], Limit(s), Parent), tokens[1..]))
  }

  /** The stdouts of the usable `udevadm` results, one query per path, in path order. */
  function Outputs(paths: seq<string>, udev: string -> CommandResult): (r: seq<string>)
    ensures |r| <= |paths|
    ensures forall x :: x in r <==>
      exists i :: 0 <= i < |paths| && Usable(udev(paths[i])) && udev(paths[i]).stdout.value == x
    ensures (forall i :: 0 <= i < |paths| ==> Usable(udev(paths[i]))) ==> |r| == |paths|
  {
    if |paths| == 0 then []
    else
      var rest := Outputs(paths[1..], udev);
      assert forall i :: 1 <= i < |paths| ==> paths[i] == paths[1..][i - 1];
      var c := udev(paths[0]);
      if Usable(c) then [c.stdout.value] + rest else rest
  }

  lemma {:induction false} OutputsSnoc(paths: seq<string>, p: string, udev: string -> CommandResult)
    ensures Outputs(paths + [p], udev)
         == Outputs(paths, udev) + (if Usable(udev(p)) then [udev(p).stdout.value] else [])
    decreases |paths|
  {
    if |paths| == 0 {
      assert [p][1..] == [];
    } else {
      assert (paths + [p])[1..] == paths[1..] + [p];
      OutputsSnoc(paths[1..], p, udev);
    }
  }

  /** Querying two path lists one after the other keeps the outputs of the first ahead of
      those of the second; with `OutputsOfOne` this fixes `Outputs` completely, order and
      repetitions included. */
  lemma {:induction false} OutputsConcat(a: seq<string>, b: seq<string>, udev: string -> CommandResult)
    ensures Outputs(a + b, udev) == Outputs(a, udev) + Outputs(b, udev)
    decreases |a|
  {
    if |a| == 0 {
      assert a + b == b;
    } else {
      assert (a + b)[1..] == a[1..] + b;
      OutputsConcat(a[1..], b, udev);
    }
  }

  /** One path contributes its stdout exactly when its result is usable. */
  lemma OutputsOfOne(p: string, udev: string -> CommandResult)
    ensures Outputs([p], udev) == if Usable(udev(p)) then [udev(p).stdout.value] else []
  {
    assert [p][1..] == [];
  }

  /** The state after `search` and the value it returns (`Some(&buffer)` or `None`). */
  datatype SearchResult = SearchResult(searcher: Searcher, found: Option<seq<string>>)

  /** `search(&mut self)` with the filesystem node at `s.path` given as `root` and the
      `udevadm` query given as `udev`. */
  function Search(s: Searcher, root: Node, udev: string -> CommandResult): (r: SearchResult)
    ensures s.filter == Some([]) ==> r.found.None? && r.searcher == s
    ensures s.filter != Some([]) ==> r.found == Some(r.searcher.buffer)
    ensures r.searcher == s.(buffer := r.searcher.buffer)
    ensures |s.buffer| <= |r.searcher.buffer| && r.searcher.buffer[..|s.buffer|] == s.buffer
    ensures forall x :: x in r.searcher.buffer[|s.buffer|..] ==>
      exists p :: p in PathList(s, root).value && Usable(udev(p)) && udev(p).stdout == Some(x)
    ensures s.filter != Some([]) ==>
      forall p :: p in PathList(s, root).value && Usable(udev(p)) ==>
        udev(p).stdout.value in r.searcher.buffer[|s.buffer|..]
    ensures s.filter != Some([]) ==>
      r.searcher.buffer[|s.buffer|..] == Outputs(PathList(s, root).value, udev)
  {
    match PathList(s, root)
    case None => SearchResult(s, None)
    case Some(paths) =>
      var s' := s.(buffer := s.buffer + Outputs(paths, udev));
      assert s'.buffer[|s.buffer|..] == Outputs(paths, udev);
      SearchResult(s', Some(s'.buffer))
  }

  /** Without a search limit the walk runs with budget `u32::MAX`. */
  lemma NoLimitMeansMax(s: Searcher, root: Node)
    ensures PathList(s.(searchLimit := None), root) == PathList(s.(searchLimit := Some(U32_MAX as u32)), root)
  {
  }

  /** Without a search limit a marker `n` directories down is found exactly when `n` is at
      most `u32::MAX`, and its directory is the candidate. */
  lemma NoLimitFindsMarker(path: string, name: string, seg: string, n: nat, marker: string, buffer: seq<string>)
    requires !Excluded(seg) && seg != marker
    ensures PathList(Searcher(path, Some([marker]), None, buffer), Dir(name, Chain(seg, n, marker)))
         == Some(if n <= U32_MAX then [ChainPath(path, seg, n)] else [])
  {
    ChainFoundWithinLimit(path, seg, n, marker, U32_MAX, Parent);
    var walked := Traverse(path, Dir(name, Chain(seg, n, marker)), marker, U32_MAX, Parent);
    assert ApplyFilters(walked, [marker][1..]) == walked by {
      assert [marker][1..] == [];
    }
  }

  /** `search` is not idempotent: a second call queries the same paths again and appends
      the same outputs a second time. */
  lemma SearchAppendsAgain(s: Searcher, root: Node, udev: string -> CommandResult)
    requires s.filter != Some([])
    ensures var once := Search(s, root, udev).searcher;
            Search(once, root, udev).searcher.buffer == once.buffer + once.buffer[|s.buffer|..]
  {
    var once := Search(s, root, udev).searcher;
    assert PathList(once, root) == PathList(s, root);
  }

  /** `search` as the source writes it: build the path list, query `udevadm` for every
      path, and push the usable outputs onto the buffer. */
  method SearchSteps(s: Searcher, root: Node, udev: string -> CommandResult)
    returns (s': Searcher, found: Option<seq<string>>)
    ensures SearchResult(s', found) == Search(s, root, udev)
  {
    var pathList := PathListSteps(s, root);
    if pathList.None? {
      return s, None;
    }
    var buffer := AppendOutputs(s.buffer, pathList.value, udev);
    s' := s.(buffer := buffer);
    found := Some(buffer);
  }

  /** The path list of `search`: no filter gives the root path, an empty filter stops the
      search, anything else runs the token loop. */
  method PathListSteps(s: Searcher, root: Node) returns (r: Option<seq<string>>)
    ensures r == PathList(s, root)
  {
    if s.filter.None? {
      return Some([s.path]);
    }
    var filter := s.filter.value;
    var limit: nat := if s.searchLimit.None? then U32_MAX else s.searchLimit.value as nat;
    if |filter| == 0 {
      return None;
    }
    var pathList := TokenLoop(s.path, root, filter, limit);
    return Some(pathList);
  }

  /** The loop over the filter tokens: the first one walks the tree, every later one
      retains. */
  method TokenLoop(path: string, root: Node, filter: seq<string>, limit: nat) returns (pathList: seq<string>)
    requires |filter| > 0
    ensures pathList == ApplyFilters(Traverse(path, root, filter[0], limit, Parent), filter[1..])
  {
    ghost var walked := Traverse(path, root, filter[0], limit, Parent);
    pathList := [];
    for i := 0 to |filter|
      invariant i == 0 ==> pathList == []
      invariant i > 0 ==> pathList == ApplyFilters(walked, filter[1..i])
    {
      if i == 0 {
        if root.Dir? {
          pathList := VisitDirs(path, root.entries, filter[i], limit, Parent, pathList);
        }
        assert filter[1..1] == [];
      } else {
        ApplyFiltersSnoc(walked, filter[1..i], filter[i]);
        assert filter[1..i] + [filter[i]] == filter[1..i + 1];
        pathList := RetainLoop(pathList, filter[i]);
      }
    }
    assert filter[1..|filter|] == filter[1..];
  }

  /** The loop over the `udevadm` results: skip a non-zero or missing status, skip a
      missing stdout, push the rest. */
  method AppendOutputs(buffer: seq<string>, paths: seq<string>, udev: string -> CommandResult)
    returns (b: seq<string>)
    ensures b == buffer + Outputs(paths, udev)
  {
    b := buffer;
    for i := 0 to |paths|
      invariant b == buffer + Outputs(paths[..i], udev)
    {
      var item := udev(paths[i]);
      OutputsSnoc(paths[..i], paths[i], udev);
      assert paths[..i + 1] == paths[..i] + [paths[i]];
      if item.status != Some(0) {
        continue;
      }
      if item.stdout.None? {
        continue;
      }
      b := b + [item.stdout.value];
    }
    assert paths[..|paths|] == paths;
  }
}
