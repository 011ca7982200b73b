/** The bounded recursive directory walk `visit_dirs`, in the two variants the repository
    holds. The filesystem is an immutable tree; the path of an entry is its directory's
    path, a `/`, and its name. */
module DirWalk {
  import opened Text

  /** A directory entry: a plain file, or a directory (followed through a symlink when
      the filesystem has one there) with its entries in `read_dir` order. */
  datatype Node = File(name: string) | Dir(name: string, entries: seq<Node>)

  /** Which path a match records: `Parent` is the directory being read (`sysfssearch.rs`),
      `Entry` is the matching entry's own path (`main.rs`). */
  datatype Mark = Parent | Entry

  /** `dir.join(name)`. */
  function Join(dir: string, name: string): string {
    dir + "/" + name
  }

  /** A name the walk refuses to enter: it CONTAINS one of the four cross-link names. */
  predicate Excluded(name: string) {
    Contains(name, "subsystem") || Contains(name, "driver")
    || Contains(name, "firmware_node") || Contains(name, "port")
  }

  /** The walk enters `e` when `e` is a directory, its name is not excluded, and some
      depth budget is left. */
  predicate Descends(e: Node, limit: nat) {
    e.Dir? && !Excluded(e.name) && limit > 0
  }

  /** The path recorded when entry `name` of directory `dir` matches. */
  function Recorded(dir: string, name: string, mark: Mark): string {
    match mark
    case Parent => dir
    case Entry => Join(dir, name)
  }

  /** What `visit_dirs(dir, filter, limit, result)` appends to `result` when `dir` holds
      `entries`: entries are handled in order; a directory that the walk enters is never
      compared with `filter` (the `else if`). */
  function Visit(dir: string, entries: seq<Node>, filter: string, limit: nat, mark: Mark): seq<string>
    decreases entries
  {
    if |entries| == 0 then []
    else
      var e := entries[0];
      (if Descends(e, limit) then Visit(Join(dir, e.name), e.entries, filter, limit - 1, mark)
       else if e.name == filter then [Recorded(dir, e.name, mark)]
       else [])
      + Visit(dir, entries[1..], filter, limit, mark)
  }

  /** The walk started at `root`, which lives at `path`: nothing is found when the root is
      not a directory (`dir.is_dir()` is false). */
  function Traverse(path: string, root: Node, filter: string, limit: nat, mark: Mark): seq<string> {
    if root.Dir? then Visit(path, root.entries, filter, limit, mark) else []
  }

  /** `visit_dirs` as the source writes it: a loop over the entries that recurses or pushes
      onto `result`. It only ever appends to what `result` held on entry. */
  method VisitDirs(dir: string, entries: seq<Node>, filter: string, limit: nat, mark: Mark,
                   acc: seq<string>) returns (result: seq<string>)
    ensures result == acc + Visit(dir, entries, filter, limit, mark)
    decreases entries
  {
    result := acc;
    for i := 0 to |entries|
      invariant result == acc + Visit(dir, entries[..i], filter, limit, mark)
    {
      var e := entries[i];
      VisitSnoc(dir, entries[..i], e, filter, limit, mark);
      assert entries[..i + 1] == entries[..i] + [e];
      if Descends(e, limit) {
        result := VisitDirs(Join(dir, e.name), e.entries, filter, limit - 1, mark, result);
      } else if e.name == filter {
        result := result + [Recorded(dir, e.name, mark)];
      }
    }
    assert entries[..|entries|] == entries;
  }

  lemma {:induction false} VisitSnoc(dir: string, es: seq<Node>, e: Node, filter: string, limit: nat, mark: Mark)
    ensures Visit(dir, es + [e], filter, limit, mark)
         == Visit(dir, es, filter, limit, mark)
            + (if Descends(e, limit) then Visit(Join(dir, e.name), e.entries, filter, limit - 1, mark)
               else if e.name == filter then [Recorded(dir, e.name, mark)]
               else [])
    decreases |es|
  {
    if |es| == 0 {
      assert [e][1..] == [];
    } else {
      assert (es + [e])[1..] == es[1..] + [e];
      VisitSnoc(dir, es[1..], e, filter, limit, mark);
    }
  }

  // ---------------------------------------------------------------------------------
  // An independent description of what the walk records

  /** `p` is recorded by a walk of `entries` (in directory `dir`): some entry the walk does
      not enter is named `filter` and records `p`, or some entry it enters records `p`
      one level down with one unit of budget less. */
  ghost predicate Records(dir: string, entries: seq<Node>, filter: string, limit: nat, mark: Mark, p: string)
    decreases entries
  {
    exists k :: 0 <= k < |entries| &&
      ((!Descends(entries[k], limit) && entries[k].name == filter
        && p == Recorded(dir, entries[k].name, mark))
       || (Descends(entries[k], limit)
           && Records(Join(dir, entries[k].name), entries[k].entries, filter, limit - 1, mark, p)))
  }

  /** The walk records exactly the paths `Records` describes. */
  lemma {:induction false} VisitRecords(dir: string, entries: seq<Node>, filter: string, limit: nat, mark: Mark, p: string)
    ensures p in Visit(dir, entries, filter, limit, mark) <==> Records(dir, entries, filter, limit, mark, p)
    decreases entries
  {
    if |entries| > 0 {
      var e, rest := entries[0], entries[1..];
      VisitRecords(dir, rest, filter, limit, mark, p);
      if Descends(e, limit) {
        VisitRecords(Join(dir, e.name), e.entries, filter, limit - 1, mark, p);
      }
      if Records(dir, entries, filter, limit, mark, p) {
        var k :| 0 <= k < |entries| &&
          ((!Descends(entries[k], limit) && entries[k].name == filter
            && p == Recorded(dir, entries[k].name, mark))
           || (Descends(entries[k], limit)
               && Records(Join(dir, entries[k].name), entries[k].entries, filter, limit - 1, mark, p)));
        if k > 0 {
          assert rest[k - 1] == entries[k];
        }
      }
      if Records(dir, rest, filter, limit, mark, p) {
        var k :| 0 <= k < |rest| &&
          ((!Descends(rest[k], limit) && rest[k].name == filter
            && p == Recorded(dir, rest[k].name, mark))
           || (Descends(rest[k], limit)
               && Records(Join(dir, rest[k].name), rest[k].entries, filter, limit - 1, mark, p)));
        assert entries[k + 1] == rest[k];
      }
    }
  }

  // ---------------------------------------------------------------------------------
  // Where recorded paths lie

  /** `p` lies strictly inside directory `dir`. */
  ghost predicate Below(dir: string, p: string) {
    |p| > |dir| && p[..|dir| + 1] == dir + "/"
  }

  /** Every recorded path lies inside the directory walked; with `Parent` it may be that
      directory itself, with `Entry` it lies strictly below it and ends in `/filter`. */
  lemma {:induction false} VisitPathsUnder(dir: string, entries: seq<Node>, filter: string, limit: nat, mark: Mark, p: string)
    requires p in Visit(dir, entries, filter, limit, mark)
    ensures mark == Parent ==> p == dir || Below(dir, p)
    ensures mark == Entry ==> Below(dir, p) && exists q :: p == Join(q, filter)
    decreases entries
  {
    var e, rest := entries[0], entries[1..];
    if p in Visit(dir, rest, filter, limit, mark) {
      VisitPathsUnder(dir, rest, filter, limit, mark, p);
    } else if Descends(e, limit) {
      var sub := Join(dir, e.name);
      VisitPathsUnder(sub, e.entries, filter, limit - 1, mark, p);
      assert sub[..|dir| + 1] == dir + "/";
      if p != sub {
        assert p[..|dir| + 1] == p[..|sub| + 1][..|dir| + 1];
      }
    } else {
      assert p == Recorded(dir, e.name, mark);
      if mark == Entry {
        assert p[..|dir| + 1] == dir + "/";
      }
    }
  }

  /** No two entries of one directory share a name. */
  ghost predicate DistinctNames(entries: seq<Node>) {
    forall i, j :: 0 <= i < |entries| && 0 <= j < |entries| && entries[i].name == entries[j].name ==> i == j
  }

  /** A directory the walk enters is never recorded for its own name, even when that name
      equals `filter`: the `else if` is not reached. `filter` is a file name, so it holds
      no `/`. */
  lemma DescendedNotRecorded(dir: string, entries: seq<Node>, k: nat, filter: string, limit: nat, mark: Mark)
    requires k < |entries| && entries[k].Dir? && entries[k].name == filter
    requires !Excluded(filter) && limit > 0
    requires '/' !in filter
    requires DistinctNames(entries)
    ensures Recorded(dir, filter, mark) !in Visit(dir, entries, filter, limit, mark)
  {
    var p := Recorded(dir, filter, mark);
    if p in Visit(dir, entries, filter, limit, mark) {
      VisitRecords(dir, entries, filter, limit, mark, p);
      var j :| 0 <= j < |entries| &&
        ((!Descends(entries[j], limit) && entries[j].name == filter
          && p == Recorded(dir, entries[j].name, mark))
         || (Descends(entries[j], limit)
             && Records(Join(dir, entries[j].name), entries[j].entries, filter, limit - 1, mark, p)));
      if Descends(entries[j], limit) {
        var n := entries[j].name;
        var sub := Join(dir, n);
        VisitRecords(sub, entries[j].entries, filter, limit - 1, mark, p);
        VisitPathsUnder(sub, entries[j].entries, filter, limit - 1, mark, p);
        if mark == Entry {
          NotBelowSibling(dir, n, filter);
        }
      }
      assert false;
    }
  }

  /** A path `dir/name` with no `/` in `name` lies below no entry `dir/n`. */
  lemma NotBelowSibling(dir: string, n: string, name: string)
    requires '/' !in name
    ensures !Below(Join(dir, n), Join(dir, name))
  {
    var sub, p := Join(dir, n), Join(dir, name);
    if |p| > |sub| {
      assert p[|sub|] == name[|n|];
      assert p[..|sub| + 1][|sub|] != (sub + "/")[|sub|];
    }
  }

  // ---------------------------------------------------------------------------------
  // What a zero budget does

  /** The matches among the entries of one directory, without looking inside any. */
  function LevelMatches(dir: string, entries: seq<Node>, filter: string, mark: Mark): seq<string> {
    if |entries| == 0 then []
    else (if entries[0].name == filter then [Recorded(dir, entries[0].name, mark)] else [])
         + LevelMatches(dir, entries[1..], filter, mark)
  }

  /** With a zero budget the walk enters nothing and records every entry named `filter`,
      directories included. */
  lemma {:induction false} ZeroLimitVisitsOneLevel(dir: string, entries: seq<Node>, filter: string, mark: Mark)
    ensures Visit(dir, entries, filter, 0, mark) == LevelMatches(dir, entries, filter, mark)
    decreases |entries|
  {
    if |entries| > 0 {
      ZeroLimitVisitsOneLevel(dir, entries[1..], filter, mark);
    }
  }

  // ---------------------------------------------------------------------------------
  // What the walk never looks at

  /** The tree with every directory emptied that lies more than `limit` levels below. */
  function Cut(entries: seq<Node>, limit: nat): (r: seq<Node>)
    ensures |r| == |entries|
    decreases entries
  {
    if |entries| == 0 then []
    else
      var e := entries[0];
      [if e.File? then e else if limit == 0 then Dir(e.name, []) else Dir(e.name, Cut(e.entries, limit - 1))]
      + Cut(entries[1..], limit)
  }

  /** The depth budget bounds the recursion: the walk gives the same result when
      everything deeper than `limit` levels is removed. */
  lemma {:induction false} VisitIgnoresBelowLimit(dir: string, entries: seq<Node>, filter: string, limit: nat, mark: Mark)
    ensures Visit(dir, Cut(entries, limit), filter, limit, mark) == Visit(dir, entries, filter, limit, mark)
    decreases entries
  {
    if |entries| > 0 {
      var e := entries[0];
      VisitIgnoresBelowLimit(dir, entries[1..], filter, limit, mark);
      if e.Dir? && limit > 0 {
        VisitIgnoresBelowLimit(Join(dir, e.name), e.entries, filter, limit - 1, mark);
      }
      assert Cut(entries, limit)[1..] == Cut(entries[1..], limit);
    }
  }

  /** The tree with every directory emptied whose name is excluded. */
  function Strip(entries: seq<Node>): (r: seq<Node>)
    ensures |r| == |entries|
    decreases entries
  {
    if |entries| == 0 then []
    else
      var e := entries[0];
      [if e.File? then e else if Excluded(e.name) then Dir(e.name, []) else Dir(e.name, Strip(e.entries))]
      + Strip(entries[1..])
  }

  /** The walk never enters a directory whose name contains an excluded name, whatever
      budget is left: emptying all of them changes nothing. */
  lemma {:induction false} VisitIgnoresExcluded(dir: string, entries: seq<Node>, filter: string, limit: nat, mark: Mark)
    ensures Visit(dir, Strip(entries), filter, limit, mark) == Visit(dir, entries, filter, limit, mark)
    decreases entries
  {
    if |entries| > 0 {
      var e := entries[0];
      VisitIgnoresExcluded(dir, entries[1..], filter, limit, mark);
      if e.Dir? && !Excluded(e.name) && limit > 0 {
        VisitIgnoresExcluded(Join(dir, e.name), e.entries, filter, limit - 1, mark);
      }
      assert Strip(entries)[1..] == Strip(entries[1..]);
    }
  }

  // ---------------------------------------------------------------------------------
  // A marker at a given depth

  /** `n` nested directories named `seg`, the innermost holding one file named `leaf`. */
  function Chain(seg: string, n: nat, leaf: string): seq<Node> {
    if n == 0 then [File(leaf)] else [Dir(seg, Chain(seg, n - 1, leaf))]
  }

  /** The path of the innermost directory of `Chain(seg, n, _)` placed in `dir`. */
  function ChainPath(dir: string, seg: string, n: nat): string
    decreases n
  {
    if n == 0 then dir else ChainPath(Join(dir, seg), seg, n - 1)
  }

  /** A marker `n` levels down is found exactly when `n` is within the budget. */
  lemma {:induction false} ChainFoundWithinLimit(dir: string, seg: string, n: nat, leaf: string, limit: nat, mark: Mark)
    requires !Excluded(seg) && seg != leaf
    ensures Visit(dir, Chain(seg, n, leaf), leaf, limit, mark)
         == if n <= limit then [Recorded(ChainPath(dir, seg, n), leaf, mark)] else []
    decreases n
  {
    if n > 0 && limit > 0 {
      ChainFoundWithinLimit(Join(dir, seg), seg, n - 1, leaf, limit - 1, mark);
    }
  }
}
