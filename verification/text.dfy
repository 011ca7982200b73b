/** String searching as Rust's `str::find` and `str::contains` do it, over `seq<char>`.
    Strings are taken to be ASCII, so a byte offset and a character index coincide. */
module Text {
  import opened Base

  /** `sub` occurs in `s` starting at index `i`. */
  predicate OccursAt(s: string, sub: string, i: nat) {
    i + |sub| <= |s| && s[i..i + |sub|] == sub
  }

  /** `sub` occurs somewhere in `s`. */
  ghost predicate Occurs(s: string, sub: string) {
    exists i: nat :: OccursAt(s, sub, i)
  }

  /** `i` is where `sub` occurs in `s` for the first time. */
  ghost predicate IsFirstOccurrence(s: string, sub: string, i: nat) {
    OccursAt(s, sub, i) && forall j: nat :: j < i ==> !OccursAt(s, sub, j)
  }

  /** The first index at or after `from` where `sub` occurs in `s`. */
  function FindFrom(s: string, sub: string, from: nat): (r: Option<nat>)
    requires from <= |s|
    ensures r.Some? ==> from <= r.value && OccursAt(s, sub, r.value)
    ensures r.Some? ==> forall j: nat :: from <= j < r.value ==> !OccursAt(s, sub, j)
    ensures r.None? ==> forall j: nat :: from <= j ==> !OccursAt(s, sub, j)
    decreases |s| - from
  {
    if OccursAt(s, sub, from) then Some(from)
    else if from == |s| then None
    else FindFrom(s, sub, from + 1)
  }

  /** Rust's `s.find(sub)`: the index of the first occurrence of `sub`, if any. */
  function Find(s: string, sub: string): (r: Option<nat>)
    ensures r.Some? <==> Occurs(s, sub)
    ensures r.Some? ==> IsFirstOccurrence(s, sub, r.value)
  {
    FindFrom(s, sub, 0)
  }

  /** Rust's `s.contains(sub)`. */
  function Contains(s: string, sub: string): (b: bool)
    ensures b <==> Occurs(s, sub)
  {
    Find(s, sub).Some?
  }

  /** A string occurs at one index at most for the first time. */
  lemma FirstOccurrenceUnique(s: string, sub: string, i: nat, j: nat)
    requires IsFirstOccurrence(s, sub, i) && IsFirstOccurrence(s, sub, j)
    ensures i == j
  {
  }

  /** A one-character pattern occurs exactly where that character stands. */
  lemma OccursAtChar(s: string, c: char, i: nat)
    ensures OccursAt(s, [c], i) <==> i < |s| && s[i] == c
  {
    if i < |s| {
      assert s[i..i + 1] == [s[i]];
    }
  }

  /** A character that stands nowhere in `s` is not contained in it. */
  lemma AbsentChar(s: string, c: char)
    requires forall k :: 0 <= k < |s| ==> s[k] != c
    ensures !Contains(s, [c])
  {
    forall j: nat ensures !OccursAt(s, [c], j) {
      OccursAtChar(s, c, j);
    }
  }
}
