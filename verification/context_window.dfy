// Context lines around hits, merged while streaming (fileops/search.go) and
// collected in a set and sorted (command/runner.go).
module ContextWindow {
  predicate Increasing(s: seq<int>) {
    forall i, j :: 0 <= i < j < |s| ==> s[i] < s[j]
  }

  lemma {:induction false} IncreasingIsUnique(s: seq<int>, t: seq<int>)
    requires Increasing(s) && Increasing(t) && forall x :: x in s <==> x in t
    ensures s == t
  {
    assert t != [] ==> t[0] in t;
    if s != [] {
      assert s[0] in s && t != [];
      assert t[0] in s && s[0] in t;
      forall x ensures x in s[1..] <==> x in t[1..] {
        assert x in s <==> x == s[0] || x in s[1..];
        assert x in t <==> x == t[0] || x in t[1..];
      }
      IncreasingIsUnique(s[1..], t[1..]);
    }
  }

  predicate Below(s: seq<int>, n: nat) {
    forall k :: 0 <= k < |s| ==> 0 <= s[k] < n
  }

  // -------------------------------------------------------------------------
  // What to show

  /** The lines that hit, in order. */
  function HitsOf(flags: seq<bool>): (hits: seq<int>)
    ensures Increasing(hits) && Below(hits, |flags|) && forall i :: i in hits <==> 0 <= i < |flags| && flags[i]
  {
    if flags == [] then []
    else
      var last := |flags| - 1;
      HitsOf(flags[..last]) + if flags[last] then [last] else []
  }

  predicate Near(hit: int, before: int, after: int, i: int) {
    hit - before <= i <= hit + after
  }

  predicate Covered(hits: seq<int>, before: int, after: int, i: int) {
    exists k :: 0 <= k < |hits| && Near(hits[k], before, after, i)
  }

  /** The lines of a file of n lines that lie in the window of some hit. */
  function Selection(hits: seq<int>, before: int, after: int, n: nat): (r: seq<int>)
    ensures Increasing(r) && Below(r, n) && forall i :: i in r <==> 0 <= i < n && Covered(hits, before, after, i)
    ensures forall i :: i in r <==>
              0 <= i < n && exists k :: 0 <= k < |hits| && hits[k] - before <= i <= hits[k] + after
  {
    if n == 0 then []
    else Selection(hits, before, after, n - 1) + if Covered(hits, before, after, n - 1) then [n - 1] else []
  }

  // -------------------------------------------------------------------------
  // Streaming

  datatype Shown = Shown(index: int, hit: bool)

  function Indexes(shown: seq<Shown>): (r: seq<int>)
    ensures |r| == |shown|
  {
    seq(|shown|, i requires 0 <= i < |shown| => shown[i].index)
  }

  predicate Marked(shown: seq<Shown>, hits: seq<int>) {
    forall i :: 0 <= i < |shown| ==> (shown[i].hit <==> shown[i].index in hits)
  }

  function LastOf(indexes: seq<int>): int {
    if indexes == [] then -1 else indexes[|indexes| - 1]
  }

  /** The lines of the first k windows have been shown, up to `emitted`. */
  ghost predicate Streamed(indexes: seq<int>, emitted: int, hits: seq<int>, k: nat, before: int, after: int, n: nat)
    requires k <= |hits|
  {
    && Increasing(indexes)
    && (forall i :: i in indexes <==> 0 <= i < n && Covered(hits[..k], before, after, i))
    && emitted == LastOf(indexes)
  }

  /** The part of the next window up to `next` has been shown as well. */
  ghost predicate Streaming(indexes: seq<int>, emitted: int, was: seq<int>, start: int, next: int) {
    && Increasing(indexes)
    && (forall i :: i in indexes <==> i in was || start <= i < next)
    && emitted == LastOf(indexes)
    && emitted < next
  }

  lemma CoveredGrows(hits: seq<int>, k: nat, before: int, after: int, i: int)
    requires k < |hits|
    ensures Covered(hits[..k + 1], before, after, i)
       <==> Covered(hits[..k], before, after, i) || Near(hits[k], before, after, i)
  {
    if Covered(hits[..k], before, after, i) {
      var j :| 0 <= j < k && Near(hits[..k][j], before, after, i);
      assert Near(hits[..k + 1][j], before, after, i);
    }
    if Near(hits[k], before, after, i) {
      assert Near(hits[..k + 1][k], before, after, i);
    }
    if Covered(hits[..k + 1], before, after, i) {
      var j :| 0 <= j < k + 1 && Near(hits[..k + 1][j], before, after, i);
      assert j < k ==> hits[..k][j] == hits[j];
    }
  }

  /** What the next window shares with the lines already shown was shown. */
  lemma EarlierPartIsShown(
    indexes: seq<int>, emitted: int, hits: seq<int>, k: nat, before: int, after: int, n: nat, i: int)
    requires k < |hits| && Increasing(hits) && Streamed(indexes, emitted, hits, k, before, after, n)
    requires 0 <= i < n && i <= emitted && Near(hits[k], before, after, i)
    ensures i in indexes
  {
    assert emitted in indexes;
    var j :| 0 <= j < k && Near(hits[..k][j], before, after, emitted);
    assert Near(hits[..k][j], before, after, i);
  }

  lemma WindowEnds(was: seq<int>, emitted: int, indexes: seq<int>, last: int, hits: seq<int>, k: nat,
                   before: int, after: int, n: nat)
    requires k < |hits| && Increasing(hits) && Streamed(was, emitted, hits, k, before, after, n)
    requires var start, end := WindowStart(hits[k], before, emitted), WindowEnd(hits[k], after, n);
             Streaming(indexes, last, was, start, if end + 1 > start then end + 1 else start)
    ensures Streamed(indexes, last, hits, k + 1, before, after, n)
  {
    forall i ensures i in indexes <==> 0 <= i < n && Covered(hits[..k + 1], before, after, i) {
      CoveredGrows(hits, k, before, after, i);
      if 0 <= i < n && Near(hits[k], before, after, i) && i <= emitted {
        EarlierPartIsShown(was, emitted, hits, k, before, after, n, i);
      }
    }
  }

  function WindowStart(hit: int, before: int, emitted: int): int {
    var start := if hit - before < 0 then 0 else hit - before;
    if start <= emitted then emitted + 1 else start
  }

  function WindowEnd(hit: int, after: int, n: nat): int {
    if hit + after >= n then n - 1 else hit + after
  }

  /** Shows the part of one window that was not shown before. */
  method ShowWindow(shown: seq<Shown>, emitted: int, hitSet: set<int>, start: int, end: int)
    returns (more: seq<Shown>, last: int)
    requires Increasing(Indexes(shown)) && emitted == LastOf(Indexes(shown)) && emitted < start
    ensures Streaming(Indexes(more), last, Indexes(shown), start, if end + 1 > start then end + 1 else start)
    ensures shown <= more && forall i :: |shown| <= i < |more| ==> (more[i].hit <==> more[i].index in hitSet)
  {
    more, last := shown, emitted;
    var i := start;
    while i <= end
      invariant start <= i && i <= (if end + 1 > start then end + 1 else start)
      invariant Streaming(Indexes(more), last, Indexes(shown), start, i)
      invariant shown <= more && forall k :: |shown| <= k < |more| ==> (more[k].hit <==> more[k].index in hitSet)
    {
      IndexesGrow(more, Shown(i, i in hitSet));
      StreamOne(Indexes(more), last, Indexes(shown), start, i);
      more := more + [Shown(i, i in hitSet)];
      last := i;
      i := i + 1;
    }
  }

  lemma StreamOne(indexes: seq<int>, last: int, was: seq<int>, start: int, i: int)
    requires Streaming(indexes, last, was, start, i) && start <= i
    ensures Streaming(indexes + [i], i, was, start, i + 1)
  {
  }

  /** One round: the window of the k-th hit. */
  method ShowHit(
    shown: seq<Shown>, emitted: int, hitSet: set<int>, hits: seq<int>, k: nat, before: int, after: int, n: nat)
    returns (more: seq<Shown>, last: int)
    requires k < |hits| && Increasing(hits) && Streamed(Indexes(shown), emitted, hits, k, before, after, n)
    requires Marked(shown, hits) && forall i :: i in hitSet <==> i in hits
    ensures Streamed(Indexes(more), last, hits, k + 1, before, after, n) && Marked(more, hits)
  {
    var start := hits[k] - before;
    if start < 0 {
      start := 0;
    }
    if start <= emitted {
      start := emitted + 1;
    }
    var end := hits[k] + after;
    if end >= n {
      end := n - 1;
    }
    more, last := ShowWindow(shown, emitted, hitSet, start, end);
    WindowEnds(Indexes(shown), emitted, Indexes(more), last, hits, k, before, after, n);
  }

  /** One pass over the hits shows every line of their windows once, in order,
      marked by whether it is a hit itself, and stops at the cap. */
  method MergeWindows(n: nat, hits: seq<int>, before: int, after: int, total: nat, maxMatches: nat)
    returns (shown: seq<Shown>, newTotal: nat, truncated: bool)
    requires Increasing(hits) && Below(hits, n) && total < maxMatches
    ensures newTotal == if total + |hits| < maxMatches then total + |hits| else maxMatches
    ensures Indexes(shown) == Selection(hits[..newTotal - total], before, after, n)
    ensures forall i :: 0 <= i < |shown| ==> (shown[i].hit <==> shown[i].index in hits)
    ensures truncated <==> total + |hits| >= maxMatches
  {
    shown := [];
    newTotal := total;
    truncated := false;
    var hitSet := HitSet(hits);
    var emitted := -1;
    for k := 0 to |hits|
      invariant Streamed(Indexes(shown), emitted, hits, k, before, after, n)
      invariant Marked(shown, hits)
      invariant newTotal == total + k && total + k < maxMatches && !truncated
    {
      shown, emitted := ShowHit(shown, emitted, hitSet, hits, k, before, after, n);
      newTotal := newTotal + 1;
      if newTotal >= maxMatches {
        StreamedIsSelection(Indexes(shown), emitted, hits, k + 1, before, after, n);
        return shown, newTotal, true;
      }
    }
    StreamedIsSelection(Indexes(shown), emitted, hits, |hits|, before, after, n);
  }

  lemma StreamedIsSelection(indexes: seq<int>, emitted: int, hits: seq<int>, k: nat, before: int, after: int, n: nat)
    requires k <= |hits| && Streamed(indexes, emitted, hits, k, before, after, n)
    ensures indexes == Selection(hits[..k], before, after, n)
  {
    IncreasingIsUnique(indexes, Selection(hits[..k], before, after, n));
  }

  method HitSet(hits: seq<int>) returns (hitSet: set<int>)
    ensures forall i :: i in hitSet <==> i in hits
  {
    hitSet := {};
    for k := 0 to |hits|
      invariant forall i :: i in hitSet <==> i in hits[..k]
    {
      hitSet := hitSet + {hits[k]};
      assert hits[..k + 1] == hits[..k] + [hits[k]];
    }
    assert hits[..|hits|] == hits;
  }

  lemma IndexesGrow(shown: seq<Shown>, last: Shown)
    ensures Indexes(shown + [last]) == Indexes(shown) + [last.index]
  {
  }

  // -------------------------------------------------------------------------
  // Collecting

  /** The keys of the set, all below n, in increasing order. */
  function Sorted(keys: set<int>, n: nat): (r: seq<int>)
    requires forall x :: x in keys ==> 0 <= x < n
    ensures Increasing(r) && Below(r, n) && forall x :: x in r <==> x in keys
  {
    if n == 0 then []
    else Sorted(keys - {n - 1}, n - 1) + if n - 1 in keys then [n - 1] else []
  }

  lemma HitsGrow(flags: seq<bool>, i: nat)
    requires i < |flags|
    ensures HitsOf(flags[..i + 1]) == if flags[i] then HitsOf(flags[..i]) + [i] else HitsOf(flags[..i])
  {
    assert flags[..i + 1][..i] == flags[..i];
  }

  lemma CoveredByNextHit(hits: seq<int>, hit: int, before: int, after: int)
    ensures forall i :: Covered(hits + [hit], before, after, i)
                   <==> Covered(hits, before, after, i) || Near(hit, before, after, i)
  {
    var all := hits + [hit];
    assert all[..|all|] == all && all[..|hits|] == hits;
    forall i ensures Covered(all, before, after, i)
        <==> Covered(hits, before, after, i) || Near(hit, before, after, i) {
      CoveredGrows(all, |hits|, before, after, i);
    }
  }

  /** Adds one window, cut to the file's lines, to a set of line indexes. */
  method AddWindow(was: set<int>, i: int, n: nat, before: int, after: int) returns (selected: set<int>)
    ensures forall x :: x in selected <==> x in was || (0 <= x < n && Near(i, before, after, x))
  {
    var start := if 0 > i - before then 0 else i - before;
    var end := if n - 1 < i + after then n - 1 else i + after;
    selected := was;
    var j := start;
    while j <= end
      invariant start <= j && j <= (if end + 1 > start then end + 1 else start)
      invariant forall x :: x in selected <==> x in was || start <= x < j
    {
      selected := selected + {j};
      j := j + 1;
    }
  }

  method Collect(flags: seq<bool>, before: int, after: int) returns (selected: set<int>)
    ensures forall j :: j in selected <==> 0 <= j < |flags| && Covered(HitsOf(flags), before, after, j)
  {
    selected := {};
    for i := 0 to |flags|
      invariant forall j :: j in selected <==> 0 <= j < |flags| && Covered(HitsOf(flags[..i]), before, after, j)
    {
      HitsGrow(flags, i);
      if !flags[i] {
        continue;
      }
      CoveredByNextHit(HitsOf(flags[..i]), i, before, after);
      selected := AddWindow(selected, i, |flags|, before, after);
    }
    assert flags[..|flags|] == flags;
  }

  /** The output filter: collect, sort, cut at the cap. The lines it picks are
      the streaming merge's own selection. */
  method ApplyFilter(lines: seq<string>, flags: seq<bool>, before: int, after: int, maxLines: int)
    returns (out: seq<string>, truncated: bool)
    requires |lines| == |flags|
    ensures var all := Selection(HitsOf(flags), before, after, |lines|);
            && (truncated <==> 0 < maxLines < |all|)
            && |out| == (if truncated then maxLines else |all|)
            && forall i :: 0 <= i < |out| ==> out[i] == lines[all[i]]
  {
    var selected := Collect(flags, before, after);
    var indexes := Sorted(selected, |lines|);
    IncreasingIsUnique(indexes, Selection(HitsOf(flags), before, after, |lines|));
    truncated := false;
    if maxLines > 0 && |indexes| > maxLines {
      truncated := true;
      indexes := indexes[..maxLines];
    }
    out := [];
    for i := 0 to |indexes|
      invariant |out| == i
      invariant forall j :: 0 <= j < i ==> out[j] == lines[indexes[j]]
    {
      out := out + [lines[indexes[i]]];
    }
  }
}
