// Editing a file snapshot by hashline ranges (filesystem/edit.go).
module LineEditor {
  import opened Wrappers
  import opened Sequences
  import opened TextLines
  import opened Hashline

  /** One requested range; an empty `to` means the single line `from`, no
      content means deletion. */
  datatype Edit = Edit(from: string, to: string, content: Option<string>)

  /** Lines start..end of the snapshot, 0-based and half-open, to be replaced. */
  datatype Range = Range(start: nat, end: nat, content: seq<string>)

  /** Replacement text as lines; a final LF ends the last line, and an empty
      text is one empty line. */
  function ContentLines(content: Option<string>): seq<string> {
    match content
    case None => []
    case Some(text) =>
      var normalized := NormalizeLf(text);
      if normalized == "" then [""] else SplitTextLines(normalized)
  }

  /** The range an edit names in these lines, if it parses, is in bounds and
      not reversed, and both anchors match. */
  function Resolve(hash: string -> nat, lines: seq<string>, edit: Edit): (r: Option<Range>)
    ensures r.Some? ==> r.value.start < r.value.end <= |lines|
  {
    var from := ParseHashline(edit.from);
    var to := ParseHashline(if edit.to == "" then edit.from else edit.to);
    if from.None? || to.None? then None
    else if from.value.line > to.value.line then None
    else if from.value.line < 1 || to.value.line > |lines| then None
    else if LineAnchor(hash, lines[from.value.line - 1]) != from.value.anchor
            || LineAnchor(hash, lines[to.value.line - 1]) != to.value.anchor then None
    else Some(Range(from.value.line - 1, to.value.line, ContentLines(edit.content)))
  }

  predicate Disjoint(a: Range, b: Range) {
    a.end <= b.start || b.end <= a.start
  }

  /** Every edit resolves and no two edits touch the same line. */
  ghost predicate Acceptable(hash: string -> nat, lines: seq<string>, edits: seq<Edit>) {
    && (forall i :: 0 <= i < |edits| ==> Resolve(hash, lines, edits[i]).Some?)
    && (forall i, j :: 0 <= i < j < |edits| ==>
          Disjoint(Resolve(hash, lines, edits[i]).value, Resolve(hash, lines, edits[j]).value))
  }

  ghost predicate Ordered(ranges: seq<Range>) {
    forall i, j :: 0 <= i < j < |ranges| ==> ranges[i].end <= ranges[j].start
  }

  ghost predicate Within(ranges: seq<Range>, at: nat, n: nat) {
    && Ordered(ranges)
    && forall i :: 0 <= i < |ranges| ==> at <= ranges[i].start < ranges[i].end <= n
  }

  /** The simultaneous substitution of ordered ranges from line `at` on: gap,
      content, gap, content, and the rest. */
  ghost function Substituted(lines: seq<string>, at: nat, ranges: seq<Range>): seq<string>
    requires at <= |lines| && Within(ranges, at, |lines|)
    decreases |ranges|
  {
    if ranges == [] then lines[at..]
    else
      assert Within(ranges[1..], ranges[0].end, |lines|);
      lines[at..ranges[0].start] + ranges[0].content + Substituted(lines, ranges[0].end, ranges[1..])
  }

  /** The resolved ranges, in line order; membership is all that counts. */
  ghost predicate Arranges(hash: string -> nat, lines: seq<string>, edits: seq<Edit>, ranges: seq<Range>) {
    && Ordered(ranges)
    && (forall r :: r in ranges ==> r.start < r.end <= |lines|)
    && (forall r :: r in ranges <==> exists e :: e in edits && Resolve(hash, lines, e) == Some(r))
  }

  lemma ArrangedIsWithin(hash: string -> nat, lines: seq<string>, edits: seq<Edit>, ranges: seq<Range>)
    requires Arranges(hash, lines, edits, ranges)
    ensures Within(ranges, 0, |lines|)
  {
    forall i | 0 <= i < |ranges| ensures ranges[i].start < ranges[i].end <= |lines| { assert ranges[i] in ranges; }
  }

  // -------------------------------------------------------------------------
  // Order of the edits does not matter

  /** The same ranges, none of them empty. */
  ghost predicate SameRanges(a: seq<Range>, b: seq<Range>) {
    && Ordered(a) && Ordered(b)
    && (forall r :: r in a ==> r.start < r.end)
    && forall r :: r in a <==> r in b
  }

  lemma {:induction false} OrderedRangesAreUnique(a: seq<Range>, b: seq<Range>)
    requires SameRanges(a, b)
    ensures a == b
  {
    assert a != [] ==> a[0] in b;
    assert b != [] ==> b[0] in a;
    if a != [] {
      LastsAgree(a, b);
      var fa, fb := a[..|a| - 1], b[..|b| - 1];
      FrontsAgree(a, b, fa, fb);
      OrderedRangesAreUnique(fa, fb);
      SameFrontSameAll(a, b);
    }
  }

  lemma SameFrontSameAll(a: seq<Range>, b: seq<Range>)
    requires a != [] && b != [] && a[..|a| - 1] == b[..|b| - 1] && a[|a| - 1] == b[|b| - 1]
    ensures a == b
  {
    assert a == a[..|a| - 1] + [a[|a| - 1]] && b == b[..|b| - 1] + [b[|b| - 1]];
  }

  lemma FrontsAgree(a: seq<Range>, b: seq<Range>, fa: seq<Range>, fb: seq<Range>)
    requires SameRanges(a, b) && a != [] && b != [] && a[|a| - 1] == b[|b| - 1]
    requires fa == a[..|a| - 1] && fb == b[..|b| - 1]
    ensures SameRanges(fa, fb)
  {
    forall r ensures r in fa <==> r in fb {
      FrontMembers(a, r);
      FrontMembers(b, r);
    }
    forall r | r in fa ensures r.start < r.end { FrontMembers(a, r); }
  }

  lemma LastsAgree(a: seq<Range>, b: seq<Range>)
    requires Ordered(a) && Ordered(b) && a != [] && b != []
    requires forall r :: r in a ==> r.start < r.end
    requires forall r :: r in a <==> r in b
    ensures a[|a| - 1] == b[|b| - 1]
  {
    var x, y := a[|a| - 1], b[|b| - 1];
    LastComesLast(a, y);
    LastComesLast(b, x);
    assert x.start < x.end && y.start < y.end;
  }

  lemma LastComesLast(a: seq<Range>, r: Range)
    requires Ordered(a) && a != [] && r in a
    ensures r == a[|a| - 1] || r.end <= a[|a| - 1].start
  {
    var k :| 0 <= k < |a| && a[k] == r;
  }

  lemma FrontMembers(a: seq<Range>, r: Range)
    requires a != [] && Ordered(a) && forall q :: q in a ==> q.start < q.end
    ensures r in a[..|a| - 1] <==> r in a && r != a[|a| - 1]
  {
    var n := |a| - 1;
    assert a == a[..n] + [a[n]];
    if r in a[..n] {
      var k :| 0 <= k < n && a[k] == r;
      assert a[k] in a && a[k].end <= a[n].start;
    }
  }

  lemma {:induction false} TwicePresent<T>(items: seq<T>, x: T) returns (i: nat, j: nat)
    requires multiset(items)[x] >= 2
    ensures i < j < |items| && items[i] == x && items[j] == x
  {
    var n := |items| - 1;
    assert items == items[..n] + [items[n]];
    if items[n] == x {
      assert x in multiset(items[..n]);
      i :| 0 <= i < n && items[..n][i] == x;
      j := n;
    } else {
      i, j := TwicePresent(items[..n], x);
    }
  }

  /** Two places of a permutation come from two places of the original. */
  lemma SamePairs<T>(a: seq<T>, b: seq<T>, i: nat, j: nat) returns (k: nat, l: nat)
    requires multiset(a) == multiset(b) && i < j < |b|
    ensures k < |a| && l < |a| && k != l && a[k] == b[i] && a[l] == b[j]
  {
    assert b[i] in multiset(b) && b[j] in multiset(b);
    if b[i] == b[j] {
      CountsTwice(b, i, j);
      k, l := TwicePresent(a, b[i]);
    } else {
      assert b[i] in multiset(a) && b[j] in multiset(a);
      k :| 0 <= k < |a| && a[k] == b[i];
      l :| 0 <= l < |a| && a[l] == b[j];
    }
  }

  lemma AcceptanceIgnoresOrderOneWay(hash: string -> nat, lines: seq<string>, a: seq<Edit>, b: seq<Edit>)
    requires multiset(a) == multiset(b) && Acceptable(hash, lines, a)
    ensures Acceptable(hash, lines, b)
  {
    forall i | 0 <= i < |b| ensures Resolve(hash, lines, b[i]).Some? {
      assert b[i] in multiset(a);
      var k :| 0 <= k < |a| && a[k] == b[i];
    }
    forall i, j | 0 <= i < j < |b|
      ensures Disjoint(Resolve(hash, lines, b[i]).value, Resolve(hash, lines, b[j]).value)
    {
      var k, l := SamePairs(a, b, i, j);
    }
  }

  /** Acceptance and result depend on which edits are asked for, not on their
      order. */
  lemma EditsIgnoreOrder(
    hash: string -> nat, lines: seq<string>, a: seq<Edit>, b: seq<Edit>, x: seq<Range>, y: seq<Range>)
    requires multiset(a) == multiset(b)
    ensures Acceptable(hash, lines, a) <==> Acceptable(hash, lines, b)
    ensures Arranges(hash, lines, a, x) && Arranges(hash, lines, b, y) ==> x == y
  {
    if Acceptable(hash, lines, a) { AcceptanceIgnoresOrderOneWay(hash, lines, a, b); }
    if Acceptable(hash, lines, b) { AcceptanceIgnoresOrderOneWay(hash, lines, b, a); }
    if Arranges(hash, lines, a, x) && Arranges(hash, lines, b, y) {
      forall e ensures e in a <==> e in b { assert e in a <==> e in multiset(a); assert e in b <==> e in multiset(b); }
      OrderedRangesAreUnique(x, y);
    }
  }

  // -------------------------------------------------------------------------
  // The editor

  predicate SortedByStart(ranges: seq<Range>) {
    forall i, j :: 0 <= i < j < |ranges| ==> ranges[i].start <= ranges[j].start
  }

  function InsertByStart(sorted: seq<Range>, r: Range): (out: seq<Range>)
    ensures multiset(out) == multiset(sorted) + multiset{r}
  {
    if sorted == [] || r.start <= sorted[0].start then [r] + sorted
    else
      assert sorted == [sorted[0]] + sorted[1..];
      [sorted[0]] + InsertByStart(sorted[1..], r)
  }

  lemma {:induction false} InsertKeepsOrder(sorted: seq<Range>, r: Range)
    requires SortedByStart(sorted)
    ensures SortedByStart(InsertByStart(sorted, r))
  {
    if sorted != [] && r.start > sorted[0].start {
      InsertKeepsOrder(sorted[1..], r);
      var rest := InsertByStart(sorted[1..], r);
      forall j | 0 <= j < |rest| ensures sorted[0].start <= rest[j].start {
        assert rest[j] in multiset(rest);
        assert rest[j] == r || rest[j] in sorted[1..];
      }
    }
  }

  /** Sorts by start line; ranges with equal starts come in any order. */
  method SortByStart(ranges: seq<Range>) returns (sorted: seq<Range>)
    ensures SortedByStart(sorted) && multiset(sorted) == multiset(ranges)
  {
    sorted := [];
    for n := 0 to |ranges|
      invariant SortedByStart(sorted) && multiset(sorted) == multiset(ranges[..n])
    {
      assert ranges[..n + 1] == ranges[..n] + [ranges[n]];
      InsertKeepsOrder(sorted, ranges[n]);
      sorted := InsertByStart(sorted, ranges[n]);
    }
    assert ranges[..|ranges|] == ranges;
  }

  /** Resolves all edits, or refuses on the first that does not resolve. */
  method ResolveAll(hash: string -> nat, lines: seq<string>, edits: seq<Edit>) returns (r: Option<seq<Range>>)
    ensures r.Some? <==> forall i :: 0 <= i < |edits| ==> Resolve(hash, lines, edits[i]).Some?
    ensures r.Some? ==> |r.value| == |edits| && forall i :: 0 <= i < |edits| ==>
        Resolve(hash, lines, edits[i]) == Some(r.value[i])
  {
    var resolved: seq<Range> := [];
    for n := 0 to |edits|
      invariant |resolved| == n
      invariant forall i :: 0 <= i < n ==> Resolve(hash, lines, edits[i]) == Some(resolved[i])
    {
      var range := Resolve(hash, lines, edits[n]);
      if range.None? {
        return None;
      }
      resolved := resolved + [range.value];
    }
    return Some(resolved);
  }

  /** Neighbours in start order decide whether any two ranges overlap. */
  method Overlaps(sorted: seq<Range>) returns (overlap: bool)
    requires SortedByStart(sorted) && forall r :: r in sorted ==> r.start < r.end
    ensures !overlap <==> Ordered(sorted)
  {
    var i := 1;
    while i < |sorted|
      invariant 1 <= i
      invariant forall a, b :: 0 <= a < b < i && b < |sorted| ==> sorted[a].end <= sorted[b].start
    {
      if sorted[i].start < sorted[i - 1].end {
        return true;
      }
      assert sorted[i - 1] in sorted;
      forall a | 0 <= a < i ensures sorted[a].end <= sorted[i].start {
        if a < i - 1 { assert sorted[a].end <= sorted[i - 1].start; }
      }
      i := i + 1;
    }
    return false;
  }

  lemma PermutedPairs(a: seq<Range>, b: seq<Range>)
    requires multiset(a) == multiset(b) && forall r :: r in a ==> r.start < r.end
    requires SortedByStart(b)
    ensures Ordered(b) <==> forall i, j :: 0 <= i < j < |a| ==> Disjoint(a[i], a[j])
  {
    forall r ensures r in a <==> r in b { assert r in a <==> r in multiset(a); assert r in b <==> r in multiset(b); }
    if Ordered(b) {
      forall i, j | 0 <= i < j < |a| ensures Disjoint(a[i], a[j]) {
        assert a[i] in b && a[j] in b;
        var k, l := SamePairs(b, a, i, j);
        if k < l { assert b[k].end <= b[l].start; } else { assert b[l].end <= b[k].start; }
      }
    }
    if forall i, j :: 0 <= i < j < |a| ==> Disjoint(a[i], a[j]) {
      forall i, j | 0 <= i < j < |b| ensures b[i].end <= b[j].start {
        var k, l := SamePairs(a, b, i, j);
        assert b[i] in a && b[j] in a;
        if k < l { assert Disjoint(a[k], a[l]); } else { assert Disjoint(a[l], a[k]); }
      }
    }
  }

  lemma CutSlice<T>(s: seq<T>, i: nat, j: nat, k: nat)
    requires i <= j <= k <= |s|
    ensures s[i..k] == s[i..j] + s[j..k]
    ensures s[i..] == s[i..j] + s[j..]
  {
  }

  lemma SubstitutionStartsLater(lines: seq<string>, at: nat, later: nat, ranges: seq<Range>)
    requires at <= later <= |lines| && Within(ranges, later, |lines|)
    ensures Within(ranges, at, |lines|)
    ensures Substituted(lines, at, ranges) == lines[at..later] + Substituted(lines, later, ranges)
  {
    if ranges == [] {
      CutSlice(lines, at, later, |lines|);
    } else {
      var r := ranges[0];
      var tail := Substituted(lines, r.end, ranges[1..]);
      CutSlice(lines, at, later, r.start);
      Regroup(lines[at..later], lines[later..r.start], r.content);
      Regroup(lines[at..later], lines[later..r.start] + r.content, tail);
    }
  }

  /** Where the part already spliced begins. */
  function SplicedFrom(lines: seq<string>, ranges: seq<Range>, i: nat): nat
    requires i <= |ranges|
  {
    if i < |ranges| then ranges[i].start else |lines|
  }

  lemma SuffixWithin(lines: seq<string>, ranges: seq<Range>, i: nat)
    requires Within(ranges, 0, |lines|) && i <= |ranges|
    ensures SplicedFrom(lines, ranges, i) <= |lines|
    ensures Within(ranges[i..], SplicedFrom(lines, ranges, i), |lines|)
    ensures i > 0 ==> ranges[i - 1].end <= SplicedFrom(lines, ranges, i)
  {
  }

  /** A range at the very start of what is left comes first. */
  lemma SubstitutionAtStart(lines: seq<string>, ranges: seq<Range>, i: nat)
    requires i < |ranges| && Within(ranges, 0, |lines|)
    requires Within(ranges[i..], ranges[i].start, |lines|) && Within(ranges[i + 1..], ranges[i].end, |lines|)
    ensures Substituted(lines, ranges[i].start, ranges[i..]) ==
            ranges[i].content + Substituted(lines, ranges[i].end, ranges[i + 1..])
  {
    DropOne(ranges, i);
    var r := ranges[i];
    var tail := Substituted(lines, r.end, ranges[i + 1..]);
    assert lines[r.start..r.start] + r.content == r.content;
    assert Substituted(lines, r.start, ranges[i..]) == lines[r.start..r.start] + r.content + tail;
  }

  lemma DropOne<T>(s: seq<T>, i: nat)
    requires i < |s|
    ensures s[i..] != [] && s[i..][0] == s[i] && s[i..][1..] == s[i + 1..]
  {
  }

  lemma SpliceStep(lines: seq<string>, ranges: seq<Range>, i: nat, current: seq<string>)
    requires Within(ranges, 0, |lines|) && i < |ranges|
    requires SplicedFrom(lines, ranges, i + 1) <= |lines|
        && Within(ranges[i + 1..], SplicedFrom(lines, ranges, i + 1), |lines|)
    requires Within(ranges[i..], ranges[i].start, |lines|)
    requires current == lines[..SplicedFrom(lines, ranges, i + 1)]
                        + Substituted(lines, SplicedFrom(lines, ranges, i + 1), ranges[i + 1..])
    ensures var e := ranges[i];
            && e.end <= |current|
            && current[..e.start] + e.content + current[e.end..] ==
               lines[..e.start] + Substituted(lines, e.start, ranges[i..])
  {
    var e, b := ranges[i], SplicedFrom(lines, ranges, i + 1);
    SuffixWithin(lines, ranges, i + 1);
    SubstitutionStartsLater(lines, e.end, b, ranges[i + 1..]);
    SubstitutionAtStart(lines, ranges, i);
    var tail := Substituted(lines, b, ranges[i + 1..]);
    DropFromFront(lines, b, tail, e.start, e.end);
    Regroup(lines[..e.start], e.content, lines[e.end..b] + tail);
  }

  lemma DropFromFront<T>(s: seq<T>, b: nat, tail: seq<T>, i: nat, j: nat)
    requires i <= j <= b <= |s|
    ensures (s[..b] + tail)[..i] == s[..i] && (s[..b] + tail)[j..] == s[j..b] + tail
  {
  }

  /** Replaces the ranges from the last to the first, each in the lines the
      previous replacement left: the same as replacing all at once. */
  method Splice(lines: seq<string>, ranges: seq<Range>) returns (edited: seq<string>)
    requires Within(ranges, 0, |lines|)
    ensures edited == Substituted(lines, 0, ranges)
  {
    edited := lines;
    var i := |ranges|;
    SuffixWithin(lines, ranges, i);
    while i > 0
      invariant 0 <= i <= |ranges|
      invariant SplicedFrom(lines, ranges, i) <= |lines| && Within(ranges[i..], SplicedFrom(lines, ranges, i), |lines|)
      invariant edited
             == lines[..SplicedFrom(lines, ranges, i)] + Substituted(lines, SplicedFrom(lines, ranges, i), ranges[i..])
    {
      i := i - 1;
      SuffixWithin(lines, ranges, i);
      SpliceStep(lines, ranges, i, edited);
      edited := edited[..ranges[i].start] + ranges[i].content + edited[ranges[i].end..];
    }
    SubstitutionStartsLater(lines, 0, SplicedFrom(lines, ranges, 0), ranges);
    assert ranges[0..] == ranges;
  }

  /** The edited snapshot, or a refusal. Accepted exactly when the edits are
      acceptable, and then the substitution of the resolved ranges. */
  method ApplyHashlineEdits(hash: string -> nat, snapshot: string, edits: seq<Edit>)
    returns (r: Option<string>, ghost ranges: seq<Range>)
    ensures r.Some? <==> Acceptable(hash, SplitLf(snapshot), edits)
    ensures r.Some? ==>
              && Arranges(hash, SplitLf(snapshot), edits, ranges) && Within(ranges, 0, |SplitLf(snapshot)|)
              && r.value == JoinLf(Substituted(SplitLf(snapshot), 0, ranges))
  {
    var lines := SplitLf(snapshot);
    ranges := [];
    var resolved := ResolveAll(hash, lines, edits);
    if resolved.None? {
      return None, ranges;
    }
    var sorted := SortByStart(resolved.value);
    ResolvedMembers(hash, lines, edits, resolved.value, sorted);
    PermutedPairs(resolved.value, sorted);
    var overlap := Overlaps(sorted);
    if overlap {
      return None, ranges;
    }
    ArrangedIsWithin(hash, lines, edits, sorted);
    var edited := Splice(lines, sorted);
    return Some(JoinLf(edited)), sorted;
  }

  lemma ResolvedMembers(
    hash: string -> nat, lines: seq<string>, edits: seq<Edit>, resolved: seq<Range>, sorted: seq<Range>)
    requires |resolved| == |edits| && forall i :: 0 <= i < |edits| ==>
        Resolve(hash, lines, edits[i]) == Some(resolved[i])
    requires multiset(sorted) == multiset(resolved)
    ensures forall r :: r in sorted <==> r in resolved
    ensures forall r :: r in sorted ==> r.start < r.end <= |lines|
    ensures forall r :: r in sorted <==> exists e :: e in edits && Resolve(hash, lines, e) == Some(r)
  {
    forall r ensures r in sorted <==> r in resolved {
      assert r in sorted <==> r in multiset(sorted);
      assert r in resolved <==> r in multiset(resolved);
    }
    forall r ensures r in resolved <==> exists e :: e in edits && Resolve(hash, lines, e) == Some(r) {
      if r in resolved {
        var i :| 0 <= i < |resolved| && resolved[i] == r;
        assert edits[i] in edits;
      }
      if e :| e in edits && Resolve(hash, lines, e) == Some(r) {
        var i :| 0 <= i < |edits| && edits[i] == e;
        assert resolved[i] == r;
      }
    }
  }

  // -------------------------------------------------------------------------
  // The file around the edit

  function CountLf(s: string): nat {
    if s == "" then 0 else (if s[0] == '\n' then 1 else 0) + CountLf(s[1..])
  }

  function CountCrlf(s: string): nat {
    if |s| < 2 then 0
    else (if s[0] == '\r' && s[1] == '\n' then 1 else 0) + CountCrlf(s[1..])
  }

  /** The file's convention: CRLF if it has any and at least as many as bare LFs. */
  predicate UsesCrlf(raw: string) {
    var crlf := CountCrlf(raw);
    crlf > 0 && crlf >= CountLf(raw) - crlf
  }

  /** The text the editor works on: normalised, without the final LF. */
  function Body(raw: string): string {
    var normalized := NormalizeLf(raw);
    if EndsLf(normalized) then normalized[..|normalized| - 1] else normalized
  }

  /** The edited text back in the file's own convention. */
  function Reassemble(raw: string, edited: string): string {
    var ended := if EndsLf(raw) then edited + "\n" else TrimFinalLfs(edited);
    if UsesCrlf(raw) then ToCrlf(ended) else ended
  }

  /** The text part of an edit request with hashline ranges. */
  method EditHashlines(
    hash: string -> nat, raw: string, edits: seq<Edit>) returns (r: Option<string>, ghost ranges: seq<Range>)
    ensures r.Some? <==> raw != "" && edits != [] && Acceptable(hash, SplitLf(Body(raw)), edits)
    ensures r.Some? ==>
              && Arranges(hash, SplitLf(Body(raw)), edits, ranges) && Within(ranges, 0, |SplitLf(Body(raw))|)
              && r.value == Reassemble(raw, JoinLf(Substituted(SplitLf(Body(raw)), 0, ranges)))
  {
    ranges := [];
    if edits == [] {
      return None, ranges;
    }
    var finalNewline := EndsLf(raw);
    var normalized := NormalizeLf(raw);
    NormalizeKeepsEnd(raw);
    if finalNewline {
      normalized := normalized[..|normalized| - 1];
    }
    if raw == "" {
      return None, ranges;
    }
    var edited;
    edited, ranges := ApplyHashlineEdits(hash, normalized, edits);
    if edited.None? {
      return None, ranges;
    }
    var text := if finalNewline then edited.value + "\n" else TrimFinalLfs(edited.value);
    if UsesCrlf(raw) {
      text := ToCrlf(text);
    }
    return Some(text), ranges;
  }

  /** Every edit keeps the presence or absence of the final newline. */
  lemma EditsKeepFinalNewline(raw: string, edited: string)
    ensures EndsLf(Reassemble(raw, edited)) <==> EndsLf(raw)
  {
    var ended := if EndsLf(raw) then edited + "\n" else TrimFinalLfs(edited);
    TrimmedHasNoFinalLf(edited);
    ToCrlfKeepsEnd(ended);
  }

  /** What the reader numbers, the editor resolves: the same lines. */
  lemma ReadAndEditSeeTheSameLines(raw: string)
    requires raw != ""
    ensures SplitTextLines(NormalizeLf(raw)) == SplitLf(Body(raw))
  {
    NormalizeKeepsEnd(raw);
    LinesWithoutFinalLf(NormalizeLf(raw));
  }

  lemma MatchingAddressesResolve(hash: string -> nat, lines: seq<string>, start: nat, end: nat, edit: Edit)
    requires start < end <= |lines| && edit.to != ""
    requires ParseHashline(edit.from) == Some(Address(start + 1, LineAnchor(hash, lines[start])))
    requires ParseHashline(edit.to) == Some(Address(end, LineAnchor(hash, lines[end - 1])))
    ensures Resolve(hash, lines, edit) == Some(Range(start, end, ContentLines(edit.content)))
  {
  }

  /** Any two printed addresses of a file, in order, resolve to their range. */
  lemma PrintedAddressesResolve(hash: string -> nat, lines: seq<string>, start: nat, end: nat, content: Option<string>)
    requires start < end <= |lines| <= MAX_INT
    ensures var from := PrintHashline(start + 1, LineAnchor(hash, lines[start]));
            var to := PrintHashline(end, LineAnchor(hash, lines[end - 1]));
            Resolve(hash, lines, Edit(from, to, content)) == Some(Range(start, end, ContentLines(content)))
  {
    var first, last := LineAnchor(hash, lines[start]), LineAnchor(hash, lines[end - 1]);
    ParsePrint(start + 1, first);
    ParsePrint(end, last);
    var edit := Edit(PrintHashline(start + 1, first), PrintHashline(end, last), content);
    MatchingAddressesResolve(hash, lines, start, end, edit);
  }

  /** The edit's addresses are the printed addresses of the first and the last
      of the lines start..end; a missing second address repeats the first. */
  predicate Addresses(hash: string -> nat, lines: seq<string>, edit: Edit, start: nat, end: nat) {
    && start < end <= |lines|
    && edit.from == PrintHashline(start + 1, LineAnchor(hash, lines[start]))
    && (if edit.to == "" then end == start + 1 else edit.to == PrintHashline(end, LineAnchor(hash, lines[end - 1])))
  }

  /** An edit resolves exactly to the range whose printed addresses it carries. */
  lemma ResolvesExactly(hash: string -> nat, lines: seq<string>, edit: Edit, start: nat, end: nat)
    requires |lines| <= MAX_INT
    ensures Addresses(hash, lines, edit, start, end)
       <==> Resolve(hash, lines, edit) == Some(Range(start, end, ContentLines(edit.content)))
  {
    if Addresses(hash, lines, edit, start, end) {
      ParsePrint(start + 1, LineAnchor(hash, lines[start]));
      ParsePrint(end, LineAnchor(hash, lines[end - 1]));
    }
    if Resolve(hash, lines, edit) == Some(Range(start, end, ContentLines(edit.content))) {
      PrintParse(edit.from);
      if edit.to != "" { PrintParse(edit.to); }
    }
  }

  // -------------------------------------------------------------------------
  // What one edit does

  /** A text without the line feed that ends its last line. */
  function Core(text: string): string {
    if text != "" && text[|text| - 1] == '\n' then text[..|text| - 1] else text
  }

  /** Replacement text is never no line at all, and its lines are the text, but
      for a final LF; the CRLF form of the text has the same lines. */
  lemma ContentLinesAreTheText(text: string)
    requires '\r' !in text
    ensures var lines := ContentLines(Some(text));
            && lines != [] && (forall k :: 0 <= k < |lines| ==> OneLine(lines[k]))
            && JoinLf(lines) == if text != "" && text[|text| - 1] == '\n' then text[..|text| - 1] else text
    ensures ContentLines(Some(ToCrlf(text))) == ContentLines(Some(text))
  {
    NormalizeWithoutCr(text);
    CrlfForm(text);
    if text != "" { LinesAreTheText(text); }
  }

  /** The snapshot that `lines` make, after one edit of the lines `target`. */
  ghost predicate EditedTo(
    hash: string -> nat, before: seq<string>, target: seq<string>, after: seq<string>, edit: Edit, result: string)
  {
    var lines := SplitLf(JoinLf(before + target + after));
    && Acceptable(hash, lines, [edit])
    && forall ranges :: Arranges(hash, lines, [edit], ranges) ==>
        Within(ranges, 0, |lines|) && JoinLf(Substituted(lines, 0, ranges)) == result
  }

  /** One edit, from addresses to text: the lines before, the replacement text as
      it stands but for its final LF, the lines after; or, without a text, the
      lines before and the lines after. */
  lemma OneEditReplacesItsLines(
    hash: string -> nat, before: seq<string>, target: seq<string>, after: seq<string>, edit: Edit)
    requires target != [] && |before + target + after| <= MAX_INT
    requires forall line :: line in before + target + after ==> OneLine(line)
    requires Addresses(hash, before + target + after, edit, |before|, |before| + |target|)
    requires edit.content.Some? ==> '\r' !in edit.content.value
    ensures edit.content.None? ==> EditedTo(hash, before, target, after, edit, JoinLf(before + after))
    ensures edit.content.Some? ==>
              EditedTo(hash, before, target, after, edit, JoinLf(before + [Core(edit.content.value)] + after))
  {
    var lines := before + target + after;
    var range := Range(|before|, |before| + |target|, ContentLines(edit.content));
    SplitJoin(lines);
    ResolvesExactly(hash, lines, edit, range.start, range.end);
    OneRange(hash, lines, edit, range);
    assert lines[0..|before|] == before && lines[|before| + |target|..] == after;
    if edit.content.Some? {
      ContentLinesAreTheText(edit.content.value);
      JoinInside(before, range.content, after);
    } else {
      assert before + [] + after == before + after;
    }
  }

  lemma OneRange(hash: string -> nat, lines: seq<string>, edit: Edit, range: Range)
    requires Resolve(hash, lines, edit) == Some(range)
    ensures Acceptable(hash, lines, [edit])
    ensures forall ranges :: Arranges(hash, lines, [edit], ranges) ==>
        Within(ranges, 0, |lines|)
        && Substituted(lines, 0, ranges) == lines[0..range.start] + range.content + lines[range.end..]
  {
    forall ranges | Arranges(hash, lines, [edit], ranges)
      ensures Within(ranges, 0, |lines|)
      ensures Substituted(lines, 0, ranges) == lines[0..range.start] + range.content + lines[range.end..]
    {
      OnlyArrangement(hash, lines, edit, range, ranges);
      OneSubstitution(lines, range);
    }
  }

  lemma OnlyArrangement(hash: string -> nat, lines: seq<string>, edit: Edit, range: Range, ranges: seq<Range>)
    requires Resolve(hash, lines, edit) == Some(range) && Arranges(hash, lines, [edit], ranges)
    ensures ranges == [range]
  {
    assert edit in [edit] && range in ranges;
    forall r | r in ranges ensures r == range {
      var e :| e in [edit] && Resolve(hash, lines, e) == Some(r);
    }
    OnlyOne(ranges, range);
  }

  lemma OneSubstitution(lines: seq<string>, range: Range)
    requires range.start < range.end <= |lines|
    ensures Within([range], 0, |lines|)
    ensures Substituted(lines, 0, [range]) == lines[0..range.start] + range.content + lines[range.end..]
  {
    assert [range][1..] == [];
  }

  lemma OnlyOne(ranges: seq<Range>, range: Range)
    requires Ordered(ranges) && range in ranges && range.start < range.end
    requires forall r :: r in ranges ==> r == range
    ensures ranges == [range]
  {
    assert |ranges| > 1 ==> ranges[0].end <= ranges[1].start;
    forall i | 0 <= i < |ranges| ensures ranges[i] == range { assert ranges[i] in ranges; }
  }

  /** What becomes of an edited text in its file: a file with CRLFs, at least as
      many as its bare LFs, gets CRLFs throughout, any other gets LFs; and the
      text ends with a line feed as the file did, or loses its final ones. */
  lemma ReassemblyInPlainTerms(raw: string, edited: string)
    requires '\r' !in edited
    ensures var out := Reassemble(raw, edited);
            var crlfs := |raw| - |NormalizeLf(raw)|;
            && (if crlfs > 0 && crlfs >= multiset(raw)['\n'] - crlfs then NoStrayCr(out) && OnlyCrlf(out)
                else '\r' !in out)
            && (if raw != "" && raw[|raw| - 1] == '\n' then NormalizeLf(out) == edited + "\n"
                else NormalizeLf(out) <= edited && !EndsLf(NormalizeLf(out))
                     && forall k :: |NormalizeLf(out)| <= k < |edited| ==> edited[k] == '\n')
  {
    var ended := if EndsLf(raw) then edited + "\n" else TrimFinalLfs(edited);
    NormalizeCounts(raw);
    CountLfCounts(raw);
    TrimmedHasNoFinalLf(edited);
    CrlfForm(ended);
    NormalizeWithoutCr(ended);
  }

  lemma {:induction false} CountLfCounts(s: string)
    ensures CountLf(s) == multiset(s)['\n']
  {
    if s != "" {
      CountLfCounts(s[1..]);
      assert s == [s[0]] + s[1..];
    }
  }

  /** The same edit through the whole file, LF or CRLF throughout, whose last
      line is ended: the file it makes, byte for byte. */
  lemma OneEditOfAFile(
    hash: string -> nat, before: seq<string>, target: seq<string>, after: seq<string>, edit: Edit,
    crlf: bool, result: string)
    requires EditedTo(hash, before, target, after, edit, result) && target != []
    requires '\r' !in JoinLf(before + target + after) && '\r' !in result
    ensures var File := (text: string) => if crlf then ToCrlf(text + "\n") else text + "\n";
            var raw := File(JoinLf(before + target + after));
            var lines := SplitLf(Body(raw));
            && Acceptable(hash, lines, [edit])
            && forall ranges :: Arranges(hash, lines, [edit], ranges) ==>
                 Within(ranges, 0, |lines|)
                 && Reassemble(raw, JoinLf(Substituted(lines, 0, ranges))) == File(result)
  {
    var text := JoinLf(before + target + after);
    var raw := if crlf then ToCrlf(text + "\n") else text + "\n";
    CrlfForm(text + "\n");
    NormalizeWithoutCr(text + "\n");
    assert Body(raw) == text;
    FileKeepsItsConvention(text, crlf);
  }

  lemma FileKeepsItsConvention(text: string, crlf: bool)
    requires '\r' !in text
    ensures var raw := if crlf then ToCrlf(text + "\n") else text + "\n";
            EndsLf(raw) && (UsesCrlf(raw) <==> crlf)
  {
    ToCrlfKeepsEnd(text + "\n");
    if crlf {
      CrlfForm(text + "\n");
      var raw := ToCrlf(text + "\n");
      assert raw[|raw| - 1] == '\n' && raw[|raw| - 2] == '\r';
      CrlfCounts(raw);
    } else {
      NoCrNoCrlf(text + "\n");
    }
  }

  // -------------------------------------------------------------------------
  // Replacing lines by themselves

  lemma {:induction false} OwnContentChangesNothing(lines: seq<string>, at: nat, ranges: seq<Range>)
    requires at <= |lines| && Within(ranges, at, |lines|)
    requires forall i :: 0 <= i < |ranges| ==> ranges[i].content == lines[ranges[i].start..ranges[i].end]
    ensures Substituted(lines, at, ranges) == lines[at..]
    decreases |ranges|
  {
    if ranges != [] {
      var r := ranges[0];
      OwnContentChangesNothing(lines, r.end, ranges[1..]);
      assert lines[at..] == lines[at..r.start] + lines[r.start..r.end] + lines[r.end..];
    }
  }

  lemma ContentOfTerminated(lines: seq<string>)
    requires lines != [] && forall k :: 0 <= k < |lines| ==> OneLine(lines[k])
    requires '\r' !in Terminated(lines)
    ensures ContentLines(Some(Terminated(lines))) == lines
  {
    NormalizeWithoutCr(Terminated(lines));
    SplitOfTerminated(lines);
    assert (lines + [""])[..|lines|] == lines;
  }

  // What an edit does to the lines it does not touch

  lemma {:induction false} NormalizeCounts(s: string)
    ensures |NormalizeLf(s)| + CountCrlf(s) == |s| && CountLf(NormalizeLf(s)) == CountLf(s)
        && CountCrlf(s) <= CountLf(s)
  {
    if |s| >= 2 && s[0] == '\r' && s[1] == '\n' {
      NormalizeCounts(s[2..]);
      var rest := NormalizeLf(s[2..]);
      assert ("\n" + rest)[1..] == rest;
      assert s[1..][1..] == s[2..] && CountCrlf(s[1..]) == CountCrlf(s[2..]) && CountLf(s[1..]) == 1 + CountLf(s[2..]);
    } else if s != "" {
      NormalizeCounts(s[1..]);
      assert ([s[0]] + NormalizeLf(s[1..]))[1..] == NormalizeLf(s[1..]);
    }
  }

  lemma {:induction false} ToCrlfCounts(s: string)
    ensures |ToCrlf(s)| == |s| + CountLf(s)
  {
    if s != "" { ToCrlfCounts(s[1..]); }
  }

  lemma {:induction false} NormalizeKeepsExactly(s: string)
    ensures NormalizeLf(s) == s <==> CountCrlf(s) == 0
  {
    NormalizeCounts(s);
    if s != "" && !(|s| >= 2 && s[0] == '\r' && s[1] == '\n') {
      NormalizeKeepsExactly(s[1..]);
    }
  }

  lemma {:induction false} CrlfRestoresExactly(s: string)
    ensures ToCrlf(NormalizeLf(s)) == s <==> CountLf(s) == CountCrlf(s)
  {
    NormalizeCounts(s);
    ToCrlfCounts(NormalizeLf(s));
    if |s| >= 2 && s[0] == '\r' && s[1] == '\n' {
      CrlfRestoresExactly(s[2..]);
      var rest := NormalizeLf(s[2..]);
      assert ("\n" + rest)[1..] == rest;
      assert s[1..][1..] == s[2..] && CountCrlf(s[1..]) == CountCrlf(s[2..]);
      assert s == "\r\n" + s[2..];
    } else if s != "" {
      CrlfRestoresExactly(s[1..]);
      NormalizeCounts(s[1..]);
      assert ([s[0]] + NormalizeLf(s[1..]))[1..] == NormalizeLf(s[1..]);
      assert s == [s[0]] + s[1..];
    }
  }

  /** Line ends of both kinds. */
  predicate Mixed(raw: string) {
    0 < CountCrlf(raw) < CountLf(raw)
  }

  /** Taking a file apart and putting it together again gives it back exactly if
      its line ends are all of one kind: an edit of any other file rewrites line
      ends outside its ranges as well. */
  lemma ReassemblyIsExactUnlessMixed(raw: string)
    ensures Reassemble(raw, Body(raw)) == raw <==> !Mixed(raw)
  {
    NormalizeCounts(raw);
    NormalizeKeepsEnd(raw);
    NormalizeKeepsExactly(raw);
    CrlfRestoresExactly(raw);
    var normalized := NormalizeLf(raw);
    if EndsLf(raw) {
      assert Body(raw) + "\n" == normalized;
    }
  }

  /** One line-ending convention throughout. */
  predicate Uniform(raw: string) {
    NoStrayCr(raw) && ('\r' !in raw || OnlyCrlf(raw))
  }

  lemma {:induction false} NoCrNoCrlf(raw: string)
    requires '\r' !in raw
    ensures CountCrlf(raw) == 0
  {
    if |raw| >= 2 { NoCrNoCrlf(raw[1..]); }
  }

  /** Dropping the first character of a text of CRLFs leaves such a text, or one
      that starts with the LF of its first CRLF. */
  lemma {:induction false} CrlfCounts(raw: string)
    requires NoStrayCr(raw)
    requires forall k :: 0 < k < |raw| && raw[k] == '\n' ==> raw[k - 1] == '\r'
    ensures CountLf(raw) == CountCrlf(raw) + if raw != "" && raw[0] == '\n' then 1 else 0
    ensures '\r' in raw ==> CountCrlf(raw) > 0
  {
    if raw != "" {
      var rest := raw[1..];
      assert forall k :: 0 <= k < |rest| ==> rest[k] == raw[k + 1];
      CrlfCounts(rest);
      assert raw == [raw[0]] + rest;
      assert rest != "" && rest[0] == '\n' ==> raw[1] == '\n';
    }
  }

  lemma UniformTextReassembles(raw: string)
    requires raw != "" && Uniform(raw)
    ensures Reassemble(raw, Body(raw)) == raw
  {
    NormalizeKeepsEnd(raw);
    var normalized := NormalizeLf(raw);
    if EndsLf(raw) {
      CutFinalLf(normalized);
    } else {
      TrimmedHasNoFinalLf(normalized);
    }
    if '\r' in raw {
      CrlfCounts(raw);
      CrlfRoundTrip(raw);
    } else {
      NoCrNoCrlf(raw);
      NormalizeWithoutCr(raw);
    }
  }

  lemma OwnContentInRanges(hash: string -> nat, lines: seq<string>, edits: seq<Edit>, ranges: seq<Range>)
    requires forall k :: 0 <= k < |lines| ==> OneLine(lines[k]) && '\r' !in lines[k]
    requires Arranges(hash, lines, edits, ranges)
    requires forall e :: e in edits && Resolve(hash, lines, e).Some? ==>
               var r := Resolve(hash, lines, e).value;
               e.content == Some(Terminated(lines[r.start..r.end]))
    ensures forall i :: 0 <= i < |ranges| ==>
              ranges[i].start < ranges[i].end <= |lines| && ranges[i].content == lines[ranges[i].start..ranges[i].end]
  {
    forall i | 0 <= i < |ranges|
      ensures ranges[i].start < ranges[i].end <= |lines| && ranges[i].content == lines[ranges[i].start..ranges[i].end]
    {
      var r := ranges[i];
      assert r in ranges;
      var e :| e in edits && Resolve(hash, lines, e) == Some(r);
      OwnContent(lines, r);
      assert r.content == ContentLines(e.content);
    }
  }

  lemma OwnContent(lines: seq<string>, r: Range)
    requires forall k :: 0 <= k < |lines| ==> OneLine(lines[k]) && '\r' !in lines[k]
    requires r.start < r.end <= |lines|
    ensures ContentLines(Some(Terminated(lines[r.start..r.end]))) == lines[r.start..r.end]
  {
    TerminatedHasNoCr(lines[r.start..r.end]);
    ContentOfTerminated(lines[r.start..r.end]);
  }

  /** Replacing any ranges of a uniformly terminated file by their own lines,
      each ended with LF, leaves the file byte for byte as it was. */
  lemma OwnLinesEditIsIdentity(hash: string -> nat, raw: string, edits: seq<Edit>, ranges: seq<Range>)
    requires raw != "" && Uniform(raw)
    requires Arranges(hash, SplitLf(Body(raw)), edits, ranges)
    requires forall e :: e in edits && Resolve(hash, SplitLf(Body(raw)), e).Some? ==>
               var r := Resolve(hash, SplitLf(Body(raw)), e).value;
               e.content == Some(Terminated(SplitLf(Body(raw))[r.start..r.end]))
    ensures Within(ranges, 0, |SplitLf(Body(raw))|)
    ensures Reassemble(raw, JoinLf(Substituted(SplitLf(Body(raw)), 0, ranges))) == raw
  {
    var lines := SplitLf(Body(raw));
    ArrangedIsWithin(hash, lines, edits, ranges);
    LinesHaveNoCr(raw);
    OwnContentInRanges(hash, lines, edits, ranges);
    OwnContentChangesNothing(lines, 0, ranges);
    assert lines[0..] == lines;
    JoinSplit(Body(raw));
    UniformTextReassembles(raw);
  }

  lemma LinesHaveNoCr(raw: string)
    requires NoStrayCr(raw)
    ensures forall k :: 0 <= k < |SplitLf(Body(raw))| ==> '\r' !in SplitLf(Body(raw))[k]
  {
    NormalizedHasNoCr(raw);
    PartsHaveNoCr(Body(raw));
  }

  lemma {:induction false} PartsHaveNoCr(s: string)
    requires '\r' !in s
    ensures forall k :: 0 <= k < |SplitLf(s)| ==> '\r' !in SplitLf(s)[k]
  {
    if s != "" { PartsHaveNoCr(s[1..]); }
  }

  lemma {:induction false} TerminatedHasNoCr(lines: seq<string>)
    requires forall k :: 0 <= k < |lines| ==> '\r' !in lines[k]
    ensures '\r' !in Terminated(lines)
  {
    if lines != [] { TerminatedHasNoCr(lines[1..]); }
  }
}
