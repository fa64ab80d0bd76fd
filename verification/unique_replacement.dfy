// Replacing one text by another when it occurs once (filesystem/edit.go).
module UniqueReplacement {
  import opened Wrappers
  import opened TextLines

  datatype ReplaceError = EmptyOldText | NotFound | Ambiguous

  predicate OccursAt(s: string, sub: string, k: nat) {
    k + |sub| <= |s| && s[k..k + |sub|] == sub
  }

  /** strings.Count for a non-empty text: occurrences that do not overlap. */
  function Count(s: string, sub: string): nat
    requires sub != ""
  {
    if |s| < |sub| then 0
    else if s[..|sub|] == sub then 1 + Count(s[|sub|..], sub)
    else Count(s[1..], sub)
  }

  /** strings.Replace with limit one: the first occurrence. */
  function ReplaceFirst(s: string, sub: string, repl: string): string
    requires sub != ""
  {
    if |s| < |sub| then s
    else if s[..|sub|] == sub then repl + s[|sub|..]
    else [s[0]] + ReplaceFirst(s[1..], sub, repl)
  }

  predicate Contains(s: string, sub: string) {
    exists k: nat :: k <= |s| && OccursAt(s, sub, k)
  }

  function ApplyUniqueReplacement(snapshot: string, oldText: string, newText: string): Result<string, ReplaceError> {
    var sub, repl := NormalizeLf(oldText), NormalizeLf(newText);
    if sub == "" then
      if snapshot == "" then Ok(repl) else Err(EmptyOldText)
    else
      var count := Count(snapshot, sub);
      if count == 1 then Ok(ReplaceFirst(snapshot, sub, repl))
      else if count == 0 && Contains(snapshot, repl) then Ok(snapshot)
      else if count == 0 then Err(NotFound)
      else Err(Ambiguous)
  }

  ghost predicate First(s: string, sub: string, k: nat) {
    OccursAt(s, sub, k) && forall j: nat :: j < k ==> !OccursAt(s, sub, j)
  }

  lemma OccursShifted(s: string, sub: string, n: nat, k: nat)
    requires n <= |s|
    ensures OccursAt(s[n..], sub, k) <==> OccursAt(s, sub, n + k)
  {
    if n + k + |sub| <= |s| {
      assert s[n..][k..k + |sub|] == s[n + k..n + k + |sub|];
    }
  }

  /** Counting looks at the first occurrence and goes on behind it. */
  lemma {:induction false} CountFromFirst(s: string, sub: string)
    requires sub != ""
    ensures Count(s, sub) == 0 <==> forall k: nat :: !OccursAt(s, sub, k)
    ensures forall k: nat :: First(s, sub, k) ==> Count(s, sub) == 1 + Count(s[k + |sub|..], sub)
  {
    if |s| >= |sub| {
      assert s[0..|sub|] == s[..|sub|];
      if s[..|sub|] == sub {
        assert OccursAt(s, sub, 0);
      } else {
        assert !OccursAt(s, sub, 0);
        CountFromFirst(s[1..], sub);
        forall k: nat ensures k > 0 ==> (OccursAt(s, sub, k) <==> OccursAt(s[1..], sub, k - 1)) {
          if k > 0 { OccursShifted(s, sub, 1, k - 1); }
        }
        if Count(s, sub) == 0 {
          forall k: nat ensures !OccursAt(s, sub, k) {
            if k > 0 { assert !OccursAt(s[1..], sub, k - 1); }
          }
        } else {
          var j: nat :| OccursAt(s[1..], sub, j);
          OccursShifted(s, sub, 1, j);
          assert OccursAt(s, sub, j + 1);
        }
        forall k: nat | First(s, sub, k) ensures Count(s, sub) == 1 + Count(s[k + |sub|..], sub) {
          assert OccursAt(s[1..], sub, k - 1);
          forall j: nat | j < k - 1 ensures !OccursAt(s[1..], sub, j) { OccursShifted(s, sub, 1, j); }
          assert First(s[1..], sub, k - 1);
          assert s[1..][k - 1 + |sub|..] == s[k + |sub|..];
        }
      }
    }
  }

  lemma {:induction false} FirstExists(s: string, sub: string, k: nat) returns (first: nat)
    requires OccursAt(s, sub, k)
    ensures First(s, sub, first) && first <= k
  {
    if j: nat :| j < k && OccursAt(s, sub, j) {
      first := FirstExists(s, sub, j);
    } else {
      first := k;
    }
  }

  lemma {:induction false} ReplaceAtFirst(s: string, sub: string, repl: string, k: nat)
    requires sub != "" && First(s, sub, k)
    ensures ReplaceFirst(s, sub, repl) == s[..k] + repl + s[k + |sub|..]
  {
    assert s[0..|sub|] == s[..|sub|];
    if k > 0 {
      assert !OccursAt(s, sub, 0);
      OccursShifted(s, sub, 1, k - 1);
      forall j: nat | j < k - 1 ensures !OccursAt(s[1..], sub, j) { OccursShifted(s, sub, 1, j); }
      ReplaceAtFirst(s[1..], sub, repl, k - 1);
      assert s[1..][..k - 1] == s[1..k] && s[1..][k - 1 + |sub|..] == s[k + |sub|..];
      assert [s[0]] + (s[1..k] + repl + s[k + |sub|..]) == s[..k] + repl + s[k + |sub|..];
    } else {
      assert s[..0] + repl == repl;
    }
  }

  ghost predicate Unique(s: string, sub: string) {
    exists k: nat :: OccursAt(s, sub, k) && forall j: nat :: OccursAt(s, sub, j) ==> j == k
  }

  /** The text starts again inside itself at distance d. */
  predicate Bordered(sub: string, d: nat) {
    0 < d < |sub| && sub[d..] == sub[..|sub| - d]
  }

  /** A unique occurrence is always accepted and replaced where it is. */
  lemma UniqueIsReplaced(snapshot: string, sub: string, repl: string, k: nat)
    requires sub != "" && OccursAt(snapshot, sub, k) && forall j: nat :: OccursAt(snapshot, sub, j) ==> j == k
    ensures Count(snapshot, sub) == 1
    ensures ReplaceFirst(snapshot, sub, repl) == snapshot[..k] + repl + snapshot[k + |sub|..]
  {
    CountFromFirst(snapshot, sub);
    assert First(snapshot, sub, k);
    var rest := snapshot[k + |sub|..];
    CountFromFirst(rest, sub);
    forall j: nat ensures !OccursAt(rest, sub, j) { OccursShifted(snapshot, sub, k + |sub|, j); }
    ReplaceAtFirst(snapshot, sub, repl, k);
  }

  lemma OverlapIsBorder(s: string, sub: string, k: nat, j: nat)
    requires OccursAt(s, sub, k) && OccursAt(s, sub, j) && k < j < k + |sub|
    ensures Bordered(sub, j - k)
  {
    var d := j - k;
    assert sub[d..] == s[j..k + |sub|];
    assert sub[..|sub| - d] == s[j..k + |sub|];
  }

  lemma CountOneUnbordered(s: string, sub: string)
    requires sub != "" && Count(s, sub) == 1 && forall d: nat :: !Bordered(sub, d)
    ensures Unique(s, sub)
  {
    CountFromFirst(s, sub);
    var some: nat :| OccursAt(s, sub, some);
    var k := FirstExists(s, sub, some);
    var rest := s[k + |sub|..];
    CountFromFirst(rest, sub);
    forall j: nat | OccursAt(s, sub, j) ensures j == k {
      if j >= k + |sub| {
        OccursShifted(s, sub, k + |sub|, j - k - |sub|);
      } else if j > k {
        OverlapIsBorder(s, sub, k, j);
      }
    }
  }

  /** The guard counts without overlaps, so "occurs once" means what it says
      exactly for texts that do not start again inside themselves: `aa` is
      accepted in `aaa`, where it occurs twice. */
  lemma GuardIsUniquenessExactlyWithoutBorder(sub: string)
    requires sub != ""
    ensures (forall s: string :: Count(s, sub) == 1 <==> Unique(s, sub)) <==> forall d: nat :: !Bordered(sub, d)
  {
    if forall d: nat :: !Bordered(sub, d) {
      forall s: string ensures Count(s, sub) == 1 <==> Unique(s, sub) {
        if Count(s, sub) == 1 {
          CountOneUnbordered(s, sub);
        }
        if Unique(s, sub) {
          var k: nat :| OccursAt(s, sub, k) && forall j: nat :: OccursAt(s, sub, j) ==> j == k;
          UniqueIsReplaced(s, sub, "", k);
        }
      }
    } else {
      var d: nat :| Bordered(sub, d);
      var s := sub[..d] + sub;
      OverlapIsCountedOnce(sub, d);
      assert Count(s, sub) == 1 && !Unique(s, sub);
    }
  }

  lemma OverlapIsCountedOnce(sub: string, d: nat)
    requires Bordered(sub, d)
    ensures Count(sub[..d] + sub, sub) == 1 && !Unique(sub[..d] + sub, sub)
  {
    var s := sub[..d] + sub;
    assert s[..|sub|] == sub[..d] + sub[..|sub| - d];
    assert sub == sub[..d] + sub[d..];
    assert s[0..|sub|] == s[..|sub|];
    assert OccursAt(s, sub, 0);
    assert s[d..d + |sub|] == sub;
    assert OccursAt(s, sub, d);
  }

  lemma ApartMeansTwo(s: string, sub: string, k: nat, l: nat)
    requires sub != "" && OccursAt(s, sub, k) && OccursAt(s, sub, l) && k + |sub| <= l
    ensures Count(s, sub) >= 2
  {
    var first := FirstExists(s, sub, k);
    CountFromFirst(s, sub);
    var behind := first + |sub|;
    CountFromFirst(s[behind..], sub);
    OccursShifted(s, sub, behind, l - behind);
  }

  lemma TwoMeansApart(s: string, sub: string) returns (k: nat, l: nat)
    requires sub != "" && Count(s, sub) >= 2
    ensures OccursAt(s, sub, k) && OccursAt(s, sub, l) && k + |sub| <= l
  {
    CountFromFirst(s, sub);
    var some: nat :| OccursAt(s, sub, some);
    k := FirstExists(s, sub, some);
    var behind := k + |sub|;
    CountFromFirst(s[behind..], sub);
    var j: nat :| OccursAt(s[behind..], sub, j);
    OccursShifted(s, sub, behind, j);
    l := behind + j;
  }

  ghost predicate OccursTwiceApart(s: string, sub: string) {
    exists k: nat, l: nat :: OccursAt(s, sub, k) && OccursAt(s, sub, l) && k + |sub| <= l
  }

  lemma CountTwoMeansApart(s: string, sub: string)
    requires sub != ""
    ensures Count(s, sub) >= 2 <==> OccursTwiceApart(s, sub)
  {
    if Count(s, sub) >= 2 {
      var k, l := TwoMeansApart(s, sub);
    }
    if OccursTwiceApart(s, sub) {
      var k: nat, l: nat :| OccursAt(s, sub, k) && OccursAt(s, sub, l) && k + |sub| <= l;
      ApartMeansTwo(s, sub, k, l);
    }
  }

  /** The whole outcome: an empty old text only ever replaces an empty snapshot;
      any other is replaced, found already replaced, not found or ambiguous. */
  lemma ReplacementOutcome(snapshot: string, oldText: string, newText: string)
    ensures var r := ApplyUniqueReplacement(snapshot, oldText, newText);
            var sub, repl := NormalizeLf(oldText), NormalizeLf(newText);
            && (sub == "" ==> r == if snapshot == "" then Ok(repl) else Err(EmptyOldText))
            && (sub != "" ==>
                  && (r == Err(Ambiguous) <==> OccursTwiceApart(snapshot, sub))
                  && (r == Err(NotFound) <==> !Contains(snapshot, sub) && !Contains(snapshot, repl))
                  && r != Err(EmptyOldText)
                  && (r.Ok? && Contains(snapshot, sub) ==>
                        exists k: nat :: First(snapshot, sub, k)
                            && r.value == snapshot[..k] + repl + snapshot[k + |sub|..])
                  && (r.Ok? && !Contains(snapshot, sub) ==> r.value == snapshot && Contains(snapshot, repl)))
  {
    var sub, repl := NormalizeLf(oldText), NormalizeLf(newText);
    if sub != "" {
      CountTwoMeansApart(snapshot, sub);
      CountFromFirst(snapshot, sub);
      if Contains(snapshot, sub) {
        var some: nat :| some <= |snapshot| && OccursAt(snapshot, sub, some);
        var k := FirstExists(snapshot, sub, some);
        ReplaceAtFirst(snapshot, sub, repl, k);
      } else {
        forall k: nat ensures !OccursAt(snapshot, sub, k) { assert OccursAt(snapshot, sub, k) ==> k <= |snapshot|; }
      }
    }
  }
}
