// Deciding whether a path is ignored: the last rule that matches wins
// (fileops/gitignore.go, filesystem/ignore.go).
module IgnoreRules {
  import opened Wrappers
  import opened Paths

  /** What one rule says about one path. */
  datatype Hit = Hit(matched: bool, negate: bool)

  /** The verdict of the last rule that matches, if any does. */
  function Decision(hits: seq<Hit>): Option<bool> {
    if hits == [] then None
    else if hits[|hits| - 1].matched then Some(!hits[|hits| - 1].negate)
    else Decision(hits[..|hits| - 1])
  }

  predicate Ignored(hits: seq<Hit>) { Decision(hits) == Some(true) }

  predicate LastMatch(hits: seq<Hit>, i: int) {
    0 <= i < |hits| && hits[i].matched && forall j :: i < j < |hits| ==> !hits[j].matched
  }

  lemma {:induction false} LastMatchDecides(hits: seq<Hit>)
    ensures Ignored(hits) <==> exists i :: LastMatch(hits, i) && !hits[i].negate
    ensures Decision(hits).None? <==> forall i :: 0 <= i < |hits| ==> !hits[i].matched
  {
    if hits != [] {
      var last := |hits| - 1;
      var init := hits[..last];
      LastMatchDecides(init);
      if hits[last].matched {
        assert LastMatch(hits, last);
        assert forall i :: LastMatch(hits, i) ==> i == last;
      } else {
        forall i | LastMatch(hits, i) ensures LastMatch(init, i) {}
        forall i | LastMatch(init, i) ensures LastMatch(hits, i) {
          assert forall j :: i < j < last ==> hits[j] == init[j];
        }
      }
    }
  }

  /** Later rules come first in the decision. */
  lemma {:induction false} DecisionOfConcat(a: seq<Hit>, b: seq<Hit>)
    ensures Decision(a + b) == if Decision(b).Some? then Decision(b) else Decision(a)
  {
    if b == [] {
      assert a + b == a;
    } else {
      DecisionOfConcat(a, b[..|b| - 1]);
      assert (a + b)[..|a + b| - 1] == a + b[..|b| - 1];
    }
  }

  // -------------------------------------------------------------------------
  // One list of rules, scanned forward

  datatype FlatRule = FlatRule(whole: string -> bool, direct: string -> bool, negate: bool, dirOnly: bool)

  function FlatHit(rule: FlatRule, name: string, isDir: bool): Hit {
    Hit(rule.whole(name) && !(rule.dirOnly && !isDir && rule.direct(name)), rule.negate)
  }

  function FlatHits(rules: seq<FlatRule>, name: string, isDir: bool): (hits: seq<Hit>)
    ensures |hits| == |rules|
  {
    seq(|rules|, i requires 0 <= i < |rules| => FlatHit(rules[i], name, isDir))
  }

  /** Rule i is the last that matches the name, as itself or as something below
      a directory; a rule for directories matches no file as itself. */
  ghost predicate Decides(rules: seq<FlatRule>, name: string, isDir: bool, i: int) {
    && 0 <= i < |rules|
    && rules[i].whole(name) && (isDir || !rules[i].dirOnly || !rules[i].direct(name))
    && forall j :: i < j < |rules| ==>
         !rules[j].whole(name) || (!isDir && rules[j].dirOnly && rules[j].direct(name))
  }

  lemma LastFlatMatchDecides(rules: seq<FlatRule>, name: string, isDir: bool)
    ensures Ignored(FlatHits(rules, name, isDir)) <==>
              exists i :: Decides(rules, name, isDir, i) && !rules[i].negate
  {
    var hits := FlatHits(rules, name, isDir);
    LastMatchDecides(hits);
    forall i ensures Decides(rules, name, isDir, i) <==> LastMatch(hits, i) {
      assert forall j :: 0 <= j < |rules| ==> hits[j] == FlatHit(rules[j], name, isDir);
    }
  }

  /** Overwriting a flag rule by rule leaves the last match's verdict. */
  method ScanForward(rules: seq<FlatRule>, name: string, isDir: bool) returns (ignored: bool)
    ensures ignored == Ignored(FlatHits(rules, name, isDir))
    ensures ignored <==> exists i :: Decides(rules, name, isDir, i) && !rules[i].negate
  {
    ignored := false;
    ghost var hits := FlatHits(rules, name, isDir);
    for i := 0 to |rules|
      invariant ignored == Ignored(hits[..i])
    {
      assert hits[..i + 1][..i] == hits[..i] && hits[..i + 1][i] == FlatHit(rules[i], name, isDir);
      if !rules[i].whole(name) {
        continue;
      }
      if rules[i].dirOnly && !isDir && rules[i].direct(name) {
        continue;
      }
      ignored := !rules[i].negate;
    }
    assert hits[..|rules|] == hits;
    LastFlatMatchDecides(rules, name, isDir);
  }

  // -------------------------------------------------------------------------
  // A stack of levels, scanned backward

  datatype Rule = Rule(pattern: string -> bool, negate: bool, dirOnly: bool, byBase: bool)

  datatype Level = Level(path: string, rules: seq<Rule>)

  function RuleHit(rule: Rule, rel: string, isDir: bool): Hit {
    Hit(!(rule.dirOnly && !isDir) && rule.pattern(if rule.byBase then Base(rel) else rel), rule.negate)
  }

  function RuleHits(rules: seq<Rule>, rel: string, isDir: bool): (hits: seq<Hit>)
    ensures |hits| == |rules|
  {
    seq(|rules|, i requires 0 <= i < |rules| => RuleHit(rules[i], rel, isDir))
  }

  /** A level sees only what lies below its directory. */
  function LevelHits(level: Level, path: string, isDir: bool): seq<Hit> {
    if level.path == "." then RuleHits(level.rules, path, isDir)
    else
      var rel := TrimPrefix(path, level.path + "/");
      if rel == path then [] else RuleHits(level.rules, rel, isDir)
  }

  /** All rules of all levels, root first. */
  function Hits(levels: seq<Level>, path: string, isDir: bool): seq<Hit> {
    if levels == [] then []
    else Hits(levels[..|levels| - 1], path, isDir) + LevelHits(levels[|levels| - 1], path, isDir)
  }

  method ScanLevel(rules: seq<Rule>, rel: string, isDir: bool) returns (verdict: Option<bool>)
    ensures verdict == Decision(RuleHits(rules, rel, isDir))
  {
    ghost var hits := RuleHits(rules, rel, isDir);
    var j := |rules|;
    assert hits[..j] == hits;
    while j > 0
      invariant j <= |rules| && Decision(hits) == Decision(hits[..j])
    {
      j := j - 1;
      assert hits[..j + 1][..j] == hits[..j] && hits[..j + 1][j] == RuleHit(rules[j], rel, isDir);
      var p := rules[j];
      if p.dirOnly && !isDir {
        continue;
      }
      var candidate := rel;
      if p.byBase {
        candidate := Base(rel);
      }
      if p.pattern(candidate) {
        return Some(!p.negate);
      }
    }
    return None;
  }

  lemma HitsPeel(levels: seq<Level>, i: nat, path: string, isDir: bool)
    requires i < |levels|
    ensures Decision(Hits(levels[..i + 1], path, isDir))
         == var top := Decision(LevelHits(levels[i], path, isDir));
            if top.Some? then top else Decision(Hits(levels[..i], path, isDir))
  {
    assert levels[..i + 1][..i] == levels[..i];
    DecisionOfConcat(Hits(levels[..i], path, isDir), LevelHits(levels[i], path, isDir));
  }

  /** Deepest level first, last rule first: the first match found is the last
      match of the root-first concatenation. */
  method ScanBackward(levels: seq<Level>, path: string, isDir: bool) returns (ignored: bool)
    ensures ignored == Ignored(Hits(levels, path, isDir))
  {
    var i := |levels|;
    assert levels[..i] == levels;
    while i > 0
      invariant i <= |levels|
      invariant Decision(Hits(levels, path, isDir)) == Decision(Hits(levels[..i], path, isDir))
    {
      i := i - 1;
      HitsPeel(levels, i, path, isDir);
      var rel := path;
      if levels[i].path != "." {
        rel := TrimPrefix(path, levels[i].path + "/");
        if rel == path {
          continue;
        }
      }
      var verdict := ScanLevel(levels[i].rules, rel, isDir);
      if verdict.Some? {
        return verdict.value;
      }
    }
    return false;
  }
}
