// The small part of the regular expression language that globs compile to,
// with its meaning as a set of strings.
module Regex {
  /** One-character tests: a literal, `[^/]`, and `.`, which never matches a
      line feed. */
  datatype Class = Just(c: char) | NotSlash | Dot

  predicate Member(cls: Class, c: char) {
    match cls
    case Just(d) => c == d
    case NotSlash => c != '/'
    case Dot => c != '\n'
  }

  datatype Re = Empty | One(cls: Class) | Star(body: Re) | Opt(body: Re) | Cat(first: Re, rest: Re)

  /** The strings that a match of the whole text accepts. */
  ghost predicate Matches(re: Re, s: string)
    decreases re, |s|
  {
    match re
    case Empty => s == ""
    case One(cls) => |s| == 1 && Member(cls, s[0])
    case Opt(body) => s == "" || Matches(body, s)
    case Star(body) => s == "" || exists k :: 0 < k <= |s| && Matches(body, s[..k]) && Matches(re, s[k..])
    case Cat(first, rest) => exists k :: 0 <= k <= |s| && Matches(first, s[..k]) && Matches(rest, s[k..])
  }

  /** Which strings a concatenation accepts, with the split point given. */
  lemma CatAccepts(first: Re, rest: Re, s: string, k: nat)
    requires k <= |s| && Matches(first, s[..k]) && Matches(rest, s[k..])
    ensures Matches(Cat(first, rest), s)
  {
  }

  ghost function SplitPoint(first: Re, rest: Re, s: string): (k: nat)
    requires Matches(Cat(first, rest), s)
    ensures k <= |s| && Matches(first, s[..k]) && Matches(rest, s[k..])
  {
    var k :| 0 <= k <= |s| && Matches(first, s[..k]) && Matches(rest, s[k..]);
    k
  }

  lemma {:induction false} StarOfClass(cls: Class, s: string)
    ensures Matches(Star(One(cls)), s) <==> forall i :: 0 <= i < |s| ==> Member(cls, s[i])
  {
    if s != "" {
      StarOfClass(cls, s[1..]);
      if Matches(Star(One(cls)), s) {
        var k :| 0 < k <= |s| && Matches(One(cls), s[..k]) && Matches(Star(One(cls)), s[k..]);
        assert k == 1 && s[..k][0] == s[0];
        assert forall i :: 1 <= i < |s| ==> s[i] == s[1..][i - 1];
      } else {
        assert s[..1][0] == s[0];
        assert !(Matches(One(cls), s[..1]) && Matches(Star(One(cls)), s[1..]));
      }
    }
  }

  lemma OneThen(cls: Class, rest: Re, s: string)
    ensures Matches(Cat(One(cls), rest), s) <==> s != "" && Member(cls, s[0]) && Matches(rest, s[1..])
  {
    if s != "" && Member(cls, s[0]) && Matches(rest, s[1..]) {
      CatAccepts(One(cls), rest, s, 1);
    }
  }

  lemma StarTakes(cls: Class, s: string)
    requires s != ""
    ensures Matches(Star(One(cls)), s) <==> Member(cls, s[0]) && Matches(Star(One(cls)), s[1..])
  {
    StarOfClass(cls, s);
    StarOfClass(cls, s[1..]);
    if Member(cls, s[0]) && forall i :: 0 <= i < |s[1..]| ==> Member(cls, s[1..][i]) {
      forall i | 1 <= i < |s| ensures Member(cls, s[i]) { assert s[i] == s[1..][i - 1]; }
    }
  }

  lemma CutThenDrop(s: string, k: nat)
    requires 0 < k <= |s|
    ensures s[..k][0] == s[0] && s[..k][1..] == s[1..][..k - 1] && s[1..][k - 1..] == s[k..]
  {
  }

  lemma StarGives(cls: Class, rest: Re, s: string)
    requires Matches(Cat(Star(One(cls)), rest), s)
    ensures Matches(rest, s) || (s != "" && Member(cls, s[0]) && Matches(Cat(Star(One(cls)), rest), s[1..]))
  {
    var k := SplitPoint(Star(One(cls)), rest, s);
    if k == 0 {
      assert s[0..] == s;
    } else {
      CutThenDrop(s, k);
      StarTakes(cls, s[..k]);
      CatAccepts(Star(One(cls)), rest, s[1..], k - 1);
    }
  }

  lemma StarStops(cls: Class, rest: Re, s: string)
    requires Matches(rest, s)
    ensures Matches(Cat(Star(One(cls)), rest), s)
  {
    assert s[..0] == "" && s[0..] == s;
    CatAccepts(Star(One(cls)), rest, s, 0);
  }

  lemma StarGoesOn(cls: Class, rest: Re, s: string)
    requires s != "" && Member(cls, s[0]) && Matches(Cat(Star(One(cls)), rest), s[1..])
    ensures Matches(Cat(Star(One(cls)), rest), s)
  {
    var k := SplitPoint(Star(One(cls)), rest, s[1..]);
    CutThenDrop(s, k + 1);
    StarTakes(cls, s[..k + 1]);
    CatAccepts(Star(One(cls)), rest, s, k + 1);
  }

  /** A starred class either stops here or takes one more character. */
  lemma StarThen(cls: Class, rest: Re, s: string)
    ensures Matches(Cat(Star(One(cls)), rest), s)
       <==> Matches(rest, s) || (s != "" && Member(cls, s[0]) && Matches(Cat(Star(One(cls)), rest), s[1..]))
  {
    if Matches(Cat(Star(One(cls)), rest), s) {
      StarGives(cls, rest, s);
    } else {
      if Matches(rest, s) { StarStops(cls, rest, s); }
      if s != "" && Member(cls, s[0]) && Matches(Cat(Star(One(cls)), rest), s[1..]) { StarGoesOn(cls, rest, s); }
    }
  }

  lemma OptThen(body: Re, rest: Re, s: string)
    ensures Matches(Cat(Opt(body), rest), s) <==> Matches(rest, s) || Matches(Cat(body, rest), s)
  {
    if Matches(Cat(Opt(body), rest), s) {
      var k := SplitPoint(Opt(body), rest, s);
      if s[..k] == "" {
        assert s[k..] == s;
      } else {
        CatAccepts(body, rest, s, k);
      }
    } else if Matches(rest, s) {
      assert s[..0] == "" && s[0..] == s;
      CatAccepts(Opt(body), rest, s, 0);
    } else if Matches(Cat(body, rest), s) {
      var k := SplitPoint(body, rest, s);
      CatAccepts(Opt(body), rest, s, k);
    }
  }

  lemma CutCuts(s: string, j: nat, k: nat)
    requires j <= k <= |s|
    ensures s[..k][..j] == s[..j] && s[..k][j..] == s[j..][..k - j] && s[j..][k - j..] == s[k..]
  {
  }

  lemma AcceptsLeft(a: Re, b: Re, s: string, j: nat, m: nat)
    requires j + m <= |s| && Matches(a, s[..j]) && Matches(b, s[j..][..m])
    ensures Matches(Cat(a, b), s[..j + m])
  {
    CutCuts(s, j, j + m);
    CatAccepts(a, b, s[..j + m], j);
  }

  lemma CatGroupsRight(a: Re, b: Re, c: Re, s: string)
    requires Matches(Cat(Cat(a, b), c), s)
    ensures Matches(Cat(a, Cat(b, c)), s)
  {
    var k := SplitPoint(Cat(a, b), c, s);
    var j := SplitPoint(a, b, s[..k]);
    CutCuts(s, j, k);
    CatAccepts(b, c, s[j..], k - j);
    CatAccepts(a, Cat(b, c), s, j);
  }

  lemma CatGroupsLeft(a: Re, b: Re, c: Re, s: string)
    requires Matches(Cat(a, Cat(b, c)), s)
    ensures Matches(Cat(Cat(a, b), c), s)
  {
    var j := SplitPoint(a, Cat(b, c), s);
    var m := SplitPoint(b, c, s[j..]);
    AcceptsLeft(a, b, s, j, m);
    CutCuts(s, j, j + m);
    CatAccepts(Cat(a, b), c, s, j + m);
  }

  lemma CatRegroups(a: Re, b: Re, c: Re, s: string)
    ensures Matches(Cat(Cat(a, b), c), s) <==> Matches(Cat(a, Cat(b, c)), s)
  {
    if Matches(Cat(Cat(a, b), c), s) {
      CatGroupsRight(a, b, c, s);
    } else if Matches(Cat(a, Cat(b, c)), s) {
      CatGroupsLeft(a, b, c, s);
    }
  }
}
