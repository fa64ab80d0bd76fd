// Slash-separated relative paths, as strings and as lists of names.
module Paths {
  /** A directory entry's name; "." names no entry. */
  predicate Name(s: string) {
    s != "" && s != "." && '/' !in s
  }

  predicate Names(names: seq<string>) {
    forall i :: 0 <= i < |names| ==> Name(names[i])
  }

  /** Every name followed by a slash. */
  function Slashed(names: seq<string>): string {
    if names == [] then "" else names[0] + "/" + Slashed(names[1..])
  }

  function Join(names: seq<string>): string {
    if names == [] then ""
    else if |names| == 1 then names[0]
    else names[0] + "/" + Join(names[1..])
  }

  /** The path of an entry below the root, and of the root itself. */
  function PathOf(names: seq<string>): string {
    if names == [] then "." else Join(names)
  }

  /** strings.TrimPrefix. */
  function TrimPrefix(s: string, prefix: string): string {
    if prefix <= s then s[|prefix|..] else s
  }

  /** What follows the last slash: path.Base of a path that ends in a name. */
  function Base(s: string): string {
    if s == "" || s[|s| - 1] == '/' then "" else Base(s[..|s| - 1]) + [s[|s| - 1]]
  }

  lemma {:induction false} JoinIsSlashed(names: seq<string>)
    requires names != []
    ensures Join(names) + "/" == Slashed(names)
  {
    if |names| > 1 {
      JoinIsSlashed(names[1..]);
    } else {
      assert Slashed(names[1..]) == "";
    }
  }

  lemma {:induction false} SlashedConcat(a: seq<string>, b: seq<string>)
    ensures Slashed(a + b) == Slashed(a) + Slashed(b)
  {
    if a == [] {
      assert a + b == b;
    } else {
      SlashedConcat(a[1..], b);
      assert (a + b)[1..] == a[1..] + b;
      assert Slashed(a + b) == a[0] + "/" + Slashed(a[1..] + b);
    }
  }

  /** A name ends at the first slash. */
  lemma FirstName(a: string, x: string, b: string, y: string)
    requires '/' !in a && '/' !in b && a + "/" + x <= b + "/" + y
    ensures a == b && x <= y
  {
    var s, t := a + "/" + x, b + "/" + y;
    assert t[|b|] == '/' && s[|a|] == '/' && s[|a|] == t[|a|];
    assert |a| >= |b| && |b| >= |a|;
    assert a == s[..|a|] && b == t[..|b|];
    assert x == s[|a| + 1..] && y == t[|b| + 1..];
  }

  /** Comparing slash-terminated paths as strings is comparing them name by
      name: "a/" is no prefix of "ab/". */
  lemma {:induction false} SlashedPrefix(above: seq<string>, names: seq<string>)
    requires Names(above) && Names(names)
    ensures Slashed(above) <= Slashed(names) <==> above <= names
  {
    if above <= names {
      SlashedConcat(above, names[|above|..]);
      assert above + names[|above|..] == names;
    } else if Slashed(above) <= Slashed(names) {
      assert above != [];
      assert names != [];
      FirstName(above[0], Slashed(above[1..]), names[0], Slashed(names[1..]));
      SlashedPrefix(above[1..], names[1..]);
    }
  }

  lemma JoinHasNoBareDot(names: seq<string>)
    requires names != [] && Names(names)
    ensures Join(names) != "."
  {
    if |names| > 1 {
      assert Join(names)[|names[0]|] == '/';
      assert names[0] != "";
    }
  }

  /** The test that keeps a level on the stack holds exactly for the directory
      itself and its ancestors. */
  lemma PrefixMeansAbove(above: seq<string>, names: seq<string>)
    requires Names(above) && Names(names) && names != []
    ensures PathOf(above) == "." || PathOf(above) + "/" <= PathOf(names) + "/" <==> above <= names
  {
    if above != [] {
      JoinHasNoBareDot(above);
      JoinIsSlashed(above);
      JoinIsSlashed(names);
      SlashedPrefix(above, names);
    }
  }

  lemma ProperPrefix(a: string, b: string)
    requires a != b
    ensures a + "/" <= b + "/" <==> a + "/" <= b
  {
    assert (b + "/")[..|b|] == b;
    if a + "/" <= b + "/" { assert a == (b + "/")[..|a|]; }
  }

  /** A path names one entry. */
  lemma PathsAreUnique(a: seq<string>, b: seq<string>)
    requires Names(a) && Names(b) && PathOf(a) == PathOf(b)
    ensures a == b
  {
    if a == [] {
      if b != [] { JoinHasNoBareDot(b); }
    } else if b == [] {
      JoinHasNoBareDot(a);
    } else {
      JoinIsSlashed(a);
      JoinIsSlashed(b);
      SlashedPrefix(a, b);
      SlashedPrefix(b, a);
    }
  }

  /** Cutting an ancestor's path off leaves the path below it, and nothing else
      is ever cut off. */
  lemma TrimLeavesRelative(above: seq<string>, names: seq<string>)
    requires Names(above) && Names(names) && above != [] && above < names
    ensures PathOf(above) + "/" <= PathOf(names)
    ensures TrimPrefix(PathOf(names), PathOf(above) + "/") == Join(names[|above|..])
  {
    var below := names[|above|..];
    SlashedConcat(above, below);
    assert above + below == names;
    JoinIsSlashed(above);
    JoinIsSlashed(names);
    JoinIsSlashed(below);
    DropSlash(Join(names), Slashed(above), Join(below));
  }

  lemma DropSlash(s: string, a: string, b: string)
    requires s + "/" == a + (b + "/")
    ensures s == a + b && a <= s && s[|a|..] == b
  {
    assert s == (s + "/")[..|s|];
    assert a + b == (a + (b + "/"))[..|s|];
  }

  lemma {:induction false} BaseAfterSlash(prefix: string, name: string)
    requires '/' !in name && (prefix == "" || prefix[|prefix| - 1] == '/')
    ensures Base(prefix + name) == name
  {
    if name == "" {
      assert prefix + name == prefix;
    } else {
      var init := name[..|name| - 1];
      BaseAfterSlash(prefix, init);
      assert (prefix + name)[..|prefix + name| - 1] == prefix + init;
    }
  }

  lemma SlashedOne(name: string)
    ensures Slashed([name]) == name + "/"
  {
    assert Slashed([name][1..]) == "";
  }

  lemma SlashedLast(init: seq<string>, last: string)
    ensures Slashed(init + [last]) == Slashed(init) + (last + "/")
  {
    SlashedConcat(init, [last]);
    SlashedOne(last);
  }

  lemma JoinEndsInName(init: seq<string>, last: string)
    ensures Join(init + [last]) == Slashed(init) + last
  {
    JoinIsSlashed(init + [last]);
    SlashedLast(init, last);
    DropSlash(Join(init + [last]), Slashed(init), last);
  }

  lemma SlashedEndsInSlash(names: seq<string>)
    ensures Slashed(names) == "" || Slashed(names)[|Slashed(names)| - 1] == '/'
  {
    if names != [] {
      JoinIsSlashed(names);
      assert Slashed(names)[|Join(names)|] == '/';
    }
  }

  lemma BaseOfJoin(init: seq<string>, last: string)
    requires '/' !in last
    ensures Base(Join(init + [last])) == last
  {
    JoinEndsInName(init, last);
    SlashedEndsInSlash(init);
    BaseAfterSlash(Slashed(init), last);
  }

  lemma CutLast(names: seq<string>)
    requires names != []
    ensures names == names[..|names| - 1] + [names[|names| - 1]]
  {
  }

  lemma BaseIsLastName(names: seq<string>)
    requires Names(names) && names != []
    ensures Base(Join(names)) == names[|names| - 1]
  {
    BaseOfJoin(names[..|names| - 1], names[|names| - 1]);
    CutLast(names);
  }
}
