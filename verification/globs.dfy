// Globs compiled to regular expressions, twice (fileops/search.go,
// filesystem/ignore.go), against a matcher that reads the glob directly.
module Globs {
  import opened Wrappers
  import opened Regex

  /** What one piece of a glob compiles to. */
  datatype Atom = Literal(c: char) | AnyChar | Segment | Deep | DeepDirs

  // -------------------------------------------------------------------------
  // The text of the regular expression

  predicate Meta(c: char) { c in "\\.+*?()|[]{}^$" }

  function QuoteMeta(c: char): string { if Meta(c) then ['\\', c] else [c] }

  /** The characters that mean something to a regular expression, and no other,
      are escaped. */
  lemma SpecialsAreQuoted(c: char)
    ensures QuoteMeta(c)
         == if c in {'\\', '.', '+', '*', '?', '(', ')', '|', '[', ']', '{', '}', '^', '$'} then ['\\', c] else [c]
  {
  }

  function AtomText(a: Atom): string {
    match a
    case Literal(c) => QuoteMeta(c)
    case AnyChar => "[^/]"
    case Segment => "[^/]*"
    case Deep => ".*"
    case DeepDirs => "(?:.*/)?"
  }

  function Text(atoms: seq<Atom>): string {
    if atoms == [] then "" else AtomText(atoms[0]) + Text(atoms[1..])
  }

  function Cons(a: Atom, rest: Option<seq<Atom>>): Option<seq<Atom>> {
    match rest
    case None => None
    case Some(atoms) => Some([a] + atoms)
  }

  /** Reads such an expression back, longest form first, as a regular
      expression parser does. */
  function Parse(text: string): Option<seq<Atom>> {
    if text == "" then Some([])
    else if "(?:.*/)?" <= text then Cons(DeepDirs, Parse(text[8..]))
    else if "[^/]*" <= text then Cons(Segment, Parse(text[5..]))
    else if "[^/]" <= text then Cons(AnyChar, Parse(text[4..]))
    else if ".*" <= text then Cons(Deep, Parse(text[2..]))
    else if text[0] == '\\' then
      if |text| >= 2 && Meta(text[1]) then Cons(Literal(text[1]), Parse(text[2..])) else None
    else if Meta(text[0]) then None
    else Cons(Literal(text[0]), Parse(text[1..]))
  }

  lemma ParseLiteral(c: char, rest: string)
    ensures Parse(QuoteMeta(c) + rest) == Cons(Literal(c), Parse(rest))
  {
    var text := QuoteMeta(c) + rest;
    assert text[|QuoteMeta(c)|..] == rest;
    assert text[0] == QuoteMeta(c)[0];
    if Meta(c) {
      assert text[1] == c;
    } else {
      assert !Meta(text[0]);
    }
  }

  lemma ParseForm(a: Atom, rest: string)
    requires !a.Literal? && (rest == "" || rest[0] != '*')
    ensures Parse(AtomText(a) + rest) == Cons(a, Parse(rest))
  {
    var text := AtomText(a) + rest;
    assert text[|AtomText(a)|..] == rest;
    assert AtomText(a) <= text;
    assert text[0] == AtomText(a)[0];
    if a.AnyChar? {
      assert rest != "" ==> text[4] == rest[0];
      assert !("[^/]*" <= text);
    }
  }

  lemma ParseAtom(a: Atom, rest: string)
    requires rest == "" || rest[0] != '*'
    ensures Parse(AtomText(a) + rest) == Cons(a, Parse(rest))
  {
    if a.Literal? {
      ParseLiteral(a.c, rest);
    } else {
      ParseForm(a, rest);
    }
  }

  lemma TextNeverStartsWithStar(atoms: seq<Atom>)
    ensures Text(atoms) == "" || Text(atoms)[0] != '*'
  {
    if atoms != [] {
      var a := atoms[0];
      assert AtomText(a) != "" && AtomText(a)[0] != '*' by {
        if a.Literal? && a.c == '*' { assert Meta('*'); }
      }
    }
  }

  /** No two sequences of pieces write the same expression: the text always
      reads back as the pieces it was written from. */
  lemma {:induction false} TextParsesBack(atoms: seq<Atom>)
    ensures Parse(Text(atoms)) == Some(atoms)
  {
    if atoms != [] {
      TextParsesBack(atoms[1..]);
      TextNeverStartsWithStar(atoms[1..]);
      ParseAtom(atoms[0], Text(atoms[1..]));
      assert [atoms[0]] + atoms[1..] == atoms;
    }
  }

  // -------------------------------------------------------------------------
  // Compiling

  predicate At(glob: string, i: nat, c: char) { i < |glob| && glob[i] == c }

  /** The piece at an index and where the next one starts. */
  function Head(glob: string, i: nat): (r: (Atom, nat))
    requires i < |glob|
    ensures i < r.1 <= |glob|
  {
    if glob[i] == '*' then
      if At(glob, i + 1, '*') then
        if At(glob, i + 2, '/') then (DeepDirs, i + 3) else (Deep, i + 2)
      else (Segment, i + 1)
    else if glob[i] == '?' then (AnyChar, i + 1)
    else if glob[i] == '\\' && i + 1 < |glob| then (Literal(glob[i + 1]), i + 2)
    else (Literal(glob[i]), i + 1)
  }

  function Atoms(glob: string, i: nat): seq<Atom>
    requires i <= |glob|
    decreases |glob| - i
  {
    if i == |glob| then [] else [Head(glob, i).0] + Atoms(glob, Head(glob, i).1)
  }

  /** `text` says what the glob says up to index i. */
  ghost predicate Written(text: string, glob: string, i: nat) {
    i <= |glob| && text + Text(Atoms(glob, i)) == Text(Atoms(glob, 0))
  }

  lemma WriteStarts(glob: string)
    ensures Written("", glob, 0)
  {
    assert "" + Text(Atoms(glob, 0)) == Text(Atoms(glob, 0));
  }

  lemma WriteNext(text: string, glob: string, i: nat)
    requires i < |glob| && Written(text, glob, i)
    ensures Written(text + AtomText(Head(glob, i).0), glob, Head(glob, i).1)
  {
    var piece, rest := AtomText(Head(glob, i).0), Text(Atoms(glob, Head(glob, i).1));
    assert Text(Atoms(glob, i)) == piece + rest;
    assert (text + piece) + rest == text + (piece + rest);
  }

  lemma WriteEnds(text: string, glob: string)
    requires Written(text, glob, |glob|)
    ensures Parse(text) == Some(Atoms(glob, 0))
  {
    TextParsesBack(Atoms(glob, 0));
    assert text + "" == text;
  }

  /** An unescaped opening bracket at or after index i. */
  predicate Opens(glob: string, i: nat)
    requires i <= |glob|
    decreases |glob| - i
  {
    i < |glob| && (glob[i] == '[' || Opens(glob, Head(glob, i).1))
  }

  /** In a glob that escapes nothing every opening bracket counts. */
  lemma {:induction false} OpensWithoutEscapes(glob: string, i: nat)
    requires i <= |glob| && '\\' !in glob
    ensures Opens(glob, i) <==> '[' in glob[i..]
    decreases |glob| - i
  {
    if i < |glob| {
      var next := Head(glob, i).1;
      OpensWithoutEscapes(glob, next);
      assert glob[i..] == glob[i..next] + glob[next..];
      assert glob[i] != '[' ==> '[' !in glob[i..next];
    }
  }

  /** No bracket is ever closed, so there is no character class. */
  predicate ClassFree(glob: string) {
    forall i, j :: 0 <= i < j < |glob| ==> !(glob[i] == '[' && glob[j] == ']')
  }

  predicate Ascii(glob: string) { forall i :: 0 <= i < |glob| ==> glob[i] < 128 as char }

  method TranslateGlob(glob: string) returns (text: string)
    requires ClassFree(glob) && Ascii(glob)
    ensures Parse(text) == Some(Atoms(glob, 0))
  {
    text := "";
    var i := 0;
    WriteStarts(glob);
    while i < |glob|
      invariant Written(text, glob, i)
    {
      WriteNext(text, glob, i);
      ghost var (piece, next) := Head(glob, i);
      ghost var was := text;
      var c := glob[i];
      if c == '*' {
        if i + 1 < |glob| && glob[i + 1] == '*' {
          if i + 2 < |glob| && glob[i + 2] == '/' {
            text := text + "(?:.*/)?";
            i := i + 2;
          } else {
            text := text + ".*";
            i := i + 1;
          }
        } else {
          text := text + "[^/]*";
        }
      } else if c == '?' {
        text := text + "[^/]";
      } else if c == '[' {
        text := text + "\\[";
      } else if c == '\\' {
        if i + 1 < |glob| {
          i := i + 1;
          text := text + QuoteMeta(glob[i]);
        } else {
          text := text + QuoteMeta('\\');
        }
      } else {
        text := text + QuoteMeta(c);
      }
      i := i + 1;
      assert text == was + AtomText(piece) && i == next;
    }
    WriteEnds(text, glob);
  }

  /** The second compiler: the same expression, or an error for a bracket that
      is never closed. */
  method GlobBody(glob: string) returns (r: Result<string, string>)
    requires ClassFree(glob) && Ascii(glob)
    ensures r.Err? <==> Opens(glob, 0)
    ensures r.Ok? ==> Parse(r.value) == Some(Atoms(glob, 0))
  {
    var out := "";
    var i := 0;
    WriteStarts(glob);
    while i < |glob|
      invariant Written(out, glob, i)
      invariant Opens(glob, i) == Opens(glob, 0)
    {
      WriteNext(out, glob, i);
      ghost var (piece, next) := Head(glob, i);
      ghost var was := out;
      if glob[i] == '*' {
        if i + 1 < |glob| && glob[i + 1] == '*' {
          i := i + 2;
          if i < |glob| && glob[i] == '/' {
            i := i + 1;
            out := out + "(?:.*/)?";
          } else {
            out := out + ".*";
          }
        } else {
          i := i + 1;
          out := out + "[^/]*";
        }
      } else if glob[i] == '?' {
        i := i + 1;
        out := out + "[^/]";
      } else if glob[i] == '[' {
        return Err("unterminated character class");
      } else if glob[i] == '\\' {
        if i + 1 < |glob| {
          out := out + QuoteMeta(glob[i + 1]);
          i := i + 2;
        } else {
          out := out + "\\\\";
          i := i + 1;
        }
      } else {
        out := out + QuoteMeta(glob[i]);
        i := i + 1;
      }
      assert out == was + AtomText(piece) && i == next;
    }
    WriteEnds(out, glob);
    r := Ok(out);
  }

  // -------------------------------------------------------------------------
  // What the expression accepts

  function Meaning(a: Atom): Re {
    match a
    case Literal(c) => One(Just(c))
    case AnyChar => One(NotSlash)
    case Segment => Star(One(NotSlash))
    case Deep => Star(One(Dot))
    case DeepDirs => Opt(Cat(Star(One(Dot)), One(Just('/'))))
  }

  function Compile(atoms: seq<Atom>): Re {
    if atoms == [] then Empty else Cat(Meaning(atoms[0]), Compile(atoms[1..]))
  }

  function GlobRegex(glob: string, i: nat): Re
    requires i <= |glob|
  {
    Compile(Atoms(glob, i))
  }

  lemma RegexPeels(glob: string, i: nat)
    requires i < |glob|
    ensures GlobRegex(glob, i) == Cat(Meaning(Head(glob, i).0), GlobRegex(glob, Head(glob, i).1))
  {
  }

  predicate Crosses(c: char, lines: bool) { lines || c != '\n' }

  /** A path matched by reading the glob: star and question mark stay within a
      segment, a double star crosses segments (and line feeds if `lines`), a
      double star and slash skip whole directories, a backslash escapes. */
  predicate Accepts(glob: string, i: nat, path: string, lines: bool)
    requires i <= |glob|
    decreases |glob| - i, |path|, 0
  {
    if i == |glob| then path == ""
    else if At(glob, i, '*') && At(glob, i + 1, '*') && At(glob, i + 2, '/') then
      Accepts(glob, i + 3, path, lines) || SkipsDirs(glob, i + 3, path, lines)
    else if At(glob, i, '*') && At(glob, i + 1, '*') then
      || Accepts(glob, i + 2, path, lines)
      || (path != "" && Crosses(path[0], lines) && Accepts(glob, i, path[1..], lines))
    else if glob[i] == '*' then
      || Accepts(glob, i + 1, path, lines)
      || (path != "" && path[0] != '/' && Accepts(glob, i, path[1..], lines))
    else if glob[i] == '?' then
      path != "" && path[0] != '/' && Accepts(glob, i + 1, path[1..], lines)
    else if glob[i] == '\\' && i + 1 < |glob| then
      path != "" && path[0] == glob[i + 1] && Accepts(glob, i + 2, path[1..], lines)
    else
      path != "" && path[0] == glob[i] && Accepts(glob, i + 1, path[1..], lines)
  }

  /** The rest of the glob matches after some slash of the path. */
  predicate SkipsDirs(glob: string, i: nat, path: string, lines: bool)
    requires i <= |glob|
    decreases |glob| - i, |path|, 1
  {
    && path != ""
    && (|| (path[0] == '/' && Accepts(glob, i, path[1..], lines))
        || (Crosses(path[0], lines) && SkipsDirs(glob, i, path[1..], lines)))
  }

  lemma {:induction false} RegexSkipsDirs(glob: string, i: nat, path: string)
    requires i <= |glob|
    ensures Matches(Cat(Star(One(Dot)), Cat(One(Just('/')), GlobRegex(glob, i))), path)
       <==> SkipsDirs(glob, i, path, false)
    decreases |glob| - i, |path|, 1
  {
    var rest := GlobRegex(glob, i);
    StarThen(Dot, Cat(One(Just('/')), rest), path);
    OneThen(Just('/'), rest, path);
    if path != "" {
      RegexAccepts(glob, i, path[1..]);
      RegexSkipsDirs(glob, i, path[1..]);
    }
  }

  lemma {:induction false} RegexAccepts(glob: string, i: nat, path: string)
    requires i <= |glob|
    ensures Matches(GlobRegex(glob, i), path) <==> Accepts(glob, i, path, false)
    decreases |glob| - i, |path|, 0
  {
    if i < |glob| {
      RegexPeels(glob, i);
      var (a, next) := Head(glob, i);
      var rest := GlobRegex(glob, next);
      if a.DeepDirs? {
        OptThen(Cat(Star(One(Dot)), One(Just('/'))), rest, path);
        CatRegroups(Star(One(Dot)), One(Just('/')), rest, path);
        RegexSkipsDirs(glob, next, path);
        RegexAccepts(glob, next, path);
      } else if a.Deep? || a.Segment? {
        StarThen(if a.Deep? then Dot else NotSlash, rest, path);
        RegexAccepts(glob, next, path);
        if path != "" { RegexAccepts(glob, i, path[1..]); }
      } else {
        OneThen(if a.AnyChar? then NotSlash else Just(a.c), rest, path);
        if path != "" { RegexAccepts(glob, next, path[1..]); }
      }
    }
  }

  /** A double star that is a wildcard, at or after index i. */
  predicate HasDeep(glob: string, i: nat)
    requires i <= |glob|
    decreases |glob| - i
  {
    i < |glob| && (Head(glob, i).0.Deep? || Head(glob, i).0.DeepDirs? || HasDeep(glob, Head(glob, i).1))
  }

  lemma {:induction false} LinesOnlyMatterToDeep(glob: string, i: nat, path: string)
    requires i <= |glob| && ('\n' !in path || !HasDeep(glob, i))
    ensures Accepts(glob, i, path, true) == Accepts(glob, i, path, false)
    ensures '\n' !in path ==> SkipsDirs(glob, i, path, true) == SkipsDirs(glob, i, path, false)
    decreases |glob| - i, |path|
  {
    if i < |glob| {
      LinesOnlyMatterToDeep(glob, Head(glob, i).1, path);
      if path != "" { LinesOnlyMatterToDeep(glob, Head(glob, i).1, path[1..]); }
    }
    if path != "" { LinesOnlyMatterToDeep(glob, i, path[1..]); }
  }

  /** The expression both compilers write accepts exactly the paths the glob
      means, where a double star crosses any character but a line feed; on a
      path without one, and for a glob without a double star on any path, that
      is the glob's plain meaning. */
  lemma GlobRegexMeansGlob(glob: string, path: string)
    ensures Matches(GlobRegex(glob, 0), path) <==> Accepts(glob, 0, path, false)
    ensures '\n' !in path || !HasDeep(glob, 0) ==>
              (Matches(GlobRegex(glob, 0), path) <==> Accepts(glob, 0, path, true))
  {
    RegexAccepts(glob, 0, path);
    if '\n' !in path || !HasDeep(glob, 0) { LinesOnlyMatterToDeep(glob, 0, path); }
  }

  // -------------------------------------------------------------------------
  // Where the plain meaning is lost

  /** Line feeds that a slash follows. */
  function Pairs(path: string): nat {
    if path == "" then 0
    else (if |path| > 1 && path[0] == '\n' && path[1] == '/' then 1 else 0) + Pairs(path[1..])
  }

  /** The expression lets each piece of the glob take at most one line feed that
      a slash follows: a double star takes no line feed, and what stays within a
      segment ends before the slash. */
  lemma {:induction false} FewPairsAccepted(glob: string, i: nat, path: string)
    requires i <= |glob|
    ensures Accepts(glob, i, path, false) ==> Pairs(path) <= |glob| - i
    ensures SkipsDirs(glob, i, path, false) ==> Pairs(path) <= |glob| - i
    decreases |glob| - i, |path|
  {
    if i < |glob| { FewPairsAccepted(glob, Head(glob, i).1, path); }
    if path != "" {
      var later := path[1..];
      FewPairsAccepted(glob, i, later);
      assert |path| > 1 ==> later[0] == path[1];
      if i < |glob| {
        FewPairsAccepted(glob, Head(glob, i).1, later);
        OneMore(glob, i, path);
      }
    }
  }

  /** What the first character of an accepted path adds. */
  lemma OneMore(glob: string, i: nat, path: string)
    requires i < |glob| && path != ""
    requires var next, later := Head(glob, i).1, path[1..];
             && (Accepts(glob, next, path, false) ==> Pairs(path) <= |glob| - next)
             && (SkipsDirs(glob, next, path, false) ==> Pairs(path) <= |glob| - next)
             && (Accepts(glob, i, later, false) ==> Pairs(later) <= |glob| - i)
             && (Accepts(glob, next, later, false) ==> Pairs(later) <= |glob| - next)
    ensures Accepts(glob, i, path, false) ==> Pairs(path) <= |glob| - i
  {
    var later := path[1..];
    if Head(glob, i).0.Segment? && |path| > 1 && path[1] == '/' {
      assert later[0] == '/';
      assert Accepts(glob, i, later, false) <==> Accepts(glob, i + 1, later, false);
    }
  }

  function Block(n: nat): string {
    if n == 0 then "" else "\n/" + Block(n - 1)
  }

  /** A path the glob plainly means: n lines of directories for each double
      star, and the least for any other piece. */
  function Witness(glob: string, i: nat, n: nat): string
    requires i <= |glob|
    decreases |glob| - i
  {
    if i == |glob| then ""
    else
      var (a, next) := Head(glob, i);
      (match a
       case Literal(c) => [c]
       case AnyChar => "x"
       case Segment => ""
       case Deep => Block(n)
       case DeepDirs => Block(n)) + Witness(glob, next, n)
  }

  lemma BlockPeels(n: nat, rest: string)
    requires n > 0
    ensures Block(n) + rest == ['\n', '/'] + (Block(n - 1) + rest)
    ensures (Block(n) + rest)[1..] == ['/'] + (Block(n - 1) + rest)
    ensures (Block(n) + rest)[1..][1..] == Block(n - 1) + rest
  {
    assert "\n/" == ['\n', '/'];
  }

  lemma {:induction false} PairsGrow(prefix: string, rest: string)
    ensures Pairs(prefix + rest) >= Pairs(rest)
  {
    if prefix == "" {
      assert prefix + rest == rest;
    } else {
      PairsGrow(prefix[1..], rest);
      assert (prefix + rest)[1..] == prefix[1..] + rest;
    }
  }

  lemma {:induction false} PairsOfBlock(n: nat, rest: string)
    ensures Pairs(Block(n) + rest) >= n
  {
    if n > 0 {
      PairsOfBlock(n - 1, rest);
      BlockPeels(n, rest);
    }
  }

  lemma {:induction false} WitnessHasPairs(glob: string, i: nat, n: nat)
    requires i <= |glob| && HasDeep(glob, i)
    ensures Pairs(Witness(glob, i, n)) >= n
    decreases |glob| - i
  {
    var (a, next) := Head(glob, i);
    var rest := Witness(glob, next, n);
    if a.Deep? || a.DeepDirs? {
      PairsOfBlock(n, rest);
    } else {
      WitnessHasPairs(glob, next, n);
      PairsGrow(Witness(glob, i, n)[..|Witness(glob, i, n)| - |rest|], rest);
    }
  }

  lemma {:induction false} DeepTakesBlock(glob: string, i: nat, n: nat, rest: string)
    requires i < |glob| && Head(glob, i).0.Deep? && Accepts(glob, Head(glob, i).1, rest, true)
    ensures Accepts(glob, i, Block(n) + rest, true)
  {
    if n == 0 {
      assert Block(n) + rest == rest;
    } else {
      DeepTakesBlock(glob, i, n - 1, rest);
      BlockPeels(n, rest);
      assert Accepts(glob, i, (Block(n) + rest)[1..], true);
    }
  }

  lemma {:induction false} DirsTakeBlock(glob: string, i: nat, n: nat, rest: string)
    requires i <= |glob| && n > 0 && Accepts(glob, i, rest, true)
    ensures SkipsDirs(glob, i, Block(n) + rest, true)
  {
    BlockPeels(n, rest);
    var path := (Block(n) + rest)[1..];
    if n == 1 {
      assert Block(0) + rest == rest;
    } else {
      DirsTakeBlock(glob, i, n - 1, rest);
    }
    assert SkipsDirs(glob, i, path, true);
  }

  lemma {:induction false} WitnessIsMeant(glob: string, i: nat, n: nat)
    requires i <= |glob| && n > 0
    ensures Accepts(glob, i, Witness(glob, i, n), true)
    decreases |glob| - i
  {
    if i < |glob| {
      var (a, next) := Head(glob, i);
      var rest := Witness(glob, next, n);
      WitnessIsMeant(glob, next, n);
      if a.Deep? {
        DeepTakesBlock(glob, i, n, rest);
      } else if a.DeepDirs? {
        DirsTakeBlock(glob, next, n, rest);
      } else if a.Segment? {
        assert Witness(glob, i, n) == rest;
      } else {
        assert Witness(glob, i, n)[1..] == rest;
      }
    }
  }

  /** The expression has the glob's plain meaning on every path exactly if the
      glob holds no double star. */
  lemma PlainMeaningExactlyWithoutDeep(glob: string)
    ensures (forall path :: Matches(GlobRegex(glob, 0), path) <==> Accepts(glob, 0, path, true)) <==> !HasDeep(glob, 0)
  {
    forall path ensures !HasDeep(glob, 0) ==> (Matches(GlobRegex(glob, 0), path) <==> Accepts(glob, 0, path, true)) {
      GlobRegexMeansGlob(glob, path);
    }
    if HasDeep(glob, 0) {
      var path := Witness(glob, 0, |glob| + 1);
      WitnessIsMeant(glob, 0, |glob| + 1);
      WitnessHasPairs(glob, 0, |glob| + 1);
      FewPairsAccepted(glob, 0, path);
      RegexAccepts(glob, 0, path);
    }
  }

  /** The plain meaning is lost on a path with a line feed. */
  lemma DeepStopsAtLineFeed()
    ensures Accepts("**", 0, "\n", true) && !Matches(GlobRegex("**", 0), "\n")
  {
    RegexAccepts("**", 0, "\n");
    assert Accepts("**", 2, "", true);
    assert "\n"[1..] == "";
    assert Accepts("**", 0, "", true);
    assert !Accepts("**", 2, "\n", false);
  }
}
