// Lines and line endings, as the reader and the editor split and rejoin them
// (filesystem/read.go, filesystem/edit.go).
module TextLines {
  predicate OneLine(s: string) {
    '\n' !in s
  }

  predicate EndsLf(s: string) {
    s != "" && s[|s| - 1] == '\n'
  }

  /** strings.Split(s, "\n"): never empty. */
  function SplitLf(s: string): (parts: seq<string>)
    ensures |parts| > 0 && forall k :: 0 <= k < |parts| ==> OneLine(parts[k])
  {
    if s == "" then [""]
    else
      var rest := SplitLf(s[1..]);
      if s[0] == '\n' then [""] + rest else [[s[0]] + rest[0]] + rest[1..]
  }

  /** strings.Join(parts, "\n"). */
  function JoinLf(parts: seq<string>): string {
    if parts == [] then ""
    else if |parts| == 1 then parts[0]
    else parts[0] + "\n" + JoinLf(parts[1..])
  }

  /** The lines of a text as the reader counts them: a final line feed ends the
      last line instead of starting another. */
  function SplitTextLines(s: string): seq<string> {
    if s == "" then []
    else
      var parts := SplitLf(s);
      if parts[|parts| - 1] == "" then parts[..|parts| - 1] else parts
  }

  function NormalizeLf(s: string): string {
    if s == "" then ""
    else if |s| >= 2 && s[0] == '\r' && s[1] == '\n' then "\n" + NormalizeLf(s[2..])
    else [s[0]] + NormalizeLf(s[1..])
  }

  function ToCrlf(s: string): string {
    if s == "" then ""
    else (if s[0] == '\n' then "\r\n" else [s[0]]) + ToCrlf(s[1..])
  }

  function TrimFinalLfs(s: string): string {
    if EndsLf(s) then TrimFinalLfs(s[..|s| - 1]) else s
  }

  lemma {:induction false} JoinSplit(s: string)
    ensures JoinLf(SplitLf(s)) == s
  {
    if s != "" {
      var rest := SplitLf(s[1..]);
      JoinSplit(s[1..]);
      if s[0] == '\n' {
        assert ([""] + rest)[1..] == rest;
      } else if |rest| == 1 {
        assert SplitLf(s) == [[s[0]] + rest[0]];
      } else {
        assert SplitLf(s)[1..] == rest[1..];
        assert [s[0]] + (rest[0] + "\n" + JoinLf(rest[1..])) == [s[0]] + rest[0] + "\n" + JoinLf(rest[1..]);
      }
    }
  }

  lemma {:induction false} SplitOfLine(line: string, rest: string)
    requires OneLine(line)
    ensures SplitLf(line + "\n" + rest) == [line] + SplitLf(rest)
  {
    if line == "" {
      assert line + "\n" + rest == "\n" + rest;
      assert ("\n" + rest)[1..] == rest;
    } else {
      SplitOfLine(line[1..], rest);
      var s := line + "\n" + rest;
      assert s[1..] == line[1..] + "\n" + rest;
      assert line == [line[0]] + line[1..];
    }
  }

  lemma {:induction false} SplitOfOneLine(line: string)
    requires OneLine(line)
    ensures SplitLf(line) == [line]
  {
    if line != "" {
      SplitOfOneLine(line[1..]);
      assert [line[0]] + line[1..] == line;
    }
  }

  lemma {:induction false} SplitJoin(parts: seq<string>)
    requires |parts| > 0 && forall k :: 0 <= k < |parts| ==> OneLine(parts[k])
    ensures SplitLf(JoinLf(parts)) == parts
  {
    if |parts| == 1 {
      SplitOfOneLine(parts[0]);
    } else {
      SplitJoin(parts[1..]);
      SplitOfLine(parts[0], JoinLf(parts[1..]));
      assert parts == [parts[0]] + parts[1..];
    }
  }

  /** Lines each ended by a line feed. */
  function Terminated(lines: seq<string>): string {
    if lines == [] then "" else lines[0] + "\n" + Terminated(lines[1..])
  }

  lemma {:induction false} SplitOfTerminated(lines: seq<string>)
    requires forall k :: 0 <= k < |lines| ==> OneLine(lines[k])
    ensures SplitLf(Terminated(lines)) == lines + [""]
  {
    if lines != [] {
      SplitOfTerminated(lines[1..]);
      SplitOfLine(lines[0], Terminated(lines[1..]));
      assert lines + [""] == [lines[0]] + (lines[1..] + [""]);
    }
  }

  lemma {:induction false} TerminatedIsJoin(lines: seq<string>)
    requires lines != []
    ensures Terminated(lines) == JoinLf(lines) + "\n"
  {
    if |lines| > 1 {
      TerminatedIsJoin(lines[1..]);
      assert lines[0] + "\n" + (JoinLf(lines[1..]) + "\n") == lines[0] + "\n" + JoinLf(lines[1..]) + "\n";
    }
  }

  /** The last part is empty exactly for an empty text or one ending in LF. */
  lemma {:induction false} LastPart(s: string)
    ensures SplitLf(s)[|SplitLf(s)| - 1] == "" <==> s == "" || EndsLf(s)
  {
    if s != "" {
      LastPart(s[1..]);
      var rest := SplitLf(s[1..]);
      if s[0] != '\n' && |rest| == 1 {
        if s[1..] != "" && EndsLf(s[1..]) {
          assert rest[0] == "";
          JoinSplit(s[1..]);
        }
      }
    }
  }

  lemma SplitAfterFinalLf(body: string)
    ensures SplitLf(body + "\n") == SplitLf(body) + [""]
  {
    var parts := SplitLf(body);
    JoinSplit(body);
    TerminatedIsJoin(parts);
    SplitOfTerminated(parts);
  }

  lemma CutFinalLf(s: string)
    requires EndsLf(s)
    ensures s == s[..|s| - 1] + "\n"
  {
  }

  lemma ReadDropsTheFinalPart(body: string)
    ensures SplitTextLines(body + "\n") == SplitLf(body)
  {
    SplitAfterFinalLf(body);
    var parts, all := SplitLf(body), SplitLf(body + "\n");
    assert all[|all| - 1] == "";
    assert all[..|all| - 1] == parts;
  }

  /** Reading and editing split a text into the same lines: the reader drops
      the empty part after a final LF, the editor drops the LF first. */
  lemma LinesWithoutFinalLf(s: string)
    requires s != ""
    ensures SplitTextLines(s) == SplitLf(if EndsLf(s) then s[..|s| - 1] else s)
  {
    LastPart(s);
    if EndsLf(s) {
      ReadDropsTheFinalPart(s[..|s| - 1]);
      CutFinalLf(s);
    }
  }

  /** A text that is not empty has a line, and its lines are the text without
      its final LF. */
  lemma LinesAreTheText(s: string)
    requires s != ""
    ensures SplitTextLines(s) != [] && forall k :: 0 <= k < |SplitTextLines(s)| ==> OneLine(SplitTextLines(s)[k])
    ensures JoinLf(SplitTextLines(s)) == if s[|s| - 1] == '\n' then s[..|s| - 1] else s
  {
    LinesWithoutFinalLf(s);
    JoinSplit(if EndsLf(s) then s[..|s| - 1] else s);
  }

  /** Some of the joined parts may be joined beforehand. */
  lemma {:induction false} JoinInside(before: seq<string>, parts: seq<string>, after: seq<string>)
    requires parts != []
    ensures JoinLf(before + parts + after) == JoinLf(before + [JoinLf(parts)] + after)
  {
    if before != [] {
      JoinInside(before[1..], parts, after);
      assert (before + parts + after)[1..] == before[1..] + parts + after;
      assert (before + [JoinLf(parts)] + after)[1..] == before[1..] + [JoinLf(parts)] + after;
    } else {
      assert before + parts + after == parts + after;
      assert before + [JoinLf(parts)] + after == [JoinLf(parts)] + after;
      JoinHead(parts, after);
    }
  }

  lemma {:induction false} JoinHead(parts: seq<string>, after: seq<string>)
    requires parts != []
    ensures JoinLf(parts + after) == JoinLf([JoinLf(parts)] + after)
  {
    if after == [] {
      assert parts + after == parts && [JoinLf(parts)] + after == [JoinLf(parts)];
    } else if |parts| > 1 {
      JoinHead(parts[1..], after);
      assert (parts + after)[1..] == parts[1..] + after;
      assert ([JoinLf(parts[1..])] + after)[1..] == after;
      assert ([JoinLf(parts)] + after)[1..] == after;
      assert parts[0] + "\n" + (JoinLf(parts[1..]) + "\n" + JoinLf(after))
          == parts[0] + "\n" + JoinLf(parts[1..]) + "\n" + JoinLf(after);
    } else {
      assert [JoinLf(parts)] == parts;
    }
  }

  // -------------------------------------------------------------------------
  // Line endings

  /** Every CR is followed by LF. */
  predicate NoStrayCr(s: string) {
    forall k :: 0 <= k < |s| && s[k] == '\r' ==> k + 1 < |s| && s[k + 1] == '\n'
  }

  /** Every LF is preceded by CR. */
  predicate OnlyCrlf(s: string) {
    forall k :: 0 <= k < |s| && s[k] == '\n' ==> k > 0 && s[k - 1] == '\r'
  }

  lemma {:induction false} NormalizeWithoutCr(s: string)
    requires '\r' !in s
    ensures NormalizeLf(s) == s
  {
    if s != "" { NormalizeWithoutCr(s[1..]); }
  }

  lemma {:induction false} NormalizedHasNoCr(s: string)
    requires NoStrayCr(s)
    ensures '\r' !in NormalizeLf(s)
    decreases |s|
  {
    if s != "" {
      if s[0] == '\r' {
        assert s[1] == '\n';
        assert forall k :: 0 <= k < |s| - 2 ==> s[2..][k] == s[k + 2];
        NormalizedHasNoCr(s[2..]);
      } else {
        assert forall k :: 0 <= k < |s| - 1 ==> s[1..][k] == s[k + 1];
        NormalizedHasNoCr(s[1..]);
      }
    }
  }

  /** A text whose line ends are all CRLF comes back from normalisation. */
  lemma {:induction false} CrlfRoundTrip(s: string)
    requires NoStrayCr(s) && OnlyCrlf(s)
    ensures ToCrlf(NormalizeLf(s)) == s
    decreases |s|
  {
    if s != "" {
      assert s[0] != '\n';
      if s[0] == '\r' {
        var rest := s[2..];
        assert s == "\r\n" + rest;
        assert forall k :: 0 <= k < |rest| ==> rest[k] == s[k + 2];
        assert s[1] == '\n';
        if rest != "" { assert s[2] != '\n'; }
        CrlfRoundTrip(rest);
        assert NormalizeLf(s)[1..] == NormalizeLf(rest);
      } else {
        var rest := s[1..];
        assert s == [s[0]] + rest;
        assert forall k :: 0 <= k < |rest| ==> rest[k] == s[k + 1];
        CrlfRoundTrip(rest);
        assert NormalizeLf(s)[1..] == NormalizeLf(rest);
      }
    }
  }

  lemma {:induction false} NormalizeWithoutCrlf(s: string)
    requires forall k :: 0 < k < |s| && s[k] == '\n' ==> s[k - 1] != '\r'
    ensures NormalizeLf(s) == s
  {
    if s != "" {
      assert forall k :: 0 <= k < |s| - 1 ==> s[1..][k] == s[k + 1];
      NormalizeWithoutCrlf(s[1..]);
    }
  }

  lemma NormalizeHead(s: string)
    requires s != ""
    ensures "\r\n" <= s ==> NormalizeLf(s) == "\n" + NormalizeLf(s[2..])
    ensures !("\r\n" <= s) ==> NormalizeLf(s) == [s[0]] + NormalizeLf(s[1..])
  {
  }

  /** Each CRLF becomes LF, and nothing else changes. */
  lemma {:induction false} NormalizeAtCrlf(a: string, b: string)
    ensures NormalizeLf(a + "\r\n" + b) == NormalizeLf(a) + "\n" + NormalizeLf(b)
    decreases |a|
  {
    var s := a + "\r\n" + b;
    NormalizeHead(s);
    if a == "" {
      assert s == "\r\n" + b && s[2..] == b;
    } else {
      NormalizeHead(a);
      var n := if "\r\n" <= a then 2 else 1;
      assert "\r\n" <= a <==> "\r\n" <= s by { assert s[0] == a[0]; assert |a| > 1 ==> s[1] == a[1]; }
      assert s[n..] == a[n..] + "\r\n" + b;
      NormalizeAtCrlf(a[n..], b);
    }
  }

  /** A text without CR becomes one whose line ends are all CRLF, and is what
      normalisation makes of it. */
  lemma {:induction false} CrlfForm(s: string)
    requires '\r' !in s
    ensures NoStrayCr(ToCrlf(s)) && OnlyCrlf(ToCrlf(s)) && NormalizeLf(ToCrlf(s)) == s
  {
    if s != "" {
      var rest := ToCrlf(s[1..]);
      CrlfForm(s[1..]);
      if s[0] == '\n' {
        assert ToCrlf(s) == "\r\n" + rest;
        assert ToCrlf(s)[2..] == rest;
        assert s == "\n" + s[1..];
      } else {
        assert ToCrlf(s) == [s[0]] + rest;
        assert ToCrlf(s)[1..] == rest;
        assert s == [s[0]] + s[1..];
        assert rest != "" ==> rest[0] != '\n';
      }
    }
  }

  lemma {:induction false} NormalizeKeepsEnd(s: string)
    ensures (NormalizeLf(s) == "" <==> s == "") && (EndsLf(NormalizeLf(s)) <==> EndsLf(s))
    decreases |s|
  {
    if s != "" {
      if |s| >= 2 && s[0] == '\r' && s[1] == '\n' {
        NormalizeKeepsEnd(s[2..]);
      } else {
        NormalizeKeepsEnd(s[1..]);
      }
    }
  }

  lemma {:induction false} ToCrlfKeepsEnd(s: string)
    ensures (ToCrlf(s) == "" <==> s == "") && (EndsLf(ToCrlf(s)) <==> EndsLf(s))
  {
    if s != "" { ToCrlfKeepsEnd(s[1..]); }
  }

  lemma {:induction false} TrimmedHasNoFinalLf(s: string)
    ensures !EndsLf(TrimFinalLfs(s))
    ensures !EndsLf(s) ==> TrimFinalLfs(s) == s
    ensures TrimFinalLfs(s) <= s && forall k :: |TrimFinalLfs(s)| <= k < |s| ==> s[k] == '\n'
  {
    if EndsLf(s) { TrimmedHasNoFinalLf(s[..|s| - 1]); }
  }
}
