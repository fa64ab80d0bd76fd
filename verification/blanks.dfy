// Trimming blanks off both ends of a text, as strings.TrimSpace does for ASCII.
module Blanks {
  predicate IsSpace(c: char) {
    c in {' ', '\t', '\n', '\r', '\U{0B}', '\U{0C}'}
  }

  function TrimLeft(s: string): string {
    if s != "" && IsSpace(s[0]) then TrimLeft(s[1..]) else s
  }

  function TrimRight(s: string): string {
    if s != "" && IsSpace(s[|s| - 1]) then TrimRight(s[..|s| - 1]) else s
  }

  function TrimSpace(s: string): string {
    TrimRight(TrimLeft(s))
  }

  /** Blanks are the space, and the tab and the four characters after it. */
  predicate Padding(s: string) {
    forall i :: 0 <= i < |s| ==> s[i] == ' ' || '\t' <= s[i] <= '\r'
  }

  /** The text begins and ends with characters that are no blanks. */
  predicate Core(s: string) {
    s != "" && s[0] > ' ' && s[|s| - 1] > ' '
  }

  lemma {:induction false} TrimLeftDropsPadding(left: string, core: string)
    requires Padding(left) && (core == "" || core[0] > ' ')
    ensures TrimLeft(left + core) == core
  {
    if left == "" {
      assert left + core == core;
    } else {
      TrimLeftDropsPadding(left[1..], core);
      assert (left + core)[1..] == left[1..] + core;
    }
  }

  lemma {:induction false} TrimRightDropsPadding(core: string, right: string)
    requires Padding(right) && (core == "" || core[|core| - 1] > ' ')
    ensures TrimRight(core + right) == core
  {
    if right == "" {
      assert core + right == core;
    } else {
      TrimRightDropsPadding(core, right[..|right| - 1]);
      assert (core + right)[..|core + right| - 1] == core + right[..|right| - 1];
    }
  }

  /** A padded text trims to its core, and padding alone to nothing. */
  lemma TrimSpaceDropsPadding(left: string, core: string, right: string)
    requires Padding(left) && Padding(right)
    ensures Core(core) ==> TrimSpace(left + core + right) == core
    ensures TrimSpace(left + right) == ""
  {
    if Core(core) {
      assert left + core + right == left + (core + right);
      TrimLeftDropsPadding(left, core + right);
      TrimRightDropsPadding(core, right);
    }
    TrimLeftDropsPadding(left + right, "");
    assert left + right + "" == left + right;
  }

  /** A text without blanks at its ends is left as it is. */
  lemma TrimSpaceKeepsCore(s: string)
    requires Core(s)
    ensures TrimSpace(s) == s
  {
    TrimSpaceDropsPadding("", s, "");
    assert "" + s + "" == s;
  }

  /** Nothing but padding trims to nothing, when all characters are blanks or
      above them. */
  lemma {:induction false} BlankMeansPadding(s: string)
    requires forall i :: 0 <= i < |s| ==> s[i] > ' ' || s[i] == ' ' || '\t' <= s[i] <= '\r'
    ensures TrimSpace(s) == "" <==> Padding(s)
  {
    if Padding(s) {
      TrimSpaceDropsPadding(s, "", "");
      assert s + "" == s;
    } else if s[0] > ' ' {
      EndsSomewhere(s);
    } else {
      BlankMeansPadding(s[1..]);
      assert forall i :: 1 <= i < |s| ==> s[i] == s[1..][i - 1];
      assert IsSpace(s[0]);
    }
  }

  lemma {:induction false} EndsSomewhere(s: string)
    requires s != "" && s[0] > ' '
    ensures TrimRight(s) != "" && TrimLeft(s) == s
  {
    if |s| > 1 && IsSpace(s[|s| - 1]) { EndsSomewhere(s[..|s| - 1]); }
  }
}
