// Substituting references in a command template (vars/substitute.go).
module Template {
  import opened Wrappers

  type Values = map<string, string>

  datatype Problem = Unterminated(rest: string) | BadName(name: string) | NoValue(name: string)

  predicate Letter(c: char) { 'a' <= c <= 'z' || 'A' <= c <= 'Z' || c == '_' }

  /** Names have 1 to 64 characters; a digit or dash may not come first. */
  predicate ValidateName(name: string) {
    && 1 <= |name| <= 64 && Letter(name[0])
    && forall i :: 1 <= i < |name| ==> Letter(name[i]) || '0' <= name[i] <= '9' || name[i] == '-'
  }

  const LOWER := "abcdefghijklmnopqrstuvwxyz"
  const UPPER := "ABCDEFGHIJKLMNOPQRSTUVWXYZ"
  const DIGITS := "0123456789"

  /** A name is spelled with these characters and starts with no digit or dash. */
  lemma NamesAreSpelled(name: string)
    ensures ValidateName(name) <==>
              && 1 <= |name| <= 64
              && (forall i :: 0 <= i < |name| ==> name[i] in LOWER + UPPER + DIGITS + "_-")
              && name[0] !in DIGITS + "-"
  {
    forall c: char
      ensures c in LOWER <==> 'a' <= c <= 'z'
      ensures c in UPPER <==> 'A' <= c <= 'Z'
      ensures c in DIGITS <==> '0' <= c <= '9'
    {
      LowerLetters(c);
      UpperLetters(c);
      Digits(c);
    }
  }

  lemma LowerLetters(c: char)
    ensures c in LOWER <==> 'a' <= c <= 'z'
  {
    if 'a' <= c <= 'z' { assert LOWER[c as int - 'a' as int] == c; }
  }

  lemma UpperLetters(c: char)
    ensures c in UPPER <==> 'A' <= c <= 'Z'
  {
    if 'A' <= c <= 'Z' { assert UPPER[c as int - 'A' as int] == c; }
  }

  lemma Digits(c: char)
    ensures c in DIGITS <==> '0' <= c <= '9'
  {
    if '0' <= c <= '9' { assert DIGITS[c as int - '0' as int] == c; }
  }

  predicate Opens(s: string) { |s| >= 2 && s[0] == '{' && s[1] == '{' }

  /** Four opening braces: the escape for two. */
  predicate Escaped(s: string) { |s| >= 4 && Opens(s) && s[2] == '{' && s[3] == '{' }

  /** Where the first closing braces are. */
  function CloseAt(s: string): (r: Option<nat>)
    ensures r.Some? ==> r.value + 2 <= |s| && s[r.value] == '}' && s[r.value + 1] == '}'
    ensures r.Some? ==> forall k :: 0 <= k < r.value ==> !(s[k] == '}' && s[k + 1] == '}')
    ensures r.None? ==> forall k :: 0 <= k < |s| - 1 ==> !(s[k] == '}' && s[k + 1] == '}')
  {
    if |s| < 2 then None
    else if s[0] == '}' && s[1] == '}' then Some(0)
    else
      match CloseAt(s[1..])
      case None => None
      case Some(k) =>
        assert forall j :: 1 <= j < k + 1 ==> s[j] == s[1..][j - 1] && s[j + 1] == s[1..][j];
        Some(k + 1)
  }

  function Prepend(text: string, r: Result<string, Problem>): Result<string, Problem> {
    if r.Ok? then Ok(text + r.value) else r
  }

  /** The first problem, or both texts. */
  function AndThen(first: Result<string, Problem>, rest: Result<string, Problem>): Result<string, Problem> {
    if first.Ok? then Prepend(first.value, rest) else first
  }

  function Lookup(name: string, values: Values): Result<string, Problem> {
    if !ValidateName(name) then Err(BadName(name))
    else if name !in values then Err(NoValue(name))
    else Ok(values[name])
  }

  function Subst(s: string, values: Values): Result<string, Problem> {
    if s == "" then Ok("")
    else if Escaped(s) then Prepend("{{", Subst(s[4..], values))
    else if !(Opens(s)) then Prepend([s[0]], Subst(s[1..], values))
    else
      match CloseAt(s[2..])
      case None => Err(Unterminated(s))
      case Some(end) =>
        AndThen(Lookup(s[2..2 + end], values), Subst(s[2 + end + 2..], values))
  }

  lemma PrependTwice(a: string, b: string, r: Result<string, Problem>)
    ensures Prepend(a, Prepend(b, r)) == Prepend(a + b, r)
  {
    if r.Ok? { assert a + (b + r.value) == a + b + r.value; }
  }

  /** One round of the scan: `text` replaces the next k characters. */
  lemma Advance(b: string, s: string, i: nat, text: string, k: nat, values: Values, all: Result<string, Problem>)
    requires i + k <= |s| && Prepend(b, Subst(s[i..], values)) == all
    requires Subst(s[i..], values) == Prepend(text, Subst(s[i..][k..], values))
    ensures Prepend(b + text, Subst(s[i + k..], values)) == all
  {
    assert s[i..][k..] == s[i + k..];
    PrependTwice(b, text, Subst(s[i + k..], values));
  }

  lemma EscapeStep(s: string, values: Values)
    requires Escaped(s)
    ensures Subst(s, values) == Prepend("{{", Subst(s[4..], values))
  {
  }

  lemma PlainStep(s: string, values: Values)
    requires s != "" && !(Opens(s))
    ensures Subst(s, values) == Prepend([s[0]], Subst(s[1..], values))
  {
  }

  lemma ReferenceStep(s: string, end: nat, values: Values)
    requires Opens(s) && !Escaped(s) && CloseAt(s[2..]) == Some(end) && Lookup(s[2..2 + end], values).Ok?
    ensures Subst(s, values) == Prepend(values[s[2..2 + end]], Subst(s[2 + end + 2..], values))
  {
  }

  /** The reference that starts `rest`, and its width. */
  method ReadReference(rest: string, values: Values) returns (value: Result<string, Problem>, width: nat)
    requires Opens(rest) && !Escaped(rest)
    ensures value.Err? ==> Subst(rest, values) == value
    ensures value.Ok? ==>
        0 < width <= |rest| && Subst(rest, values) == Prepend(value.value, Subst(rest[width..], values))
  {
    var end := CloseAt(rest[2..]);
    if end.None? {
      return Err(Unterminated(rest)), 0;
    }
    var name := rest[2..2 + end.value];
    if !ValidateName(name) {
      return Err(BadName(name)), 0;
    }
    if name !in values {
      return Err(NoValue(name)), 0;
    }
    ReferenceStep(rest, end.value, values);
    return Ok(values[name]), 2 + end.value + 2;
  }

  /** What stands for the start of `rest`, and the width it replaces. */
  method ReadToken(rest: string, values: Values) returns (text: Result<string, Problem>, width: nat)
    requires rest != ""
    ensures text.Err? ==> Subst(rest, values) == text
    ensures text.Ok? ==> 0 < width <= |rest| && Subst(rest, values) == Prepend(text.value, Subst(rest[width..], values))
  {
    if Escaped(rest) {
      EscapeStep(rest, values);
      return Ok("{{"), 4;
    }
    if !Opens(rest) {
      PlainStep(rest, values);
      return Ok([rest[0]]), 1;
    }
    text, width := ReadReference(rest, values);
  }

  method Substitute(s: string, values: Values) returns (r: Result<string, Problem>)
    ensures r == Subst(s, values)
  {
    var b := "";
    var i := 0;
    ghost var all := Subst(s, values);
    assert s[0..] == s;
    StartsPlain(all);
    while i < |s|
      invariant i <= |s|
      invariant Prepend(b, Subst(s[i..], values)) == all
    {
      var text, width := ReadToken(s[i..], values);
      if text.Err? {
        return text;
      }
      Advance(b, s, i, text.value, width, values, all);
      b := b + text.value;
      i := i + width;
    }
    assert s[i..] == "" && b + "" == b;
    r := Ok(b);
  }

  lemma StartsPlain(r: Result<string, Problem>)
    ensures Prepend("", r) == r
  {
    if r.Ok? { assert "" + r.value == r.value; }
  }

  // -------------------------------------------------------------------------
  // Escaping

  function Escape(s: string): string {
    if s == "" then ""
    else if Opens(s) then "{{{{" + Escape(s[2..])
    else [s[0]] + Escape(s[1..])
  }

  /** The last character is an opening brace that escaping pairs with none. */
  predicate EndsUnpaired(s: string) {
    if s == "" then false
    else if Opens(s) then EndsUnpaired(s[2..])
    else if |s| == 1 then s[0] == '{'
    else EndsUnpaired(s[1..])
  }

  lemma EscapedPair(lit: string, rest: string, values: Values)
    requires Opens(lit)
    ensures Subst(Escape(lit) + rest, values) == Prepend("{{", Subst(Escape(lit[2..]) + rest, values))
  {
    var s, tail := Escape(lit) + rest, Escape(lit[2..]) + rest;
    assert s == "{{{{" + tail;
    assert s[4..] == tail;
    EscapeStep(s, values);
  }

  lemma EscapedChar(lit: string, rest: string, values: Values)
    requires lit != "" && !Opens(lit) && (lit == "{" ==> rest == "" || rest[0] != '{')
    ensures Subst(Escape(lit) + rest, values) == Prepend([lit[0]], Subst(Escape(lit[1..]) + rest, values))
  {
    var s, tail := Escape(lit) + rest, Escape(lit[1..]) + rest;
    assert s == [lit[0]] + tail;
    assert s[1..] == tail;
    EscapeStarts(lit[1..]);
    assert |lit| == 1 ==> tail == rest;
    PlainStep(s, values);
  }

  lemma {:induction false} EscapedLiteral(lit: string, rest: string, values: Values)
    requires EndsUnpaired(lit) ==> rest == "" || rest[0] != '{'
    ensures Subst(Escape(lit) + rest, values) == Prepend(lit, Subst(rest, values))
  {
    if lit == "" {
      assert Escape(lit) + rest == rest;
      StartsPlain(Subst(rest, values));
    } else if Opens(lit) {
      EscapedLiteral(lit[2..], rest, values);
      EscapedPair(lit, rest, values);
      PrependTwice("{{", lit[2..], Subst(rest, values));
      assert "{{" + lit[2..] == lit;
    } else {
      EscapedLiteral(lit[1..], rest, values);
      EscapedChar(lit, rest, values);
      PrependTwice([lit[0]], lit[1..], Subst(rest, values));
      assert [lit[0]] + lit[1..] == lit;
    }
  }

  lemma EscapeStarts(s: string)
    ensures s == "" <==> Escape(s) == ""
    ensures s != "" ==> Escape(s)[0] == s[0]
  {
  }

  /** Escaping any text and substituting gives the text back. */
  lemma EscapedTextSurvives(s: string, values: Values)
    ensures Subst(Escape(s), values) == Ok(s)
  {
    EscapedLiteral(s, "", values);
    assert Escape(s) + "" == Escape(s);
    assert s + "" == s;
  }

  // -------------------------------------------------------------------------
  // Templates

  /** Literal text, then perhaps a reference and more. */
  datatype Template = End(lit: string) | Then(lit: string, name: string, rest: Template)

  function Print(t: Template): string {
    match t
    case End(lit) => Escape(lit)
    case Then(lit, name, rest) => Escape(lit) + ("{{" + name + "}}" + Print(rest))
  }

  /** Literals and values in order; a value's own braces mean nothing. */
  function Eval(t: Template, values: Values): Result<string, Problem> {
    match t
    case End(lit) => Ok(lit)
    case Then(lit, name, rest) =>
      Prepend(lit, AndThen(Lookup(name, values), Eval(rest, values)))
  }

  /** Text that can stand between reference braces. */
  predicate Slot(name: string) {
    !(Opens(name)) && CloseAt(name + "}}") == Some(|name|)
  }

  /** No literal before a reference ends in an unpaired brace. */
  predicate Printable(t: Template) {
    t.Then? ==> !EndsUnpaired(t.lit) && Slot(t.name) && Printable(t.rest)
  }

  lemma CloseInLonger(name: string, rest: string)
    requires CloseAt(name + "}}") == Some(|name|)
    ensures CloseAt(name + "}}" + rest) == Some(|name|)
  {
    var s, t := name + "}}" + rest, name + "}}";
    assert s[|name|] == '}' && s[|name| + 1] == '}';
    assert forall j :: 0 <= j < |name| + 2 ==> s[j] == t[j];
  }

  lemma Reference(name: string, rest: string, values: Values)
    requires Slot(name)
    ensures Subst("{{" + name + "}}" + rest, values)
         == AndThen(Lookup(name, values), Subst(rest, values))
  {
    var s := "{{" + name + "}}" + rest;
    assert s[2..] == name + "}}" + rest;
    CloseInLonger(name, rest);
    assert s[2..2 + |name|] == name;
    assert s[2 + |name| + 2..] == rest;
    assert |name| >= 2 ==> s[2] == name[0] && s[3] == name[1];
    assert |name| == 1 ==> s[3] == '}';
    assert |name| == 0 ==> s[2] == '}';
  }

  /** A printed template evaluates to its literals and values in order, or to
      its first bad reference. */
  lemma {:induction false} PrintedTemplateEvaluates(t: Template, values: Values)
    requires Printable(t)
    ensures Subst(Print(t), values) == Eval(t, values)
  {
    match t
    case End(lit) => EscapedTextSurvives(lit, values);
    case Then(lit, name, rest) =>
      EscapedLiteral(lit, "{{" + name + "}}" + Print(rest), values);
      Reference(name, Print(rest), values);
      PrintedTemplateEvaluates(rest, values);
  }

  predicate Defined(t: Template, values: Values) {
    t.Then? ==> Lookup(t.name, values).Ok? && Defined(t.rest, values)
  }

  lemma {:induction false} EvalSucceedsWhenDefined(t: Template, values: Values)
    ensures Eval(t, values).Ok? <==> Defined(t, values)
  {
    if t.Then? { EvalSucceedsWhenDefined(t.rest, values); }
  }

  /** Joins literal text to the front of a template. */
  function AddLiteral(text: string, t: Template): Template {
    match t
    case End(lit) => End(text + lit)
    case Then(lit, name, rest) => Then(text + lit, name, rest)
  }

  /** The template a text stands for, if every reference is closed. */
  function Scan(s: string): Option<Template> {
    if s == "" then Some(End(""))
    else if Escaped(s) then
      match Scan(s[4..])
      case None => None
      case Some(t) => Some(AddLiteral("{{", t))
    else if !Opens(s) then
      match Scan(s[1..])
      case None => None
      case Some(t) => Some(AddLiteral([s[0]], t))
    else
      match CloseAt(s[2..])
      case None => None
      case Some(end) =>
        match Scan(s[2 + end + 2..])
        case None => None
        case Some(t) => Some(Then("", s[2..2 + end], t))
  }

  lemma {:induction false} SuccessScans(s: string, values: Values)
    requires Subst(s, values).Ok?
    ensures Scan(s).Some?
  {
    if s == "" {
    } else if Escaped(s) {
      EscapeStep(s, values);
      SuccessScans(s[4..], values);
    } else if !Opens(s) {
      PlainStep(s, values);
      SuccessScans(s[1..], values);
    } else {
      SuccessScans(s[2 + CloseAt(s[2..]).value + 2..], values);
    }
  }

  lemma AddPair(t: Template)
    requires Printable(t)
    ensures Print(AddLiteral("{{", t)) == "{{{{" + Print(t) && Printable(AddLiteral("{{", t))
  {
    var lit := "{{" + t.lit;
    assert lit[2..] == t.lit;
    assert Escape(lit) == "{{{{" + Escape(t.lit);
    if t.Then? {
      assert Print(AddLiteral("{{", t)) == "{{{{" + Escape(t.lit) + ("{{" + t.name + "}}" + Print(t.rest));
    }
  }

  lemma PrintStarts(t: Template)
    ensures t.lit != "" ==> Print(t) != "" && Print(t)[0] == t.lit[0]
    ensures t.lit == "" && t.Then? ==> Print(t) != "" && Print(t)[0] == '{'
  {
    EscapeStarts(t.lit);
  }

  lemma AddChar(c: char, t: Template)
    requires Printable(t) && !Opens([c] + Print(t))
    ensures Print(AddLiteral([c], t)) == [c] + Print(t) && Printable(AddLiteral([c], t))
  {
    var lit := [c] + t.lit;
    PrintStarts(t);
    assert lit[1..] == t.lit;
    assert !Opens(lit);
    assert Escape(lit) == [c] + Escape(t.lit);
    if t.Then? {
      assert Print(AddLiteral([c], t)) == [c] + Escape(t.lit) + ("{{" + t.name + "}}" + Print(t.rest));
    }
  }

  lemma AddReference(s: string, end: nat, t: Template)
    requires Opens(s) && !Escaped(s) && CloseAt(s[2..]) == Some(end) && Print(t) == s[2 + end + 2..] && Printable(t)
    ensures Print(Then("", s[2..2 + end], t)) == s && Printable(Then("", s[2..2 + end], t))
  {
    var name := s[2..2 + end];
    assert s[2..][end..end + 2] == "}}";
    assert s == "{{" + name + "}}" + s[2 + end + 2..];
    NameIsSlot(s, end);
  }

  lemma NameIsSlot(s: string, end: nat)
    requires Opens(s) && !Escaped(s) && CloseAt(s[2..]) == Some(end)
    ensures Slot(s[2..2 + end])
  {
    var name := s[2..2 + end];
    var t := name + "}}";
    assert t == s[2..][..end + 2];
    assert t[end] == '}' && t[end + 1] == '}';
    assert forall j :: 0 <= j < end + 2 ==> t[j] == s[2..][j];
    assert CloseAt(t) == Some(|name|);
    assert |name| >= 2 ==> name[0] == s[2] && name[1] == s[3];
  }

  lemma ScanOfReference(s: string)
    requires Opens(s) && !Escaped(s) && Scan(s).Some?
    ensures CloseAt(s[2..]).Some?
    ensures var end := CloseAt(s[2..]).value;
            Scan(s[2 + end + 2..]).Some? && Scan(s) == Some(Then("", s[2..2 + end], Scan(s[2 + end + 2..]).value))
  {
  }

  /** A scanned template prints back to its text. */
  lemma {:induction false} ScanPrints(s: string)
    requires Scan(s).Some?
    ensures Print(Scan(s).value) == s && Printable(Scan(s).value)
  {
    if s == "" {
    } else if Escaped(s) {
      ScanPrints(s[4..]);
      AddPair(Scan(s[4..]).value);
      assert s == "{{{{" + s[4..];
    } else if !Opens(s) {
      ScanPrints(s[1..]);
      assert s == [s[0]] + s[1..];
      AddChar(s[0], Scan(s[1..]).value);
    } else {
      ScanOfReference(s);
      var end := CloseAt(s[2..]).value;
      ScanPrints(s[2 + end + 2..]);
      AddReference(s, end, Scan(s[2 + end + 2..]).value);
    }
  }

  /** A text evaluates to v exactly when it prints some template whose
      references are all valid names with values, and v is that template's
      literals and values in order. */
  lemma SubstitutionIsEvaluation(s: string, values: Values, v: string)
    ensures Subst(s, values) == Ok(v)
       <==> exists t :: Printable(t) && Print(t) == s && Defined(t, values) && Eval(t, values) == Ok(v)
  {
    if Subst(s, values) == Ok(v) {
      SuccessScans(s, values);
      ScanPrints(s);
      PrintedTemplateEvaluates(Scan(s).value, values);
      EvalSucceedsWhenDefined(Scan(s).value, values);
    }
    forall t | Printable(t) && Print(t) == s ensures Subst(s, values) == Eval(t, values) {
      PrintedTemplateEvaluates(t, values);
    }
  }

  /** An unpaired brace before a reference swallows the reference's name. */
  lemma UnpairedBraceBreaksReference(lit: string, name: string, rest: string, values: Values)
    requires EndsUnpaired(lit) && ValidateName(name)
    ensures Subst(Escape(lit) + ("{{" + name + "}}" + rest), values) == Err(BadName("{" + name))
    decreases |lit|
  {
    var more := "{{" + name + "}}" + rest;
    if Opens(lit) {
      UnpairedBraceBreaksReference(lit[2..], name, rest, values);
      EscapedPair(lit, more, values);
    } else if |lit| > 1 {
      UnpairedBraceBreaksReference(lit[1..], name, rest, values);
      EscapedChar(lit, more, values);
    } else {
      BraceThenReference(name, rest, values);
      assert Escape(lit) + more == "{" + more;
    }
  }

  lemma {:induction false} UnprintableFails(t: Template, values: Values)
    requires Defined(t, values) && !Printable(t)
    ensures Subst(Print(t), values).Err?
  {
    ValidNameIsSlot(t.name);
    if EndsUnpaired(t.lit) {
      UnpairedBraceBreaksReference(t.lit, t.name, Print(t.rest), values);
    } else {
      UnprintableFails(t.rest, values);
      EscapedLiteral(t.lit, "{{" + t.name + "}}" + Print(t.rest), values);
      Reference(t.name, Print(t.rest), values);
    }
  }

  /** With every reference defined, a printed template means what it says
      exactly when no literal before a reference ends in an unpaired brace. */
  lemma PrintingIsFaithfulExactlyWhenPaired(t: Template, values: Values)
    requires Defined(t, values)
    ensures Subst(Print(t), values) == Eval(t, values) <==> Printable(t)
  {
    EvalSucceedsWhenDefined(t, values);
    if Printable(t) { PrintedTemplateEvaluates(t, values); } else { UnprintableFails(t, values); }
  }

  lemma BraceThenReference(name: string, rest: string, values: Values)
    requires ValidateName(name)
    ensures Subst("{" + ("{{" + name + "}}" + rest), values) == Err(BadName("{" + name))
  {
    var wrong := "{" + name;
    var s := "{{" + wrong + "}}" + rest;
    assert s == "{" + ("{{" + name + "}}" + rest);
    assert wrong[1] == name[0] && !Opens(wrong);
    NoBraceInName(name);
    Reference(wrong, rest, values);
  }

  lemma NoBraceInName(name: string)
    requires ValidateName(name)
    ensures CloseAt("{" + name + "}}") == Some(|name| + 1)
  {
    var t := "{" + name + "}}";
    assert forall j :: 1 <= j <= |name| ==> t[j] == name[j - 1];
    assert t[|name| + 1] == '}' && t[|name| + 2] == '}';
  }

  lemma ValidNameIsSlot(name: string)
    requires ValidateName(name)
    ensures Slot(name)
  {
    var t := name + "}}";
    assert forall j :: 0 <= j < |name| ==> t[j] == name[j];
    assert t[|name|] == '}' && t[|name| + 1] == '}';
  }
}
