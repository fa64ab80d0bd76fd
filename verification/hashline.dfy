// Hashline addresses: a line number and a three-letter anchor over the line's
// text, printed as number#abc and parsed back (filesystem/read.go,
// filesystem/edit.go, fstools/native.go).
module Hashline {
  import opened Wrappers

  const MAX_INT: nat := 0x7FFF_FFFF_FFFF_FFFF
  const ANCHORS: nat := 26 * 26 * 26

  predicate IsDigit(c: char) {
    '0' <= c <= '9'
  }

  predicate IsLower(c: char) {
    'a' <= c <= 'z'
  }

  function Letter(n: nat): (c: char)
    requires n < 26
    ensures IsLower(c)
  {
    'a' + n as char
  }

  /** The anchor of a hash value: its residue in base 26. */
  function Letters(hash: nat): (anchor: string)
    ensures |anchor| == 3 && forall k :: 0 <= k < 3 ==> IsLower(anchor[k])
  {
    var value := hash % ANCHORS;
    assert value / 676 < 26;
    [Letter(value / 676), Letter(value / 26 % 26), Letter(value % 26)]
  }

  /** `hash` stands for the 64-bit FNV-1a sum of a line. */
  function LineAnchor(hash: string -> nat, text: string): string {
    Letters(hash(text))
  }

  /** The letters are the residue's digits in base 26, the most significant first. */
  lemma AnchorSpellsResidue(hash: nat)
    ensures var a := Letters(hash);
            (a[0] as int - 'a' as int) * 676 + (a[1] as int - 'a' as int) * 26 + (a[2] as int - 'a' as int)
            == hash % 17576
  {
    var x := hash % ANCHORS;
    assert x == 676 * (x / 676) + 26 * (x / 26 % 26) + x % 26;
  }

  /** Two lines share an anchor exactly when their hashes agree modulo 26^3. */
  lemma AnchorsAgreeByResidue(a: nat, b: nat)
    ensures Letters(a) == Letters(b) <==> a % ANCHORS == b % ANCHORS
  {
    AnchorSpellsResidue(a);
    AnchorSpellsResidue(b);
  }

  // -------------------------------------------------------------------------
  // Decimal numbers

  function Digit(n: nat): (c: char)
    requires n < 10
    ensures IsDigit(c) && (c == '0' <==> n == 0)
  {
    '0' + n as char
  }

  function Print(n: nat): (s: string)
    ensures s != "" && forall k :: 0 <= k < |s| ==> IsDigit(s[k])
    ensures n > 0 ==> s[0] != '0'
  {
    if n < 10 then [Digit(n)] else Print(n / 10) + [Digit(n % 10)]
  }

  function Value(s: string): nat
    requires forall k :: 0 <= k < |s| ==> IsDigit(s[k])
  {
    if s == "" then 0
    else
      assert IsDigit(s[|s| - 1]);
      10 * Value(s[..|s| - 1]) + (s[|s| - 1] as int - '0' as int)
  }

  lemma {:induction false} ValueOfPrint(n: nat)
    ensures Value(Print(n)) == n
  {
    if n < 10 {
      assert Print(n)[..0] == "";
    } else {
      ValueOfPrint(n / 10);
      assert Print(n)[..|Print(n)| - 1] == Print(n / 10);
    }
  }

  /** Numbers are printed in decimal, the last digit last. */
  lemma PrintIsDecimal(n: nat, digit: nat)
    requires digit < 10
    ensures Print(digit) == ['0' + digit as char]
    ensures n > 0 ==> Print(10 * n + digit) == Print(n) + ['0' + digit as char]
  {
  }

  // -------------------------------------------------------------------------
  // Addresses

  datatype Address = Address(line: nat, anchor: string)

  /** The pattern ^([1-9][0-9]*)#([a-z]{3})$ and the integer range. */
  function ParseHashline(value: string): Option<Address> {
    var n := |value| - 4;
    if n < 1 || value[n] != '#' then None
    else
      var digits, anchor := value[..n], value[n + 1..];
      if digits[0] == '0' || exists k :: 0 <= k < n && !IsDigit(digits[k]) then None
      else if exists k :: 0 <= k < 3 && !IsLower(anchor[k]) then None
      else if Value(digits) > MAX_INT then None
      else Some(Address(Value(digits), anchor))
  }

  function PrintHashline(line: nat, anchor: string): string {
    Print(line) + "#" + anchor
  }

  /** Every printed address parses back, and only printed addresses parse. */
  lemma ParsePrint(line: nat, anchor: string)
    requires 1 <= line <= 0x7FFF_FFFF_FFFF_FFFF && |anchor| == 3 && forall k :: 0 <= k < 3 ==> IsLower(anchor[k])
    ensures PrintHashline(line, anchor) != ""
        && ParseHashline(PrintHashline(line, anchor)) == Some(Address(line, anchor))
  {
    var value, n := PrintHashline(line, anchor), |Print(line)|;
    assert value[..n] == Print(line) && value[n] == '#' && value[n + 1..] == anchor;
    ValueOfPrint(line);
  }

  lemma {:induction false} PrintOfValue(s: string)
    requires s != "" && s[0] != '0' && forall k :: 0 <= k < |s| ==> IsDigit(s[k])
    ensures Value(s) > 0 && Print(Value(s)) == s
  {
    var front := s[..|s| - 1];
    var last := s[|s| - 1] as int - '0' as int;
    if front == "" {
      assert s == [Digit(last)];
    } else {
      assert front[0] == s[0];
      PrintOfValue(front);
      assert s == front + [Digit(last)];
    }
  }

  lemma PrintParse(value: string)
    requires ParseHashline(value).Some?
    ensures var a := ParseHashline(value).value;
            1 <= a.line <= 0x7FFF_FFFF_FFFF_FFFF && PrintHashline(a.line, a.anchor) == value
  {
    var n := |value| - 4;
    PrintOfValue(value[..n]);
    assert value == value[..n] + "#" + value[n + 1..];
  }
}
