// Byte sequences of UTF-8 text, by section 4 of RFC 3629.
module Utf8 {
  type Byte = x: int | 0 <= x < 256

  predicate In(b: Byte, low: int, high: int) { low <= b <= high }

  predicate Tail(b: Byte) { In(b, 0x80, 0xBF) }

  predicate RuneStart(b: Byte) { !Tail(b) }

  /** Length of the character that starts the bytes, 0 if none does. */
  function Width(s: seq<Byte>): (w: nat)
    ensures w <= 4 && w <= |s|
    ensures w > 0 ==> RuneStart(s[0]) && forall i :: 1 <= i < w ==> Tail(s[i])
  {
    if |s| >= 1 && In(s[0], 0x00, 0x7F) then 1
    else if |s| >= 2 && In(s[0], 0xC2, 0xDF) && Tail(s[1]) then 2
    else if |s| >= 3 && Tail(s[2])
            && ((s[0] == 0xE0 && In(s[1], 0xA0, 0xBF)) || (In(s[0], 0xE1, 0xEC) && Tail(s[1]))
                || (s[0] == 0xED && In(s[1], 0x80, 0x9F)) || (In(s[0], 0xEE, 0xEF) && Tail(s[1]))) then 3
    else if |s| >= 4 && Tail(s[2]) && Tail(s[3])
            && ((s[0] == 0xF0 && In(s[1], 0x90, 0xBF)) || (In(s[0], 0xF1, 0xF3) && Tail(s[1]))
                || (s[0] == 0xF4 && In(s[1], 0x80, 0x8F))) then 4
    else 0
  }

  /** Code points but the surrogates (section 3.9 of the Unicode Standard). */
  predicate Scalar(c: int) {
    0 <= c < 0xD800 || 0xE000 <= c < 0x11_0000
  }

  /** The encoding of a scalar value, by the table in section 3 of RFC 3629. */
  function Encode(c: int): seq<Byte>
    requires Scalar(c)
  {
    if c < 0x80 then [c]
    else if c < 0x800 then [0xC0 + c / 64, 0x80 + c % 64]
    else if c < 0x1_0000 then [0xE0 + c / 64 / 64, 0x80 + c / 64 % 64, 0x80 + c % 64]
    else [0xF0 + c / 64 / 64 / 64, 0x80 + c / 64 / 64 % 64, 0x80 + c / 64 % 64, 0x80 + c % 64]
  }

  /** The bytes of a scalar value are one character, however they go on. */
  lemma EncodingIsOneCharacter(c: int, rest: seq<Byte>)
    requires Scalar(c)
    ensures Width(Encode(c) + rest) == |Encode(c)|
  {
    var s := Encode(c) + rest;
    assert forall i :: 0 <= i < |Encode(c)| ==> s[i] == Encode(c)[i];
  }

  /** The number the payload bits of a character make. */
  function CodePoint(s: seq<Byte>): int
    requires Width(s) > 0
  {
    var b := seq(Width(s), i requires 0 <= i < Width(s) => s[i] as int);
    match Width(s)
    case 1 => b[0]
    case 2 => (b[0] - 0xC0) * 64 + (b[1] - 0x80)
    case 3 => ((b[0] - 0xE0) * 64 + (b[1] - 0x80)) * 64 + (b[2] - 0x80)
    case _ => (((b[0] - 0xF0) * 64 + (b[1] - 0x80)) * 64 + (b[2] - 0x80)) * 64 + (b[3] - 0x80)
  }

  /** Every character is the encoding of a scalar value. */
  lemma CharactersAreEncodings(s: seq<Byte>)
    requires Width(s) > 0
    ensures Scalar(CodePoint(s)) && s[..Width(s)] == Encode(CodePoint(s))
  {
    match Width(s)
    case 1 =>
    case 2 => TwoBytes(s);
    case 3 => ThreeBytes(s);
    case _ => FourBytes(s);
  }

  lemma TwoBytes(s: seq<Byte>)
    requires Width(s) == 2
    ensures Scalar(CodePoint(s)) && s[..2] == Encode(CodePoint(s))
  {
    LowBits(s[0] as int - 0xC0, s[1] as int - 0x80);
  }

  lemma ThreeBytes(s: seq<Byte>)
    requires Width(s) == 3
    ensures Scalar(CodePoint(s)) && s[..3] == Encode(CodePoint(s))
  {
    var a, b, c := s[0] as int - 0xE0, s[1] as int - 0x80, s[2] as int - 0x80;
    LowBits(a, b);
    LowBits(a * 64 + b, c);
    assert CodePoint(s) == (a * 64 + b) * 64 + c;
  }

  lemma FourBytes(s: seq<Byte>)
    requires Width(s) == 4
    ensures Scalar(CodePoint(s)) && s[..4] == Encode(CodePoint(s))
  {
    var a, b, c, d := s[0] as int - 0xF0, s[1] as int - 0x80, s[2] as int - 0x80, s[3] as int - 0x80;
    LowBits(a, b);
    LowBits(a * 64 + b, c);
    LowBits((a * 64 + b) * 64 + c, d);
    assert CodePoint(s) == ((a * 64 + b) * 64 + c) * 64 + d;
  }

  lemma LowBits(high: int, low: int)
    requires 0 <= low < 64
    ensures (high * 64 + low) / 64 == high && (high * 64 + low) % 64 == low
  {
  }

  /** Whole characters, one after the other. */
  predicate Valid(s: seq<Byte>) {
    s == [] || (Width(s) > 0 && Valid(s[Width(s)..]))
  }

  /** Cutting valid text at the start of a character leaves valid text. */
  lemma {:induction false} CutAtStart(s: seq<Byte>, k: nat)
    requires Valid(s) && k <= |s| && (k < |s| ==> RuneStart(s[k]))
    ensures Valid(s[k..])
  {
    if k > 0 {
      var w := Width(s);
      CutAtStart(s[w..], k - w);
      assert s[w..][k - w..] == s[k..];
    } else {
      assert s[k..] == s;
    }
  }

  /** From any index of valid text the next start of a character, or the end,
      is at most three bytes away. */
  lemma {:induction false} StartIsNear(s: seq<Byte>, k: nat, next: nat)
    requires Valid(s) && k <= next <= |s| && forall i :: k <= i < next ==> Tail(s[i])
    ensures next <= k + 3
  {
    if s != [] {
      var w := Width(s);
      if k >= w {
        StartIsNear(s[w..], k - w, next - w);
      } else if w < |s| {
        assert RuneStart(s[w..][0]);
      }
    }
  }
}
