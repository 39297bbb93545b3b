/**
  UTF-8 as Rust's `str` sees it: a byte sequence in which every character is
  well-formed (table 3-7 of the Unicode Standard), character boundaries, and the
  replacing decoder behind `String::from_utf8_lossy`.  A Rust string is modelled
  by its bytes.
 */
module Utf8 {
  import opened Common

  predicate IsContinuation(b: byte) {
    0x80 <= b < 0xC0
  }

  /** How many bytes a character with this lead byte has; 0 for no lead byte. */
  function LeadLength(b: byte): nat {
    if b < 0x80 then 1
    else if 0xC2 <= b < 0xE0 then 2
    else if 0xE0 <= b < 0xF0 then 3
    else if 0xF0 <= b < 0xF5 then 4
    else 0
  }

  /** The second byte is narrower after E0, ED, F0 and F4. */
  predicate SecondByteOk(lead: byte, second: byte) {
    && IsContinuation(second)
    && (lead == 0xE0 ==> second >= 0xA0)
    && (lead == 0xED ==> second < 0xA0)
    && (lead == 0xF0 ==> second >= 0x90)
    && (lead == 0xF4 ==> second < 0x90)
  }

  /** The length of the longest prefix of `s` that could begin a character of length `n`. */
  function GoodPrefix(s: seq<byte>, n: nat): (k: nat)
    requires s != []
    ensures k <= |s| && k <= 4
    ensures n >= 1 ==> k >= 1
  {
    if n <= 1 then Min(n, 1)
    else if |s| < 2 || !SecondByteOk(s[0], s[1]) then 1
    else if n == 2 then 2
    else if |s| < 3 || !IsContinuation(s[2]) then 2
    else if n == 3 then 3
    else if |s| < 4 || !IsContinuation(s[3]) then 3
    else 4
  }

  /** The length of the well-formed character `s` starts with; 0 when there is none. */
  function CharLength(s: seq<byte>): (k: nat)
    requires s != []
    ensures k <= |s| && k <= 4
  {
    var n := LeadLength(s[0]);
    if n > 0 && GoodPrefix(s, n) == n then n else 0
  }

  predicate Valid(s: seq<byte>) {
    s == [] || (CharLength(s) > 0 && Valid(s[CharLength(s)..]))
  }

  /** `str::is_char_boundary`. */
  predicate IsBoundary(s: seq<byte>, i: nat) {
    i == 0 || i == |s| || (i < |s| && !IsContinuation(s[i]))
  }

  /** `str::get(from..)`: nothing past the end or inside a character. */
  function GetFrom(s: seq<byte>, from: nat): Option<seq<byte>> {
    if from <= |s| && IsBoundary(s, from) then Some(s[from..]) else None
  }

  /** `str::get(from..to)`. */
  function GetRange(s: seq<byte>, from: nat, to: nat): Option<seq<byte>> {
    if from <= to <= |s| && IsBoundary(s, from) && IsBoundary(s, to) then Some(s[from..to]) else None
  }

  /** No four bytes in a row are continuation bytes, so a boundary is never more than three bytes away. */
  lemma {:induction false} BoundaryWithinThree(s: seq<byte>, i: nat)
    requires Valid(s) && i + 3 < |s|
    ensures exists j :: i <= j <= i + 3 && !IsContinuation(s[j])
  {
    var n := CharLength(s);
    if i >= n {
      BoundaryWithinThree(s[n..], i - n);
      var j :| i - n <= j <= i - n + 3 && !IsContinuation(s[n..][j]);
      assert !IsContinuation(s[j + n]);
    } else if i == 0 {
      assert !IsContinuation(s[0]);
    } else {
      assert CharLength(s[n..]) > 0;
      assert !IsContinuation(s[n..][0]);
    }
  }

  /** In well-formed text an ASCII byte is a whole character. */
  lemma {:induction false} AsciiIsOneChar(s: seq<byte>, i: nat)
    requires Valid(s) && i < |s| && s[i] < 0x80
    ensures IsBoundary(s, i) && IsBoundary(s, i + 1)
  {
    var n := CharLength(s);
    if i >= n {
      AsciiIsOneChar(s[n..], i - n);
      assert s[n..][i - n] == s[i];
      assert i + 1 < |s| ==> s[n..][i - n + 1] == s[i + 1];
    } else {
      assert i == 0 && n == 1;
      assert |s| > 1 ==> CharLength(s[1..]) > 0 && s[1..][0] == s[1];
    }
  }

  const REPLACEMENT: seq<byte> := [0xEF, 0xBF, 0xBD]

  /** `String::from_utf8_lossy`: each maximal ill-formed part becomes U+FFFD. */
  function Lossy(s: seq<byte>): seq<byte> {
    if s == [] then []
    else
      var n := CharLength(s);
      if n > 0 then s[..n] + Lossy(s[n..])
      else
        var bad := if LeadLength(s[0]) == 0 then 1 else GoodPrefix(s, LeadLength(s[0]));
        REPLACEMENT + Lossy(s[bad..])
  }

  /** A well-formed character in front of well-formed text leaves well-formed text. */
  lemma PrependChar(c: seq<byte>, rest: seq<byte>)
    requires c != [] && CharLength(c) == |c|
    ensures CharLength(c + rest) == |c|
    ensures Valid(rest) ==> Valid(c + rest)
  {
    assert (c + rest)[0] == c[0];
    assert |c| > 1 ==> (c + rest)[1] == c[1];
    assert |c| > 2 ==> (c + rest)[2] == c[2];
    assert |c| > 3 ==> (c + rest)[3] == c[3];
    assert (c + rest)[|c|..] == rest;
  }

  // ----- texts

  /** A Unicode scalar value. */
  type Scalar = c: int | 0 <= c < 0xD800 || 0xE000 <= c < 0x11_0000

  /** A character as UTF-8, the encoding of a Rust string. */
  function EncodeScalar(c: Scalar): seq<byte> {
    if c < 0x80 then [c]
    else if c < 0x800 then [0xC0 + c / 0x40, 0x80 + c % 0x40]
    else if c < 0x1_0000 then [0xE0 + c / 0x1000, 0x80 + c / 0x40 % 0x40, 0x80 + c % 0x40]
    else
      assert c / 0x4_0000 <= 4;
      [0xF0 + c / 0x4_0000, 0x80 + c / 0x1000 % 0x40, 0x80 + c / 0x40 % 0x40, 0x80 + c % 0x40]
  }

  function EncodeUtf8(text: seq<Scalar>): seq<byte> {
    if text == [] then [] else EncodeScalar(text[0]) + EncodeUtf8(text[1..])
  }

  lemma EncodedScalarIsOneChar(c: Scalar)
    ensures EncodeScalar(c) != [] && CharLength(EncodeScalar(c)) == |EncodeScalar(c)|
  {
    var s := EncodeScalar(c);
    if c < 0x80 {
    } else if c < 0x800 {
      assert 2 <= c / 0x40 < 0x20;
    } else if c < 0x1_0000 {
      assert c / 0x40 == c / 0x1000 * 0x40 + c / 0x40 % 0x40;
      assert IsContinuation(s[1]) && IsContinuation(s[2]);
      assert c / 0x1000 == 0xD ==> c / 0x40 < 0x360;
    } else {
      assert c / 0x1000 == c / 0x4_0000 * 0x40 + c / 0x1000 % 0x40;
      assert IsContinuation(s[1]) && IsContinuation(s[2]) && IsContinuation(s[3]);
      assert 0x10 <= c / 0x1000 < 0x110;
    }
  }

  /** The scalar value that a character's bytes stand for, six bits from each byte after the first. */
  function ScalarOf(s: seq<byte>): int {
    if |s| == 1 then s[0]
    else if |s| == 2 then (s[0] as int - 0xC0) * 64 + (s[1] as int - 0x80)
    else if |s| == 3 then (s[0] as int - 0xE0) * 4096 + (s[1] as int - 0x80) * 64 + (s[2] as int - 0x80)
    else if |s| == 4 then
      (s[0] as int - 0xF0) * 262144 + (s[1] as int - 0x80) * 4096 + (s[2] as int - 0x80) * 64 + (s[3] as int - 0x80)
    else -1
  }

  /** The bytes of a character give its scalar value back. */
  lemma EncodedScalarIsRead(c: Scalar)
    ensures ScalarOf(EncodeScalar(c)) == c
  {
    var a := c / 0x40;
    var b := a / 0x40;
    assert c == a * 0x40 + c % 0x40 && a == b * 0x40 + a % 0x40;
    assert c / 0x1000 == b && c / 0x4_0000 == b / 0x40;
    assert b == b / 0x40 * 0x40 + b % 0x40;
  }

  lemma {:induction false} EncodedTextIsValid(text: seq<Scalar>)
    ensures Valid(EncodeUtf8(text))
  {
    if text == [] {
    } else {
      EncodedTextIsValid(text[1..]);
      EncodedScalarIsOneChar(text[0]);
      PrependChar(EncodeScalar(text[0]), EncodeUtf8(text[1..]));
    }
  }

  lemma CharLengthOfPrefix(s: seq<byte>)
    requires s != [] && CharLength(s) > 0
    ensures CharLength(s[..CharLength(s)]) == CharLength(s)
  {
  }

  /** Whatever the input, the decoder yields well-formed text. */
  lemma {:induction false} LossyIsValid(s: seq<byte>)
    ensures Valid(Lossy(s))
  {
    if s == [] {
    } else {
      var n := CharLength(s);
      if n > 0 {
        LossyIsValid(s[n..]);
        CharLengthOfPrefix(s);
        PrependChar(s[..n], Lossy(s[n..]));
      } else {
        var bad := if LeadLength(s[0]) == 0 then 1 else GoodPrefix(s, LeadLength(s[0]));
        LossyIsValid(s[bad..]);
        PrependChar(REPLACEMENT, Lossy(s[bad..]));
      }
    }
  }

  lemma {:induction false} LossyKeepsValid(s: seq<byte>)
    requires Valid(s)
    ensures Lossy(s) == s
  {
    if s == [] {
    } else {
      LossyKeepsValid(s[CharLength(s)..]);
    }
  }

  /** The decoder leaves a byte string alone exactly when it is well-formed UTF-8. */
  lemma {:induction false} LossyIsIdentityExactlyOnValid(s: seq<byte>)
    ensures Lossy(s) == s <==> Valid(s)
  {
    LossyIsValid(s);
    if Valid(s) {
      LossyKeepsValid(s);
    }
  }
}
