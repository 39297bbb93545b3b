/**
  The size field of a tar header: what `parse_tar_octal` makes of any field, and
  the fields that tar writers produce.
 */
module TarSizes {
  import opened Common
  import opened Text
  import opened Limits
  import opened TarScan

  // ----- any field

  /** Neither a space, a tab, a line feed, a form feed nor a carriage return. */
  function NotBlank(): byte -> bool {
    (b: byte) => b != 0x20 && b != 0x09 && b != 0x0A && b != 0x0C && b != 0x0D
  }

  /** How many bytes at the front are octal digits. */
  function LeadingDigits(s: seq<byte>): (k: nat)
    ensures k <= |s|
  {
    if s != [] && '0' as int <= s[0] <= '7' as int then 1 + LeadingDigits(s[1..]) else 0
  }

  lemma {:induction false} LeadingDigitsAreDigits(s: seq<byte>)
    ensures forall i :: 0 <= i < LeadingDigits(s) ==> '0' as int <= s[i] <= '7' as int
    ensures LeadingDigits(s) < |s| ==> !('0' as int <= s[LeadingDigits(s)] <= '7' as int)
  {
    if s == [] || !('0' as int <= s[0] <= '7' as int) {
    } else {
      LeadingDigitsAreDigits(s[1..]);
    }
  }

  /** The number that octal digits stand for, most significant digit first. */
  function OctalValue(digits: seq<byte>): int {
    if digits == [] then 0 else OctalValue(digits[..|digits| - 1]) * 8 + (digits[|digits| - 1] - '0' as int)
  }

  /** The same with a value in front, from the left. */
  function ContinuedValue(acc: int, digits: seq<byte>): int
    decreases digits
  {
    if digits == [] then acc else ContinuedValue(acc * 8 + (digits[0] - '0' as int), digits[1..])
  }

  lemma {:induction false} ContinuedAppend(acc: int, digits: seq<byte>, d: byte)
    ensures ContinuedValue(acc, digits + [d]) == ContinuedValue(acc, digits) * 8 + (d - '0' as int)
    decreases digits
  {
    if digits == [] {
      assert [] + [d] == [d] && [d][1..] == [];
    } else {
      ContinuedAppend(acc * 8 + (digits[0] - '0' as int), digits[1..], d);
      assert (digits + [d])[1..] == digits[1..] + [d];
    }
  }

  lemma {:induction false} ContinuedIsOctal(digits: seq<byte>)
    ensures ContinuedValue(0, digits) == OctalValue(digits)
  {
    if digits == [] {
    } else {
      var front, last := digits[..|digits| - 1], digits[|digits| - 1];
      ContinuedIsOctal(front);
      ContinuedAppend(0, front, last);
      assert digits == front + [last];
    }
  }

  lemma {:induction false} ContinuedGrows(acc: int, digits: seq<byte>)
    requires acc >= 0 && forall i :: 0 <= i < |digits| ==> digits[i] >= '0' as int
    ensures ContinuedValue(acc, digits) >= acc
    decreases digits
  {
    if digits == [] {
    } else {
      ContinuedGrows(acc * 8 + (digits[0] - '0' as int), digits[1..]);
    }
  }

  /** What `text`, from which the blanks are gone, adds to the value `acc`. */
  function Outcome(acc: int, text: seq<byte>): Result<int, ArchiveError> {
    var k := LeadingDigits(text);
    if ContinuedValue(acc, text[..k]) > U64_MAX then Err(LimitExceeded(MaxSingleFileBytes))
    else if k < |text| then Err(Malformed)
    else Ok(ContinuedValue(acc, text))
  }

  lemma OutcomeNext(acc: u64, text: seq<byte>)
    requires text != [] && '0' as int <= text[0] <= '7' as int
    ensures var next := acc * 8 + (text[0] - '0' as int);
      Outcome(acc, text) == if next > U64_MAX then Err(LimitExceeded(MaxSingleFileBytes)) else Outcome(next, text[1..])
  {
    var k := LeadingDigits(text[1..]);
    assert text[..k + 1][1..] == text[1..][..k];
    if acc * 8 + (text[0] - '0' as int) > U64_MAX {
      LeadingDigitsAreDigits(text[1..]);
      ContinuedGrows(acc * 8 + (text[0] - '0' as int), text[1..][..k]);
    }
    assert text[..|text|] == text && text[1..][..|text| - 1] == text[1..];
  }

  lemma OtherByteIsMalformed(acc: u64, text: seq<byte>)
    requires text != [] && !('0' as int <= text[0] <= '7' as int)
    ensures Outcome(acc, text) == Err(Malformed)
  {
    assert text[..0] == [];
  }

  /** The bytes before a NUL without blanks, from one byte to the next. */
  lemma TextNext(field: seq<byte>, end: nat)
    requires 0 < end <= |field|
    ensures var rest := Filter(field[1..][..end - 1], NotBlank());
      Filter(field[..end], NotBlank()) == if NotBlank()(field[0]) then [field[0]] + rest else rest
  {
    var front := field[..end];
    assert front[0] == field[0] && front[1..] == field[1..][..end - 1];
    assert [] + Filter(front[1..], NotBlank()) == Filter(front[1..], NotBlank());
  }

  lemma ParsesByte(field: seq<byte>, acc: u64)
    requires field != [] && field[0] != 0
    ensures ParseOctal(field, acc) ==
      if !NotBlank()(field[0]) then ParseOctal(field[1..], acc)
      else if !('0' as int <= field[0] <= '7' as int) then Err(Malformed)
      else if acc * 8 + (field[0] - '0' as int) > U64_MAX then Err(LimitExceeded(MaxSingleFileBytes))
      else ParseOctal(field[1..], acc * 8 + (field[0] - '0' as int))
  {
  }

  lemma {:induction false} ParsesOutcome(field: seq<byte>, end: nat, acc: u64, text: seq<byte>)
    requires end <= |field| && (forall i :: 0 <= i < end ==> field[i] != 0) && (end < |field| ==> field[end] == 0)
    requires text == Filter(field[..end], NotBlank())
    ensures ParseOctal(field, acc) == Outcome(acc, text)
    decreases |field|
  {
    if end == 0 {
      assert field[..0] == [];
    } else {
      var rest := Filter(field[1..][..end - 1], NotBlank());
      TextNext(field, end);
      ParsesByte(field, acc);
      if !NotBlank()(field[0]) {
        ParsesOutcome(field[1..], end - 1, acc, rest);
      } else if '0' as int <= field[0] <= '7' as int {
        assert text[1..] == rest;
        OutcomeNext(acc, text);
        if acc * 8 + (field[0] - '0' as int) <= U64_MAX {
          ParsesOutcome(field[1..], end - 1, acc * 8 + (field[0] - '0' as int), rest);
        }
      } else {
        OtherByteIsMalformed(acc, text);
      }
    }
  }

  /**
    What the parser makes of any field: of the bytes before the first NUL, without
    the blanks, the octal digits in front are a number.  If it does not fit 64 bits
    that is a limit error; otherwise any other byte behind them is malformed, such
    as the 0x80 of a base-256 size; otherwise the number is the size.
   */
  lemma ParseOctalExactly(field: seq<byte>, end: nat)
    requires end <= |field| && (forall i :: 0 <= i < end ==> field[i] != 0) && (end < |field| ==> field[end] == 0)
    ensures var text := Filter(field[..end], NotBlank());
      var digits := text[..LeadingDigits(text)];
      ParseOctal(field, 0) ==
        if OctalValue(digits) > U64_MAX then Err(LimitExceeded(MaxSingleFileBytes))
        else if digits != text then Err(Malformed)
        else Ok(OctalValue(text))
  {
    var text := Filter(field[..end], NotBlank());
    ParsesOutcome(field, end, 0, text);
    ContinuedIsOctal(text[..LeadingDigits(text)]);
    ContinuedIsOctal(text);
    assert LeadingDigits(text) == |text| ==> text[..LeadingDigits(text)] == text;
  }

  // ----- fields that are written

  const SIZE_WIDTH: nat := 12

  function Pow8(k: nat): nat {
    if k == 0 then 1 else 8 * Pow8(k - 1)
  }

  lemma {:induction false} Pow8Grows(j: nat, k: nat)
    requires j <= k
    ensures Pow8(j) <= Pow8(k)
  {
    if j == k {
    } else {
      Pow8Grows(j, k - 1);
    }
  }

  function OctalDigits(n: nat, k: nat): (r: seq<byte>)
    ensures |r| == k
  {
    if k == 0 then [] else OctalDigits(n / 8, k - 1) + [0x30 + n % 8]
  }

  function Blanks(n: nat): seq<byte> {
    seq(n, _ => 0x20)
  }

  /** Blanks up to the end of the field or up to a NUL. */
  predicate EndsField(tail: seq<byte>) {
    tail == [] || tail[0] == 0 || (tail[0] == 0x20 && EndsField(tail[1..]))
  }

  /**
    A size field: any number of blanks in front, the size in octal with any number
    of leading zeros, and blanks or a NUL behind, or nothing when the field is full.
   */
  predicate IsSizeField(field: seq<byte>, size: nat) {
    |field| == SIZE_WIDTH &&
    exists b: nat, k: nat | b <= SIZE_WIDTH && k <= SIZE_WIDTH :: SizeFieldAt(field, size, b, k)
  }

  predicate SizeFieldAt(field: seq<byte>, size: nat, b: nat, k: nat) {
    && b + k <= |field| && size < Pow8(k)
    && field[..b] == Blanks(b) && field[b..b + k] == OctalDigits(size, k) && EndsField(field[b + k..])
  }

  lemma {:induction false} OctalRoundTrip(n: nat, k: nat, rest: seq<byte>)
    requires n < Pow8(k) && n <= U64_MAX
    ensures ParseOctal(OctalDigits(n, k) + rest, 0) == ParseOctal(rest, n)
  {
    if k == 0 {
      assert OctalDigits(n, k) + rest == rest;
    } else {
      var digit: byte := 0x30 + n % 8;
      OctalRoundTrip(n / 8, k - 1, [digit] + rest);
      assert OctalDigits(n, k) + rest == OctalDigits(n / 8, k - 1) + ([digit] + rest);
      assert ([digit] + rest)[1..] == rest;
    }
  }

  lemma {:induction false} BlanksAreSkipped(b: nat, rest: seq<byte>)
    ensures ParseOctal(Blanks(b) + rest, 0) == ParseOctal(rest, 0)
  {
    if b == 0 {
      assert Blanks(0) + rest == rest;
    } else {
      BlanksAreSkipped(b - 1, rest);
      assert (Blanks(b) + rest)[1..] == Blanks(b - 1) + rest;
    }
  }

  lemma {:induction false} EndIsSkipped(tail: seq<byte>, n: u64)
    requires EndsField(tail)
    ensures ParseOctal(tail, n) == Ok(n)
  {
    if tail == [] || tail[0] == 0 {
    } else {
      EndIsSkipped(tail[1..], n);
    }
  }

  lemma SizeFits(k: nat)
    requires k <= SIZE_WIDTH
    ensures Pow8(k) <= U64_MAX
  {
    Pow8Grows(k, 12);
    assert Pow8(12) == 8 * 8 * 8 * 8 * Pow8(8);
    assert Pow8(8) == 8 * 8 * 8 * 8 * Pow8(4);
    assert Pow8(4) == 4096;
  }

  /** Whatever its padding, a size field is parsed to its size. */
  lemma SizeFieldRoundTrip(field: seq<byte>, size: nat)
    requires IsSizeField(field, size)
    ensures size <= U64_MAX && ParseOctal(field, 0) == Ok(size)
  {
    var b: nat, k: nat :| b <= SIZE_WIDTH && k <= SIZE_WIDTH && SizeFieldAt(field, size, b, k);
    SizeFits(k);
    var tail := field[b + k..];
    assert field == Blanks(b) + (OctalDigits(size, k) + tail);
    BlanksAreSkipped(b, OctalDigits(size, k) + tail);
    OctalRoundTrip(size, k, tail);
    EndIsSkipped(tail, size);
  }

  lemma EndOfOne(end: byte)
    requires end == 0 || end == 0x20
    ensures EndsField([end])
  {
    assert [end][1..] == [];
  }

  /**
    The field of current writers, eleven digits and a NUL or a space, and the one of
    older writers, with blanks instead of leading zeros.
   */
  lemma UsualSizeFields(size: nat, k: nat, end: byte)
    requires k <= 11 && size < Pow8(k) && (end == 0 || end == 0x20)
    ensures IsSizeField(OctalDigits(size, 11) + [end], size)
    ensures IsSizeField(Blanks(11 - k) + (OctalDigits(size, k) + [end]), size)
  {
    Pow8Grows(k, 11);
    PaddedField(Blanks(0), OctalDigits(size, 11), end, size);
    assert Blanks(0) + (OctalDigits(size, 11) + [end]) == OctalDigits(size, 11) + [end];
    PaddedField(Blanks(11 - k), OctalDigits(size, k), end, size);
  }

  lemma PaddedField(front: seq<byte>, digits: seq<byte>, end: byte, size: nat)
    requires |front| + |digits| == 11 && front == Blanks(|front|) && digits == OctalDigits(size, |digits|)
    requires size < Pow8(|digits|) && (end == 0 || end == 0x20)
    ensures IsSizeField(front + (digits + [end]), size)
  {
    var field := front + (digits + [end]);
    EndOfOne(end);
    assert field[..|front|] == front && field[|front|..11] == digits && field[11..] == [end];
    assert SizeFieldAt(field, size, |front|, |digits|);
  }

  /** The field of `20 20 31 32 20 00`: ten. */
  lemma BlankPaddedExample()
    ensures ParseOctal([0x20, 0x20, 0x31, 0x32, 0x20, 0x00], 0) == Ok(10)
  {
    var field: seq<byte> := [0x20, 0x20, 0x31, 0x32, 0x20, 0x00];
    assert field == Blanks(2) + (OctalDigits(10, 2) + [0x20, 0x00]) by {
      assert OctalDigits(1, 1) == OctalDigits(0, 0) + [0x31];
    }
    BlanksAreSkipped(2, OctalDigits(10, 2) + [0x20, 0x00]);
    assert Pow8(2) == 64;
    OctalRoundTrip(10, 2, [0x20, 0x00]);
    assert [0x20, 0x00][1..] == [0x00];
  }
}
