/** The Caesar shift of `crypto_algs/caesar_cipher.py`: each ASCII letter
    moves `shift` places along its own alphabet, wrapping around, and every
    other character is kept. */
module CaesarCipher {
  import opened Arith

  predicate IsLower(c: char) { 'a' <= c <= 'z' }
  predicate IsUpper(c: char) { 'A' <= c <= 'Z' }

  /** Where a letter sits in its alphabet, counted from `base` (`'a'` or `'A'`). */
  function Offset(c: char, base: char): int {
    c as int - base as int
  }

  /** `chr(ord(base) + (ord(c) - ord(base) + shift) % 26)`. Python's `%` with
      a positive divisor is never negative, as Dafny's is, so a negative
      shift wraps back into the alphabet. */
  function Rotated(c: char, base: char, shift: int): (r: char)
    requires base == 'a' || base == 'A'
    requires 0 <= Offset(c, base) < 26
    ensures 0 <= Offset(r, base) < 26
  {
    (base as int + (Offset(c, base) + shift) % 26) as char
  }

  /** The body of the loop of `shift_characters` for one character.
      Lower-case letters stay lower-case, upper-case letters stay
      upper-case, and every other character comes out as it went in. */
  function ShiftChar(c: char, shift: int): (r: char)
    ensures IsLower(r) <==> IsLower(c)
    ensures IsUpper(r) <==> IsUpper(c)
    ensures !IsLower(c) && !IsUpper(c) ==> r == c
  {
    if IsLower(c) then Rotated(c, 'a', shift)
    else if IsUpper(c) then Rotated(c, 'A', shift)
    else c
  }

  /** The shifted text: one shifted character per character of `text`. */
  function Shifted(text: string, shift: int): (r: string)
    ensures |r| == |text|
  {
    seq(|text|, i requires 0 <= i < |text| => ShiftChar(text[i], shift))
  }

  /** `shift_characters(text, shift_amount)`: the characters are shifted one
      at a time and appended to a list, which is joined at the end. */
  method ShiftCharacters(text: string, shiftAmount: int) returns (shifted: string)
    ensures shifted == Shifted(text, shiftAmount)
  {
    var shiftedChars := [];
    for i := 0 to |text|
      invariant shiftedChars == Shifted(text[..i], shiftAmount)
    {
      var c := text[i];
      var s;
      if 'a' <= c <= 'z' {
        var code := 'a' as int + (c as int - 'a' as int + shiftAmount) % 26;
        s := code as char;
      } else if 'A' <= c <= 'Z' {
        var code := 'A' as int + (c as int - 'A' as int + shiftAmount) % 26;
        s := code as char;
      } else {
        s := c;
      }
      shiftedChars := shiftedChars + [s];
    }
    assert text[..|text|] == text;
    return shiftedChars;
  }

  // ---- properties -----------------------------------------------------------

  /** The new offset of a letter is the old offset plus the shift, reduced
      into `[0, 26)`: it differs from `offset + shift` by a multiple of 26. */
  lemma ShiftCharOffset(c: char, shift: int)
    ensures IsLower(c) ==>
      0 <= Offset(ShiftChar(c, shift), 'a') < 26 &&
      Divides(26, Offset(ShiftChar(c, shift), 'a') - Offset(c, 'a') - shift)
    ensures IsUpper(c) ==>
      0 <= Offset(ShiftChar(c, shift), 'A') < 26 &&
      Divides(26, Offset(ShiftChar(c, shift), 'A') - Offset(c, 'A') - shift)
  {
    if IsLower(c) || IsUpper(c) {
      var base := if IsLower(c) then 'a' else 'A';
      var x := Offset(c, base) + shift;
      assert Offset(ShiftChar(c, shift), base) - Offset(c, base) - shift == 26 * -(x / 26);
    }
  }

  /** `(x % 26 + b) % 26 == (x + b) % 26`. */
  lemma ModShift(x: int, b: int)
    ensures (x % 26 + b) % 26 == (x + b) % 26
  {
    ModAddMultiple(x / 26, x % 26 + b, 26);
    assert 26 * (x / 26) + (x % 26 + b) == x + b;
  }

  /** Rotating by `a` and then by `b` is rotating by `a + b`. */
  lemma RotatedTwice(c: char, base: char, a: int, b: int)
    requires base == 'a' || base == 'A'
    requires 0 <= Offset(c, base) < 26
    ensures Rotated(Rotated(c, base, a), base, b) == Rotated(c, base, a + b)
  {
    ModShift(Offset(c, base) + a, b);
  }

  /** Shifting a character by `a` and then by `b` is shifting it by `a + b`. */
  lemma ShiftCharTwice(c: char, a: int, b: int)
    ensures ShiftChar(ShiftChar(c, a), b) == ShiftChar(c, a + b)
  {
    if IsLower(c) {
      RotatedTwice(c, 'a', a, b);
    } else if IsUpper(c) {
      RotatedTwice(c, 'A', a, b);
    }
  }

  /** A shift by a multiple of 26 leaves every character as it is. */
  lemma ShiftCharPeriod(c: char, m: int)
    ensures ShiftChar(c, 26 * m) == c
  {
    if IsLower(c) || IsUpper(c) {
      var base := if IsLower(c) then 'a' else 'A';
      ModAddMultiple(m, Offset(c, base), 26);
      DivModUnique(Offset(c, base), 26, 0, Offset(c, base));
    }
  }

  /** Shifting text by `a` and then by `b` is shifting it by `a + b`. */
  lemma ShiftedTwice(text: string, a: int, b: int)
    ensures Shifted(Shifted(text, a), b) == Shifted(text, a + b)
  {
    forall i | 0 <= i < |text|
      ensures Shifted(Shifted(text, a), b)[i] == Shifted(text, a + b)[i]
    {
      ShiftCharTwice(text[i], a, b);
    }
  }

  /** A shift by any multiple of 26 is the identity on text. */
  lemma ShiftedPeriod(text: string, m: int)
    ensures Shifted(text, 26 * m) == text
  {
    forall i | 0 <= i < |text|
      ensures Shifted(text, 26 * m)[i] == text[i]
    {
      ShiftCharPeriod(text[i], m);
    }
  }

  /** Shifting by `k` and then by `-k` gives back the text: the shift by
      `-k` decrypts the shift by `k`. */
  lemma ShiftedInverse(text: string, k: int)
    ensures Shifted(Shifted(text, k), -k) == text
  {
    ShiftedTwice(text, k, -k);
    ShiftedPeriod(text, 0);
  }
}
