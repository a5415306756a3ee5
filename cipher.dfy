/** The Caesar shift of cipher/cipher.rb: ASCII letters move by `shift`
    places within their own alphabet, every other character is copied. */
module Cipher {

  predicate IsLower(c: char) { 'a' <= c <= 'z' }
  predicate IsUpper(c: char) { 'A' <= c <= 'Z' }
  /** The `/[A-Za-z]/` test. */
  predicate IsLetter(c: char) { IsLower(c) || IsUpper(c) }

  /** One character of the cipher. Ruby's `%` with a positive divisor is never
      negative, which is also what Dafny's `%` gives. */
  function ShiftChar(c: char, shift: int): (r: char)
    ensures !IsLetter(c) ==> r == c
    ensures IsLower(c) ==> IsLower(r) && ((r as int - 'a' as int) - (c as int - 'a' as int) - shift) % 26 == 0
    ensures IsUpper(c) ==> IsUpper(r) && ((r as int - 'A' as int) - (c as int - 'A' as int) - shift) % 26 == 0
  {
    if IsLetter(c) then
      var base := if c >= 'a' then 'a' as int else 'A' as int;
      ((c as int - base + shift) % 26 + base) as char
    else c
  }

  /** The whole string, character by character. */
  function Caesar(s: string, shift: int): (r: string)
    ensures |r| == |s|
    ensures forall i :: 0 <= i < |s| ==> r[i] == ShiftChar(s[i], shift)
  {
    seq(|s|, i requires 0 <= i < |s| => ShiftChar(s[i], shift))
  }

  /** caesar_cipher: the `each_char` loop appending to `result`. */
  method CaesarCipher(s: string, shift: int) returns (result: string)
    ensures result == Caesar(s, shift)
  {
    result := "";
    for i := 0 to |s|
      invariant result == Caesar(s[..i], shift)
    {
      var c := s[i];
      if IsLetter(c) {
        var base := if c >= 'a' then 'a' as int else 'A' as int;
        var newChar := (c as int - base + shift) % 26 + base;
        result := result + [newChar as char];
      } else {
        result := result + [c];
      }
    }
    assert s[..|s|] == s;
  }

  /** Shifting by `shift` and then by `-shift` restores every character. */
  lemma ShiftCharRoundTrip(c: char, shift: int)
    ensures ShiftChar(ShiftChar(c, shift), -shift) == c
  {
    if IsLetter(c) {
      var base := if c >= 'a' then 'a' as int else 'A' as int;
      var x := c as int - base;
      var y := (x + shift) % 26;
      assert ShiftChar(c, shift) as int - base == y;
      ModRoundTrip(x, y, shift);
    }
  }

  lemma ModRoundTrip(x: int, y: int, shift: int)
    requires 0 <= x < 26
    requires y == (x + shift) % 26
    ensures (y - shift) % 26 == x
  {
    var q := (x + shift) / 26;
    assert x + shift == 26 * q + y;
    assert y - shift == x + 26 * (-q);
  }

  /** The cipher is undone by the opposite shift. */
  lemma CaesarRoundTrip(s: string, shift: int)
    ensures Caesar(Caesar(s, shift), -shift) == s
  {
    forall i | 0 <= i < |s|
      ensures Caesar(Caesar(s, shift), -shift)[i] == s[i]
    {
      ShiftCharRoundTrip(s[i], shift);
    }
  }

  lemma ModCongruent(x: int, a: int, b: int)
    requires (a - b) % 26 == 0
    ensures (x + a) % 26 == (x + b) % 26
  {
    var k := (a - b) / 26;
    assert a == b + 26 * k;
    assert x + a == (x + b) + 26 * k;
  }

  /** Shifts that are congruent modulo 26 encrypt alike. */
  lemma CaesarCongruentShifts(s: string, a: int, b: int)
    requires (a - b) % 26 == 0
    ensures Caesar(s, a) == Caesar(s, b)
  {
    forall i | 0 <= i < |s|
      ensures ShiftChar(s[i], a) == ShiftChar(s[i], b)
    {
      if IsLetter(s[i]) {
        var base := if s[i] >= 'a' then 'a' as int else 'A' as int;
        ModCongruent(s[i] as int - base, a, b);
      }
    }
  }

  /** A shift by 0 (or any multiple of 26) leaves the string unchanged. */
  lemma CaesarZeroIsIdentity(s: string)
    ensures Caesar(s, 0) == s
  {
    assert forall i :: 0 <= i < |s| ==> Caesar(s, 0)[i] == s[i];
  }

  /** The worked example at the foot of the file. */
  lemma CaesarExample()
    ensures Caesar("What a string!", 5) == "Bmfy f xywnsl!"
  {
    var r := Caesar("What a string!", 5);
    assert r[0] == 'B' && r[1] == 'm' && r[2] == 'f' && r[3] == 'y' && r[4] == ' ';
    assert r[5] == 'f' && r[6] == ' ' && r[7] == 'x' && r[8] == 'y' && r[9] == 'w';
    assert r[10] == 'n' && r[11] == 's' && r[12] == 'l' && r[13] == '!';
  }
}
