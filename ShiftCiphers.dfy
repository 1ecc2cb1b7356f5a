/**
 * The Caesar and Vigenère ciphers of the file encryptor. Both move a letter
 * within its case's Latin alphabet by a shift, computing
 * `base + (c - base + shift + 26) % 26` with C#'s truncating `%`, and leave
 * every other code unit as it is.
 */
module ShiftCiphers {
  import opened CipherChars

  /** The alphabet origin the source picks for a letter: 'A' for upper case, 'a' otherwise. */
  function Base(c: Char16): int {
    if IsUpper(c) then 'A' as int else 'a' as int
  }

  /** The shifted letter: `(char)(baseChar + (c - baseChar + shift + 26) % 26)`. */
  function ShiftLetter(c: Char16, shift: Int32): (r: Char16)
    requires IsLetter(c)
  {
    var v := Wrap32(Wrap32(c - Base(c) + shift) + 26);
    Base(c) + TruncRem(v, 26)
  }

  /** A Latin letter shifted by at most 26 either way stays a Latin letter of its case. */
  lemma ShiftLatin(c: Char16, shift: int)
    requires IsLatin(c) && -26 <= shift <= 26
    ensures IsLatin(ShiftLetter(c, shift))
    ensures IsUpper(ShiftLetter(c, shift)) == IsUpper(c)
    ensures ShiftLetter(c, shift) - Base(c) == (c - Base(c) + shift + 26) % 26
  {
  }

  /** Shifting back by the opposite amount recovers a Latin letter. */
  lemma ShiftLetterInverse(c: Char16, shift: int)
    requires IsLatin(c) && -26 <= shift <= 26
    ensures ShiftLetter(ShiftLetter(c, shift), -shift) == c
  {
    ShiftLatin(c, shift);
    ShiftLatin(ShiftLetter(c, shift), -shift);
    OffsetBack(c - Base(c), shift);
  }

  /** Within the alphabet, adding the shift and then its opposite, each modulo 26, gives the offset back. */
  lemma OffsetBack(o: int, shift: int)
    requires 0 <= o < 26 && -26 <= shift <= 26
    ensures ((o + shift + 26) % 26 - shift + 26) % 26 == o
  {
    var x := o + shift + 26;
    if x < 26 {
      assert x % 26 == x;
      assert (x - shift + 26) % 26 == (o + 2 * 26) % 26 == o;
    } else if x < 52 {
      assert x % 26 == x - 26;
      assert (x - 26 - shift + 26) % 26 == (o + 26) % 26 == o;
    } else {
      assert x % 26 == x - 52;
      assert (x - 52 - shift + 26) % 26 == o % 26 == o;
    }
  }

  // ----- Caesar -----

  function CaesarChar(c: Char16, shift: Int32): Char16 {
    if IsLetter(c) then ShiftLetter(c, shift) else c
  }

  /** What CaesarCipher.Transform(text, shift) returns. */
  function Caesar(text: seq<Char16>, shift: Int32): (r: seq<Char16>)
    ensures |r| == |text|
    ensures forall i :: 0 <= i < |text| && !IsLetter(text[i]) ==> r[i] == text[i]
  {
    seq(|text|, i requires 0 <= i < |text| => CaesarChar(text[i], shift))
  }

  /** CaesarCipher.Transform: one pass over a result buffer of the text's length. */
  method CaesarTransform(text: seq<Char16>, shift: Int32) returns (r: seq<Char16>)
    ensures r == Caesar(text, shift)
  {
    var result := new Char16[|text|];
    for i := 0 to |text|
      invariant forall k :: 0 <= k < i ==> result[k] == CaesarChar(text[k], shift)
    {
      if IsLetter(text[i]) {
        var baseChar := if IsUpper(text[i]) then 'A' as int else 'a' as int;
        result[i] := baseChar + TruncRem(Wrap32(Wrap32(text[i] - baseChar + shift) + 26), 26);
      } else {
        result[i] := text[i];
      }
    }
    r := result[..];
  }

  method CaesarEncrypt(text: seq<Char16>, shift: Int32) returns (r: seq<Char16>)
    ensures r == Caesar(text, shift)
  {
    r := CaesarTransform(text, shift);
  }

  /** Decryption shifts by `-shift`, which wraps to itself at int.MinValue. */
  method CaesarDecrypt(text: seq<Char16>, shift: Int32) returns (r: seq<Char16>)
    ensures r == Caesar(text, Neg32(shift))
  {
    r := CaesarTransform(text, Neg32(shift));
  }

  /** Encryption by a shift in [-26, 26] keeps every Latin letter a Latin letter of the same case. */
  lemma CaesarPreservesCase(text: seq<Char16>, shift: Int32)
    requires -26 <= shift <= 26 && LatinLettersOnly(text)
    ensures LatinLettersOnly(Caesar(text, shift))
    ensures forall i :: 0 <= i < |text| ==>
      IsLetter(Caesar(text, shift)[i]) == IsLetter(text[i]) && IsUpper(Caesar(text, shift)[i]) == IsUpper(text[i])
  {
    forall i | 0 <= i < |text| && IsLetter(text[i]) {
      ShiftLatin(text[i], shift);
    }
  }

  /** Decrypt(Encrypt(t, s), s) == t for a shift in [-26, 26] and Latin letters. */
  lemma CaesarRoundTrip(text: seq<Char16>, shift: Int32)
    requires -26 <= shift <= 26 && LatinLettersOnly(text)
    ensures Caesar(Caesar(text, shift), Neg32(shift)) == text
  {
    var e := Caesar(text, shift);
    var d := Caesar(e, Neg32(shift));
    CaesarPreservesCase(text, shift);
    forall i | 0 <= i < |text|
      ensures d[i] == text[i]
    {
      if IsLetter(text[i]) {
        ShiftLetterInverse(text[i], shift);
      }
    }
  }

  /** With a shift below -26 the truncating remainder goes negative: "a" becomes "`" and stays so. */
  lemma CaesarShiftBelowRange()
    ensures Caesar(['a' as int], -27) == ['`' as int]
    ensures Caesar(Caesar(['a' as int], -27), Neg32(-27)) == ['`' as int]
  {
    assert CaesarChar('a' as int, -27) == '`' as int;
    assert !IsLetter('`' as int);
  }

  // ----- Vigenère -----

  /** The number of letters in `s`: the key index after `s` has been processed. */
  function LetterCount(s: seq<Char16>): nat {
    if s == [] then 0 else LetterCount(s[..|s| - 1]) + (if IsLetter(s[|s| - 1]) then 1 else 0)
  }

  type Shift = x: int | -0x1_0000 < x < 0x1_0000

  /** `key[j] - 'A'` for the upper-cased key. */
  function KeyShifts(key: seq<Char16>): (r: seq<Shift>)
    ensures |r| == |key|
  {
    var upper := UpperAll(key);
    seq(|key|, j requires 0 <= j < |key| => upper[j] - 'A' as int)
  }

  function VigenereChar(text: seq<Char16>, shifts: seq<Shift>, encrypt: bool, i: nat): Char16
    requires |shifts| > 0 && i < |text|
  {
    if IsLetter(text[i]) then
      var keyShift := shifts[LetterCount(text[..i]) % |shifts|];
      ShiftLetter(text[i], if encrypt then keyShift else -keyShift)
    else text[i]
  }

  /**
   * What VigenereCipher.Transform returns for key shifts `shifts`: the i-th
   * code unit, when it is a letter, moves by the key shift at the position
   * given by the number of letters before it.
   */
  function Vigenere(text: seq<Char16>, shifts: seq<Shift>, encrypt: bool): (r: seq<Char16>)
    requires |shifts| > 0
    ensures |r| == |text|
    ensures forall i :: 0 <= i < |text| && !IsLetter(text[i]) ==> r[i] == text[i]
  {
    seq(|text|, i requires 0 <= i < |text| => VigenereChar(text, shifts, encrypt, i))
  }

  lemma LetterCountStep(s: seq<Char16>, i: nat)
    requires i < |s|
    ensures LetterCount(s[..i + 1]) == LetterCount(s[..i]) + (if IsLetter(s[i]) then 1 else 0)
  {
    assert s[..i + 1][..i] == s[..i];
  }

  /** VigenereCipher.Transform: the key index advances only on letters. */
  method VigenereTransform(text: seq<Char16>, key: seq<Char16>, encrypt: bool) returns (r: seq<Char16>)
    requires |key| > 0
    ensures r == Vigenere(text, KeyShifts(key), encrypt)
  {
    var result := new Char16[|text|];
    var upper := UpperAll(key);
    var keyIndex := 0;
    for i := 0 to |text|
      invariant keyIndex == LetterCount(text[..i])
      invariant forall k :: 0 <= k < i ==> result[k] == VigenereChar(text, KeyShifts(key), encrypt, k)
    {
      LetterCountStep(text, i);
      if IsLetter(text[i]) {
        var baseChar := if IsUpper(text[i]) then 'A' as int else 'a' as int;
        var keyShift := upper[keyIndex % |upper|] - 'A' as int;
        var shift := if encrypt then keyShift else -keyShift;
        result[i] := baseChar + TruncRem(Wrap32(Wrap32(text[i] - baseChar + shift) + 26), 26);
        keyIndex := keyIndex + 1;
      } else {
        result[i] := text[i];
      }
    }
    r := result[..];
  }

  /** The key check in Main: a non-empty key made of letters. */
  predicate ValidVigenereKey(key: seq<Char16>) {
    |key| > 0 && AllLetters(key)
  }

  method VigenereEncrypt(text: seq<Char16>, key: seq<Char16>) returns (r: seq<Char16>)
    requires ValidVigenereKey(key)
    ensures r == Vigenere(text, KeyShifts(key), true)
  {
    r := VigenereTransform(text, key, true);
  }

  method VigenereDecrypt(text: seq<Char16>, key: seq<Char16>) returns (r: seq<Char16>)
    requires ValidVigenereKey(key)
    ensures r == Vigenere(text, KeyShifts(key), false)
  {
    r := VigenereTransform(text, key, false);
  }

  predicate ShiftsWithin26(shifts: seq<Shift>) {
    forall j :: 0 <= j < |shifts| ==> -26 <= shifts[j] <= 26
  }

  /** Encryption with small shifts keeps the letter positions, hence the key index at every position. */
  lemma {:induction false} VigenereKeepsLetters(text: seq<Char16>, shifts: seq<Shift>, n: nat)
    requires |shifts| > 0 && ShiftsWithin26(shifts) && LatinLettersOnly(text) && n <= |text|
    ensures forall i :: 0 <= i < |text| ==> IsLetter(Vigenere(text, shifts, true)[i]) == IsLetter(text[i])
    ensures LetterCount(Vigenere(text, shifts, true)[..n]) == LetterCount(text[..n])
  {
    var e := Vigenere(text, shifts, true);
    forall i | 0 <= i < |text| && IsLetter(text[i])
      ensures IsLetter(e[i])
    {
      var keyShift := shifts[LetterCount(text[..i]) % |shifts|];
      ShiftLatin(text[i], keyShift);
    }
    if n > 0 {
      VigenereKeepsLetters(text, shifts, n - 1);
      LetterCountStep(e, n - 1);
      LetterCountStep(text, n - 1);
    }
  }

  /** Decryption with the same key shifts inverts encryption when every shift lies in [-26, 26]. */
  lemma VigenereRoundTripShifts(text: seq<Char16>, shifts: seq<Shift>)
    requires |shifts| > 0 && ShiftsWithin26(shifts) && LatinLettersOnly(text)
    ensures Vigenere(Vigenere(text, shifts, true), shifts, false) == text
  {
    var e := Vigenere(text, shifts, true);
    var d := Vigenere(e, shifts, false);
    forall i | 0 <= i < |text|
      ensures d[i] == text[i]
    {
      VigenereKeepsLetters(text, shifts, i);
      if IsLetter(text[i]) {
        var keyShift := shifts[LetterCount(text[..i]) % |shifts|];
        ShiftLetterInverse(text[i], keyShift);
      }
    }
  }

  /** Decrypt(Encrypt(t, k), k) == t for a non-empty key of Latin letters and text whose letters are Latin. */
  lemma VigenereRoundTrip(text: seq<Char16>, key: seq<Char16>)
    requires |key| > 0 && (forall j :: 0 <= j < |key| ==> IsLatin(key[j])) && LatinLettersOnly(text)
    ensures Vigenere(Vigenere(text, KeyShifts(key), true), KeyShifts(key), false) == text
  {
    VigenereRoundTripShifts(text, KeyShifts(key));
  }

  /**
   * Main accepts any letter as a key letter, but a Russian key letter gives a
   * shift far above 26: with key "Ж" the text "b" encrypts to "u" and decrypts to "H".
   */
  lemma VigenereRussianKey()
    ensures ValidVigenereKey([0x416])
    ensures Vigenere(['b' as int], KeyShifts([0x416]), true) == ['u' as int]
    ensures Vigenere(['u' as int], KeyShifts([0x416]), false) == ['H' as int]
  {
    assert KeyShifts([0x416]) == [0x416 - 'A' as int];
    assert (['b' as int])[..0] == [] && (['u' as int])[..0] == [];
    assert VigenereChar(['b' as int], KeyShifts([0x416]), true, 0) == 'u' as int;
    assert VigenereChar(['u' as int], KeyShifts([0x416]), false, 0) == 'H' as int;
  }

  /**
   * Russian letters are letters to the cipher, yet they are moved by the Latin
   * formula: at shift 0 'Ж' (U+0416) becomes 'T', which decryption keeps.
   */
  lemma CaesarRussianText()
    ensures Caesar([0x416], 0) == ['T' as int]
    ensures Caesar(Caesar([0x416], 0), Neg32(0)) == ['T' as int]
  {
    RussianZheToT();
    var e := Caesar([0x416], 0);
    assert e[0] == 'T' as int;
    assert e == ['T' as int];
    ShiftLatin('T' as int, 0);
    var d := Caesar(e, 0);
    assert d[0] == 'T' as int;
    assert d == ['T' as int];
    assert Neg32(0) == 0;
  }

  /** The Latin formula at shift 0 takes 'Ж' to 'T': 65 + (1046 - 65 + 26) % 26 = 84. */
  lemma RussianZheToT()
    ensures IsLetter(0x416) && ShiftLetter(0x416, 0) == 'T' as int
  {
    assert Base(0x416) == 65;
    assert Wrap32(981) == 981 && Wrap32(1007) == 1007;
    assert TruncRem(1007, 26) == 19;
  }

  /** The same for Vigenère: with key "A" the text "Ж" encrypts to "T", which decrypts to "T". */
  lemma VigenereRussianText()
    ensures ValidVigenereKey(['A' as int])
    ensures Vigenere([0x416], KeyShifts(['A' as int]), true) == ['T' as int]
    ensures Vigenere(['T' as int], KeyShifts(['A' as int]), false) == ['T' as int]
  {
    assert KeyShifts(['A' as int]) == [0];
    var russian: seq<Char16> := [0x416];
    var latin: seq<Char16> := ['T' as int];
    assert russian[..0] == [] && latin[..0] == [];
    RussianZheToT();
    assert VigenereChar([0x416], [0], true, 0) == 'T' as int;
    assert VigenereChar(['T' as int], [0], false, 0) == 'T' as int;
  }

  // ----- the evident intent: each letter rotated within its own alphabet -----

  /** Rotating a Latin offset forward and back, each modulo 26, gives it back. */
  lemma RotateBack26(o: int, shift: int)
    requires 0 <= o < 26
    ensures ((o + shift) % 26 - shift) % 26 == o
  {
  }

  /** Rotating a Russian alphabet index forward and back, each modulo 33, gives it back. */
  lemma RotateBack33(o: int, shift: int)
    requires 0 <= o < 33
    ensures ((o + shift) % 33 - shift) % 33 == o
  {
  }

  /**
   * A letter moved by the shift within its own alphabet: the 26 Latin letters
   * or the 33 Russian letters, keeping its case; the remainder is taken
   * modulo the alphabet's size, so any shift stays in the alphabet.
   */
  function RotateLetter(c: Char16, shift: int): (r: Char16)
    requires IsLetter(c)
    ensures IsLatin(r) == IsLatin(c) && IsUpper(r) == IsUpper(c) && IsLetter(r)
  {
    if IsLatin(c) then Base(c) + (c - Base(c) + shift) % 26
    else CyrillicLetter(IsCyrillicUpper(c), (CyrillicIndex(c) + shift) % 33)
  }

  /** Rotating back by the opposite shift restores every letter. */
  lemma RotateLetterInverse(c: Char16, shift: int)
    requires IsLetter(c)
    ensures RotateLetter(RotateLetter(c, shift), -shift) == c
  {
    if IsLatin(c) {
      RotateBack26(c - Base(c), shift);
    } else {
      RotateBack33(CyrillicIndex(c), shift);
      CyrillicLetterOfIndex(c);
    }
  }

  function CaesarCorrectedChar(c: Char16, shift: int): Char16 {
    if IsLetter(c) then RotateLetter(c, shift) else c
  }

  /** Caesar with every letter rotated within its own alphabet. */
  function CaesarCorrected(text: seq<Char16>, shift: Int32): (r: seq<Char16>)
    ensures |r| == |text|
    ensures forall i :: 0 <= i < |text| ==> IsLetter(r[i]) == IsLetter(text[i])
  {
    seq(|text|, i requires 0 <= i < |text| => CaesarCorrectedChar(text[i], shift))
  }

  /** The corrected Caesar round-trips every text, Russian included, for every shift but int.MinValue. */
  lemma CaesarCorrectedRoundTrip(text: seq<Char16>, shift: Int32)
    requires shift != -0x8000_0000
    ensures CaesarCorrected(CaesarCorrected(text, shift), Neg32(shift)) == text
  {
    var e := CaesarCorrected(text, shift);
    var d := CaesarCorrected(e, Neg32(shift));
    forall i | 0 <= i < |text|
      ensures d[i] == text[i]
    {
      if IsLetter(text[i]) {
        RotateLetterInverse(text[i], shift);
      }
    }
  }

  function VigenereCorrectedChar(text: seq<Char16>, shifts: seq<Shift>, encrypt: bool, i: nat): Char16
    requires |shifts| > 0 && i < |text|
  {
    if IsLetter(text[i]) then
      var keyShift := shifts[LetterCount(text[..i]) % |shifts|];
      RotateLetter(text[i], if encrypt then keyShift else -keyShift)
    else text[i]
  }

  /** Vigenère with every letter rotated within its own alphabet. */
  function VigenereCorrected(text: seq<Char16>, shifts: seq<Shift>, encrypt: bool): (r: seq<Char16>)
    requires |shifts| > 0
    ensures |r| == |text|
    ensures forall i :: 0 <= i < |text| ==> IsLetter(r[i]) == IsLetter(text[i])
  {
    seq(|text|, i requires 0 <= i < |text| => VigenereCorrectedChar(text, shifts, encrypt, i))
  }

  /** Letters stay letters, so every position keeps its key index. */
  lemma {:induction false} VigenereCorrectedCount(text: seq<Char16>, shifts: seq<Shift>, n: nat)
    requires |shifts| > 0 && n <= |text|
    ensures LetterCount(VigenereCorrected(text, shifts, true)[..n]) == LetterCount(text[..n])
  {
    if n > 0 {
      var e := VigenereCorrected(text, shifts, true);
      VigenereCorrectedCount(text, shifts, n - 1);
      LetterCountStep(e, n - 1);
      LetterCountStep(text, n - 1);
    }
  }

  /** The corrected Vigenère round-trips every text with every non-empty key, Russian letters included. */
  lemma VigenereCorrectedRoundTrip(text: seq<Char16>, key: seq<Char16>)
    requires |key| > 0
    ensures var shifts := KeyShifts(key);
      VigenereCorrected(VigenereCorrected(text, shifts, true), shifts, false) == text
  {
    var shifts := KeyShifts(key);
    var e := VigenereCorrected(text, shifts, true);
    var d := VigenereCorrected(e, shifts, false);
    forall i | 0 <= i < |text|
      ensures d[i] == text[i]
    {
      VigenereCorrectedCount(text, shifts, i);
      if IsLetter(text[i]) {
        var keyShift := shifts[LetterCount(text[..i]) % |shifts|];
        RotateLetterInverse(text[i], keyShift);
      }
    }
  }
}
