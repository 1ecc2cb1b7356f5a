/**
 * The character and integer vocabulary shared by the text ciphers of the
 * file encryptor. A C# string is a sequence of 16-bit UTF-16 code units, so
 * the ciphers work on `Char16` values rather than Dafny characters (an XOR
 * can produce any code unit, surrogates included).
 *
 * Letter classification covers the two alphabets the program meets: the
 * Latin letters A-Z, a-z and the Russian letters А-Я, а-я, Ё, ё. Upper and
 * lower case are converted within each alphabet, as char.ToUpper and
 * char.ToLower do for these letters.
 */
module CipherChars {
  type Char16 = c: int | 0 <= c < 0x1_0000

  const Space: Char16 := 32

  type Int32 = x: int | -0x8000_0000 <= x < 0x8000_0000

  /** Two's-complement wrap-around of a C# `int` result. */
  function Wrap32(x: int): (r: Int32)
    ensures -0x8000_0000 <= x < 0x8000_0000 ==> r == x
    ensures (r - x) % 0x1_0000_0000 == 0
  {
    (x + 0x8000_0000) % 0x1_0000_0000 - 0x8000_0000
  }

  /** Unary minus on a C# `int`: it wraps only at int.MinValue. */
  function Neg32(x: Int32): (r: Int32)
    ensures x != -0x8000_0000 ==> r == -x
    ensures x == -0x8000_0000 ==> r == x
  {
    Wrap32(0 - x as int)
  }

  /** C#'s `%` on `int`: the remainder takes the sign of the dividend. */
  function TruncRem(a: int, n: int): (r: int)
    requires n > 0
    ensures a >= 0 ==> r == a % n
    ensures a < 0 ==> -n < r <= 0 && r == -((-a) % n)
  {
    if a >= 0 then a % n else -((-a) % n)
  }

  predicate IsLatinUpper(c: Char16) { 'A' as int <= c <= 'Z' as int }
  predicate IsLatinLower(c: Char16) { 'a' as int <= c <= 'z' as int }
  predicate IsLatin(c: Char16) { IsLatinUpper(c) || IsLatinLower(c) }

  /** А-Я (U+0410..U+042F) and Ё (U+0401). */
  predicate IsCyrillicUpper(c: Char16) { 0x410 <= c <= 0x42F || c == 0x401 }
  /** а-я (U+0430..U+044F) and ё (U+0451). */
  predicate IsCyrillicLower(c: Char16) { 0x430 <= c <= 0x44F || c == 0x451 }

  predicate IsCyrillic(c: Char16) { IsCyrillicUpper(c) || IsCyrillicLower(c) }

  /** The position of a Russian letter in the 33-letter alphabet А Б В Г Д Е Ё Ж … Я, in either case. */
  function CyrillicIndex(c: Char16): (r: nat)
    requires IsCyrillic(c)
    ensures r < 33
  {
    if c == 0x401 || c == 0x451 then 6
    else
      var o := if c >= 0x430 then c - 0x430 else c - 0x410;
      if o <= 5 then o else o + 1
  }

  /** The Russian letter at position i of the alphabet, in the given case. */
  function CyrillicLetter(upper: bool, i: nat): (r: Char16)
    requires i < 33
    ensures upper ==> IsCyrillicUpper(r)
    ensures !upper ==> IsCyrillicLower(r)
    ensures CyrillicIndex(r) == i
  {
    if i == 6 then (if upper then 0x401 else 0x451)
    else (if upper then 0x410 else 0x430) + (if i < 6 then i else i - 1)
  }

  /** Index and letter are inverse: every Russian letter sits at its own index. */
  lemma CyrillicLetterOfIndex(c: Char16)
    requires IsCyrillic(c)
    ensures CyrillicLetter(IsCyrillicUpper(c), CyrillicIndex(c)) == c
  {
  }

  /** char.IsUpper */
  predicate IsUpper(c: Char16) { IsLatinUpper(c) || IsCyrillicUpper(c) }
  /** char.IsLower */
  predicate IsLower(c: Char16) { IsLatinLower(c) || IsCyrillicLower(c) }
  /** char.IsLetter */
  predicate IsLetter(c: Char16) { IsUpper(c) || IsLower(c) }

  /** char.ToLower */
  function ToLower(c: Char16): (r: Char16)
    ensures IsUpper(c) ==> IsLower(r) && ToUpper(r) == c
    ensures !IsUpper(c) ==> r == c
  {
    if IsLatinUpper(c) || 0x410 <= c <= 0x42F then c + 0x20
    else if c == 0x401 then 0x451
    else c
  }

  /** char.ToUpper */
  function ToUpper(c: Char16): (r: Char16)
    ensures IsLower(c) ==> IsUpper(r)
    ensures !IsLower(c) ==> r == c
  {
    if IsLatinLower(c) || 0x430 <= c <= 0x44F then c - 0x20
    else if c == 0x451 then 0x401
    else c
  }

  lemma ToUpperOfLower(c: Char16)
    requires IsLower(c)
    ensures ToLower(ToUpper(c)) == c
  {
  }

  /** string.ToLower / string.ToUpper, applied code unit by code unit. */
  function LowerAll(s: seq<Char16>): (r: seq<Char16>)
    ensures |r| == |s| && forall i :: 0 <= i < |s| ==> r[i] == ToLower(s[i])
  {
    seq(|s|, i requires 0 <= i < |s| => ToLower(s[i]))
  }

  function UpperAll(s: seq<Char16>): (r: seq<Char16>)
    ensures |r| == |s| && forall i :: 0 <= i < |s| ==> r[i] == ToUpper(s[i])
  {
    seq(|s|, i requires 0 <= i < |s| => ToUpper(s[i]))
  }

  /** Every letter of `s` is a Latin letter. */
  predicate LatinLettersOnly(s: seq<Char16>) {
    forall i :: 0 <= i < |s| && IsLetter(s[i]) ==> IsLatin(s[i])
  }

  predicate AllLetters(s: seq<Char16>) {
    forall i :: 0 <= i < |s| ==> IsLetter(s[i])
  }
}
