/** The XOR cipher of the file encryptor: the same operation encrypts and decrypts. */
module XorCipher {
  import opened CipherChars

  function Pow2(k: nat): (r: nat)
    ensures r >= 1
  {
    if k == 0 then 1 else 2 * Pow2(k - 1)
  }

  lemma Pow2Sixteen()
    ensures Pow2(16) == 0x1_0000
  {
    assert Pow2(4) == 16;
    assert Pow2(8) == 256;
    assert Pow2(12) == 4096;
  }

  /** Bitwise exclusive or of the lowest `k` bits of `a` and `b`. */
  function XorBits(a: nat, b: nat, k: nat): (r: nat)
    ensures r < Pow2(k)
  {
    if k == 0 then 0
    else (if a % 2 == b % 2 then 0 else 1) + 2 * XorBits(a / 2, b / 2, k - 1)
  }

  /** `(char)(a ^ b)` on two UTF-16 code units. */
  function XorUnit(a: Char16, b: Char16): Char16 {
    Pow2Sixteen();
    XorBits(a, b, 16)
  }

  lemma {:induction false} XorBitsTwice(a: nat, b: nat, k: nat)
    requires a < Pow2(k)
    ensures XorBits(XorBits(a, b, k), b, k) == a
  {
    if k > 0 {
      var r' := XorBits(a / 2, b / 2, k - 1);
      var r := XorBits(a, b, k);
      assert r % 2 == (if a % 2 == b % 2 then 0 else 1) && r / 2 == r';
      XorBitsTwice(a / 2, b / 2, k - 1);
    }
  }

  lemma XorUnitTwice(a: Char16, b: Char16)
    ensures XorUnit(XorUnit(a, b), b) == a
  {
    Pow2Sixteen();
    XorBitsTwice(a, b, 16);
  }

  /** What XORCipher.EncryptDecrypt returns: code unit i is combined with key unit i mod |key|. */
  function Xor(text: seq<Char16>, key: seq<Char16>): (r: seq<Char16>)
    requires |key| > 0
    ensures |r| == |text|
  {
    seq(|text|, i requires 0 <= i < |text| => XorUnit(text[i], key[i % |key|]))
  }

  /** XORCipher.EncryptDecrypt; Main rejects an empty key before calling it. */
  method EncryptDecrypt(text: seq<Char16>, key: seq<Char16>) returns (r: seq<Char16>)
    requires |key| > 0
    ensures r == Xor(text, key)
  {
    var result := new Char16[|text|];
    for i := 0 to |text|
      invariant forall k :: 0 <= k < i ==> result[k] == XorUnit(text[k], key[k % |key|])
    {
      result[i] := XorUnit(text[i], key[i % |key|]);
    }
    r := result[..];
  }

  /** Applying the cipher twice with the same key gives the text back. */
  lemma XorInvolution(text: seq<Char16>, key: seq<Char16>)
    requires |key| > 0
    ensures Xor(Xor(text, key), key) == text
  {
    var e := Xor(text, key);
    forall i | 0 <= i < |text|
      ensures Xor(e, key)[i] == text[i]
    {
      XorUnitTwice(text[i], key[i % |key|]);
    }
  }
}
