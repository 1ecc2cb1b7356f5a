/**
 * The monoalphabetic substitution cipher of the file encryptor: a dictionary
 * from lower-case letters to lower-case letters built from a 26-letter key,
 * applied letter by letter with the letter's case restored afterwards.
 */
module SubstitutionCipher {
  import opened Wrappers
  import opened CipherChars

  type Mapping = map<Char16, Char16>

  /** The i-th letter of "abcdefghijklmnopqrstuvwxyz". */
  function Alphabet(i: nat): (c: Char16)
    requires i < 26
    ensures IsLatinLower(c)
  {
    'a' as int + i
  }

  /** The key check in Main: 26 letters, pairwise distinct once lower-cased. */
  predicate ValidSubstitutionKey(key: seq<Char16>) {
    && |key| == 26
    && AllLetters(key)
    && forall i, j :: 0 <= i < j < 26 ==> ToLower(key[i]) != ToLower(key[j])
  }

  /** The pair that iteration i of CreateMapping stores: `mapping[From] = To`. */
  function From(lower: seq<Char16>, encrypt: bool, i: nat): Char16
    requires i < 26 <= |lower|
  {
    if encrypt then Alphabet(i) else lower[i]
  }

  function To(lower: seq<Char16>, encrypt: bool, i: nat): Char16
    requires i < 26 <= |lower|
  {
    if encrypt then lower[i] else Alphabet(i)
  }

  /** The dictionary after the first `n` iterations; a later pair overwrites an earlier one. */
  function MappingUpTo(lower: seq<Char16>, encrypt: bool, n: nat): Mapping
    requires n <= 26 <= |lower|
  {
    if n == 0 then map[]
    else MappingUpTo(lower, encrypt, n - 1)[From(lower, encrypt, n - 1) := To(lower, encrypt, n - 1)]
  }

  /** SubstitutionCipher.CreateMapping over the lower-cased key. */
  method CreateMapping(key: seq<Char16>, encrypt: bool) returns (mapping: Mapping)
    requires |key| >= 26
    ensures mapping == MappingUpTo(LowerAll(key), encrypt, 26)
  {
    mapping := map[];
    var lower := LowerAll(key);
    for i := 0 to 26
      invariant mapping == MappingUpTo(lower, encrypt, i)
    {
      if encrypt {
        mapping := mapping[Alphabet(i) := lower[i]];
      } else {
        mapping := mapping[lower[i] := Alphabet(i)];
      }
    }
  }

  /** Iteration sources that are pairwise distinct each keep the target stored for them. */
  lemma {:induction false} MappingUpToContents(lower: seq<Char16>, encrypt: bool, n: nat)
    requires n <= 26 <= |lower|
    requires forall i, j :: 0 <= i < j < n ==> From(lower, encrypt, i) != From(lower, encrypt, j)
    ensures forall c :: c in MappingUpTo(lower, encrypt, n) <==>
      exists i :: 0 <= i < n && From(lower, encrypt, i) == c
    ensures forall i :: 0 <= i < n ==> MappingUpTo(lower, encrypt, n)[From(lower, encrypt, i)] == To(lower, encrypt, i)
  {
    if n > 0 {
      MappingUpToContents(lower, encrypt, n - 1);
      var prev := MappingUpTo(lower, encrypt, n - 1);
      assert MappingUpTo(lower, encrypt, n) == prev[From(lower, encrypt, n - 1) := To(lower, encrypt, n - 1)];
      forall c | c in MappingUpTo(lower, encrypt, n)
        ensures exists i :: 0 <= i < n && From(lower, encrypt, i) == c
      {
        if c != From(lower, encrypt, n - 1) {
          assert c in prev;
          var i :| 0 <= i < n - 1 && From(lower, encrypt, i) == c;
        }
      }
    }
  }

  /** For a valid key: encryption sends the i-th letter of the alphabet to the i-th key letter, lower-cased. */
  lemma EncryptMapping(key: seq<Char16>)
    requires ValidSubstitutionKey(key)
    ensures forall c :: c in MappingUpTo(LowerAll(key), true, 26) <==> IsLatinLower(c)
    ensures forall i :: 0 <= i < 26 ==> MappingUpTo(LowerAll(key), true, 26)[Alphabet(i)] == ToLower(key[i])
  {
    var lower := LowerAll(key);
    MappingUpToContents(lower, true, 26);
    forall c: Char16 | IsLatinLower(c)
      ensures c in MappingUpTo(lower, true, 26)
    {
      assert From(lower, true, c - 'a' as int) == c;
    }
  }

  /** For a valid key: decryption sends the i-th key letter, lower-cased, back to the i-th letter of the alphabet. */
  lemma DecryptMapping(key: seq<Char16>)
    requires ValidSubstitutionKey(key)
    ensures forall c :: c in MappingUpTo(LowerAll(key), false, 26) ==> exists i :: 0 <= i < 26 && ToLower(key[i]) == c
    ensures forall i :: 0 <= i < 26 ==>
      ToLower(key[i]) in MappingUpTo(LowerAll(key), false, 26) && MappingUpTo(LowerAll(key), false, 26)[ToLower(key[i])] == Alphabet(i)
  {
    var lower := LowerAll(key);
    MappingUpToContents(lower, false, 26);
    forall c | c in MappingUpTo(lower, false, 26)
      ensures exists i :: 0 <= i < 26 && ToLower(key[i]) == c
    {
      var i :| 0 <= i < 26 && From(lower, false, i) == c;
      assert ToLower(key[i]) == c;
    }
    forall i | 0 <= i < 26
      ensures ToLower(key[i]) in MappingUpTo(lower, false, 26)
    {
      assert From(lower, false, i) == ToLower(key[i]);
    }
  }

  /** One code unit through the dictionary; `None` is the KeyNotFoundException of a letter without entry. */
  function SubstituteChar(c: Char16, mapping: Mapping): Option<Char16> {
    if !IsLetter(c) then Some(c)
    else if ToLower(c) !in mapping then None
    else if IsUpper(c) then Some(ToUpper(mapping[ToLower(c)]))
    else Some(mapping[ToLower(c)])
  }

  /** What SubstitutionCipher.Transform returns, or `None` when some letter has no entry. */
  function Substitute(text: seq<Char16>, mapping: Mapping): (r: Option<seq<Char16>>)
    ensures r.Some? <==> forall i :: 0 <= i < |text| ==> SubstituteChar(text[i], mapping).Some?
    ensures r.Some? ==> |r.value| == |text|
    ensures r.Some? ==> forall i :: 0 <= i < |text| && !IsLetter(text[i]) ==> r.value[i] == text[i]
  {
    if forall i :: 0 <= i < |text| ==> SubstituteChar(text[i], mapping).Some? then
      Some(seq(|text|, i requires 0 <= i < |text| => SubstituteChar(text[i], mapping).value))
    else None
  }

  /** SubstitutionCipher.Transform; the first letter without a dictionary entry ends it with the exception. */
  method Transform(text: seq<Char16>, mapping: Mapping) returns (r: Option<seq<Char16>>)
    ensures r == Substitute(text, mapping)
  {
    var result := new Char16[|text|];
    for i := 0 to |text|
      invariant forall k :: 0 <= k < i ==> SubstituteChar(text[k], mapping) == Some(result[k])
    {
      if IsLetter(text[i]) {
        var lowerChar := ToLower(text[i]);
        if lowerChar !in mapping {
          assert SubstituteChar(text[i], mapping).None?;
          return None;
        }
        result[i] := if IsUpper(text[i]) then ToUpper(mapping[lowerChar]) else mapping[lowerChar];
      } else {
        result[i] := text[i];
      }
    }
    assert forall k :: 0 <= k < |text| ==> SubstituteChar(text[k], mapping).Some?;
    assert result[..] == Substitute(text, mapping).value;
    r := Some(result[..]);
  }

  function EncryptSpec(text: seq<Char16>, key: seq<Char16>): Option<seq<Char16>>
    requires |key| >= 26
  {
    Substitute(text, MappingUpTo(LowerAll(key), true, 26))
  }

  function DecryptSpec(text: seq<Char16>, key: seq<Char16>): Option<seq<Char16>>
    requires |key| >= 26
  {
    Substitute(text, MappingUpTo(LowerAll(key), false, 26))
  }

  method Encrypt(text: seq<Char16>, key: seq<Char16>) returns (r: Option<seq<Char16>>)
    requires ValidSubstitutionKey(key)
    ensures r == EncryptSpec(text, key)
  {
    var mapping := CreateMapping(key, true);
    r := Transform(text, mapping);
  }

  method Decrypt(text: seq<Char16>, key: seq<Char16>) returns (r: Option<seq<Char16>>)
    requires ValidSubstitutionKey(key)
    ensures r == DecryptSpec(text, key)
  {
    var mapping := CreateMapping(key, false);
    r := Transform(text, mapping);
  }

  /** With a valid key, encryption fails exactly when the text holds a letter outside the Latin alphabet. */
  lemma EncryptFailsOnNonLatin(text: seq<Char16>, key: seq<Char16>)
    requires ValidSubstitutionKey(key)
    ensures EncryptSpec(text, key).None? <==> !LatinLettersOnly(text)
  {
    EncryptMapping(key);
  }

  /** Decrypt(Encrypt(t, k), k) == t for a valid key and a text whose letters are Latin; case is kept. */
  lemma RoundTrip(text: seq<Char16>, key: seq<Char16>)
    requires ValidSubstitutionKey(key) && LatinLettersOnly(text)
    ensures EncryptSpec(text, key).Some?
    ensures DecryptSpec(EncryptSpec(text, key).value, key) == Some(text)
  {
    EncryptMapping(key);
    DecryptMapping(key);
    var enc := MappingUpTo(LowerAll(key), true, 26);
    var dec := MappingUpTo(LowerAll(key), false, 26);
    var e := EncryptSpec(text, key).value;
    forall i | 0 <= i < |text|
      ensures SubstituteChar(e[i], dec) == Some(text[i])
    {
      var c := text[i];
      if IsLetter(c) {
        var l := ToLower(c);
        var k := l - 'a' as int;
        assert Alphabet(k) == l;
        var m := enc[l];
        assert m == ToLower(key[k]);
        assert IsLower(m);
        if IsUpper(c) {
          ToUpperOfLower(m);
        }
        assert ToLower(e[i]) == m && IsUpper(e[i]) == IsUpper(c);
      }
    }
    var d := Substitute(e, dec);
    assert d.Some?;
    assert d.value == text;
  }
}
