/**
 * The block transposition cipher of the file encryptor. The text is cut into
 * blocks of the key's length; output position j of a block takes the block's
 * character at key[j] - 1, a block running past the end of the text being
 * padded with spaces. Decryption runs the same transform with the inverse key.
 */
module PermutationCipher {
  import opened CipherChars

  /** The key check in Main: a non-empty list of distinct numbers from 1 to its length. */
  predicate ValidPermutation(p: seq<int>) {
    && |p| > 0
    && (forall i :: 0 <= i < |p| ==> 1 <= p[i] <= |p|)
    && (forall i, j :: 0 <= i < j < |p| ==> p[i] != p[j])
  }

  // ----- arithmetic on block positions -----

  lemma MulMonotone(n: nat, a: int, b: int)
    requires a <= b
    ensures n * a <= n * b
  {
    assert n * b - n * a == n * (b - a);
  }

  /** Position y of block b has block index b and offset y. */
  lemma BlockPosition(n: int, b: nat, y: int)
    requires 0 <= y < n
    ensures (b * n + y) / n == b && (b * n + y) % n == y
  {
    var k := b * n + y;
    var q, r := k / n, k % n;
    assert k == q * n + r && 0 <= r < n;
    if q < b {
      MulMonotone(n, q + 1, b);
    }
    if q > b {
      MulMonotone(n, b + 1, q);
    }
  }

  /** In a text of whole blocks every block lies inside the text. */
  lemma WholeBlock(n: int, m: nat, k: nat)
    requires n > 0 && k < m * n
    ensures (k / n) * n + n <= m * n
  {
    var b := k / n;
    assert k == b * n + k % n;
    if b >= m {
      MulMonotone(n, m, b);
    }
    MulMonotone(n, b + 1, m);
  }

  // ----- the transform -----

  /** Keys the transform can run on: non-empty, so that the block loop advances, and no entry below 1. */
  predicate TransformableKey(p: seq<int>) {
    |p| > 0 && forall j :: 0 <= j < |p| ==> p[j] >= 1
  }

  /**
   * Output code unit k of PermutationCipher.Transform: from the block that
   * starts at (k / n) * n, the character at key[k % n] - 1; a space when that
   * lies past the end of the text, and the array's initial '\0' when the key
   * entry exceeds the block size.
   */
  function PermChar(text: seq<Char16>, p: seq<int>, k: nat): Char16
    requires TransformableKey(p) && k < |text|
  {
    var n := |p|;
    var start := (k / n) * n;
    var pos := p[k % n] - 1;
    if pos >= n then 0
    else if start + pos < |text| then text[start + pos]
    else Space
  }

  function Permute(text: seq<Char16>, p: seq<int>): (r: seq<Char16>)
    requires TransformableKey(p)
    ensures |r| == |text|
  {
    seq(|text|, k requires 0 <= k < |text| => PermChar(text, p, k))
  }

  lemma PermCharInBlock(text: seq<Char16>, p: seq<int>, b: nat, j: nat)
    requires TransformableKey(p) && j < |p| && b * |p| + j < |text|
    ensures var pos := p[j] - 1;
      PermChar(text, p, b * |p| + j) ==
        if pos >= |p| then 0 else if b * |p| + pos < |text| then text[b * |p| + pos] else Space
  {
    BlockPosition(|p|, b, j);
  }

  /** The block buffer: `blockSize` spaces overwritten with the text from `i` on, as far as it goes. */
  method ReadBlock(text: seq<Char16>, i: nat, n: nat) returns (block: array<Char16>)
    requires i < |text|
    ensures fresh(block) && block.Length == n
    ensures forall x :: 0 <= x < n ==> block[x] == (if i + x < |text| then text[i + x] else Space)
  {
    var remaining := if n < |text| - i then n else |text| - i;
    block := new Char16[n](_ => Space);
    for j := 0 to remaining
      invariant forall x :: 0 <= x < n ==> block[x] == (if x < j then text[i + x] else Space)
    {
      block[j] := text[i + j];
    }
  }

  /** The inner loop over one block: output slot i + j takes block[key[j] - 1]. */
  method WriteBlock(text: seq<Char16>, p: seq<int>, i: nat, ghost b: nat, block: array<Char16>, result: array<Char16>)
    requires TransformableKey(p) && block != result && i == b * |p|
    requires result.Length == |text| && block.Length == |p|
    requires forall x :: 0 <= x < |p| ==> block[x] == (if b * |p| + x < |text| then text[b * |p| + x] else Space)
    requires forall k :: b * |p| <= k < |text| ==> result[k] == 0
    modifies result
    ensures forall k :: 0 <= k < |text| && k < b * |p| ==> result[k] == old(result[k])
    ensures forall k :: b * |p| <= k < |text| && k < b * |p| + |p| ==> result[k] == PermChar(text, p, k)
    ensures forall k :: b * |p| + |p| <= k < |text| ==> result[k] == 0
  {
    var n := |p|;
    for j := 0 to n
      invariant forall k :: 0 <= k < |text| && k < i ==> result[k] == old(result[k])
      invariant forall k :: i <= k < |text| && k < i + j ==> result[k] == PermChar(text, p, k)
      invariant forall k :: i + j <= k < |text| ==> result[k] == 0
    {
      var pos := p[j] - 1;
      if i + j < |text| {
        PermCharInBlock(text, p, b, j);
      }
      if pos < n && i + j < |text| {
        result[i + j] := block[pos];
      }
    }
  }

  /** PermutationCipher.Transform: block by block, through a space-filled block buffer. */
  method Transform(text: seq<Char16>, p: seq<int>) returns (r: seq<Char16>)
    requires TransformableKey(p)
    ensures r == Permute(text, p)
  {
    var n := |p|;
    var result := new Char16[|text|](_ => 0);
    var i := 0;
    ghost var b := 0;
    while i < |text|
      invariant i == b * n && b >= 0
      invariant forall k :: 0 <= k < |text| && k < i ==> result[k] == PermChar(text, p, k)
      invariant forall k :: i <= k < |text| ==> result[k] == 0
    {
      var block := ReadBlock(text, i, n);
      WriteBlock(text, p, i, b, block, result);
      i := i + n;
      b := b + 1;
    }
    r := result[..];
  }

  // ----- the inverse key -----

  /** No more distinct values in 1..m than m. */
  lemma {:induction false} Pigeonhole(p: seq<int>, m: nat)
    requires forall i :: 0 <= i < |p| ==> 1 <= p[i] <= m
    requires forall i, j :: 0 <= i < j < |p| ==> p[i] != p[j]
    ensures |p| <= m
    decreases |p|
  {
    if p != [] {
      var x := p[|p| - 1];
      var q := seq(|p| - 1, i requires 0 <= i < |p| - 1 => if p[i] > x then p[i] - 1 else p[i]);
      Pigeonhole(q, m - 1);
    }
  }

  /** A valid key takes every value from 1 to its length. */
  lemma Surjective(p: seq<int>, v: int)
    requires ValidPermutation(p) && 1 <= v <= |p|
    ensures exists i :: 0 <= i < |p| && p[i] == v
  {
    if forall i :: 0 <= i < |p| ==> p[i] != v {
      var q := seq(|p|, i requires 0 <= i < |p| => if p[i] > v then p[i] - 1 else p[i]);
      Pigeonhole(q, |p| - 1);
    }
  }

  lemma InverseAt(p: seq<int>, inv: seq<int>, j: nat)
    requires ValidPermutation(p) && |inv| == |p| && j < |p|
    requires forall i :: 0 <= i < |p| ==> inv[p[i] - 1] == i + 1
    ensures 1 <= inv[j] <= |p| && p[inv[j] - 1] == j + 1
  {
    Surjective(p, j + 1);
    var x :| 0 <= x < |p| && p[x] == j + 1;
    assert inv[p[x] - 1] == x + 1;
  }

  /** A key that sends every i to the slot of p[i] - 1 with value i + 1 is the inverse permutation. */
  lemma InverseComplete(p: seq<int>, inv: seq<int>)
    requires ValidPermutation(p) && |inv| == |p|
    requires forall i :: 0 <= i < |p| ==> inv[p[i] - 1] == i + 1
    ensures ValidPermutation(inv)
    ensures forall j :: 0 <= j < |p| ==> p[inv[j] - 1] == j + 1
  {
    forall j | 0 <= j < |p|
      ensures 1 <= inv[j] <= |p| && p[inv[j] - 1] == j + 1
    {
      InverseAt(p, inv, j);
    }
    forall j1, j2 | 0 <= j1 < j2 < |p|
      ensures inv[j1] != inv[j2]
    {
      assert p[inv[j1] - 1] != p[inv[j2] - 1];
    }
  }

  /** Decrypt's loop: `inverse[permutation[i] - 1] = i + 1`. */
  method Inverse(p: seq<int>) returns (inv: seq<int>)
    requires ValidPermutation(p)
    ensures |inv| == |p|
    ensures forall i :: 0 <= i < |p| ==> inv[p[i] - 1] == i + 1
    ensures ValidPermutation(inv)
    ensures forall j :: 0 <= j < |p| ==> p[inv[j] - 1] == j + 1
  {
    var n := |p|;
    var inverse := new int[n](_ => 0);
    for i := 0 to n
      invariant forall x :: 0 <= x < i ==> inverse[p[x] - 1] == x + 1
    {
      inverse[p[i] - 1] := i + 1;
    }
    inv := inverse[..];
    InverseComplete(p, inv);
  }

  // ----- encryption, decryption and the round trip -----

  method Encrypt(text: seq<Char16>, p: seq<int>) returns (r: seq<Char16>)
    requires ValidPermutation(p)
    ensures r == Permute(text, p)
  {
    r := Transform(text, p);
  }

  method Decrypt(text: seq<Char16>, p: seq<int>) returns (r: seq<Char16>, ghost inv: seq<int>)
    requires ValidPermutation(p)
    ensures ValidPermutation(inv) && |inv| == |p|
    ensures forall i :: 0 <= i < |p| ==> inv[p[i] - 1] == i + 1
    ensures r == Permute(text, inv)
  {
    var inverse := Inverse(p);
    inv := inverse;
    r := Transform(text, inverse);
  }

  /**
   * A valid key and its inverse undo each other on a text made of whole
   * blocks: decrypting the encryption gives the text back.
   */
  lemma RoundTrip(text: seq<Char16>, p: seq<int>, inv: seq<int>)
    requires ValidPermutation(p) && |inv| == |p| && ValidPermutation(inv)
    requires forall j :: 0 <= j < |p| ==> p[inv[j] - 1] == j + 1
    requires |text| % |p| == 0
    ensures Permute(Permute(text, p), inv) == text
  {
    var n := |p|;
    var m := |text| / n;
    assert |text| == m * n;
    var e := Permute(text, p);
    forall k | 0 <= k < |text|
      ensures Permute(e, inv)[k] == text[k]
    {
      var b := k / n;
      var y := k % n;
      assert k == b * n + y;
      var pos := inv[y] - 1;
      WholeBlock(n, m, k);
      BlockPosition(n, b, pos);
      assert PermChar(e, inv, k) == e[b * n + pos];
      assert e[b * n + pos] == text[b * n + (p[pos] - 1)];
    }
  }

  /**
   * A trailing partial block is not recovered: with key 3 1 2 the text "ab"
   * encrypts to " a", which decrypts to "a ".
   */
  lemma PartialBlockLost()
    ensures ValidPermutation([3, 1, 2])
    ensures Permute(['a' as int, 'b' as int], [3, 1, 2]) == [Space, 'a' as int]
    ensures Permute([Space, 'a' as int], [2, 3, 1]) == ['a' as int, Space]
  {
    assert PermChar(['a' as int, 'b' as int], [3, 1, 2], 0) == Space;
    assert PermChar(['a' as int, 'b' as int], [3, 1, 2], 1) == 'a' as int;
    assert PermChar([Space, 'a' as int], [2, 3, 1], 0) == 'a' as int;
    assert PermChar([Space, 'a' as int], [2, 3, 1], 1) == Space;
  }

  // ----- the evident intent: pad the text to whole blocks -----

  /** Padding a length up to the next multiple of n gives a multiple of n. */
  lemma PaddedLength(len: nat, n: nat)
    requires n > 0
    ensures var q := len % n; (len + (if q == 0 then 0 else n - q)) % n == 0
  {
    var b, q := len / n, len % n;
    assert len == b * n + q;
    if q == 0 {
      BlockPosition(n, b, 0);
    } else {
      assert len + (n - q) == (b + 1) * n + 0;
      BlockPosition(n, b + 1, 0);
    }
  }

  /** The text followed by the fewest spaces that make it a whole number of blocks of size n. */
  function PadToBlocks(text: seq<Char16>, n: nat): (r: seq<Char16>)
    requires n > 0
    ensures |r| % n == 0 && |text| <= |r| < |text| + n
    ensures r[..|text|] == text && forall k :: |text| <= k < |r| ==> r[k] == Space
  {
    var q := |text| % n;
    PaddedLength(|text|, n);
    text + seq(if q == 0 then 0 else n - q, _ => Space)
  }

  /** Encryption with the last block filled up with spaces before the transform. */
  method EncryptPadded(text: seq<Char16>, p: seq<int>) returns (r: seq<Char16>)
    requires ValidPermutation(p)
    ensures r == Permute(PadToBlocks(text, |p|), p)
  {
    r := Transform(PadToBlocks(text, |p|), p);
  }

  /**
   * With the padding, every text round-trips: decrypting gives the text
   * back, followed only by the padding spaces.
   */
  lemma PaddedRoundTrip(text: seq<Char16>, p: seq<int>, inv: seq<int>)
    requires ValidPermutation(p) && |inv| == |p| && ValidPermutation(inv)
    requires forall j :: 0 <= j < |p| ==> p[inv[j] - 1] == j + 1
    ensures Permute(Permute(PadToBlocks(text, |p|), p), inv) == PadToBlocks(text, |p|)
    ensures Permute(Permute(PadToBlocks(text, |p|), p), inv)[..|text|] == text
  {
    RoundTrip(PadToBlocks(text, |p|), p, inv);
  }
}
