/** The hash function and the comparison of the string key class. */
module StrHash {
  import opened Bits
  import opened CStrings

  // ----- The hash --------------------------------------------------------------------------------

  const WORD: nat := 0x1_0000_0000

  /** One round of the hash in 32-bit arithmetic: the shift drops what leaves the word. */
  function Mix(h: nat, c: char): nat {
    Xor(Xor(h * 8 % WORD, h), Lower(c) as nat)
  }

  function MixAll(s: string): nat {
    if s == [] then 0 else Mix(MixAll(s[..|s| - 1]), s[|s| - 1])
  }

  function KeyHash(key: string): nat {
    And(MixAll(key), 0x7fff_ffff)
  }

  method NoCaseHash(z: string) returns (hash: nat)
    ensures hash == KeyHash(z)
  {
    var h := 0;
    for i := 0 to |z|
      invariant h == MixAll(z[..i])
    {
      assert z[..i + 1][..i] == z[..i];
      h := Mix(h, z[i]);
    }
    assert z[..|z|] == z;
    hash := And(h, 0x7fff_ffff);
  }

  // ----- The comparison --------------------------------------------------------------------------

  /** What a comparison result of 0 says: same length, and equal letters up to the first NUL. */
  predicate SameKey(a: string, b: string) {
    |a| == |b| && forall i :: 0 <= i < |a| && NUL !in a[..i] ==> Lower(a[i]) == Lower(b[i])
  }

  /** The C loop: it stops at the first difference, at a NUL of the left string, or after `n` octets. */
  method StrNICmp(left: string, right: string, n: nat) returns (order: int)
    requires n <= |left| && n <= |right|
    ensures order == 0 <==> SameKey(left[..n], right[..n])
  {
    var i := 0;
    while i < n && left[i] != NUL && Lower(left[i]) == Lower(right[i])
      invariant 0 <= i <= n
      invariant NUL !in left[..i]
      invariant forall j :: 0 <= j < i ==> Lower(left[j]) == Lower(right[j])
    {
      i := i + 1;
    }
    assert forall j :: 0 <= j <= n ==> left[..n][..j] == left[..j];
    if i == n {
      order := 0;
    } else {
      order := Lower(left[i]) as int - Lower(right[i]) as int;
      if left[i] == NUL {
        assert forall j :: i < j <= n ==> left[..j][i] == NUL;
      }
    }
  }

  method StrCompare(key1: string, key2: string) returns (order: int)
    ensures order == 0 <==> SameKey(key1, key2)
  {
    if |key1| != |key2| {
      order := 1;
    } else {
      order := StrNICmp(key1, key2, |key1|);
      assert key1[..|key1|] == key1 && key2[..|key1|] == key2;
    }
  }

  /** Keys without a NUL but for, perhaps, the last octet: C strings, with or without their terminator. */
  predicate Hashable(key: string) {
    key == [] || NUL !in key[..|key| - 1]
  }

  /** On such keys the comparison is equality up to case. */
  lemma SameKeyIsEqualNoCase(a: string, b: string)
    requires Hashable(a)
    ensures SameKey(a, b) <==> EqualNoCase(a, b)
  {
    if SameKey(a, b) {
      forall i | 0 <= i < |a|
        ensures Lower(a[i]) == Lower(b[i])
      {
        assert a[..i] <= a[..|a| - 1];
      }
      assert Fold(a) == Fold(b);
    }
    if EqualNoCase(a, b) {
      assert |a| == |Fold(b)|;
      assert forall i :: 0 <= i < |a| ==> Lower(a[i]) == Fold(b)[i];
    }
  }

  lemma {:induction false} FoldDeterminesMix(a: string, b: string)
    requires Fold(a) == Fold(b)
    ensures MixAll(a) == MixAll(b)
    decreases |a|
  {
    assert |a| == |Fold(b)| == |b|;
    if a != [] {
      var n := |a| - 1;
      assert Fold(a[..n]) == Fold(a)[..n] == Fold(b)[..n] == Fold(b[..n]);
      FoldDeterminesMix(a[..n], b[..n]);
      assert Lower(a[n]) == Fold(b)[n] == Lower(b[n]);
    }
  }

  /** Two different last letters give two different hashes: the last letter is mixed in unshifted. */
  lemma LastLetterMatters(s: string)
    ensures KeyHash(s + "a") != KeyHash(s + "b")
  {
    hide Xor;
    HashParity(s, 'a');
    HashParity(s, 'b');
  }

  lemma HashParity(s: string, c: char)
    ensures KeyHash(s + [c]) % 2 == (Xor(MixAll(s) * 8 % WORD, MixAll(s)) + Lower(c) as nat) % 2
  {
    hide Xor, And, Lower;
    assert (s + [c])[..|s|] == s;
    XorParity(Xor(MixAll(s) * 8 % WORD, MixAll(s)), Lower(c) as nat);
    AndParity(MixAll(s + [c]), 0x7fff_ffff);
  }

  /** Equal keys always hash alike exactly when the key has no NUL before its last octet, so the table
      can be used with C strings, with or without their terminator, and with no other octet strings. */
  lemma HashAgreesWithCompareIff(key: string)
    ensures (forall other :: SameKey(key, other) ==> KeyHash(key) == KeyHash(other)) <==> Hashable(key)
  {
    hide KeyHash, SameKey;
    if Hashable(key) {
      forall other | SameKey(key, other) ensures KeyHash(key) == KeyHash(other) {
        SameKeyIsEqualNoCase(key, other);
        FoldDeterminesHash(key, other);
      }
    } else {
      var a, b := SameButLast(key);
    }
  }

  lemma FoldDeterminesHash(a: string, b: string)
    requires EqualNoCase(a, b)
    ensures KeyHash(a) == KeyHash(b)
  {
    FoldDeterminesMix(a, b);
  }

  /** What follows an embedded NUL is hashed but not compared. */
  lemma SameButLast(key: string) returns (a: string, b: string)
    requires !Hashable(key)
    ensures SameKey(key, a) && SameKey(key, b) && KeyHash(a) != KeyHash(b)
  {
    var n := |key| - 1;
    a, b := key[..n] + "a", key[..n] + "b";
    LastLetterMatters(key[..n]);
    SameUpToNul(key, 'a');
    SameUpToNul(key, 'b');
  }

  lemma SameUpToNul(key: string, last: char)
    requires !Hashable(key)
    ensures SameKey(key, key[..|key| - 1] + [last])
  {
    var n := |key| - 1;
    var k :| 0 <= k < n && key[k] == NUL;
    assert key[..n + 1] == key;
    assert key[..n][k] == NUL;
  }

  // ----- The hash, bit by bit --------------------------------------------------------------------

  lemma BitOfMix(h: nat, c: char, j: nat)
    requires j < 32
    ensures Bit(Mix(h, c), j) <==> (Bit(h, j) != (j >= 3 && Bit(h, j - 3))) != Bit(Lower(c) as nat, j)
  {
    hide Xor, Bit, Lower, Pow2;
    WordIsPow2();
    BitOfXor(Xor(h * 8 % WORD, h), Lower(c) as nat, j);
    BitOfXor(h * 8 % WORD, h, j);
    BitOfRemainder(h * 8, 32, j);
    BitOfShifted(h, 3, j);
  }

  lemma WordIsPow2()
    ensures Pow2(3) == 8 && Pow2(31) == 0x8000_0000 && Pow2(32) == WORD
  {
    assert Pow2(8) == 0x100;
    hide Pow2;
    Pow2Adds(8, 8);
    Pow2Adds(16, 8);
    Pow2Adds(24, 7);
    Pow2Adds(31, 1);
    Pow2OfFew();
  }

  lemma Pow2OfFew()
    ensures Pow2(1) == 2 && Pow2(3) == 8 && Pow2(7) == 0x80
  {
  }

  lemma BitOfKeyHash(key: string, j: nat)
    ensures Bit(KeyHash(key), j) <==> j < 31 && Bit(MixAll(key), j)
  {
    hide And, Bit, MixAll;
    WordIsPow2();
    Pow2IsPowerOfTwo(31);
    MaskIsRemainder(MixAll(key), Pow2(31));
    BitOfRemainder(MixAll(key), 31, j);
  }

  /** What one more letter does to each of the 31 bits of the hash: the bit is added, modulo 2, to the bit three places
      below it and to the bit of the letter in lower case. The empty key has the hash 0. */
  lemma HashBits(s: string, c: char, lower: char, j: nat)
    requires j < 31 && SameText([c], [lower]) && !('A' <= lower <= 'Z')
    ensures Bit(KeyHash(s + [c]), j) <==> (Bit(KeyHash(s), j) != (j >= 3 && Bit(KeyHash(s), j - 3))) != Bit(lower as nat, j)
    ensures KeyHash("") == 0 && KeyHash(s) < 0x8000_0000
  {
    assert MixAll("") == 0;
    assert (s + [c])[..|s|] == s;
    assert MixAll(s + [c]) == Mix(MixAll(s), c);
    assert Lower(c) == lower;
    hide Bit, MixAll, Mix, Lower;
    BitOfKeyHash(s + [c], j);
    BitOfKeyHash(s, j);
    if j >= 3 {
      BitOfKeyHash(s, j - 3);
    }
    BitOfMix(MixAll(s), c, j);
    hide And;
    WordIsPow2();
    Pow2IsPowerOfTwo(31);
    MaskIsRemainder(MixAll(s), Pow2(31));
    MaskIsRemainder(MixAll(""), Pow2(31));
  }

  // ----- Slots -----------------------------------------------------------------------------------

  /** The bucket of a key in a table of `size` buckets. */
  function Slot(key: string, size: nat): nat
    requires PowerOfTwo(size)
    ensures Slot(key, size) < size
  {
    MaskIsRemainder(KeyHash(key), size);
    And(KeyHash(key), size - 1)
  }

  lemma SameKeySameSlot(a: string, b: string, size: nat)
    requires PowerOfTwo(size) && Fold(a) == Fold(b)
    ensures Slot(a, size) == Slot(b, size)
  {
    FoldDeterminesMix(a, b);
  }
}
