/** Base64 (section 4 of RFC 4648) as libEtPan encodes it and as its body parser decodes it. */
module Base64 {
  import opened Bits
  import opened Options

  type sextet = x: nat | x < 64

  // ----- The alphabet ----------------------------------------------------------------------------

  /** The value of a character; padding and everything outside the alphabet have none. */
  function ValueOf(c: char): Option<sextet> {
    if 'A' <= c <= 'Z' then Some(c as int - 'A' as int)
    else if 'a' <= c <= 'z' then Some(c as int - 'a' as int + 26)
    else if '0' <= c <= '9' then Some(c as int - '0' as int + 52)
    else if c == '+' then Some(62)
    else if c == '/' then Some(63)
    else None
  }

  function CharOf(v: sextet): (c: char)
    ensures ValueOf(c) == Some(v)
  {
    if v < 26 then ('A' as int + v) as char
    else if v < 52 then ('a' as int + v - 26) as char
    else if v < 62 then ('0' as int + v - 52) as char
    else if v == 62 then '+'
    else '/'
  }

  const UPPER := "ABCDEFGHIJKLMNOPQRSTUVWXYZ"
  const LOWER := "abcdefghijklmnopqrstuvwxyz"
  const DIGITS := "0123456789"

  /** The alphabet of section 4 of RFC 4648, by value. */
  const ALPHABET := UPPER + LOWER + DIGITS + "+/"

  lemma LettersAre(v: nat)
    ensures |UPPER| == |LOWER| == 26 && |DIGITS| == 10
    ensures v < 26 ==> UPPER[v] as int == 65 + v && LOWER[v] as int == 97 + v
    ensures v < 10 ==> DIGITS[v] as int == 48 + v
  {
  }

  lemma LetterAt(v: sextet)
    ensures |ALPHABET| == 64 && ALPHABET[v] == CharOf(v)
  {
    LettersAre(if v < 26 then v else if v < 52 then v - 26 else if v < 62 then v - 52 else 0);
  }

  /** A character has a value exactly if it is in the alphabet, and then its place there. */
  lemma AlphabetIff(c: char, v: sextet)
    ensures |ALPHABET| == 64
    ensures ValueOf(c) == Some(v) <==> ALPHABET[v] == c
    ensures CharOf(v) == ALPHABET[v]
  {
    LetterAt(v);
  }

  // ----- Encoding --------------------------------------------------------------------------------

  /** Three octets as four sextets; the shifts and masks of the code are divisions and remainders here. */
  function Split(a: byte, b: byte, c: byte): (v: seq<sextet>)
    ensures |v| == 4
  {
    [a / 4, a % 4 * 16 + b / 16, b % 16 * 4 + c / 64, c % 64]
  }

  function Encode(octets: seq<byte>): string {
    if |octets| == 0 then ""
    else if |octets| == 1 then
      var v := Split(octets[0], 0, 0);
      [CharOf(v[0]), CharOf(v[1]), '=', '=']
    else if |octets| == 2 then
      var v := Split(octets[0], octets[1], 0);
      [CharOf(v[0]), CharOf(v[1]), CharOf(v[2]), '=']
    else
      var v := Split(octets[0], octets[1], octets[2]);
      [CharOf(v[0]), CharOf(v[1]), CharOf(v[2]), CharOf(v[3])] + Encode(octets[3..])
  }

  method EncodeBase64(octets: seq<byte>) returns (text: string)
    ensures text == Encode(octets)
  {
    hide CharOf, Split;
    text := "";
    var p := 0;
    while |octets| - p >= 3
      invariant 0 <= p <= |octets|
      invariant text + Encode(octets[p..]) == Encode(octets)
    {
      var v := Split(octets[p], octets[p + 1], octets[p + 2]);
      assert octets[p..][3..] == octets[p + 3..];
      text := text + [CharOf(v[0]), CharOf(v[1]), CharOf(v[2]), CharOf(v[3])];
      p := p + 3;
    }
    var len := |octets| - p;
    if len > 0 {
      var v := Split(octets[p], if len > 1 then octets[p + 1] else 0, 0);
      text := text + [CharOf(v[0]), CharOf(v[1]), if len < 2 then '=' else CharOf(v[2]), '='];
    }
  }

  // ----- Decoding --------------------------------------------------------------------------------

  function Sextets(text: string): seq<sextet> {
    if text == "" then []
    else
      var n := |text| - 1;
      Sextets(text[..n]) + match ValueOf(text[n]) case Some(v) => [v] case None => []
  }

  /** What four sextets stand for. */
  function Merge(a: sextet, b: sextet, c: sextet, d: sextet): (o: seq<byte>)
    ensures |o| == 3
  {
    [a * 4 + b / 16, b % 16 * 16 + c / 4, c % 4 * 64 + d]
  }

  function Decode(v: seq<sextet>): seq<byte> {
    if |v| == 0 then []
    else if |v| < 4 then
      Merge(v[0], if |v| > 1 then v[1] else 0, if |v| > 2 then v[2] else 0, 0)[..if |v| == 3 then 2 else 1]
    else Merge(v[0], v[1], v[2], v[3]) + Decode(v[4..])
  }

  /** The body parser: characters without a value are skipped, every four values give three octets. */
  method ParseBody(message: string) returns (result: seq<byte>)
    ensures result == Decode(Sextets(message))
  {
    assert Decode([]) == [];
    hide Decode, Merge, Sextets, ValueOf;
    NoSextets();
    result := [];
    var chunk: seq<sextet> := [];
    ghost var done: seq<sextet> := [];
    for i := 0 to |message|
      invariant |chunk| < 4 && |done| % 4 == 0 && done + chunk == Sextets(message[..i])
      invariant result == Decode(done)
    {
      SextetsNext(message, i);
      var value := ValueOf(message[i]);
      if value.Some? {
        result, chunk, done := AddSextet(result, chunk, value.value, done);
      }
    }
    assert message[..|message|] == message;
    DecodeConcat(done, chunk);
    var rest := FlushChunk(chunk);
    result := result + rest;
  }

  /** One more value: the fourth of a group completes three octets. */
  method AddSextet(before: seq<byte>, group: seq<sextet>, value: sextet, ghost decoded: seq<sextet>)
    returns (result: seq<byte>, chunk: seq<sextet>, ghost done: seq<sextet>)
    requires |group| < 4 && |decoded| % 4 == 0 && before == Decode(decoded)
    ensures |chunk| < 4 && |done| % 4 == 0 && done + chunk == decoded + group + [value]
    ensures result == Decode(done)
  {
    hide Decode, Merge;
    result, chunk, done := before, group + [value], decoded;
    if |chunk| == 4 {
      DecodeMore(done, chunk);
      result := result + Merge(chunk[0], chunk[1], chunk[2], chunk[3]);
      done := done + chunk;
      chunk := [];
    }
  }

  /** The octets of an incomplete group: two values give one, three give two. */
  method FlushChunk(chunk: seq<sextet>) returns (result: seq<byte>)
    requires |chunk| < 4
    ensures result == Decode(chunk)
  {
    hide Merge;
    result := [];
    if chunk != [] {
      var out := Merge(chunk[0], if |chunk| > 1 then chunk[1] else 0, if |chunk| > 2 then chunk[2] else 0, 0);
      result := result + out[..1];
      if |chunk| >= 3 {
        result := result + out[1..2];
      }
    }
  }

  lemma NoSextets()
    ensures Sextets("") == []
  {
  }

  lemma SextetsNext(text: string, i: nat)
    requires i < |text|
    ensures Sextets(text[..i + 1])
            == Sextets(text[..i]) + match ValueOf(text[i]) case Some(v) => [v] case None => []
  {
    hide ValueOf;
    assert text[..i + 1][..i] == text[..i];
  }

  lemma DecodeMore(done: seq<sextet>, chunk: seq<sextet>)
    requires |done| % 4 == 0 && |chunk| == 4
    ensures Decode(done + chunk) == Decode(done) + Merge(chunk[0], chunk[1], chunk[2], chunk[3])
  {
    hide Merge;
    DecodeConcat(done, chunk);
    assert chunk[4..] == [];
  }

  lemma {:induction false} DecodeConcat(a: seq<sextet>, b: seq<sextet>)
    requires |a| % 4 == 0
    ensures Decode(a + b) == Decode(a) + Decode(b)
    decreases |a|
  {
    if a == [] {
      assert a + b == b;
    } else {
      assert (a + b)[4..] == a[4..] + b;
      DecodeConcat(a[4..], b);
    }
  }

  // ----- Round trip ------------------------------------------------------------------------------

  lemma {:induction false} SextetsConcat(a: string, b: string)
    ensures Sextets(a + b) == Sextets(a) + Sextets(b)
    decreases |b|
  {
    if b == "" {
      assert a + b == a;
    } else {
      var n := |b| - 1;
      assert (a + b)[..|a + b| - 1] == a + b[..n];
      SextetsConcat(a, b[..n]);
    }
  }

  lemma SextetsOfFour(a: char, b: char, c: char, d: char)
    ensures Sextets([a, b, c, d]) == Sextets([a]) + Sextets([b]) + Sextets([c]) + Sextets([d])
  {
    assert [a, b, c, d] == [a] + [b] + [c] + [d];
    SextetsConcat([a], [b]);
    SextetsConcat([a] + [b], [c]);
    SextetsConcat([a] + [b] + [c], [d]);
  }

  lemma MergeOfSplit(a: byte, b: byte, c: byte)
    ensures var v := Split(a, b, c); Merge(v[0], v[1], v[2], v[3]) == [a, b, c]
  {
  }

  lemma ZerosOfSplit(a: byte, b: byte, c: byte)
    ensures var v := Split(a, b, c); (c == 0 ==> v[3] == 0) && (b == c == 0 ==> v[2] == 0)
  {
  }

  lemma SextetsOfChar(v: sextet)
    ensures Sextets([CharOf(v)]) == [v] && Sextets(['=']) == []
  {
    hide CharOf;
    assert [CharOf(v)][..0] == "" && ['='][..0] == "";
  }

  /** What the four characters of a group decode to. */
  lemma SextetsOfGroup(v: seq<sextet>)
    requires |v| == 4
    ensures Sextets([CharOf(v[0]), CharOf(v[1]), CharOf(v[2]), CharOf(v[3])]) == v
    ensures Sextets([CharOf(v[0]), CharOf(v[1]), CharOf(v[2]), '=']) == v[..3]
    ensures Sextets([CharOf(v[0]), CharOf(v[1]), '=', '=']) == v[..2]
  {
    hide Sextets, CharOf;
    SextetsOfFour(CharOf(v[0]), CharOf(v[1]), CharOf(v[2]), CharOf(v[3]));
    SextetsOfFour(CharOf(v[0]), CharOf(v[1]), CharOf(v[2]), '=');
    SextetsOfFour(CharOf(v[0]), CharOf(v[1]), '=', '=');
    SextetsOfChar(v[0]);
    SextetsOfChar(v[1]);
    SextetsOfChar(v[2]);
    SextetsOfChar(v[3]);
  }

  /** Decoding undoes encoding. */
  lemma {:induction false} DecodeOfEncode(octets: seq<byte>)
    ensures Decode(Sextets(Encode(octets))) == octets
    decreases |octets|
  {
    hide Split, Merge, Sextets, CharOf;
    NoSextets();
    if octets != [] {
      var a := octets[0];
      var b := if |octets| > 1 then octets[1] else 0;
      var c := if |octets| > 2 then octets[2] else 0;
      var v := Split(a, b, c);
      MergeOfSplit(a, b, c);
      ZerosOfSplit(a, b, c);
      SextetsOfGroup(v);
      if |octets| >= 3 {
        DecodeOfEncode(octets[3..]);
        SextetsConcat([CharOf(v[0]), CharOf(v[1]), CharOf(v[2]), CharOf(v[3])], Encode(octets[3..]));
      }
    }
  }

  // ----- Bits ------------------------------------------------------------------------------------

  function OctetBits(octets: seq<byte>): seq<bool> {
    if octets == [] then [] else ToBits(octets[0], 8) + OctetBits(octets[1..])
  }

  function SextetBits(v: seq<sextet>): seq<bool> {
    if v == [] then [] else ToBits(v[0], 6) + SextetBits(v[1..])
  }

  lemma FewPowers()
    ensures Pow2(2) == 4 && Pow2(4) == 16 && Pow2(6) == 64
  {
    hide ToBits;
  }

  /** The three octets of a group and its four sextets are the same 24 bits. */
  lemma SplitKeepsBits(a: byte, b: byte, c: byte)
    ensures var v := Split(a, b, c);
            ToBits(v[0], 6) + ToBits(v[1], 6) + ToBits(v[2], 6) + ToBits(v[3], 6) == ToBits(a, 8) + ToBits(b, 8) + ToBits(c, 8)
  {
    hide ToBits, Pow2;
    FewPowers();
    BitsOfParts(a / 4, a % 4, 6, 2);
    BitsOfParts(a % 4, b / 16, 2, 4);
    BitsOfParts(b / 16, b % 16, 4, 4);
    BitsOfParts(b % 16, c / 64, 4, 2);
    BitsOfParts(c / 64, c % 64, 2, 6);
    Regroup(ToBits(a / 4, 6), ToBits(a % 4, 2), ToBits(b / 16, 4), ToBits(b % 16, 4), ToBits(c / 64, 2), ToBits(c % 64, 6));
  }

  lemma Regroup(a: seq<bool>, b: seq<bool>, c: seq<bool>, d: seq<bool>, e: seq<bool>, f: seq<bool>)
    ensures a + (b + c) + (d + e) + f == (a + b) + (c + d) + (e + f)
  {
  }

  lemma ZeroBits(n: nat)
    ensures ToBits(0, n) == Zeros(n)
  {
    if n > 0 {
      ZeroBits(n - 1);
    }
  }

  /** Groups of fewer than three octets fill up their last sextet with zeros. */
  lemma SplitOfFewer(a: byte, b: byte)
    ensures var v := Split(a, 0, 0); ToBits(v[0], 6) + ToBits(v[1], 6) == ToBits(a, 8) + Zeros(4)
    ensures var v := Split(a, b, 0);
            ToBits(v[0], 6) + ToBits(v[1], 6) + ToBits(v[2], 6) == ToBits(a, 8) + ToBits(b, 8) + Zeros(2)
  {
    SplitKeepsBits(a, 0, 0);
    SplitKeepsBits(a, b, 0);
    ZeroBits(8);
    hide ToBits, Split;
    var v, w := Split(a, 0, 0), Split(a, b, 0);
    var all := ToBits(a, 8) + Zeros(8) + Zeros(8);
    assert (ToBits(v[0], 6) + ToBits(v[1], 6) + ToBits(v[2], 6) + ToBits(v[3], 6))[..12] == ToBits(v[0], 6) + ToBits(v[1], 6);
    assert all[..12] == ToBits(a, 8) + Zeros(4);
    assert (ToBits(w[0], 6) + ToBits(w[1], 6) + ToBits(w[2], 6) + ToBits(w[3], 6))[..18]
           == ToBits(w[0], 6) + ToBits(w[1], 6) + ToBits(w[2], 6);
    assert (ToBits(a, 8) + ToBits(b, 8) + Zeros(8))[..18] == ToBits(a, 8) + ToBits(b, 8) + Zeros(2);
  }

  lemma SextetBitsOf(v: seq<sextet>)
    requires 2 <= |v| <= 4
    ensures SextetBits(v)
            == ToBits(v[0], 6) + ToBits(v[1], 6)
               + (if |v| > 2 then ToBits(v[2], 6) else []) + (if |v| > 3 then ToBits(v[3], 6) else [])
  {
    hide ToBits;
    var w := v[1..];
    assert SextetBits(v) == ToBits(v[0], 6) + SextetBits(w);
    assert SextetBits(w) == ToBits(w[0], 6) + SextetBits(w[1..]);
    if |v| > 2 {
      assert w[1..] == v[2..];
      assert SextetBits(v[2..]) == ToBits(v[2], 6) + SextetBits(v[3..]);
      if |v| > 3 {
        assert SextetBits(v[3..]) == ToBits(v[3], 6) + SextetBits(v[4..]);
      }
    }
  }

  lemma {:induction false} SextetBitsConcat(v: seq<sextet>, w: seq<sextet>)
    ensures SextetBits(v + w) == SextetBits(v) + SextetBits(w)
  {
    hide ToBits;
    if v == [] {
      assert v + w == w;
    } else {
      assert (v + w)[1..] == v[1..] + w;
      SextetBitsConcat(v[1..], w);
    }
  }

  lemma OctetBitsFirst(octets: seq<byte>, i: nat)
    requires i < |octets|
    ensures OctetBits(octets[i..]) == ToBits(octets[i], 8) + OctetBits(octets[i + 1..])
  {
    hide ToBits;
    assert octets[i..][1..] == octets[i + 1..];
  }

  lemma OctetBitsOfFew(a: byte, b: byte)
    ensures OctetBits([a]) == ToBits(a, 8) && OctetBits([a, b]) == ToBits(a, 8) + ToBits(b, 8)
  {
    hide ToBits;
    assert [a][1..] == [] && [a, b][1..] == [b] && [b][1..] == [];
    assert OctetBits([b]) == ToBits(b, 8) + [];
  }

  lemma OctetBitsOfGroup(octets: seq<byte>)
    requires |octets| >= 3
    ensures OctetBits(octets)
            == ToBits(octets[0], 8) + ToBits(octets[1], 8) + ToBits(octets[2], 8) + OctetBits(octets[3..])
  {
    hide ToBits, OctetBits;
    assert octets[0..] == octets;
    OctetBitsFirst(octets, 0);
    OctetBitsFirst(octets, 1);
    OctetBitsFirst(octets, 2);
    var a, b, c, rest := ToBits(octets[0], 8), ToBits(octets[1], 8), ToBits(octets[2], 8), OctetBits(octets[3..]);
    AssociativeBits(a, b, c + rest);
    AssociativeBits(a + b, c, rest);
  }

  lemma AssociativeBits(a: seq<bool>, b: seq<bool>, c: seq<bool>)
    ensures a + (b + c) == a + b + c
  {
  }

  /** The text of the octets: four characters for every three octets or fewer, one equal sign at the end for a missing
      octet of the last three, two for two, and none else; the values of the other characters are the bits of the octets,
      six by six, filled up with zeros. */
  lemma {:induction false} EncodedBits(octets: seq<byte>)
    ensures var rest := |octets| % 3;
            && |Encode(octets)| == (|octets| + 2) / 3 * 4
            && |Sextets(Encode(octets))| == |Encode(octets)| - (if rest == 0 then 0 else 3 - rest)
            && SextetBits(Sextets(Encode(octets)))
               == OctetBits(octets) + Zeros(if rest == 0 then 0 else if rest == 1 then 4 else 2)
    ensures var text := Encode(octets);
            text != "" ==> && |text| >= 4
                           && (text[|text| - 1] == '=' <==> |octets| % 3 != 0)
                           && (text[|text| - 2] == '=' <==> |octets| % 3 == 1)
    decreases |octets|
  {
    hide ToBits, Split, CharOf, Sextets, OctetBits, SextetBits, Zeros;
    NoSextets();
    NoBits();
    if |octets| >= 3 {
      var rest := octets[3..];
      EncodedBits(rest);
      GroupBits(octets);
      ThreeFewer(|octets|);
      AssociativeBits(ToBits(octets[0], 8) + ToBits(octets[1], 8) + ToBits(octets[2], 8), OctetBits(rest),
                      Zeros(if |rest| % 3 == 0 then 0 else if |rest| % 3 == 1 then 4 else 2));
      hide Encode;
    } else if octets != [] {
      EncodedFew(octets);
    }
  }

  lemma ThreeFewer(n: nat)
    requires n >= 3
    ensures n % 3 == (n - 3) % 3 && (n + 2) / 3 == (n - 3 + 2) / 3 + 1
  {
  }

  lemma EncodedFew(octets: seq<byte>)
    requires 1 <= |octets| <= 2
    ensures var text := Encode(octets);
            && |text| == 4 && |Sextets(text)| == |octets| + 1
            && SextetBits(Sextets(text)) == OctetBits(octets) + Zeros(if |octets| == 1 then 4 else 2)
            && text[3] == '=' && (text[2] == '=' <==> |octets| == 1)
  {
    hide ToBits, Split, CharOf, Sextets, OctetBits, SextetBits, Zeros;
    var a := octets[0];
    var b := if |octets| > 1 then octets[1] else 0;
    var v := Split(a, b, 0);
    SextetsOfGroup(v);
    assert octets == if |octets| == 1 then [a] else [a, b];
    OctetBitsOfFew(a, b);
    SplitOfFewer(a, b);
    SextetBitsOf(v[..|octets| + 1]);
  }

  lemma GroupBits(octets: seq<byte>)
    requires |octets| >= 3
    ensures var before, after := Encode(octets), Encode(octets[3..]);
            && |before| == 4 + |after| && before[4..] == after && (forall i | 0 <= i < 4 :: before[i] != '=')
            && |Sextets(before)| == 4 + |Sextets(after)|
            && SextetBits(Sextets(before))
               == ToBits(octets[0], 8) + ToBits(octets[1], 8) + ToBits(octets[2], 8) + SextetBits(Sextets(after))
    ensures OctetBits(octets)
            == ToBits(octets[0], 8) + ToBits(octets[1], 8) + ToBits(octets[2], 8) + OctetBits(octets[3..])
  {
    hide ToBits, Split, CharOf, Sextets, OctetBits, SextetBits;
    OctetBitsOfGroup(octets);
    var v := Split(octets[0], octets[1], octets[2]);
    var group, after := [CharOf(v[0]), CharOf(v[1]), CharOf(v[2]), CharOf(v[3])], Encode(octets[3..]);
    assert Encode(octets) == group + after;
    SextetsOfGroup(v);
    SplitKeepsBits(octets[0], octets[1], octets[2]);
    SextetBitsOf(v);
    SextetsConcat(group, after);
    SextetBitsConcat(v, Sextets(after));
  }

  lemma NoBits()
    ensures OctetBits([]) == [] && SextetBits([]) == [] && Zeros(0) == [] && Encode([]) == ""
  {
  }

  lemma SplitOfMerge(a: sextet, b: sextet, c: sextet, d: sextet)
    ensures var o := Merge(a, b, c, d); Split(o[0], o[1], o[2]) == [a, b, c, d]
  {
    hide Split;
    SplitOfMergeHigh(a, b);
    SplitOfMergeLow(b, c);
    SplitOfMergeLast(c, d);
    SplitOfParts(a * 4 + b / 16, b % 16 * 16 + c / 4, c % 4 * 64 + d, a, b, c, d);
  }

  lemma SplitOfParts(x: byte, y: byte, z: byte, a: sextet, b: sextet, c: sextet, d: sextet)
    requires x / 4 == a && x % 4 == b / 16 && y / 16 == b % 16 && y % 16 == c / 4 && z / 64 == c % 4 && z % 64 == d
    requires b / 16 * 16 + b % 16 == b && c / 4 * 4 + c % 4 == c
    ensures Split(x, y, z) == [a, b, c, d]
  {
  }

  lemma SplitOfMergeHigh(a: sextet, b: sextet)
    ensures (a * 4 + b / 16) / 4 == a && (a * 4 + b / 16) % 4 == b / 16
  {
  }

  lemma SplitOfMergeLow(b: sextet, c: sextet)
    ensures (b % 16 * 16 + c / 4) / 16 == b % 16 && (b % 16 * 16 + c / 4) % 16 == c / 4
    ensures b / 16 * 16 + b % 16 == b
  {
  }

  lemma SplitOfMergeLast(c: sextet, d: sextet)
    ensures (c % 4 * 64 + d) / 64 == c % 4 && (c % 4 * 64 + d) % 64 == d
    ensures c / 4 * 4 + c % 4 == c
  {
  }

  lemma MergeKeepsBits(a: sextet, b: sextet, c: sextet, d: sextet)
    ensures OctetBits(Merge(a, b, c, d)) == ToBits(a, 6) + ToBits(b, 6) + ToBits(c, 6) + ToBits(d, 6)
  {
    SplitOfMerge(a, b, c, d);
    hide ToBits, Merge, Split, OctetBits;
    var o := Merge(a, b, c, d);
    SplitKeepsBits(o[0], o[1], o[2]);
    OctetBitsOfGroup(o);
    NoBits();
    assert o[3..] == [];
  }

  /** Any values decode to the octets of their bits: three octets for each four values, and of a rest of two or three values
      as many octets as they fill; a single value left over gives one octet, filled up with zeros. */
  lemma {:induction false} DecodedBits(v: seq<sextet>)
    ensures |Decode(v)| == |v| / 4 * 3 + (if |v| % 4 == 0 then 0 else if |v| % 4 == 3 then 2 else 1)
    ensures OctetBits(Decode(v)) <= SextetBits(v) + (if |v| % 4 == 1 then [false, false] else [])
    decreases |v|
  {
    hide ToBits, Merge, OctetBits, SextetBits;
    if |v| >= 4 {
      DecodedBits(v[4..]);
      DecodedGroup(v);
    } else if v == [] {
      NoBits();
    } else {
      DecodedFew(v);
    }
  }

  lemma DecodedGroup(v: seq<sextet>)
    requires |v| >= 4
    ensures OctetBits(Decode(v)) == SextetBits(v[..4]) + OctetBits(Decode(v[4..]))
    ensures SextetBits(v) == SextetBits(v[..4]) + SextetBits(v[4..])
  {
    hide ToBits, Merge, OctetBits, SextetBits;
    var o := Merge(v[0], v[1], v[2], v[3]);
    MergeKeepsBits(v[0], v[1], v[2], v[3]);
    SextetBitsOf(v[..4]);
    SextetBitsConcat(v[..4], v[4..]);
    assert v[..4] + v[4..] == v;
    OctetBitsConcat(o, Decode(v[4..]));
  }

  lemma {:induction false} OctetBitsConcat(a: seq<byte>, b: seq<byte>)
    ensures OctetBits(a + b) == OctetBits(a) + OctetBits(b)
  {
    hide ToBits;
    if a == [] {
      assert a + b == b;
    } else {
      assert (a + b)[1..] == a[1..] + b;
      OctetBitsConcat(a[1..], b);
    }
  }

  lemma DecodedFew(v: seq<sextet>)
    requires 1 <= |v| <= 3
    ensures |Decode(v)| == (if |v| == 3 then 2 else 1)
    ensures OctetBits(Decode(v)) <= SextetBits(v) + (if |v| == 1 then [false, false] else [])
  {
    hide ToBits, Merge, OctetBits, SextetBits;
    var full := [v[0], if |v| > 1 then v[1] else 0, if |v| > 2 then v[2] else 0, 0];
    var o := Merge(full[0], full[1], full[2], full[3]);
    var n := if |v| == 3 then 2 else 1;
    MergeKeepsBits(full[0], full[1], full[2], full[3]);
    SextetBitsOf(full);
    assert o[..n] + o[n..] == o && Decode(v) == o[..n];
    OctetBitsConcat(o[..n], o[n..]);
    OctetBitsLength(o[..n]);
    assert full == v + full[|v|..];
    SextetBitsConcat(v, full[|v|..]);
    SextetBitsLength(v);
    var bits := SextetBits(v);
    if |v| == 1 {
      ZeroSextets();
      assert full[1..] == [0, 0, 0];
      TwoZeros();
      assert bits + [false, false] <= bits + Zeros(18);
      Shorter(OctetBits(Decode(v)), bits + [false, false], SextetBits(full));
    } else {
      Shorter(OctetBits(Decode(v)), bits, SextetBits(full));
    }
  }

  lemma TwoZeros()
    ensures [false, false] <= Zeros(18)
  {
  }

  lemma Shorter(a: seq<bool>, b: seq<bool>, c: seq<bool>)
    requires a <= c && b <= c && |a| <= |b|
    ensures a <= b
  {
  }

  lemma {:induction false} OctetBitsLength(octets: seq<byte>)
    ensures |OctetBits(octets)| == 8 * |octets|
  {
    hide ToBits;
    if octets != [] {
      OctetBitsLength(octets[1..]);
    }
  }

  lemma {:induction false} SextetBitsLength(v: seq<sextet>)
    ensures |SextetBits(v)| == 6 * |v|
  {
    hide ToBits;
    if v != [] {
      SextetBitsLength(v[1..]);
    }
  }

  lemma ZeroSextets()
    ensures SextetBits([0, 0, 0]) == Zeros(18)
  {
    ZeroBits(6);
    hide ToBits, SextetBits, Zeros;
    SextetBitsOf([0, 0, 0]);
    ThreeZeros();
  }

  lemma ThreeZeros()
    ensures Zeros(6) + Zeros(6) + Zeros(6) + [] == Zeros(18)
  {
  }
}
