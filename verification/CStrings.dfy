/** C strings as sequences of characters: one `char` stands for one octet, the terminating NUL is not
    part of the sequence, and the functions of the C library are restated on these sequences. */
module CStrings {
  const NUL := '\0'

  /** The case-folding table of the hash: upper-case ASCII letters map to lower case, the rest to itself. */
  function Lower(c: char): char {
    if 'A' <= c <= 'Z' then (c as int + 32) as char else c
  }

  function Fold(s: string): (r: string)
    ensures |r| == |s|
    ensures forall i :: 0 <= i < |s| ==> r[i] == Lower(s[i])
  {
    seq(|s|, i requires 0 <= i < |s| => Lower(s[i]))
  }

  predicate EqualNoCase(a: string, b: string) {
    Fold(a) == Fold(b)
  }

  /** Two letters are folded alike exactly if they are the same character or the two cases of one ASCII letter. */
  lemma LowerIff(a: char, b: char)
    ensures Lower(a) == Lower(b)
            <==> a == b || ('A' <= a <= 'Z' && b as int == a as int + 32) || ('A' <= b <= 'Z' && a as int == b as int + 32)
  {
  }

  /** The same text up to the case of ASCII letters. */
  predicate SameText(a: string, b: string) {
    |a| == |b|
    && forall i | 0 <= i < |a| ::
         || a[i] == b[i]
         || ('A' <= a[i] <= 'Z' && b[i] as int == a[i] as int + 32)
         || ('A' <= b[i] <= 'Z' && a[i] as int == b[i] as int + 32)
  }

  /** Folded texts are equal exactly if the texts are the same up to case, position by position. */
  lemma EqualNoCaseIff(a: string, b: string)
    ensures EqualNoCase(a, b) <==> SameText(a, b)
  {
    hide Lower;
    forall i | 0 <= i < |a| == |b|
      ensures Fold(a)[i] == Fold(b)[i]
              <==> || a[i] == b[i]
                   || ('A' <= a[i] <= 'Z' && b[i] as int == a[i] as int + 32)
                   || ('A' <= b[i] <= 'Z' && a[i] as int == b[i] as int + 32)
    {
      LowerIff(a[i], b[i]);
    }
    assert |Fold(a)| == |a| && |Fold(b)| == |b|;
    if EqualNoCase(a, b) {
      assert forall i | 0 <= i < |a| :: Fold(a)[i] == Fold(b)[i];
    }
  }

  predicate IsSpace(c: char) {
    c == ' ' || '\t' <= c <= '\r'
  }

  function RTrim(s: string): (r: string)
    ensures r <= s
    ensures r != [] ==> !IsSpace(r[|r| - 1])
    ensures forall i :: |r| <= i < |s| ==> IsSpace(s[i])
  {
    if s != [] && IsSpace(s[|s| - 1]) then RTrim(s[..|s| - 1]) else s
  }

  function LTrim(s: string): (r: string)
    ensures |r| <= |s| && r == s[|s| - |r|..]
    ensures r != [] ==> !IsSpace(r[0])
    ensures forall i :: 0 <= i < |s| - |r| ==> IsSpace(s[i])
  {
    if s != [] && IsSpace(s[0]) then LTrim(s[1..]) else s
  }

  function Trim(s: string): string {
    RTrim(LTrim(s))
  }

  lemma {:induction false} LTrimOf(before: string, s: string)
    requires forall i | 0 <= i < |before| :: IsSpace(before[i])
    requires s == "" || !IsSpace(s[0])
    ensures LTrim(before + s) == s
  {
    hide IsSpace;
    if before == "" {
      assert before + s == s;
    } else {
      assert (before + s)[1..] == before[1..] + s;
      LTrimOf(before[1..], s);
    }
  }

  lemma {:induction false} RTrimOf(s: string, after: string)
    requires forall i | 0 <= i < |after| :: IsSpace(after[i])
    requires s == "" || !IsSpace(s[|s| - 1])
    ensures RTrim(s + after) == s
    decreases |after|
  {
    hide IsSpace;
    if after == "" {
      assert s + after == s;
    } else {
      var n := |after| - 1;
      assert (s + after)[..|s + after| - 1] == s + after[..n];
      RTrimOf(s, after[..n]);
    }
  }

  /** Characters that are white space: tab to carriage return, and the space. */
  predicate WhiteSpace(s: string) {
    forall i | 0 <= i < |s| :: s[i] as int == 32 || 9 <= s[i] as int <= 13
  }

  /** Trimming takes away the white space at both ends, and nothing else. */
  lemma TrimOfPadded(before: string, s: string, after: string)
    requires WhiteSpace(before) && WhiteSpace(after)
    requires s != "" ==> !WhiteSpace([s[0]]) && !WhiteSpace([s[|s| - 1]])
    ensures Trim(before + s + after) == s
  {
    hide LTrim, RTrim;
    Associative(before, s, after);
    if s == "" {
      assert before + (s + after) == before + after + "";
      LTrimOf(before + after, "");
      RTrimOf("", "");
    } else {
      assert (s + after)[0] == s[0];
      LTrimOf(before, s + after);
      RTrimOf(s, after);
    }
  }

  lemma Associative(a: string, b: string, c: string)
    ensures a + (b + c) == a + b + c
  {
  }

  lemma NothingToTrim(s: string)
    requires s == "" || !IsSpace(s[0])
    ensures LTrim(s) == s
  {
  }
}
