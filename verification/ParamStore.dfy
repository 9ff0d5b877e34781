/** Parameter lists packed into one string, one `k=value` line for each key. */
module ParamStore {
  import opened CStrings
  import opened Decimal
  import opened Options

  // ----- What the pointers point at --------------------------------------------------------------

  /** Where the line that contains position `p` ends: at a newline or at the end of the text. */
  function LineEnd(s: string, p: nat): (e: nat)
    requires p <= |s|
    ensures p <= e <= |s|
    decreases |s| - p
  {
    if p == |s| || s[p] == '\n' then p else LineEnd(s, p + 1)
  }

  /** The start of the first line from `p` on that begins with the key and an equal sign. */
  function FindFrom(s: string, key: char, p: nat): (r: Option<nat>)
    requires p <= |s|
    ensures r.Some? ==> p <= r.value && r.value + 1 < |s|
    decreases |s| - p
  {
    if p == |s| then None
    else if s[p] == key && p + 1 < |s| && s[p + 1] == '=' then Some(p)
    else if LineEnd(s, p) == |s| then None
    else FindFrom(s, key, LineEnd(s, p) + 1)
  }

  // ----- The object ------------------------------------------------------------------------------

  lemma {:induction false} FoundLine(s: string, key: char, p: nat)
    requires p <= |s| && FindFrom(s, key, p).Some? && key != '\n'
    ensures var q := FindFrom(s, key, p).value;
            s[q] == key && s[q + 1] == '=' && q + 2 <= LineEnd(s, q)
    decreases |s| - p
  {
    if !(s[p] == key && s[p + 1] == '=') {
      FoundLine(s, key, LineEnd(s, p) + 1);
    }
  }

  /** A line that begins with the key and an equal sign. */
  predicate LineOf(s: string, key: char, p: nat) {
    p + 1 < |s| && s[p] == key && s[p + 1] == '=' && (p == 0 || s[p - 1] == '\n')
  }

  lemma {:induction false} LineEndIs(s: string, p: nat)
    requires p <= |s|
    ensures forall i | p <= i < LineEnd(s, p) :: s[i] != '\n'
    ensures LineEnd(s, p) < |s| ==> s[LineEnd(s, p)] == '\n'
    decreases |s| - p
  {
    if p < |s| && s[p] != '\n' {
      LineEndIs(s, p + 1);
    }
  }

  lemma {:induction false} FoundFrom(s: string, key: char, from: nat)
    requires from <= |s| && (from == 0 || s[from - 1] == '\n')
    ensures match FindFrom(s, key, from)
            case Some(p) => p >= from && LineOf(s, key, p) && forall q | from <= q < p :: !LineOf(s, key, q)
            case None => forall q | from <= q :: !LineOf(s, key, q)
    decreases |s| - from
  {
    LineEndIs(s, from);
    if from < |s| && !(s[from] == key && from + 1 < |s| && s[from + 1] == '=') && LineEnd(s, from) < |s| {
      FoundFrom(s, key, LineEnd(s, from) + 1);
    }
  }

  /** In any text, well-formed or not, the line found for a key is the first one that begins with it and an equal sign. */
  lemma FoundIff(s: string, key: char, p: nat)
    ensures FindFrom(s, key, 0) == Some(p) <==> LineOf(s, key, p) && forall q | 0 <= q < p :: !LineOf(s, key, q)
  {
    FoundFrom(s, key, 0);
  }

  /** The end of the value of the line at `p`. A line found for the key `\n` ends before its value begins, and then
      the value is all of the rest. */
  function ValueEnd(s: string, p: nat): (e: nat)
    requires p + 2 <= |s|
    ensures p + 2 <= e <= |s|
  {
    if LineEnd(s, p) < p + 2 then |s| else LineEnd(s, p)
  }

  function Got(s: string, key: char): Option<string> {
    match FindFrom(s, key, 0)
    case None => None
    case Some(p) => Some(RTrim(s[p + 2..ValueEnd(s, p)]))
  }

  function Line(key: char, value: string): string {
    [key] + "=" + value
  }

  /** The pieces put together again, around the new line if there is one. */
  function Glue(old1: string, line: Option<string>, old2: string): string {
    match line
    case Some(l) => old1 + (if old1 != "" then "\n" else "") + l + (if old2 != "" then "\n" else "") + old2
    case None => old1 + (if old1 != "" && old2 != "" then "\n" else "") + old2
  }

  /** Both pieces are trimmed at the cut. */
  function Rejoin(old1: string, line: Option<string>, old2: string): string {
    Glue(RTrim(old1), line, LTrim(old2))
  }

  /** The text before the line of the key and from its end on; all of the text if there is no such line. Where the line
      ends at its start, for the key `\n`, the NUL that ends the first piece also empties the second. */
  function Cut(s: string, key: char): (string, string) {
    match FindFrom(s, key, 0)
    case None => (s, "")
    case Some(p) => (s[..p], if LineEnd(s, p) == p then "" else s[LineEnd(s, p)..])
  }

  function NewLine(key: char, value: Option<string>): Option<string> {
    match value
    case Some(v) => Some(Line(key, v))
    case None => None
  }

  function Put(s: string, key: char, value: Option<string>): string {
    if FindFrom(s, key, 0) == None && value == None then s
    else
      var (old1, old2) := Cut(s, key);
      Rejoin(old1, NewLine(key, value), old2)
  }

  method StrChr(s: string, c: char, from: nat) returns (at: Option<nat>)
    requires from <= |s|
    ensures at.Some? ==> from <= at.value < |s| && s[at.value] == c && c !in s[from..at.value]
    ensures at == None ==> c !in s[from..]
  {
    var i := from;
    while i < |s|
      invariant from <= i <= |s|
      invariant c !in s[from..i]
    {
      if s[i] == c {
        return Some(i);
      }
      assert s[from..i + 1] == s[from..i] + [s[i]];
      i := i + 1;
    }
    at := None;
  }

  lemma {:induction false} LineEndUnique(s: string, p: nat, e: nat)
    requires p <= e <= |s| && '\n' !in s[p..e] && (e < |s| ==> s[e] == '\n')
    ensures LineEnd(s, p) == e
    decreases e - p
  {
    if p < e {
      assert s[p..e][0] == s[p] && s[p..e][1..] == s[p + 1..e];
      LineEndUnique(s, p + 1, e);
    }
  }

  /** `find_param()`: both pointers, into the text. */
  method FindParam(haystack: string, key: char) returns (found: Option<(nat, nat)>)
    ensures found == match FindFrom(haystack, key, 0)
                     case None => None
                     case Some(p) => Some((p, LineEnd(haystack, p)))
  {
    var p1: nat := 0;
    while true
      invariant p1 <= |haystack|
      invariant FindFrom(haystack, key, p1) == FindFrom(haystack, key, 0)
      decreases |haystack| - p1
    {
      if p1 == |haystack| {
        return None;
      } else if haystack[p1] == key && p1 + 1 < |haystack| && haystack[p1 + 1] == '=' {
        break;
      } else {
        var newline := StrChr(haystack, '\n', p1);
        if newline == None {
          LineEndUnique(haystack, p1, |haystack|);
          return None;
        }
        LineEndUnique(haystack, p1, newline.value);
        p1 := newline.value + 1;
      }
    }
    var p2 := StrChr(haystack, '\n', p1);
    if p2 == None {
      p2 := Some(|haystack|);
    }
    LineEndUnique(haystack, p1, p2.value);
    found := Some((p1, p2.value));
  }

  lemma PutOfParts(s: string, key: char, value: Option<string>)
    ensures FindFrom(s, key, 0) == None && value == None ==> Put(s, key, value) == s
    ensures FindFrom(s, key, 0).Some? || value.Some? ==>
              Put(s, key, value) == Rejoin(Cut(s, key).0, NewLine(key, value), Cut(s, key).1)
  {
    hide Rejoin, NewLine, FindFrom, Cut;
  }

  method CutAtParam(text: string, key: char) returns (old1: string, old2: string, found: bool)
    ensures (old1, old2) == Cut(text, key)
    ensures found <==> FindFrom(text, key, 0).Some?
  {
    var pointers := FindParam(text, key);
    if pointers.Some? {
      var (p1, p2) := pointers.value;
      old1, old2, found := text[..p1], if p1 == p2 then "" else text[p2..], true;
    } else {
      old1, old2, found := text, "", false;
    }
  }

  /** The text is cut at the old line of the key, both pieces are trimmed at the cut, and the new line
      goes between them, or at the end. */
  method PutText(text: string, key: char, value: Option<string>) returns (packed: string)
    ensures packed == Put(text, key, value)
  {
    hide Put, Rejoin, NewLine, FindFrom, Cut;
    PutOfParts(text, key, value);
    var old1, old2, found := CutAtParam(text, key);
    if !found && value == None {
      return text;
    }
    packed := Rejoin(old1, NewLine(key, value), old2);
  }

  class Param {
    var packed: string

    constructor ()
      ensures packed == ""
    {
      packed := "";
    }

    method Empty()
      modifies this
      ensures packed == ""
    {
      packed := "";
    }

    method SetPacked(text: Option<string>)
      modifies this
      ensures packed == if text.Some? then text.value else ""
    {
      Empty();
      if text.Some? {
        packed := text.value;
      }
    }

    method Exists(key: char) returns (exists_: bool)
      ensures exists_ <==> key != NUL && Got(packed, key).Some?
    {
      if key == NUL {
        return false;
      }
      var found := FindParam(packed, key);
      exists_ := found.Some?;
    }

    method Get(key: char, def: Option<string>) returns (value: Option<string>)
      ensures value == if key != NUL && Got(packed, key).Some? then Got(packed, key) else def
    {
      if key == NUL {
        return def;
      }
      var found := FindParam(packed, key);
      if found == None {
        return def;
      }
      var p1, p2 := found.value.0 + 2, found.value.1;
      if p2 < p1 {
        p2 := |packed|;
      }
      value := Some(RTrim(packed[p1..p2]));
    }

    method GetInt(key: char, def: int) returns (value: int)
      ensures value == if key != NUL && Got(packed, key).Some? then AsInt32(Atol(Got(packed, key).value)) else def
    {
      if key == NUL {
        return def;
      }
      var str := Get(key, None);
      if str == None {
        return def;
      }
      value := AsInt32(Atol(str.value));
    }

    method Set(key: char, value: Option<string>)
      modifies this
      ensures packed == if key == NUL then old(packed) else Put(old(packed), key, value)
    {
      if key == NUL {
        return;
      }
      packed := PutText(packed, key, value);
    }

    method SetInt(key: char, value: int)
      modifies this
      ensures packed == if key == NUL then old(packed) else Put(old(packed), key, Some(Print(value)))
    {
      if key == NUL {
        return;
      }
      Set(key, Some(Print(value)));
    }
  }

  // ----- The text as a list of entries -----------------------------------------------------------

  /** The keys in use are the `DC_PARAM_` letters, none of which is white space. */
  predicate IsKey(key: char) {
    !IsSpace(key)
  }

  datatype Entry = Entry(key: char, value: string)

  predicate GoodValue(value: string) {
    '\n' !in value
  }

  predicate AreLines(es: seq<Entry>) {
    forall i :: 0 <= i < |es| ==> IsKey(es[i].key) && GoodValue(es[i].value)
  }

  predicate HasNot(es: seq<Entry>, key: char) {
    forall i :: 0 <= i < |es| ==> es[i].key != key
  }

  ghost predicate GoodEntries(es: seq<Entry>) {
    && AreLines(es)
    && (forall i, j :: 0 <= i < j < |es| ==> es[i].key != es[j].key)
  }

  function Join(es: seq<Entry>): string {
    if es == [] then ""
    else Line(es[0].key, es[0].value) + (if |es| == 1 then "" else "\n" + Join(es[1..]))
  }

  /** Text that packs some parameters: strict lines, each key once. */
  ghost predicate WellFormed(s: string) {
    exists es :: GoodEntries(es) && s == Join(es)
  }

  /** The position of the key in a list of entries, or its length. */
  function IndexOf(es: seq<Entry>, key: char): (i: nat)
    ensures i <= |es| && (i < |es| ==> es[i].key == key)
    ensures forall j :: 0 <= j < i ==> es[j].key != key
  {
    if es == [] || es[0].key == key then 0 else 1 + IndexOf(es[1..], key)
  }

  /** The text before entry `i`, with its newline. */
  function Before(es: seq<Entry>, i: nat): string
    requires i <= |es|
  {
    Join(es[..i]) + (if i == 0 then "" else "\n")
  }

  lemma JoinOfMore(es: seq<Entry>)
    requires |es| > 1
    ensures Join(es) == Line(es[0].key, es[0].value) + ("\n" + Join(es[1..]))
  {
  }

  lemma {:induction false} JoinConcat(a: seq<Entry>, b: seq<Entry>)
    requires a != [] && b != []
    ensures Join(a + b) == Join(a) + "\n" + Join(b)
    decreases |a|
  {
    hide Join, Line;
    JoinOfMore(a + b);
    var line, rest := Line(a[0].key, a[0].value), Join(b);
    if |a| == 1 {
      assert (a + b)[1..] == b && a == [a[0]];
      JoinOfOne(a[0]);
      assert line + ("\n" + rest) == line + "\n" + rest;
    } else {
      assert (a + b)[1..] == a[1..] + b;
      JoinOfMore(a);
      JoinConcat(a[1..], b);
      var middle := Join(a[1..]);
      assert line + ("\n" + (middle + "\n" + rest)) == line + ("\n" + middle) + "\n" + rest;
    }
  }

  /** The search either stops at a line or goes on behind it. */
  lemma FirstLine(s: string, p: nat, e: Entry, key: char)
    requires IsKey(e.key) && GoodValue(e.value)
    requires var end := p + |Line(e.key, e.value)|;
             end <= |s| && s[p..end] == Line(e.key, e.value) && (end == |s| || s[end] == '\n')
    ensures var end := p + |Line(e.key, e.value)|;
            FindFrom(s, key, p)
            == if e.key == key then Some(p) else if end == |s| then None else FindFrom(s, key, end + 1)
  {
    var line := Line(e.key, e.value);
    LineEndUnique(s, p, p + |line|);
    assert s[p] == line[0] && s[p + 1] == line[1];
  }

  /** How far into the packed text the line of a key begins. */
  function OffsetOf(es: seq<Entry>, key: char): Option<nat> {
    if es == [] then None
    else if es[0].key == key then Some(0)
    else match OffsetOf(es[1..], key)
         case None => None
         case Some(o) => Some(|Line(es[0].key, es[0].value)| + 1 + o)
  }

  function Moved(offset: Option<nat>, base: nat): Option<nat> {
    match offset
    case None => None
    case Some(o) => Some(base + o)
  }

  lemma FindInNothing(s: string, key: char)
    ensures FindFrom(s, key, |s|) == None && OffsetOf([], key) == None && Join([]) == ""
  {
  }

  lemma {:induction false} FindInJoin(s: string, p: nat, es: seq<Entry>, key: char)
    requires AreLines(es)
    requires p <= |s| && s[p..] == Join(es)
    ensures FindFrom(s, key, p) == Moved(OffsetOf(es, key), p)
    decreases |es|
  {
    hide FindFrom, OffsetOf, Join, Line, GoodValue, IsKey;
    if es == [] {
      FindInNothing(s, key);
      assert p == |s|;
    } else {
      FindStep(s, p, es, key);
      OffsetStep(es, key);
      if es[0].key != key && |es| > 1 {
        FindInJoin(s, p + |Line(es[0].key, es[0].value)| + 1, es[1..], key);
      }
    }
  }

  lemma OffsetStep(es: seq<Entry>, key: char)
    requires es != []
    ensures es[0].key == key ==> OffsetOf(es, key) == Some(0)
    ensures es[0].key != key && |es| == 1 ==> OffsetOf(es, key) == None
    ensures es[0].key != key ==>
              Moved(OffsetOf(es, key), 0) == Moved(OffsetOf(es[1..], key), |Line(es[0].key, es[0].value)| + 1)
  {
  }

  lemma FindStep(s: string, p: nat, es: seq<Entry>, key: char)
    requires es != [] && IsKey(es[0].key) && GoodValue(es[0].value)
    requires p <= |s| && s[p..] == Join(es)
    ensures var next := p + |Line(es[0].key, es[0].value)| + 1;
            && (|es| > 1 ==> next <= |s| && s[next..] == Join(es[1..]))
            && FindFrom(s, key, p)
               == if es[0].key == key then Some(p) else if |es| == 1 then None else FindFrom(s, key, next)
  {
    hide Join, Line, GoodValue, IsKey, FindFrom, LineEnd;
    LinesOfJoin(s, p, es);
    FirstLine(s, p, es[0], key);
  }

  lemma PartsOfRest(s: string, p: nat, a: string, b: string)
    requires p <= |s| && s[p..] == a + b
    ensures p + |a| <= |s| && s[p..p + |a|] == a && s[p + |a|..] == b
  {
    assert s[p..][..|a|] == a && s[p..][|a|..] == b;
  }

  lemma LinesOfJoin(s: string, p: nat, es: seq<Entry>)
    requires es != [] && p <= |s| && s[p..] == Join(es)
    ensures var line := Line(es[0].key, es[0].value);
            var end := p + |line|;
            && end <= |s| && s[p..end] == line
            && (if |es| == 1 then end == |s| else end < |s| && s[end] == '\n' && s[end + 1..] == Join(es[1..]))
  {
    hide Join, Line;
    var line := Line(es[0].key, es[0].value);
    if |es| == 1 {
      assert es == [es[0]];
      JoinOfOne(es[0]);
      assert line + "" == line;
      PartsOfRest(s, p, line, "");
    } else {
      JoinOfMore(es);
      PartsOfRest(s, p, line, "\n" + Join(es[1..]));
      PartsOfRest(s, p + |line|, "\n", Join(es[1..]));
      assert s[p + |line|] == s[p + |line|..p + |line| + 1][0];
    }
  }

  lemma {:induction false} OffsetIsBefore(es: seq<Entry>, key: char)
    ensures var i := IndexOf(es, key);
            OffsetOf(es, key) == if i == |es| then None else Some(|Before(es, i)|)
    decreases |es|
  {
    if es != [] && es[0].key != key {
      OffsetIsBefore(es[1..], key);
      var i := IndexOf(es[1..], key);
      if i < |es| - 1 {
        BeforeNext(es, i);
      }
    }
  }

  lemma BeforeNext(es: seq<Entry>, i: nat)
    requires i < |es| - 1
    ensures Before(es, i + 1) == Line(es[0].key, es[0].value) + "\n" + Before(es[1..], i)
  {
    assert es[..i + 1][1..] == es[1..][..i];
  }

  /** The text from the end of entry `i` on. */
  function After(es: seq<Entry>, i: nat): string
    requires i < |es|
  {
    if i == |es| - 1 then "" else "\n" + Join(es[i + 1..])
  }

  lemma JoinSplit(es: seq<Entry>, i: nat)
    requires i < |es|
    ensures Join(es) == Before(es, i) + Line(es[i].key, es[i].value) + After(es, i)
  {
    hide Join, Line, After;
    JoinFromEntry(es, i);
    assert es == es[..i] + es[i..];
    GlueTwo(es[..i], es[i..]);
    Associative(Before(es, i), Line(es[i].key, es[i].value), After(es, i));
  }

  lemma JoinOfNone()
    ensures Join([]) == ""
  {
  }

  lemma JoinFromEntry(es: seq<Entry>, i: nat)
    requires i < |es|
    ensures Join(es[i..]) == Line(es[i].key, es[i].value) + After(es, i)
  {
    assert es[i..][1..] == es[i + 1..];
  }

  lemma FoundInJoin(es: seq<Entry>, key: char)
    requires GoodEntries(es)
    ensures var i := IndexOf(es, key);
            FindFrom(Join(es), key, 0) == if i == |es| then None else Some(|Before(es, i)|)
  {
    hide FindFrom, Join, Before, OffsetOf, AreLines, IndexOf;
    var s := Join(es);
    assert s[0..] == s;
    FindInJoin(s, 0, es, key);
    OffsetIsBefore(es, key);
  }

  lemma CutInJoin(es: seq<Entry>, key: char)
    requires GoodEntries(es) && IsKey(key)
    ensures var i := IndexOf(es, key);
            && (FindFrom(Join(es), key, 0) == None <==> i == |es|)
            && Cut(Join(es), key) == (if i == |es| then (Join(es), "") else (Before(es, i), After(es, i)))
  {
    var i := IndexOf(es, key);
    EntryIsGood(es, i);
    hide FindFrom, LineEnd, Join, Before, After, AreLines, IsKey, Line, IndexOf, GoodValue, GoodEntries, Cut;
    FoundInJoin(es, key);
    if i < |es| {
      EntryEnd(es, i);
      EntryParts(es, i);
      CutAt(Join(es), key, |Before(es, i)|);
    } else {
      CutOfUnknown(Join(es), key);
    }
  }

  lemma CutAt(s: string, key: char, p: nat)
    requires FindFrom(s, key, 0) == Some(p) && p < LineEnd(s, p)
    ensures Cut(s, key) == (s[..p], s[LineEnd(s, p)..])
  {
    hide FindFrom;
  }

  lemma CutOfUnknown(s: string, key: char)
    requires FindFrom(s, key, 0) == None
    ensures Cut(s, key) == (s, "")
  {
    hide FindFrom;
  }

  lemma EntryIsGood(es: seq<Entry>, i: nat)
    requires GoodEntries(es) && i <= |es|
    ensures i < |es| ==> IsKey(es[i].key) && GoodValue(es[i].value)
  {
  }

  lemma GotOfUnknown(s: string, key: char)
    requires FindFrom(s, key, 0) == None
    ensures Got(s, key) == None
  {
  }

  lemma GotAt(s: string, key: char, p: nat, end: nat)
    requires IsKey(key) && FindFrom(s, key, 0) == Some(p) && LineEnd(s, p) == end
    ensures p + 2 <= end <= |s| && Got(s, key) == Some(RTrim(s[p + 2..end]))
  {
    FoundLine(s, key, 0);
  }

  /** What is stored for a key: the value of its entry, trimmed at the end. */
  lemma GotInJoin(es: seq<Entry>, key: char)
    requires GoodEntries(es) && IsKey(key)
    ensures var i := IndexOf(es, key);
            Got(Join(es), key) == if i == |es| then None else Some(RTrim(es[i].value))
  {
    hide FindFrom, LineEnd, Join, Before, After, AreLines, IsKey, RTrim, Line, IndexOf, GoodValue, GoodEntries, Got;
    var i := IndexOf(es, key);
    EntryIsGood(es, i);
    FoundInJoin(es, key);
    if i < |es| {
      EntryEnd(es, i);
      EntryValue(es, i);
      GotAt(Join(es), key, |Before(es, i)|, |Before(es, i)| + |Line(es[i].key, es[i].value)|);
    } else {
      GotOfUnknown(Join(es), key);
    }
  }

  lemma EntryParts(es: seq<Entry>, i: nat)
    requires i < |es|
    ensures var s, p, line := Join(es), |Before(es, i)|, Line(es[i].key, es[i].value);
            && p + |line| <= |s| && s[..p] == Before(es, i) && s[p + |line|..] == After(es, i)
            && s[p..p + |line|] == line && |line| >= 2 && s[p + 2..p + |line|] == es[i].value
  {
    hide Join, Before, After;
    var s, before, line := Join(es), Before(es, i), Line(es[i].key, es[i].value);
    JoinSplit(es, i);
    Associative(before, line, After(es, i));
    assert s[0..] == s;
    PartsOfRest(s, 0, before, line + After(es, i));
    PartsOfRest(s, |before|, line, After(es, i));
    LineParts(s[|before|..|before| + |line|], es[i]);
    assert s[|before|..|before| + |line|][2..] == s[|before| + 2..|before| + |line|];
  }

  lemma EntryValue(es: seq<Entry>, i: nat)
    requires i < |es|
    ensures var s, p, line := Join(es), |Before(es, i)|, Line(es[i].key, es[i].value);
            p + 2 <= p + |line| <= |s| && s[p + 2..p + |line|] == es[i].value
  {
    hide Join, Before, After, Line;
    EntryParts(es, i);
  }

  lemma LineParts(line: string, e: Entry)
    requires line == Line(e.key, e.value)
    ensures |line| >= 2 && line[2..] == e.value
  {
  }

  lemma EntryEnd(es: seq<Entry>, i: nat)
    requires i < |es| && IsKey(es[i].key) && GoodValue(es[i].value)
    ensures var p, line := |Before(es, i)|, Line(es[i].key, es[i].value);
            p + |line| <= |Join(es)| && LineEnd(Join(es), p) == p + |line|
  {
    hide Join, Before, LineEnd;
    var s, end := Join(es), |Before(es, i)| + |Line(es[i].key, es[i].value)|;
    EntryParts(es, i);
    assert end < |s| ==> s[end] == s[end..][0];
    LineEndUnique(s, |Before(es, i)|, end);
  }

  // ----- Setting and clearing on entries ---------------------------------------------------------

  function TrimLast(es: seq<Entry>): (r: seq<Entry>)
    ensures |r| == |es|
  {
    if es == [] then []
    else
      var n := |es| - 1;
      es[..n] + [Entry(es[n].key, RTrim(es[n].value))]
  }

  function PutEntries(es: seq<Entry>, key: char, value: Option<string>): seq<Entry> {
    var i := IndexOf(es, key);
    if i == |es| && value == None then es
    else TrimLast(es[..i]) + (if value.Some? then [Entry(key, value.value)] else []) + (if i < |es| then es[i + 1..] else [])
  }

  lemma {:induction false} RTrimConcat(a: string, b: string)
    ensures RTrim(a + b) == if RTrim(b) == "" then RTrim(a) else a + RTrim(b)
    decreases |b|
  {
    if b == "" {
      assert a + b == a;
    } else if IsSpace(b[|b| - 1]) {
      assert (a + b)[..|a + b| - 1] == a + b[..|b| - 1];
      RTrimConcat(a, b[..|b| - 1]);
    }
  }

  lemma RTrimTwice(a: string)
    ensures RTrim(RTrim(a)) == RTrim(a)
  {
  }

  lemma RTrimLine(key: char, value: string)
    requires IsKey(key)
    ensures RTrim(Line(key, value)) == Line(key, RTrim(value))
  {
    RTrimConcat([key] + "=", value);
  }

  lemma {:induction false} RTrimJoin(es: seq<Entry>)
    requires AreLines(es)
    ensures RTrim(Join(es)) == Join(TrimLast(es))
  {
    if es != [] {
      var n := |es| - 1;
      var last := es[n];
      RTrimLine(last.key, last.value);
      assert es == es[..n] + [last];
      JoinOfOne(last);
      JoinOfOne(Entry(last.key, RTrim(last.value)));
      if n > 0 {
        JoinConcat(es[..n], [last]);
        JoinConcat(es[..n], [Entry(last.key, RTrim(last.value))]);
        RTrimConcat(Join(es[..n]) + "\n", Join([last]));
      }
    }
  }

  lemma JoinOfOne(e: Entry)
    ensures Join([e]) == Line(e.key, e.value)
  {
  }

  lemma RTrimBefore(es: seq<Entry>, i: nat)
    requires i <= |es| && AreLines(es)
    ensures RTrim(Before(es, i)) == Join(TrimLast(es[..i]))
  {
    RTrimJoin(es[..i]);
    RTrimConcat(Join(es[..i]), if i == 0 then "" else "\n");
  }

  lemma LTrimLine(rest: string)
    requires rest != "" && !IsSpace(rest[0])
    ensures LTrim("\n" + rest) == rest
  {
    assert ("\n" + rest)[1..] == rest;
    assert LTrim(rest) == rest;
  }

  lemma LTrimAfter(es: seq<Entry>, i: nat)
    requires i < |es| && AreLines(es)
    ensures LTrim(After(es, i)) == Join(es[i + 1..])
  {
    hide Join, LTrim;
    if i < |es| - 1 {
      assert IsKey(es[i + 1].key);
      JoinBegins(es[i + 1..]);
      LTrimLine(Join(es[i + 1..]));
    } else {
      assert es[i + 1..] == [];
      JoinOfNone();
      NothingToTrim("");
    }
  }

  lemma JoinBegins(es: seq<Entry>)
    requires es != []
    ensures Join(es) != "" && Join(es)[0] == es[0].key
  {
  }

  lemma JoinIsEmptyIff(es: seq<Entry>)
    ensures Join(es) == "" <==> es == []
  {
  }

  lemma GlueJoins(a: seq<Entry>, line: seq<Entry>, b: seq<Entry>)
    requires |line| <= 1
    ensures Glue(Join(a), if line == [] then None else Some(Join(line)), Join(b)) == Join(a + line + b)
  {
    hide Join;
    JoinIsEmptyIff(a);
    JoinIsEmptyIff(b);
    JoinIsEmptyIff(line);
    if line == [] {
      assert a + line == a;
      GlueTwo(a, b);
    } else {
      GlueTwo(a, line);
      GlueTwo(a + line, b);
    }
  }

  lemma GlueTwo(a: seq<Entry>, b: seq<Entry>)
    ensures Join(a + b) == Join(a) + (if a != [] && b != [] then "\n" else "") + Join(b)
  {
    hide Join;
    JoinOfNone();
    if a == [] {
      assert a + b == b;
    } else if b == [] {
      assert a + b == a;
    } else {
      JoinConcat(a, b);
    }
  }

  lemma PutOverOld(es: seq<Entry>, key: char, value: Option<string>)
    requires GoodEntries(es) && IsKey(key) && IndexOf(es, key) < |es|
    ensures Put(Join(es), key, value) == Join(PutEntries(es, key, value))
  {
    hide FindFrom, LineEnd, Cut, Before, After, Join, Glue, IsKey, RTrim, LTrim;
    var i := IndexOf(es, key);
    var line := if value.Some? then [Entry(key, value.value)] else [];
    CutInJoin(es, key);
    if value.Some? {
      JoinOfOne(Entry(key, value.value));
    }
    RTrimBefore(es, i);
    LTrimAfter(es, i);
    GlueJoins(TrimLast(es[..i]), line, es[i + 1..]);
  }

  lemma PutNew(es: seq<Entry>, key: char, value: string)
    requires GoodEntries(es) && IsKey(key) && IndexOf(es, key) == |es|
    ensures Put(Join(es), key, Some(value)) == Join(PutEntries(es, key, Some(value)))
  {
    hide FindFrom, LineEnd, Cut, Before, After, Join, Glue, IsKey, RTrim;
    CutInJoin(es, key);
    JoinOfOne(Entry(key, value));
    assert es[..|es|] == es;
    RTrimJoin(es);
    GlueJoins(TrimLast(es), [Entry(key, value)], []);
    JoinOfNone();
    assert LTrim("") == "";
  }

  /** Setting or clearing a key in packed text is setting or clearing it in the list of entries. */
  lemma PutInJoin(es: seq<Entry>, key: char, value: Option<string>)
    requires GoodEntries(es) && IsKey(key)
    ensures Put(Join(es), key, value) == Join(PutEntries(es, key, value))
  {
    if IndexOf(es, key) < |es| {
      PutOverOld(es, key, value);
    } else if value.Some? {
      PutNew(es, key, value.value);
    } else {
      hide FindFrom, Cut, Join;
      CutInJoin(es, key);
    }
  }

  predicate Apart(a: seq<Entry>, b: seq<Entry>) {
    forall i, j :: 0 <= i < |a| && 0 <= j < |b| ==> a[i].key != b[j].key
  }

  lemma GoodConcat(a: seq<Entry>, b: seq<Entry>)
    requires GoodEntries(a) && GoodEntries(b) && Apart(a, b)
    ensures GoodEntries(a + b)
  {
  }

  lemma TrimLastGood(es: seq<Entry>)
    requires GoodEntries(es)
    ensures GoodEntries(TrimLast(es))
    ensures forall i :: 0 <= i < |es| ==> TrimLast(es)[i].key == es[i].key
  {
  }

  /** The entries around entry `i`, or all of them. */
  lemma GoodParts(es: seq<Entry>, i: nat)
    requires GoodEntries(es) && i <= |es|
    ensures GoodEntries(es[..i])
    ensures i < |es| ==> GoodEntries(es[i + 1..]) && Apart(es[..i], es[i + 1..]) && Apart([es[i]], es[i + 1..])
  {
  }

  lemma ApartFromLine(a: seq<Entry>, line: seq<Entry>, b: seq<Entry>)
    requires Apart(a, b) && Apart(line, b)
    ensures Apart(a + line, b)
  {
  }

  lemma LineIsGood(line: seq<Entry>)
    requires |line| <= 1 && (line != [] ==> AreLines(line))
    ensures GoodEntries(line)
  {
  }

  lemma ApartTrimmed(a: seq<Entry>, b: seq<Entry>)
    requires GoodEntries(a) && Apart(a, b)
    ensures Apart(TrimLast(a), b)
  {
    TrimLastGood(a);
  }

  /** A line with the key is apart from the entries before that key and from those behind it. */
  lemma LineApart(es: seq<Entry>, key: char, line: seq<Entry>)
    requires line == [] || (|line| == 1 && line[0].key == key)
    ensures Apart(es[..IndexOf(es, key)], line)
    ensures var i := IndexOf(es, key);
            i < |es| && Apart([es[i]], es[i + 1..]) ==> Apart(line, es[i + 1..])
  {
    var i := IndexOf(es, key);
    if i < |es| {
      assert [es[i]][0].key == key;
    }
  }

  lemma GoodAround(before: seq<Entry>, line: seq<Entry>, after: seq<Entry>)
    requires GoodEntries(before) && GoodEntries(line) && GoodEntries(after)
    requires Apart(before, line) && Apart(before, after) && Apart(line, after)
    ensures GoodEntries(before + line + after)
  {
    hide GoodEntries, Apart;
    GoodConcat(before, line);
    ApartFromLine(before, line, after);
    GoodConcat(before + line, after);
  }

  lemma PutKeepsGood(es: seq<Entry>, key: char, value: Option<string>)
    requires GoodEntries(es) && IsKey(key) && (value.Some? ==> GoodValue(value.value))
    ensures GoodEntries(PutEntries(es, key, value))
  {
    hide GoodEntries, TrimLast, IndexOf, IsKey, GoodValue;
    if value == None {
      AroundIsGood(es, key, []);
      assert TrimLast(es[..IndexOf(es, key)]) + [] == TrimLast(es[..IndexOf(es, key)]);
    } else {
      AroundIsGood(es, key, [Entry(key, value.value)]);
    }
  }

  lemma AroundIsGood(es: seq<Entry>, key: char, line: seq<Entry>)
    requires GoodEntries(es) && AreLines(line) && |line| <= 1 && (line != [] ==> line[0].key == key)
    ensures var i := IndexOf(es, key);
            GoodEntries(TrimLast(es[..i]) + line + (if i < |es| then es[i + 1..] else []))
  {
    hide GoodEntries, AreLines, TrimLast, IndexOf, Apart;
    var i := IndexOf(es, key);
    LineIsGood(line);
    LineIsGood([]);
    LineApart(es, key, line);
    GoodParts(es, i);
    TrimLastGood(es[..i]);
    ApartTrimmed(es[..i], line);
    if i < |es| {
      ApartTrimmed(es[..i], es[i + 1..]);
      GoodAround(TrimLast(es[..i]), line, es[i + 1..]);
    } else {
      NothingApart(TrimLast(es[..i]), line);
      GoodAround(TrimLast(es[..i]), line, []);
    }
  }

  lemma NothingApart(a: seq<Entry>, b: seq<Entry>)
    ensures Apart(a, []) && Apart(b, [])
  {
  }

  /** The entry of another key is kept, up to white space at the end of its value. */
  lemma PutKeepsOther(es: seq<Entry>, key: char, value: Option<string>, j: nat) returns (k: nat)
    requires j < |es| && j != IndexOf(es, key)
    ensures var put := PutEntries(es, key, value);
            k < |put| && put[k].key == es[j].key && RTrim(put[k].value) == RTrim(es[j].value)
  {
    hide RTrim, IndexOf;
    var i := IndexOf(es, key);
    var added := if value.Some? then 1 else 0;
    if i == |es| && value == None {
      k := j;
    } else if j < i {
      k := j;
      RTrimTwice(es[j].value);
      assert PutEntries(es, key, value)[k] == TrimLast(es[..i])[k];
    } else {
      k := j - 1 + added;
      assert PutEntries(es, key, value)[k] == es[i + 1..][j - i - 1];
    }
  }

  lemma PutAddsNoOther(es: seq<Entry>, key: char, value: Option<string>, other: char)
    requires other != key && HasNot(es, other)
    ensures HasNot(PutEntries(es, key, value), other)
  {
  }

  lemma ClearedIsGone(es: seq<Entry>, key: char)
    requires GoodEntries(es)
    ensures HasNot(PutEntries(es, key, None), key)
  {
  }

  lemma GotOfEntry(es: seq<Entry>, j: nat)
    requires GoodEntries(es) && j < |es|
    ensures Got(Join(es), es[j].key) == Some(RTrim(es[j].value))
  {
    GotInJoin(es, es[j].key);
    assert IndexOf(es, es[j].key) == j;
  }

  lemma GotOfNone(es: seq<Entry>, key: char)
    requires GoodEntries(es) && IsKey(key) && HasNot(es, key)
    ensures Got(Join(es), key) == None
  {
    GotInJoin(es, key);
  }

  lemma PutHasNew(es: seq<Entry>, key: char, value: string) returns (k: nat)
    ensures var put := PutEntries(es, key, Some(value)); k < |put| && put[k] == Entry(key, value)
  {
    k := IndexOf(es, key);
  }

  /** The packed text refines a map: a set key reads back as its value without white space at the end, a
      cleared key is gone, every other key reads as before, and the text stays well-formed. */
  lemma PutThenGet(s: string, key: char, value: Option<string>, other: char)
    requires WellFormed(s) && IsKey(key) && IsKey(other) && (value.Some? ==> GoodValue(value.value))
    ensures WellFormed(Put(s, key, value))
    ensures Got(Put(s, key, value), other)
            == if other != key then Got(s, other) else if value.Some? then Some(RTrim(value.value)) else None
  {
    hide Join, Got, Put;
    var es :| GoodEntries(es) && s == Join(es);
    var put := PutEntries(es, key, value);
    PutInJoin(es, key, value);
    PutKeepsGood(es, key, value);
    if other == key {
      if value.Some? {
        var k := PutHasNew(es, key, value.value);
        GotOfEntry(put, k);
      } else {
        ClearedIsGone(es, key);
        GotOfNone(put, key);
      }
    } else {
      var j := IndexOf(es, other);
      if j < |es| {
        GotOfEntry(es, j);
        var k := PutKeepsOther(es, key, value, j);
        GotOfEntry(put, k);
      } else {
        PutAddsNoOther(es, key, value, other);
        GotOfNone(es, other);
        GotOfNone(put, other);
      }
    }
  }

  /** Every 32-bit integer that is set is read back, from any well-formed text. */
  lemma IntRoundTrip(s: string, key: char, value: int)
    requires WellFormed(s) && IsKey(key) && -0x8000_0000 <= value < 0x8000_0000
    ensures var r := Got(Put(s, key, Some(Print(value))), key);
            r.Some? && AsInt32(Atol(r.value)) == value
  {
    hide Put, Got, Print, Atol, WellFormed, GoodValue;
    PrintIsTight(value);
    PutThenGet(s, key, Some(Print(value)), key);
    AtolOfPrint(value, "");
    assert Print(value) + "" == Print(value);
  }

  lemma PrintIsTight(value: int)
    ensures GoodValue(Print(value)) && RTrim(Print(value)) == Print(value)
  {
    var digits := Digits(if value < 0 then -value else value);
    assert Print(value)[|Print(value)| - 1] == digits[|digits| - 1];
    assert digits[|digits| - 1] in digits;
  }

  lemma EmptyIsWellFormed()
    ensures WellFormed("") && forall key | IsKey(key) :: Got("", key) == None
  {
    assert GoodEntries([]) && Join([]) == "";
  }

  type Setting = (char, Option<string>)

  /** The text after a sequence of settings. */
  function PutAll(s: string, settings: seq<Setting>): string {
    if settings == [] then s
    else
      var n := |settings| - 1;
      Put(PutAll(s, settings[..n]), settings[n].0, settings[n].1)
  }

  /** The value of the last setting of the key. */
  function LastSet(settings: seq<Setting>, key: char): Option<string> {
    if settings == [] then None
    else
      var n := |settings| - 1;
      if settings[n].0 == key then settings[n].1 else LastSet(settings[..n], key)
  }

  predicate AreSettings(settings: seq<Setting>) {
    forall i | 0 <= i < |settings| :: IsKey(settings[i].0) && (settings[i].1.Some? ==> GoodValue(settings[i].1.value))
  }

  /** A text built from nothing by any settings is well-formed, and each key reads as it was set last. */
  lemma {:induction false} BuiltTextIsMap(settings: seq<Setting>, key: char)
    requires AreSettings(settings) && IsKey(key)
    ensures WellFormed(PutAll("", settings))
    ensures Got(PutAll("", settings), key)
            == match LastSet(settings, key) case None => None case Some(v) => Some(RTrim(v))
  {
    hide Got, Put, WellFormed, RTrim, IsKey, GoodValue;
    if settings == [] {
      EmptyIsWellFormed();
    } else {
      var n := |settings| - 1;
      BuiltTextIsMap(settings[..n], key);
      PutThenGet(PutAll("", settings[..n]), settings[n].0, settings[n].1, key);
    }
  }
}
