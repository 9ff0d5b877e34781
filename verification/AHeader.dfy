/** The Autocrypt header: printed as `addr=...; prefer-encrypt=mutual; keydata= ...` and parsed again. */
module AHeader {
  import opened Base64
  import opened Bits
  import opened CStrings
  import opened Options

  datatype Preference = NoPreference | Mutual | Reset

  /** The fields of a header; an empty key stands for a key object without binary data. */
  datatype Fields = Fields(addr: Option<string>, preferEncrypt: Preference, key: seq<byte>)

  const EMPTY := Fields(None, NoPreference, [])

  // ----- Printing --------------------------------------------------------------------------------

  /** The text from position `i` on, `added` characters after the last break, with its breaks. */
  function BrokenFrom(s: string, i: nat, added: nat, every: nat, breaker: string): string
    requires i <= |s|
    decreases |s| - i
  {
    if i == |s| then ""
    else if added + 1 == every && i + 1 < |s| then [s[i]] + breaker + BrokenFrom(s, i + 1, 0, every, breaker)
    else [s[i]] + BrokenFrom(s, i + 1, added + 1, every, breaker)
  }

  function Broken(s: string, every: nat, breaker: string): string {
    BrokenFrom(s, 0, 0, every, breaker)
  }

  lemma BreakStep(s: string, i: nat, added: nat, every: nat, breaker: string)
    requires i < |s|
    ensures BrokenFrom(s, i, added, every, breaker)
            == [s[i]] + if added + 1 == every && i + 1 < |s| then breaker + BrokenFrom(s, i + 1, 0, every, breaker)
                        else BrokenFrom(s, i + 1, added + 1, every, breaker)
  {
    if added + 1 == every && i + 1 < |s| {
      Associative([s[i]], breaker, BrokenFrom(s, i + 1, 0, every, breaker));
    }
  }

  method InsertBreaks(s: string, every: nat, breaker: string) returns (out: string)
    ensures out == Broken(s, every, breaker)
  {
    out := "";
    var added := 0;
    for i := 0 to |s|
      invariant out + BrokenFrom(s, i, added, every, breaker) == Broken(s, every, breaker)
    {
      hide BrokenFrom, Broken;
      BreakStep(s, i, added, every, breaker);
      ghost var rest := BrokenFrom(s, i, added, every, breaker)[1..];
      Associative(out, [s[i]], rest);
      out := out + [s[i]];
      added := added + 1;
      if added == every && i + 1 < |s| {
        Associative(out, breaker, BrokenFrom(s, i + 1, 0, every, breaker));
        out := out + breaker;
        added := 0;
      }
    }
  }

  /** Breaks come after exactly `every` characters: the text is cut into blocks of that length. */
  lemma {:induction false} BrokenIntoBlocks(s: string, every: nat, breaker: string)
    requires every > 0
    ensures Broken(s, every, breaker)
            == if |s| <= every then s else s[..every] + (breaker + Broken(s[every..], every, breaker))
  {
    BlockFrom(s, 0, 0, every, every, breaker);
    if |s| > every {
      BrokenOfSuffix(s, every, 0, every, breaker);
    }
  }

  lemma SliceFront(s: string, i: nat, end: nat)
    requires i < end <= |s|
    ensures s[i..end] == [s[i]] + s[i + 1..end]
    ensures end == |s| ==> s[i..] == [s[i]] + s[i + 1..] && s[i + 1..] == s[i + 1..end]
    ensures end == i + 1 ==> s[i..end] == [s[i]] && s[i + 1..end] == ""
  {
  }

  lemma {:induction false} BlockFrom(s: string, i: nat, added: nat, end: nat, every: nat, breaker: string)
    requires i <= |s| && added < every && end == i + every - added
    ensures BrokenFrom(s, i, added, every, breaker)
            == if |s| <= end then s[i..] else s[i..end] + (breaker + BrokenFrom(s, end, 0, every, breaker))
    decreases |s| - i
  {
    if i < |s| {
      hide BrokenFrom;
      BreakStep(s, i, added, every, breaker);
      SliceFront(s, i, if |s| <= end then |s| else end);
      if added + 1 < every {
        BlockFrom(s, i + 1, added + 1, end, every, breaker);
        if end < |s| {
          Associative([s[i]], s[i + 1..end], breaker + BrokenFrom(s, end, 0, every, breaker));
        }
      }
    }
  }

  lemma {:induction false} BrokenOfSuffix(s: string, i: nat, added: nat, every: nat, breaker: string)
    requires i <= |s|
    ensures BrokenFrom(s, i, added, every, breaker) == BrokenFrom(s[i..], 0, added, every, breaker)
    decreases |s| - i
  {
    if i < |s| {
      var added' := if added + 1 == every && i + 1 < |s| then 0 else added + 1;
      BrokenOfSuffix(s, i + 1, added', every, breaker);
      BrokenOfSuffix(s[i..], 1, added', every, breaker);
      assert s[i..][1..] == s[i + 1..];
    }
  }

  function Rendered(h: Fields): Option<string> {
    if h.addr == None || h.key == [] then None
    else Some("addr=" + h.addr.value + "; "
              + (if h.preferEncrypt == Mutual then "prefer-encrypt=mutual; " else "")
              + "keydata= " + Broken(Encode(h.key), 78, " "))
  }

  /** Blocks with a space between them. */
  function Spaced(blocks: seq<string>): string {
    if blocks == [] then ""
    else if |blocks| == 1 then blocks[0]
    else blocks[0] + (" " + Spaced(blocks[1..]))
  }

  function Concatenated(blocks: seq<string>): string {
    if blocks == [] then "" else blocks[0] + Concatenated(blocks[1..])
  }

  lemma {:induction false} BlocksOf(s: string) returns (blocks: seq<string>)
    ensures Broken(s, 78, " ") == Spaced(blocks) && Concatenated(blocks) == s
    ensures forall i | 0 <= i < |blocks| :: if i < |blocks| - 1 then |blocks[i]| == 78 else 1 <= |blocks[i]| <= 78
    decreases |s|
  {
    hide Broken;
    BrokenIntoBlocks(s, 78, " ");
    if s == "" {
      blocks := [];
    } else if |s| <= 78 {
      blocks := [s];
      assert [s][1..] == [];
      assert s + "" == s;
    } else {
      var rest := BlocksOf(s[78..]);
      blocks := [s[..78]] + rest;
      assert blocks[1..] == rest && rest != [];
      assert s[..78] + s[78..] == s;
    }
  }

  /** The printed header: the address, the preference if it is mutual, and the key in base64, with a space after every 78
      characters. */
  lemma RenderedBlocks(h: Fields) returns (blocks: seq<string>)
    requires h.addr.Some? && h.key != []
    ensures Rendered(h)
            == Some("addr=" + h.addr.value + "; " + (if h.preferEncrypt == Mutual then "prefer-encrypt=mutual; " else "")
                    + "keydata= " + Spaced(blocks))
    ensures Concatenated(blocks) == Encode(h.key)
    ensures forall i | 0 <= i < |blocks| :: if i < |blocks| - 1 then |blocks[i]| == 78 else 1 <= |blocks[i]| <= 78
  {
    hide Broken, Spaced, Concatenated, Encode;
    blocks := BlocksOf(Encode(h.key));
  }

  // ----- Attributes ------------------------------------------------------------------------------

  function Normalized(addr: string): string {
    var t := Trim(addr);
    if "mailto:" <= t then Trim(t[7..]) else t
  }

  /** Normalizing takes away the white space around an address, and one `mailto:` with the white space behind it. */
  lemma NormalizedOfPadded(before: string, middle: string, addr: string, after: string)
    requires WhiteSpace(before) && WhiteSpace(middle) && WhiteSpace(after)
    requires addr != "" && !WhiteSpace([addr[0]]) && !WhiteSpace([addr[|addr| - 1]])
    ensures Normalized(before + ("mailto:" + (middle + addr)) + after) == addr
    ensures !("mailto:" <= addr) ==> Normalized(before + addr + after) == addr
  {
    hide Trim, WhiteSpace;
    var scheme := "mailto:";
    var s := scheme + (middle + addr);
    assert s[0] == 'm' && s[|s| - 1] == addr[|addr| - 1];
    MIsNoSpace();
    TrimOfPadded(before, s, after);
    TrimOfPadded(before, addr, after);
    assert s[7..] == middle + addr && middle + addr == middle + addr + "" && scheme <= s;
    TrimOfPadded(middle, addr, "");
  }

  lemma MIsNoSpace()
    ensures !WhiteSpace(['m']) && WhiteSpace("")
  {
    WhiteSpaceOf('m');
  }

  lemma WhiteSpaceOf(c: char)
    ensures WhiteSpace([c]) <==> IsSpace(c)
  {
    assert [c][0] == c;
  }

  /** An address is normalized exactly if it has no white space at its ends and does not begin with `mailto:`. */
  lemma NormalizedIff(addr: string)
    requires addr != ""
    ensures Normalized(addr) == addr
            <==> !WhiteSpace([addr[0]]) && !WhiteSpace([addr[|addr| - 1]]) && !("mailto:" <= addr)
  {
    MIsNoSpace();
    assert "" + addr + "" == addr;
    if !WhiteSpace([addr[0]]) && !WhiteSpace([addr[|addr| - 1]]) && !("mailto:" <= addr) {
      NormalizedOfPadded("", "", addr, "");
    }
    WhiteSpaceOf(addr[0]);
    WhiteSpaceOf(addr[|addr| - 1]);
    if Normalized(addr) == addr {
      NormalizedIsTrimmed(addr);
    }
  }

  /** The header with one more attribute, or nothing if the attribute makes the header invalid. */
  function AddAttribute(h: Fields, name: string, value: Option<string>): Option<Fields> {
    if EqualNoCase(name, "addr") then
      if value == None || |value.value| < 3 || '@' !in value.value || '.' !in value.value || h.addr.Some? then None
      else Some(h.(addr := Some(Normalized(value.value))))
    else if EqualNoCase(name, "prefer-encrypt") then
      if value.Some? && EqualNoCase(value.value, "mutual") then Some(h.(preferEncrypt := Mutual)) else Some(h)
    else if EqualNoCase(name, "keydata") then
      if value == None || h.key != [] || Decode(Sextets(value.value)) == [] then None
      else Some(h.(key := Decode(Sextets(value.value))))
    else if name != "" && name[0] == '_' then Some(h)
    else None
  }

  // ----- Parsing ---------------------------------------------------------------------------------

  const WS := "\t\r\n "
  const SEPARATORS := "\t\r\n =;"

  /** `strspn()`: how many characters of `s` from its start on are in `accept`. */
  function Span(s: string, accept: string): (n: nat)
    ensures n <= |s|
  {
    if s == "" || s[0] !in accept then 0 else 1 + Span(s[1..], accept)
  }

  /** `strcspn()`: how many characters of `s` from its start on are not in `reject`. */
  function CSpan(s: string, reject: string): (n: nat)
    ensures n <= |s|
  {
    if s == "" || s[0] in reject then 0 else 1 + CSpan(s[1..], reject)
  }

  function UpToSemicolon(w: string): (r: (Option<string>, string))
    ensures |r.1| <= |w|
  {
    var m := CSpan(w, ";");
    (Some(Trim(w[..m])), if m < |w| then w[m + 1..] else "")
  }

  /** What follows an attribute name: a value up to the next semicolon if there is an equal sign, and the rest. */
  function ValueAndRest(u: string): (r: (Option<string>, string))
    ensures |r.1| <= |u|
  {
    var v := u[Span(u, WS)..];
    if v != "" && v[0] == '=' then
      UpToSemicolon(v[Span(v, WS + "=")..])
    else (None, v[Span(v, WS + ";")..])
  }

  /** One attribute at the front of the text: its name, its value, and the text behind it. */
  function NextAttribute(s: string): (r: (string, Option<string>, string))
    ensures r.0 != "" ==> |r.2| < |s|
  {
    var t := s[Span(s, SEPARATORS)..];
    var n := CSpan(t, SEPARATORS);
    var (value, rest) := ValueAndRest(t[n..]);
    (t[..n], value, rest)
  }

  /** All attributes of the text, added to `h` in order. */
  function ParseRest(h: Fields, s: string): Option<Fields>
    decreases |s|
  {
    var (name, value, rest) := NextAttribute(s);
    if name == "" then Some(h)
    else match AddAttribute(h, name, value)
         case None => None
         case Some(h') => ParseRest(h', rest)
  }

  /** A header needs both an address and a key. */
  function Parsed(s: string): Option<Fields> {
    match ParseRest(EMPTY, s)
    case None => None
    case Some(h) => if h.addr.Some? && h.key != [] then Some(h) else None
  }

  // ----- The object ------------------------------------------------------------------------------

  method StrSpn(s: string, from: nat, accept: string) returns (p: nat)
    requires from <= |s|
    ensures p == from + Span(s[from..], accept) <= |s| && s[p..] == s[from..][Span(s[from..], accept)..]
  {
    p := from;
    while p < |s| && s[p] in accept
      invariant from <= p <= |s|
      invariant p + Span(s[p..], accept) == from + Span(s[from..], accept)
    {
      assert s[p..][1..] == s[p + 1..];
      p := p + 1;
    }
  }

  method StrCSpn(s: string, from: nat, reject: string) returns (p: nat)
    requires from <= |s|
    ensures p == from + CSpan(s[from..], reject) <= |s| && s[p..] == s[from..][CSpan(s[from..], reject)..]
    ensures s[from..p] == s[from..][..CSpan(s[from..], reject)]
  {
    p := from;
    while p < |s| && s[p] !in reject
      invariant from <= p <= |s|
      invariant p + CSpan(s[p..], reject) == from + CSpan(s[from..], reject)
    {
      assert s[p..][1..] == s[p + 1..];
      p := p + 1;
    }
  }

  method ScanToSemicolon(s: string, from: nat) returns (value: Option<string>, p: nat)
    requires from <= |s|
    ensures from <= p <= |s| && (value, s[p..]) == UpToSemicolon(s[from..])
  {
    hide CSpan, Trim;
    p := StrCSpn(s, from, ";");
    value := Some(Trim(s[from..p]));
    if p < |s| {
      assert s[p + 1..] == s[from..][p - from + 1..];
      p := p + 1;
    } else {
      assert s[p..] == "";
    }
  }

  method ScanValue(s: string, from: nat) returns (value: Option<string>, p: nat)
    requires from <= |s|
    ensures from <= p <= |s| && (value, s[p..]) == ValueAndRest(s[from..])
  {
    hide Span, UpToSemicolon;
    p := StrSpn(s, from, WS);
    if p < |s| && s[p] == '=' {
      assert s[p..][0] == '=';
      var beg := StrSpn(s, p, WS + "=");
      value, p := ScanToSemicolon(s, beg);
    } else {
      assert p < |s| ==> s[p..][0] == s[p];
      value := None;
      p := StrSpn(s, p, WS + ";");
    }
  }

  /** One attribute from position `from` on. */
  method Scan(s: string, from: nat) returns (name: string, value: Option<string>, p: nat)
    requires from <= |s|
    ensures from <= p <= |s| && (name, value, s[p..]) == NextAttribute(s[from..])
    ensures if name == "" then p == |s| else from < p
  {
    hide ValueAndRest, Span, CSpan;
    var beg := StrSpn(s, from, SEPARATORS);
    p := StrCSpn(s, beg, SEPARATORS);
    name := s[beg..p];
    if p != beg {
      value, p := ScanValue(s, p);
    } else {
      value := None;
      NameOrEnd(s[from..]);
      assert s[p..] == "";
    }
  }

  lemma NameOrEnd(s: string)
    ensures var t := s[Span(s, SEPARATORS)..]; CSpan(t, SEPARATORS) == 0 ==> t == ""
    ensures ValueAndRest("") == (None, "")
  {
    SpanStops(s, SEPARATORS);
  }

  class AHeader {
    var addr: Option<string>
    var preferEncrypt: Preference
    var publicKey: seq<byte>

    ghost function Value(): Fields
      reads this
    {
      Fields(addr, preferEncrypt, publicKey)
    }

    constructor ()
      ensures Value() == EMPTY
    {
      addr, preferEncrypt, publicKey := None, NoPreference, [];
    }

    method Empty()
      modifies this
      ensures Value() == EMPTY
    {
      preferEncrypt := NoPreference;
      addr := None;
      if publicKey != [] {
        publicKey := [];
      }
    }

    method Render() returns (text: Option<string>)
      ensures text == Rendered(Value())
    {
      if addr == None || publicKey == [] {
        return None;
      }
      var ret := "addr=";
      ret := ret + addr.value;
      ret := ret + "; ";
      if preferEncrypt == Mutual {
        ret := ret + "prefer-encrypt=mutual; ";
      }
      ret := ret + "keydata= ";
      var base64 := EncodeBase64(publicKey);
      base64 := InsertBreaks(base64, 78, " ");
      ret := ret + base64;
      text := Some(ret);
      assert ret == Rendered(Value()).value;
    }

    method Add(name: string, value: Option<string>) returns (ok: bool)
      modifies this
      ensures ok == AddAttribute(old(Value()), name, value).Some?
      ensures Value() == if ok then AddAttribute(old(Value()), name, value).value else old(Value())
    {
      if EqualNoCase(name, "addr") {
        if value == None || |value.value| < 3 || '@' !in value.value || '.' !in value.value || addr.Some? {
          return false;
        }
        addr := Some(Normalized(value.value));
        return true;
      } else if EqualNoCase(name, "prefer-encrypt") {
        if value.Some? && EqualNoCase(value.value, "mutual") {
          preferEncrypt := Mutual;
        }
        return true;
      } else if EqualNoCase(name, "keydata") {
        if value == None || publicKey != [] {
          return false;
        }
        var result := ParseBody(value.value);
        if result == [] {
          return false;
        }
        publicKey := result;
        return true;
      }
      return name != "" && name[0] == '_';
    }

    /** The whole parser, on a header that may be missing; a failure leaves an empty object. */
    method SetFromString(header: Option<string>) returns (success: bool)
      modifies this
      ensures success == (header.Some? && Parsed(header.value).Some?)
      ensures Value() == if success then Parsed(header.value).value else EMPTY
    {
      hide NextAttribute, AddAttribute;
      Empty();
      if header == None {
        return false;
      }
      var s := header.value;
      assert s[0..] == s;
      var p := 0;
      while p < |s|
        invariant p <= |s|
        invariant ParseRest(Value(), s[p..]) == ParseRest(EMPTY, s)
        decreases |s| - p
      {
        var name, value;
        name, value, p := Scan(s, p);
        if name != "" {
          var ok := Add(name, value);
          if !ok {
            Empty();
            return false;
          }
        }
      }
      success := addr.Some? && publicKey != [];
      if !success {
        Empty();
      }
    }
  }

  // ----- What the scanners find ------------------------------------------------------------------

  lemma {:induction false} SpanStops(s: string, accept: string)
    ensures forall i | 0 <= i < Span(s, accept) :: s[i] in accept
    ensures Span(s, accept) < |s| ==> s[Span(s, accept)] !in accept
  {
    if s != "" && s[0] in accept {
      SpanStops(s[1..], accept);
      forall i | 0 <= i < Span(s, accept) ensures s[i] in accept {
        if i > 0 {
          assert s[i] == s[1..][i - 1];
        }
      }
    }
  }

  lemma {:induction false} CSpanStops(s: string, reject: string)
    ensures forall i | 0 <= i < CSpan(s, reject) :: s[i] !in reject
    ensures CSpan(s, reject) < |s| ==> s[CSpan(s, reject)] in reject
  {
    if s != "" && s[0] !in reject {
      CSpanStops(s[1..], reject);
      forall i | 0 <= i < CSpan(s, reject) ensures s[i] !in reject {
        if i > 0 {
          assert s[i] == s[1..][i - 1];
        }
      }
    }
  }

  lemma SpanOfConcat(a: string, b: string, accept: string)
    requires forall c | c in a :: c in accept
    requires b == "" || b[0] !in accept
    ensures Span(a + b, accept) == |a| && (a + b)[|a|..] == b
  {
    SpanStops(a + b, accept);
    assert forall i | 0 <= i < |a| :: (a + b)[i] == a[i];
    assert b != "" ==> (a + b)[|a|] == b[0];
  }

  lemma CSpanOfConcat(a: string, b: string, reject: string)
    requires forall c | c in a :: c !in reject
    requires b == "" || b[0] in reject
    ensures CSpan(a + b, reject) == |a| && (a + b)[..|a|] == a && (a + b)[|a|..] == b
  {
    CSpanStops(a + b, reject);
    assert forall i | 0 <= i < |a| :: (a + b)[i] == a[i];
    assert b != "" ==> (a + b)[|a|] == b[0];
  }

  predicate IsName(name: string) {
    name != "" && forall c | c in name :: c !in SEPARATORS
  }

  predicate IsFiller(filler: string) {
    forall c | c in filler :: c in SEPARATORS
  }

  predicate IsGap(gap: string) {
    forall c | c in gap :: c in WS + "="
  }

  lemma SpanOfFirst(c: char, rest: string, accept: string)
    ensures Span([c] + rest, accept) == if c in accept then 1 + Span(rest, accept) else 0
  {
    assert ([c] + rest)[1..] == rest;
  }

  lemma ValueBehindEqual(text: string)
    ensures ValueAndRest("=" + text) == UpToSemicolon(text[Span(text, WS + "=")..])
  {
    hide Span, UpToSemicolon;
    var v := ['='] + text;
    SpanOfFirst('=', text, WS);
    SpanOfFirst('=', text, WS + "=");
    TailOfFirst('=', text, Span(text, WS + "="));
    assert v[0] == '=' && v[0..] == v;
  }

  lemma TailOfFirst(c: char, text: string, k: nat)
    requires k <= |text|
    ensures ([c] + text)[1 + k..] == text[k..]
  {
  }

  /** An attribute with a value: everything behind the equal sign up to the next semicolon. */
  lemma NextOfNamed(filler: string, name: string, text: string)
    requires IsFiller(filler) && IsName(name)
    ensures var (value, rest) := ValueAndRest("=" + text);
            NextAttribute(filler + name + "=" + text) == (name, value, rest)
  {
    hide ValueAndRest;
    var v := "=" + text;
    assert filler + name + "=" + text == filler + (name + v);
    assert (name + v)[0] == name[0] && name[0] in name;
    SpanOfConcat(filler, name + v, SEPARATORS);
    CSpanOfConcat(name, v, SEPARATORS);
  }

  lemma NextOfValue(filler: string, name: string, gap: string, value: string, rest: string)
    requires IsFiller(filler) && IsName(name) && IsGap(gap)
    requires value != "" && value[0] !in WS + "=" && ';' !in value
    ensures NextAttribute(filler + name + "=" + (gap + value)) == (name, Some(Trim(value)), "")
    ensures NextAttribute(filler + name + "=" + (gap + (value + (";" + rest)))) == (name, Some(Trim(value)), rest)
  {
    NextOfNamed(filler, name, gap + value);
    NextOfNamed(filler, name, gap + (value + (";" + rest)));
    ValueOfLast(gap, value);
    ValueOfInner(gap, value, rest);
  }

  lemma ValueOfLast(gap: string, value: string)
    requires IsGap(gap)
    requires value != "" && value[0] !in WS + "=" && ';' !in value
    ensures ValueAndRest("=" + (gap + value)) == (Some(Trim(value)), "")
  {
    hide Span, CSpan, Trim, ValueAndRest;
    ValueBehindEqual(gap + value);
    SpanOfConcat(gap, value, WS + "=");
    CSpanOfConcat(value, "", ";");
    assert value + "" == value;
  }

  lemma ValueOfInner(gap: string, value: string, rest: string)
    requires IsGap(gap)
    requires value != "" && value[0] !in WS + "=" && ';' !in value
    ensures ValueAndRest("=" + (gap + (value + (";" + rest)))) == (Some(Trim(value)), rest)
  {
    hide Span, CSpan, Trim, ValueAndRest;
    var tail := ";" + rest;
    ValueBehindEqual(gap + (value + tail));
    SpanOfConcat(gap, value + tail, WS + "=");
    CSpanOfConcat(value, tail, ";");
    assert (value + tail)[|value| + 1..] == rest;
  }

  // ----- What the tokenizer reads ----------------------------------------------------------------

  predicate IsBlank(c: char) {
    c == ' ' || c == '\t' || c == '\r' || c == '\n'
  }

  predicate Blanks(s: string) {
    forall i | 0 <= i < |s| :: IsBlank(s[i])
  }

  predicate BlanksOr(s: string, other: char) {
    forall i | 0 <= i < |s| :: IsBlank(s[i]) || s[i] == other
  }

  predicate Separates(s: string) {
    forall i | 0 <= i < |s| :: IsBlank(s[i]) || s[i] == '=' || s[i] == ';'
  }

  predicate Names(s: string) {
    s != "" && forall i | 0 <= i < |s| :: !IsBlank(s[i]) && s[i] != '=' && s[i] != ';'
  }

  lemma BlanksAre()
    ensures forall c: char :: c in WS <==> IsBlank(c)
    ensures forall c: char :: c in WS + "=" <==> IsBlank(c) || c == '='
    ensures forall c: char :: c in WS + ";" <==> IsBlank(c) || c == ';'
    ensures forall c: char :: c in SEPARATORS <==> IsBlank(c) || c == '=' || c == ';'
  {
  }

  lemma NextOfParts(filler: string, name: string, u: string)
    requires IsFiller(filler) && IsName(name) && (u == "" || u[0] in SEPARATORS)
    ensures NextAttribute(filler + (name + u)) == (name, ValueAndRest(u).0, ValueAndRest(u).1)
  {
    hide ValueAndRest;
    assert (name + u)[0] == name[0] && name[0] in name;
    SpanOfConcat(filler, name + u, SEPARATORS);
    CSpanOfConcat(name, u, SEPARATORS);
  }

  lemma {:induction false} SpanOfMore(a: string, b: string, accept: string)
    requires forall i | 0 <= i < |a| :: a[i] in accept
    ensures Span(a + b, accept) == |a| + Span(b, accept)
    ensures (a + b)[|a| + Span(b, accept)..] == b[Span(b, accept)..]
  {
    if a == "" {
      assert a + b == b;
    } else {
      assert (a + b)[1..] == a[1..] + b;
      SpanOfMore(a[1..], b, accept);
    }
  }

  lemma BlanksAreSkipped(blanks: string, u: string)
    requires forall i | 0 <= i < |blanks| :: blanks[i] in WS
    ensures ValueAndRest(blanks + u) == ValueAndRest(u)
  {
    hide Span, CSpan, UpToSemicolon;
    SpanOfMore(blanks, u, WS);
  }

  lemma UpToSemicolonOf(value: string, rest: string)
    requires ';' !in value
    ensures UpToSemicolon(value) == (Some(Trim(value)), "")
    ensures UpToSemicolon(value + (";" + rest)) == (Some(Trim(value)), rest)
  {
    hide CSpan, Trim;
    var tail := ";" + rest;
    CSpanOfConcat(value, "", ";");
    CSpanOfConcat(value, tail, ";");
    assert value + "" == value;
    assert (value + tail)[|value| + 1..] == rest;
  }

  lemma ValueBehindGap(gap: string, text: string)
    requires forall i | 0 <= i < |gap| :: gap[i] in WS + "="
    requires text == "" || text[0] !in WS + "="
    ensures ValueAndRest("=" + (gap + text)) == UpToSemicolon(text)
  {
    hide Span, UpToSemicolon, ValueAndRest;
    ValueBehindEqual(gap + text);
    SpanOfConcat(gap, text, WS + "=");
  }

  /** An attribute with a value, and what may stand around its parts: separators in front, blanks before the equal sign,
      blanks and equal signs behind it, and white space at the end of the value, which a semicolon or the end of the text
      ends. */
  lemma ReadsAttribute(filler: string, name: string, blanks: string, gap: string, value: string, rest: string)
    requires Separates(filler) && Names(name) && Blanks(blanks) && BlanksOr(gap, '=')
    requires ';' !in value && (value != "" ==> !IsBlank(value[0]) && value[0] != '=')
    ensures NextAttribute(filler + (name + (blanks + ("=" + (gap + value))))) == (name, Some(Trim(value)), "")
    ensures NextAttribute(filler + (name + (blanks + ("=" + (gap + (value + (";" + rest)))))))
            == (name, Some(Trim(value)), rest)
  {
    PartsAre(filler, name, blanks, gap, value);
    var short, long := gap + value, gap + (value + (";" + rest));
    assert (value + (";" + rest))[0] == if value == "" then ';' else value[0];
    hide NextAttribute, ValueAndRest, UpToSemicolon, Trim, Separates, Names, Blanks, BlanksOr, IsBlank, IsFiller, IsName;
    NextOfEqual(filler, name, blanks, short);
    NextOfEqual(filler, name, blanks, long);
    ValueBehindGap(gap, value);
    ValueBehindGap(gap, value + (";" + rest));
    UpToSemicolonOf(value, rest);
  }

  lemma PartsAre(filler: string, name: string, blanks: string, gap: string, value: string)
    requires Separates(filler) && Names(name) && Blanks(blanks) && BlanksOr(gap, '=')
    requires ';' !in value && (value != "" ==> !IsBlank(value[0]) && value[0] != '=')
    ensures IsFiller(filler) && IsName(name)
    ensures (forall i | 0 <= i < |blanks| :: blanks[i] in WS) && forall i | 0 <= i < |gap| :: gap[i] in WS + "="
    ensures (value == "" || value[0] !in WS + "=") && ';' !in WS + "="
  {
    BlanksAre();
    hide IsBlank;
  }

  lemma NextOfEqual(filler: string, name: string, blanks: string, text: string)
    requires IsFiller(filler) && IsName(name) && forall i | 0 <= i < |blanks| :: blanks[i] in WS
    ensures NextAttribute(filler + (name + (blanks + ("=" + text))))
            == (name, ValueAndRest("=" + text).0, ValueAndRest("=" + text).1)
  {
    BlanksAre();
    assert (blanks + ("=" + text))[0] in SEPARATORS by {
      assert (blanks + ("=" + text))[0] == if blanks == "" then '=' else blanks[0];
    }
    hide NextAttribute, ValueAndRest, IsBlank, IsFiller, IsName;
    NextOfParts(filler, name, blanks + ("=" + text));
    BlanksAreSkipped(blanks, "=" + text);
  }

  lemma NoValueIn(skip: string, rest: string)
    requires forall i | 0 <= i < |skip| :: skip[i] in WS + ";"
    requires rest != "" ==> rest[0] !in WS + ";" && (rest[0] == '=' ==> ';' in skip)
    ensures ValueAndRest(skip + rest) == (None, rest)
  {
    hide CSpan, UpToSemicolon;
    var k := Span(skip, WS);
    SpanStops(skip, WS);
    var blanks, more := skip[..k], skip[k..];
    assert skip + rest == blanks + (more + rest);
    BlanksAreSkipped(blanks, more + rest);
    if more == "" {
      assert skip[..k] == skip && more + rest == rest;
      SpanOfConcat("", rest, WS);
      SpanOfConcat("", rest, WS + ";");
      assert "" + rest == rest;
    } else {
      assert (more + rest)[0] == skip[k];
      SpanOfConcat("", more + rest, WS);
      SpanOfConcat(more, rest, WS + ";");
      assert "" + (more + rest) == more + rest;
    }
  }

  /** An attribute without a value: the name ends with a separator or the text, and blanks and semicolons are skipped. */
  lemma ReadsName(filler: string, name: string, skip: string, rest: string)
    requires Separates(filler) && Names(name) && BlanksOr(skip, ';') && (skip == "" ==> rest == "")
    requires rest != "" ==> !IsBlank(rest[0]) && rest[0] != ';' && (rest[0] == '=' ==> ';' in skip)
    ensures NextAttribute(filler + (name + (skip + rest))) == (name, None, rest)
  {
    BlanksAre();
    hide IsBlank;
    assert forall c | c in filler :: c in SEPARATORS;
    assert forall c | c in name :: c !in SEPARATORS;
    hide NextAttribute, ValueAndRest;
    NextOfParts(filler, name, skip + rest);
    NoValueIn(skip, rest);
  }

  /** Separators alone are no attribute. */
  lemma ReadsNothing(filler: string)
    requires Separates(filler)
    ensures NextAttribute(filler) == ("", None, "")
  {
    BlanksAre();
    hide IsBlank;
    assert forall c | c in filler :: c in SEPARATORS;
    SpanOfConcat(filler, "", SEPARATORS);
    assert filler + "" == filler;
  }

  // ----- Which texts are headers -----------------------------------------------------------------

  datatype Attribute = Attribute(name: string, value: Option<string>)

  /** The attributes of a text, whether or not they make sense. */
  function Attributes(s: string): seq<Attribute>
    decreases |s|
  {
    var (name, value, rest) := NextAttribute(s);
    if name == "" then [] else [Attribute(name, value)] + Attributes(rest)
  }

  function Only(attributes: seq<Attribute>, name: string): seq<Attribute> {
    if attributes == [] then []
    else (if EqualNoCase(attributes[0].name, name) then [attributes[0]] else []) + Only(attributes[1..], name)
  }

  predicate IsKnown(a: Attribute) {
    EqualNoCase(a.name, "addr") || EqualNoCase(a.name, "prefer-encrypt") || EqualNoCase(a.name, "keydata")
    || (a.name != "" && a.name[0] == '_')
  }

  predicate GivesAddress(a: Attribute) {
    a.value.Some? && |a.value.value| >= 3 && '@' in a.value.value && '.' in a.value.value
  }

  predicate GivesKey(a: Attribute) {
    a.value.Some? && Decode(Sextets(a.value.value)) != []
  }

  predicate GivesMutual(a: Attribute) {
    a.value.Some? && EqualNoCase(a.value.value, "mutual")
  }

  predicate AllKnown(attributes: seq<Attribute>) {
    forall i | 0 <= i < |attributes| :: IsKnown(attributes[i])
  }

  predicate AllGiveAddress(attributes: seq<Attribute>) {
    forall i | 0 <= i < |attributes| :: GivesAddress(attributes[i])
  }

  predicate AllGiveKey(attributes: seq<Attribute>) {
    forall i | 0 <= i < |attributes| :: GivesKey(attributes[i])
  }

  predicate AnyMutual(attributes: seq<Attribute>) {
    exists i :: 0 <= i < |attributes| && GivesMutual(attributes[i])
  }

  /** What a header accepts that has the fields `h` already: known attributes only, and at most one address and one
      key in all, both well-formed. */
  predicate Acceptable(h: Fields, attributes: seq<Attribute>) {
    && AllKnown(attributes)
    && |Only(attributes, "addr")| <= (if h.addr.Some? then 0 else 1)
    && |Only(attributes, "keydata")| <= (if h.key != [] then 0 else 1)
    && AllGiveAddress(Only(attributes, "addr")) && AllGiveKey(Only(attributes, "keydata"))
  }

  /** The fields with those of the attributes added. */
  function WithAttributes(h: Fields, attributes: seq<Attribute>): Fields
    requires Acceptable(h, attributes)
  {
    var addrs, keys := Only(attributes, "addr"), Only(attributes, "keydata");
    Fields(if addrs == [] then h.addr else Some(Normalized(addrs[0].value.value)),
           if AnyMutual(Only(attributes, "prefer-encrypt")) then Mutual else h.preferEncrypt,
           if keys == [] then h.key else Decode(Sextets(keys[0].value.value)))
  }

  lemma {:induction false} ParseRestIff(h: Fields, s: string)
    ensures ParseRest(h, s).Some? <==> Acceptable(h, Attributes(s))
    ensures Acceptable(h, Attributes(s)) ==> ParseRest(h, s) == Some(WithAttributes(h, Attributes(s)))
    decreases |s|
  {
    hide NextAttribute;
    var (name, value, rest) := NextAttribute(s);
    if name != "" {
      var first := Attribute(name, value);
      AcceptableFirst(h, first, Attributes(rest));
      match AddAttribute(h, name, value)
      case None =>
      case Some(h') => ParseRestIff(h', rest);
    }
  }

  lemma OneName(name: string)
    ensures EqualNoCase(name, "addr") ==> |name| == 4
    ensures EqualNoCase(name, "keydata") ==> |name| == 7
    ensures EqualNoCase(name, "prefer-encrypt") ==> |name| == 14
    ensures EqualNoCase(name, "addr") ==> !EqualNoCase(name, "prefer-encrypt") && !EqualNoCase(name, "keydata")
    ensures EqualNoCase(name, "prefer-encrypt") ==> !EqualNoCase(name, "keydata")
  {
    assert |Fold("addr")| == 4 && |Fold("keydata")| == 7 && |Fold("prefer-encrypt")| == 14;
    assert |Fold(name)| == |name|;
  }

  lemma OnlyFirst(first: Attribute, rest: seq<Attribute>, name: string)
    ensures var all := Only([first] + rest, name);
            if EqualNoCase(first.name, name) then
              all == [first] + Only(rest, name) && all[0] == first && all[1..] == Only(rest, name)
            else all == Only(rest, name)
  {
    assert ([first] + rest)[1..] == rest;
  }

  lemma QuantifiersFirst(first: Attribute, rest: seq<Attribute>)
    ensures AllKnown([first] + rest) <==> IsKnown(first) && AllKnown(rest)
    ensures AllGiveAddress([first] + rest) <==> GivesAddress(first) && AllGiveAddress(rest)
    ensures AllGiveKey([first] + rest) <==> GivesKey(first) && AllGiveKey(rest)
    ensures AnyMutual([first] + rest) <==> GivesMutual(first) || AnyMutual(rest)
  {
    hide IsKnown, GivesAddress, GivesKey, GivesMutual;
    var all := [first] + rest;
    assert all[0] == first && forall i | 0 <= i < |rest| :: all[i + 1] == rest[i];
    assert forall i | 0 < i < |all| :: all[i] == rest[i - 1];
  }

  lemma AcceptableFirst(h: Fields, first: Attribute, rest: seq<Attribute>)
    requires first.name != ""
    ensures var h' := AddAttribute(h, first.name, first.value);
            && (Acceptable(h, [first] + rest) <==> h'.Some? && Acceptable(h'.value, rest))
            && (Acceptable(h, [first] + rest) ==> WithAttributes(h, [first] + rest) == WithAttributes(h'.value, rest))
  {
    hide AllKnown, AllGiveAddress, AllGiveKey, AnyMutual, EqualNoCase, Decode, Sextets, Normalized, Only;
    OneName(first.name);
    OnlyFirst(first, rest, "addr");
    OnlyFirst(first, rest, "keydata");
    OnlyFirst(first, rest, "prefer-encrypt");
    QuantifiersFirst(first, rest);
    QuantifiersFirst(first, Only(rest, "addr"));
    QuantifiersFirst(first, Only(rest, "keydata"));
    QuantifiersFirst(first, Only(rest, "prefer-encrypt"));
  }

  /** A text is a header exactly if all of its attributes are known and it has just one address and one key, both
      well-formed; encryption is mutual if any attribute says so. */
  lemma ParsedIff(s: string)
    ensures var all := Attributes(s);
            var addrs, keys := Only(all, "addr"), Only(all, "keydata");
            && (Parsed(s).Some? <==>
                  AllKnown(all) && |addrs| == 1 && |keys| == 1 && GivesAddress(addrs[0]) && GivesKey(keys[0]))
            && (Parsed(s).Some? ==>
                  Parsed(s).value == Fields(Some(Normalized(addrs[0].value.value)),
                                            if AnyMutual(Only(all, "prefer-encrypt")) then Mutual else NoPreference,
                                            Decode(Sextets(keys[0].value.value))))
  {
    hide Attributes, Only, AllKnown, ParseRest, AnyMutual, Decode, Sextets, Normalized;
    ParseRestIff(EMPTY, s);
  }

  // ----- Folding (section 2.2.3 of RFC 5322) -----------------------------------------------------

  const FOLD := "\r\n"

  /** The text with a line break before every space or tab for which `choices` asks for one. */
  function Folded(s: string, choices: seq<bool>): string
    requires |choices| == |s|
  {
    if s == "" then ""
    else (if choices[0] && s[0] in " \t" then FOLD else "") + [s[0]] + Folded(s[1..], choices[1..])
  }

  lemma FoldedFirst(s: string, choices: seq<bool>, rest: string)
    requires s != "" && |choices| == |s| && rest == Folded(s[1..], choices[1..])
    ensures Folded(s, choices) == if choices[0] && s[0] in " \t" then FOLD + ([s[0]] + rest) else [s[0]] + rest
  {
    Associative(FOLD, [s[0]], rest);
  }

  lemma {:induction false} FoldedConcat(a: string, b: string, choices: seq<bool>)
    requires |choices| == |a + b|
    ensures Folded(a + b, choices) == Folded(a, choices[..|a|]) + Folded(b, choices[|a|..])
    decreases |a|
  {
    if a == "" {
      assert a + b == b && choices[0..] == choices;
    } else {
      assert (a + b)[1..] == a[1..] + b;
      FoldedConcat(a[1..], b, choices[1..]);
      assert choices[1..][..|a| - 1] == choices[..|a|][1..];
      assert choices[1..][|a| - 1..] == choices[|a|..];
      var rest, tail := Folded(a[1..], choices[..|a|][1..]), Folded(b, choices[|a|..]);
      hide Folded;
      FoldedFirst(a, choices[..|a|], rest);
      FoldedFirst(a + b, choices, rest + tail);
      Associative([a[0]], rest, tail);
      Associative(FOLD, [a[0]] + rest, tail);
    }
  }

  lemma SplitFold(a: string, b: string, choices: seq<bool>) returns (before: seq<bool>, after: seq<bool>)
    requires |choices| == |a + b|
    ensures |before| == |a| && |after| == |b|
    ensures false !in choices ==> false !in before && false !in after
    ensures Folded(a + b, choices) == Folded(a, before) + Folded(b, after)
  {
    before, after := choices[..|a|], choices[|a|..];
    FoldedConcat(a, b, choices);
  }

  lemma {:induction false} FoldedPlain(s: string, choices: seq<bool>)
    requires |choices| == |s|
    requires (' ' !in s && '\t' !in s) || true !in choices
    ensures Folded(s, choices) == s
  {
    if s != "" {
      FoldedPlain(s[1..], choices[1..]);
    }
  }

  /** Folding adds nothing but line breaks, and every break makes the text longer. */
  lemma {:induction false} FoldedChars(s: string, choices: seq<bool>)
    requires |choices| == |s|
    ensures forall c | c in Folded(s, choices) :: c in s || c in FOLD
    ensures forall c | c in s :: c in Folded(s, choices)
    ensures |Folded(s, choices)| >= |s| && (s != "" && s[0] !in " \t" ==> Folded(s, choices)[0] == s[0])
    ensures forall i | 0 <= i < |s| && choices[i] && s[i] in " \t" :: |Folded(s, choices)| > |s|
  {
    if s != "" {
      FoldedChars(s[1..], choices[1..]);
      assert forall i | 0 < i < |s| :: choices[i] == choices[1..][i - 1] && s[i] == s[1..][i - 1];
    }
  }

  lemma {:induction false} FoldedEnds(s: string, choices: seq<bool>)
    requires |choices| == |s|
    requires s != "" && !IsSpace(s[0]) && !IsSpace(s[|s| - 1])
    ensures var f := Folded(s, choices); |f| >= |s| && f[0] == s[0] && f[|f| - 1] == s[|s| - 1]
  {
    var n := |s| - 1;
    assert s == s[..n] + [s[n]];
    FoldedConcat(s[..n], [s[n]], choices);
    FoldedChars(s, choices);
  }

  lemma {:induction false} FoldedPrefix(p: string, s: string, choices: seq<bool>)
    requires |choices| == |s|
    requires '\r' !in p && p <= Folded(s, choices)
    ensures p <= s
  {
    if p != "" && s != "" {
      assert p[0] == Folded(s, choices)[0];
      assert p[1..] <= Folded(s, choices)[1..];
      assert Folded(s, choices)[1..] == Folded(s[1..], choices[1..]);
      FoldedPrefix(p[1..], s[1..], choices[1..]);
    }
  }

  // ----- The key survives ------------------------------------------------------------------------

  predicate IsKeyText(s: string) {
    forall c | c in s :: ValueOf(c).Some? || c in "= \r\n"
  }

  lemma {:induction false} EncodeIsKeyText(octets: seq<byte>)
    ensures IsKeyText(Encode(octets))
    ensures octets != [] ==> Encode(octets) != "" && ValueOf(Encode(octets)[0]).Some?
  {
    if |octets| >= 3 {
      EncodeIsKeyText(octets[3..]);
    }
  }

  lemma SextetsOfFirst(c: char, rest: string)
    ensures Sextets([c] + rest) == (match ValueOf(c) case Some(v) => [v] case None => []) + Sextets(rest)
  {
    SextetsConcat([c], rest);
    assert [c][..0] == "";
  }

  lemma {:induction false} BrokenKeepsKey(s: string, i: nat, added: nat)
    requires i <= |s|
    ensures Sextets(BrokenFrom(s, i, added, 78, " ")) == Sextets(s[i..])
    decreases |s| - i
  {
    hide Sextets;
    if i == |s| {
      assert s[i..] == "";
    } else {
      var broken := added + 1 == 78 && i + 1 < |s|;
      var rest := BrokenFrom(s, i + 1, if broken then 0 else added + 1, 78, " ");
      BrokenKeepsKey(s, i + 1, if broken then 0 else added + 1);
      assert s[i..] == [s[i]] + s[i + 1..];
      SextetsOfFirst(s[i], s[i + 1..]);
      SextetsOfFirst(' ', rest);
      if broken {
        assert [s[i]] + " " + rest == [s[i]] + (" " + rest);
        SextetsOfFirst(s[i], " " + rest);
      } else {
        SextetsOfFirst(s[i], rest);
      }
    }
  }

  lemma {:induction false} BrokenChars(s: string, i: nat, added: nat)
    requires i <= |s|
    ensures forall c | c in BrokenFrom(s, i, added, 78, " ") :: c in s || c == ' '
    ensures i < |s| ==> BrokenFrom(s, i, added, 78, " ") != "" && BrokenFrom(s, i, added, 78, " ")[0] == s[i]
    decreases |s| - i
  {
    if i < |s| {
      BrokenChars(s, i + 1, if added + 1 == 78 && i + 1 < |s| then 0 else added + 1);
    }
  }

  lemma {:induction false} FoldedKeepsKey(s: string, choices: seq<bool>)
    requires |choices| == |s|
    ensures Sextets(Folded(s, choices)) == Sextets(s)
  {
    hide Sextets;
    if s != "" {
      var rest := Folded(s[1..], choices[1..]);
      FoldedKeepsKey(s[1..], choices[1..]);
      hide Folded;
      FoldedFirst(s, choices, rest);
      assert s == [s[0]] + s[1..];
      SextetsOfFirst(s[0], s[1..]);
      SextetsOfFirst(s[0], rest);
      FoldHasNoKey([s[0]] + rest);
    }
  }

  lemma FoldHasNoKey(rest: string)
    ensures Sextets(FOLD + rest) == Sextets(rest)
  {
    hide Sextets;
    SextetsOfFirst('\r', ['\n'] + rest);
    SextetsOfFirst('\n', rest);
    assert FOLD + rest == ['\r'] + (['\n'] + rest);
  }

  lemma {:induction false} SpacesHaveNoKey(s: string)
    requires forall c | c in s :: IsSpace(c)
    ensures Sextets(s) == []
  {
    if s != "" {
      assert s[|s| - 1] in s && ValueOf(s[|s| - 1]) == None;
      SpacesHaveNoKey(s[..|s| - 1]);
    }
  }

  lemma TrimKeepsKey(s: string)
    ensures Sextets(Trim(s)) == Sextets(s)
  {
    hide Sextets, LTrim, RTrim, IsSpace;
    var l := LTrim(s);
    var k := |s| - |l|;
    SpaceAround(s[..k], l, "");
    assert s == s[..k] + l + "";
    var r := RTrim(l);
    SpaceAround("", r, l[|r|..]);
    assert l == "" + r + l[|r|..];
  }

  lemma SpaceAround(before: string, s: string, after: string)
    requires forall i | 0 <= i < |before| :: IsSpace(before[i])
    requires forall i | 0 <= i < |after| :: IsSpace(after[i])
    ensures Sextets(before + s + after) == Sextets(s)
  {
    SextetsConcat(before, s);
    SextetsConcat(before + s, after);
    SpacesHaveNoKey(before);
    SpacesHaveNoKey(after);
  }

  lemma CharsOfKeyText(s: string, choices: seq<bool>)
    requires |choices| == |s| && s != "" && IsKeyText(s)
    requires ValueOf(s[0]).Some?
    ensures var text := Folded(s, choices);
            IsKeyText(text) && text != "" && text[0] !in WS + "=" && ';' !in text
  {
    FoldedChars(s, choices);
  }

  /** Broken into lines, folded in transport and trimmed, the text still decodes to the key. */
  lemma KeySurvives(key: seq<byte>, choices: seq<bool>)
    requires key != [] && |choices| == |Broken(Encode(key), 78, " ")|
    ensures var text := Folded(Broken(Encode(key), 78, " "), choices);
            && Decode(Sextets(Trim(text))) == key
            && text != "" && text[0] !in WS + "=" && ';' !in text
  {
    hide Sextets, Folded, Trim, Decode, Encode, BrokenFrom;
    var e := Encode(key);
    var b := Broken(e, 78, " ");
    EncodeIsKeyText(key);
    BrokenKeepsKey(e, 0, 0);
    BrokenChars(e, 0, 0);
    assert e[0..] == e;
    FoldedKeepsKey(b, choices);
    CharsOfKeyText(b, choices);
    TrimKeepsKey(Folded(b, choices));
    DecodeOfEncode(key);
  }

  // ----- Parsing undoes printing -----------------------------------------------------------------

  function KeyPart(key: seq<byte>): string {
    " keydata= " + Broken(Encode(key), 78, " ")
  }

  function AfterAddress(h: Fields): string {
    (if h.preferEncrypt == Mutual then " prefer-encrypt=mutual;" else "") + KeyPart(h.key)
  }

  lemma RenderedParts(h: Fields)
    requires h.addr.Some? && h.key != []
    ensures Rendered(h) == Some("addr=" + h.addr.value + ";" + AfterAddress(h))
  {
    hide Broken, Encode;
    RegroupParts("addr=" + h.addr.value, Broken(Encode(h.key), 78, " "));
  }

  lemma RegroupParts(a: string, b: string)
    ensures a + "; " + "prefer-encrypt=mutual; " + "keydata= " + b == a + ";" + (" prefer-encrypt=mutual;" + (" keydata= " + b))
    ensures a + "; " + "" + "keydata= " + b == a + ";" + ("" + (" keydata= " + b))
  {
    MoveSpaces(a, ";", " ", "prefer-encrypt=mutual;", "keydata= ", b);
    MoveSpace(a, ";", " ", "keydata= ", b);
    assert "; " == ";" + " " && "prefer-encrypt=mutual; " == "prefer-encrypt=mutual;" + " ";
    assert " prefer-encrypt=mutual;" == " " + "prefer-encrypt=mutual;" && " keydata= " == " " + "keydata= ";
    assert a + "; " + "" == a + "; " && "" + (" keydata= " + b) == " keydata= " + b;
  }

  lemma MoveSpace(a: string, end: string, space: string, key: string, b: string)
    ensures a + (end + space) + key + b == a + end + ((space + key) + b)
  {
  }

  lemma MoveSpaces(a: string, end: string, space: string, part: string, key: string, b: string)
    ensures a + (end + space) + (part + space) + key + b == a + end + ((space + part) + ((space + key) + b))
  {
    MoveSpace(a, end, space, part + space + key, b);
    assert a + (end + space) + (part + space) + key + b == a + (end + space) + (part + space + key) + b;
    assert (space + (part + space + key)) + b == (space + part) + ((space + key) + b);
  }

  lemma FoldedKeyPart(body: string, choices: seq<bool>) returns (filler: string, gap: string, after: seq<bool>)
    requires |choices| == |" keydata= " + body|
    ensures IsFiller(filler) && IsGap(gap) && |after| == |body|
    ensures Folded(" keydata= " + body, choices) == filler + "keydata" + "=" + (gap + Folded(body, after))
  {
    hide Folded;
    assert " keydata= " + body == " " + ("keydata=" + (" " + body));
    var c1, c2 := SplitFold(" ", "keydata=" + (" " + body), choices);
    var c3, c4 := SplitFold("keydata=", " " + body, c2);
    var c5, c6 := SplitFold(" ", body, c4);
    FoldedPlain("keydata=", c3);
    FoldedChars(" ", c1);
    FoldedChars(" ", c5);
    filler, gap, after := Folded(" ", c1), Folded(" ", c5), c6;
    assert "keydata" + "=" == "keydata=";
  }

  lemma KeyPartParsed(h: Fields, key: seq<byte>, choices: seq<bool>)
    requires h.key == [] && key != [] && |choices| == |KeyPart(key)|
    ensures ParseRest(h, Folded(KeyPart(key), choices)) == Some(h.(key := key))
  {
    hide Folded, Broken, Encode, NextAttribute, Trim, Sextets, Decode;
    var body := Broken(Encode(key), 78, " ");
    var filler, gap, after := FoldedKeyPart(body, choices);
    var text := Folded(body, after);
    KeySurvives(key, after);
    NextOfValue(filler, "keydata", gap, text, "");
    AddsKey(h, key, Trim(text));
    NextOfNothing();
  }

  lemma NextOfNothing()
    ensures NextAttribute("") == ("", None, "")
  {
  }

  lemma AddsKey(h: Fields, key: seq<byte>, value: string)
    requires h.key == [] && key != [] && Decode(Sextets(value)) == key
    ensures AddAttribute(h, "keydata", Some(value)) == Some(h.(key := key))
  {
    assert |Fold("addr")| == 4 && |Fold("keydata")| == 7 && |Fold("prefer-encrypt")| == 14;
  }

  lemma AddsPreference(h: Fields, name: string, value: string)
    requires name == "prefer-encrypt" && value == "mutual"
    ensures AddAttribute(h, name, Some(Trim(value))) == Some(h.(preferEncrypt := Mutual))
  {
    hide Trim;
    assert |Fold("addr")| == 4 && |Fold(name)| == 14;
    TrimOfTrimmed(value);
  }

  lemma Regroup(filler: string, name: string, value: string, rest: string)
    ensures filler + (name + "=" + value + ";" + rest) == filler + name + "=" + ("" + (value + (";" + rest)))
  {
  }

  lemma TrimOfTrimmed(s: string)
    requires s != "" && !IsSpace(s[0]) && !IsSpace(s[|s| - 1])
    ensures Trim(s) == s
  {
  }

  lemma PreferenceText(name: string, value: string, rest: string)
    requires name == "prefer-encrypt" && value == "mutual"
    ensures " prefer-encrypt=mutual;" + rest == " " + (name + "=" + value + ";" + rest)
  {
    var setting := name + "=" + value + ";";
    assert setting == "prefer-encrypt=mutual;";
    assert " " + setting == " prefer-encrypt=mutual;";
    assert " " + setting + rest == " " + (setting + rest);
  }

  lemma PlainName(name: string, value: string, choices: seq<bool>)
    requires name == "prefer-encrypt" && value == "mutual"
    requires |choices| == |name + "=" + value + ";"|
    ensures Folded(name + "=" + value + ";", choices) == name + "=" + value + ";"
    ensures IsName(name) && value[0] !in WS + "=" && ';' !in value
  {
    FoldedPlain(name + "=" + value + ";", choices);
  }

  lemma PreferenceParsed(start: Fields, rest: string, choices: seq<bool>) returns (after: seq<bool>)
    requires |choices| == |" prefer-encrypt=mutual;" + rest|
    ensures |after| == |rest|
    ensures ParseRest(start, Folded(" prefer-encrypt=mutual;" + rest, choices))
            == ParseRest(start.(preferEncrypt := Mutual), Folded(rest, after))
  {
    hide Folded, Trim, AddAttribute, NextAttribute;
    var name, value := "prefer-encrypt", "mutual";
    var setting := name + "=" + value + ";";
    PreferenceText(name, value, rest);
    var c1, c2 := SplitFold(" ", setting + rest, choices);
    var c3;
    c3, after := SplitFold(setting, rest, c2);
    PlainName(name, value, c3);
    FoldedChars(" ", c1);
    var filler, tail := Folded(" ", c1), Folded(rest, after);
    Regroup(filler, name, value, tail);
    NextOfValue(filler, name, "", value, tail);
    AddsPreference(start, name, value);
  }

  /** What follows the address in a printed header brings the preference and the key back. */
  lemma AfterAddressParsed(h: Fields, choices: seq<bool>)
    requires h.addr.Some? && h.key != [] && h.preferEncrypt != Reset && |choices| == |AfterAddress(h)|
    ensures ParseRest(EMPTY.(addr := h.addr), Folded(AfterAddress(h), choices)) == Some(h)
  {
    hide Folded, KeyPart, ParseRest;
    var start := EMPTY.(addr := h.addr);
    if h.preferEncrypt == Mutual {
      var after := PreferenceParsed(start, KeyPart(h.key), choices);
      KeyPartParsed(start.(preferEncrypt := Mutual), h.key, after);
    } else {
      assert AfterAddress(h) == KeyPart(h.key);
      KeyPartParsed(start, h.key, choices);
    }
  }

  /** The address passes the check on it, has no surrounding whitespace and no scheme, does not begin with an equal
      sign and holds no semicolon. */
  predicate AddressSound(addr: string) {
    && |addr| >= 3 && '@' in addr && '.' in addr
    && Normalized(addr) == addr && addr[0] != '=' && ';' !in addr
  }

  /** The addresses that survive printing, folding and parsing: sound, and without a place to fold a line. */
  predicate AddressKept(addr: string) {
    AddressSound(addr) && ' ' !in addr && '\t' !in addr
  }

  predicate Kept(h: Fields) {
    h.addr.Some? && AddressKept(h.addr.value) && h.preferEncrypt != Reset
  }

  lemma NormalizedShortens(addr: string)
    ensures |Normalized(addr)| <= |Trim(addr)|
    ensures "mailto:" <= Trim(addr) ==> |Normalized(addr)| < |Trim(addr)|
  {
    if "mailto:" <= Trim(addr) {
      TrimShortens(Trim(addr)[7..]);
    }
  }

  lemma NormalizedIsTrimmed(addr: string)
    requires Normalized(addr) == addr
    ensures Trim(addr) == addr && !("mailto:" <= addr)
    ensures addr != "" ==> !IsSpace(addr[0]) && !IsSpace(addr[|addr| - 1])
  {
    TrimShortens(addr);
    NormalizedShortens(addr);
  }

  lemma TrimShortens(s: string)
    ensures |Trim(s)| <= |s|
    ensures |Trim(s)| == |s| ==> Trim(s) == s
    ensures |Trim(s)| == |s| && s != "" ==> !IsSpace(s[0]) && !IsSpace(s[|s| - 1])
  {
  }

  lemma AddsAddress(h: Fields, addr: string)
    requires h.addr == None
    ensures AddAttribute(h, "addr", Some(addr))
            == if |addr| < 3 || '@' !in addr || '.' !in addr then None else Some(h.(addr := Some(Normalized(addr))))
  {
  }

  /** The address is read back up to the first semicolon, without what the scanner skips in front of it. */
  lemma AddressParsed(addr: string, rest: string)
    requires Readable(addr)
    ensures ParseRest(EMPTY, "addr=" + addr + ";" + rest) == ParseRest(EMPTY.(addr := Some(Normalized(addr))), rest)
  {
    hide Trim, NextAttribute, AddAttribute, Normalized;
    var name := "addr";
    assert "addr=" + addr + ";" + rest == "" + (name + "=" + addr + ";" + rest);
    Regroup("", name, addr, rest);
    NextOfValue("", name, "", addr, rest);
    AddsAddress(EMPTY, addr);
  }

  /** Folding splits the printed address only at its own spaces and tabs. */
  lemma FoldedRendered(h: Fields, choices: seq<bool>) returns (inAddress: seq<bool>, behind: seq<bool>)
    requires h.addr.Some? && h.key != [] && |choices| == |Rendered(h).value|
    ensures |inAddress| == |h.addr.value| && |behind| == |AfterAddress(h)|
    ensures Folded(Rendered(h).value, choices)
            == "addr=" + Folded(h.addr.value, inAddress) + ";" + Folded(AfterAddress(h), behind)
    ensures false !in choices ==> false !in inAddress
  {
    hide Folded, AfterAddress, Rendered;
    RenderedParts(h);
    var start, addr, rest := "addr=", h.addr.value, AfterAddress(h);
    assert start + addr + ";" + rest == start + (addr + (";" + rest));
    var c1, c2 := SplitFold(start, addr + (";" + rest), choices);
    var c3, c4 := SplitFold(addr, ";" + rest, c2);
    var c5, c6 := SplitFold(";", rest, c4);
    FoldedPlain(start, c1);
    FoldedPlain(";", c5);
    inAddress, behind := c3, c6;
  }

  predicate Readable(addr: string) {
    && |addr| >= 3 && '@' in addr && '.' in addr && addr[0] !in WS + "=" && ';' !in addr
    && Trim(addr) == addr
  }

  lemma SoundIsReadable(addr: string)
    requires AddressSound(addr)
    ensures Readable(addr)
  {
    hide Trim, Normalized;
    NormalizedIsTrimmed(addr);
  }

  lemma SoundIsNormalized(addr: string)
    requires AddressSound(addr)
    ensures Normalized(addr) == addr
  {
  }

  lemma KeptIsNotFolded(addr: string, choices: seq<bool>)
    requires AddressKept(addr) && |choices| == |addr|
    ensures Folded(addr, choices) == addr
  {
    FoldedPlain(addr, choices);
  }

  /** Parsing undoes printing, also after folding. */
  lemma ParseUndoesPrint(h: Fields, choices: seq<bool>)
    requires h.addr.Some? && h.key != [] && |choices| == |Rendered(h).value| && Kept(h)
    ensures Parsed(Folded(Rendered(h).value, choices)) == Some(h)
  {
    hide Folded, AfterAddress, ParseRest, Normalized, Rendered, AddressSound, Readable;
    var addr := h.addr.value;
    SoundIsNormalized(addr);
    SoundIsReadable(addr);
    var inAddress, behind := FoldedRendered(h, choices);
    KeptIsNotFolded(addr, inAddress);
    AddressParsed(addr, Folded(AfterAddress(h), behind));
    AfterAddressParsed(h, behind);
  }

  lemma {:induction false} ParseKeeps(h: Fields, s: string)
    requires ParseRest(h, s).Some?
    ensures h.addr.Some? ==> ParseRest(h, s).value.addr == h.addr
    ensures h.preferEncrypt != Reset ==> ParseRest(h, s).value.preferEncrypt != Reset
    decreases |s|
  {
    hide NextAttribute;
    var (name, value, rest) := NextAttribute(s);
    if name != "" {
      ParseKeeps(AddAttribute(h, name, value).value, rest);
    }
  }

  /** The scanner never reads more than the printed address, and all of it only if nothing in it is a separator. */
  lemma ScannedAddress(addr: string, rest: string) returns (value: string)
    ensures ValueAndRest("=" + (addr + (";" + rest))).0 == Some(Trim(value))
    ensures |value| <= |addr|
    ensures |value| == |addr| ==> value == addr && ';' !in addr && (addr != "" ==> addr[0] != '=')
  {
    hide Trim, Span, CSpan, ValueAndRest;
    var text := addr + (";" + rest);
    ValueBehindEqual(text);
    var k := Span(text, WS + "=");
    SpanUpTo(text, WS + "=", |addr|);
    var w := text[k..];
    CSpanUpTo(w, ";", |addr| - k);
    var m := CSpan(w, ";");
    value := w[..m];
    if m == |addr| {
      assert value == addr;
      if addr != "" {
        assert text[0] == addr[0];
        SpanIsZero(text, WS + "=");
      }
    }
  }

  lemma SpanIsZero(s: string, accept: string)
    requires s != "" && Span(s, accept) == 0
    ensures s[0] !in accept
  {
  }

  lemma SpanUpTo(s: string, accept: string, i: nat)
    requires i < |s| && s[i] !in accept
    ensures Span(s, accept) <= i
  {
    SpanStops(s, accept);
  }

  lemma CSpanUpTo(s: string, reject: string, i: nat)
    requires i < |s| && s[i] in reject
    ensures CSpan(s, reject) <= i
    ensures forall c | c in s[..CSpan(s, reject)] :: c !in reject
  {
    CSpanStops(s, reject);
  }

  lemma ReadAddress(addr: string, rest: string) returns (value: string)
    requires var r := ParseRest(EMPTY, "addr=" + addr + ";" + rest);
             r.Some? && r.value.addr == Some(addr)
    ensures |value| <= |addr| && Normalized(Trim(value)) == addr
    ensures |Trim(value)| >= 3 && '@' in Trim(value) && '.' in Trim(value)
    ensures |value| == |addr| ==> value == addr && ';' !in addr && (addr != "" ==> addr[0] != '=')
  {
    hide Trim, Normalized, ValueAndRest, AddAttribute, NextAttribute;
    var name := "addr";
    assert "addr=" + addr + ";" + rest == "" + (name + "=" + addr + ";" + rest);
    Regroup("", name, addr, rest);
    var text := addr + (";" + rest);
    assert "" + text == text;
    NextOfNamed("", name, text);
    value := ScannedAddress(addr, rest);
    AddsAddress(EMPTY, Trim(value));
    ParseKeeps(EMPTY.(addr := Some(Normalized(Trim(value)))), ValueAndRest("=" + text).1);
  }

  /** An address that comes back unfolded passes every check but the one about whitespace. */
  lemma SoundIfParsedBack(h: Fields)
    requires h.addr.Some? && h.key != [] && Parsed(Rendered(h).value) == Some(h)
    ensures h.preferEncrypt != Reset && AddressSound(h.addr.value)
  {
    hide Trim, Normalized, AfterAddress, Rendered, ParseRest;
    var addr, rest := h.addr.value, AfterAddress(h);
    RenderedParts(h);
    ParseKeeps(EMPTY, Rendered(h).value);
    var value := ReadAddress(addr, rest);
    TrimShortens(value);
    NormalizedShortens(Trim(value));
    TrimShortens(Trim(value));
  }

  lemma FoldedIsSound(addr: string, choices: seq<bool>)
    requires AddressSound(addr) && |choices| == |addr|
    ensures AddressSound(Folded(addr, choices))
  {
    hide Trim, Folded;
    NormalizedIsTrimmed(addr);
    FoldedChars(addr, choices);
    FoldedEnds(addr, choices);
    var f := Folded(addr, choices);
    TrimOfTrimmed(f);
    if "mailto:" <= f {
      FoldedPrefix("mailto:", addr, choices);
    }
  }

  /** A space or a tab in the address can be folded, and then the address does not come back. */
  lemma KeptIfFoldedBack(h: Fields, choices: seq<bool>)
    requires h.addr.Some? && h.key != [] && |choices| == |Rendered(h).value| && false !in choices
    requires Parsed(Folded(Rendered(h).value, choices)) == Some(h) && AddressSound(h.addr.value)
    ensures AddressKept(h.addr.value)
  {
    hide Folded, AfterAddress, ParseRest, Normalized, Rendered, AddressSound, Readable;
    var addr := h.addr.value;
    var inAddress, behind := FoldedRendered(h, choices);
    var f, rest := Folded(addr, inAddress), Folded(AfterAddress(h), behind);
    FoldedIsSound(addr, inAddress);
    SoundIsReadable(f);
    AddressParsed(f, rest);
    ParseKeeps(EMPTY.(addr := Some(Normalized(f))), rest);
    SoundIsNormalized(f);
    SoundIsNormalized(addr);
    FoldedChars(addr, inAddress);
    assert forall i | 0 <= i < |addr| :: inAddress[i] in inAddress;
  }

  /** A header survives printing, every folding and parsing exactly if its preference is not "reset" and its address
      is one of those that are kept. */
  lemma RoundTripIff(h: Fields)
    requires h.addr.Some? && h.key != []
    ensures (forall choices: seq<bool> | |choices| == |Rendered(h).value| ::
               Parsed(Folded(Rendered(h).value, choices)) == Some(h))
            <==> && h.preferEncrypt != Reset
                 && var addr := h.addr.value;
                    && |addr| >= 3 && '@' in addr && '.' in addr && addr[0] != '='
                    && ';' !in addr && ' ' !in addr && '\t' !in addr
                    && !WhiteSpace([addr[0]]) && !WhiteSpace([addr[|addr| - 1]]) && !("mailto:" <= addr)
  {
    if |h.addr.value| >= 3 {
      NormalizedIff(h.addr.value);
    }
    SurvivesIff(h);
  }

  lemma SurvivesIff(h: Fields)
    requires h.addr.Some? && h.key != []
    ensures (forall choices: seq<bool> | |choices| == |Rendered(h).value| ::
               Parsed(Folded(Rendered(h).value, choices)) == Some(h))
            <==> Kept(h)
  {
    hide Folded, Rendered, AddressKept, AddressSound, ParseRest;
    RenderedParts(h);
    var text := Rendered(h).value;
    if Kept(h) {
      forall choices: seq<bool> | |choices| == |text| ensures Parsed(Folded(text, choices)) == Some(h) {
        ParseUndoesPrint(h, choices);
      }
    } else if forall choices: seq<bool> | |choices| == |text| :: Parsed(Folded(text, choices)) == Some(h) {
      var none, all := seq(|text|, _ => false), seq(|text|, _ => true);
      assert Parsed(Folded(text, none)) == Parsed(Folded(text, all)) == Some(h);
      FoldedPlain(text, none);
      SoundIfParsedBack(h);
      KeptIfFoldedBack(h, all);
      assert false;
    }
  }
}
