/** The header of a received mail: the fields of the outer header and of the protected header, merged
    into one table by name. */
module HeaderOverlay {
  import opened CStrings
  import opened HashTable
  import opened Options
  import opened StrHash

  datatype FieldType =
    | ReturnPath | OrigDate | From | Sender | ReplyTo | To | Cc | Bcc | MessageId | InReplyTo | References
    | Subject
    | OptionalField(name: Option<string>)
    | OtherType

  datatype Field = Field(fldType: FieldType, value: string)

  /** The name a field is filed under; fields of other types, and optional fields without one, have none. */
  function KeyOf(field: Field): Option<string> {
    match field.fldType
    case ReturnPath => Some("Return-Path")
    case OrigDate => Some("Date")
    case From => Some("From")
    case Sender => Some("Sender")
    case ReplyTo => Some("Reply-To")
    case To => Some("To")
    case Cc => Some("Cc")
    case Bcc => Some("Bcc")
    case MessageId => Some("Message-ID")
    case InReplyTo => Some("In-Reply-To")
    case References => Some("References")
    case Subject => Some("Subject")
    case OptionalField(name) => name
    case OtherType => None
  }

  predicate IsChatName(key: string) {
    |key| > 5 && EqualNoCase(key[..5], "Chat-")
  }

  /** The fields that may replace an earlier field of the same name. */
  predicate Overwrites(field: Field) {
    KeyOf(field).Some? && (!field.fldType.OptionalField? || IsChatName(KeyOf(field).value))
  }

  /** Header field names are C strings. */
  predicate WellNamed(fields: seq<Field>) {
    forall f :: f in fields && KeyOf(f).Some? ==> Hashable(KeyOf(f).value)
  }

  // ----- The table as a map ----------------------------------------------------------------------

  function Filed(m: map<string, Field>, field: Field): map<string, Field> {
    match KeyOf(field)
    case None => m
    case Some(key) => if Fold(key) in m && !Overwrites(field) then m else m[Fold(key) := field]
  }

  function FiledAll(m: map<string, Field>, fields: seq<Field>): map<string, Field> {
    if fields == [] then m else Filed(FiledAll(m, fields[..|fields| - 1]), fields[|fields| - 1])
  }

  /** One header merged into the table: a known name is only overwritten by a standard or `Chat-` field. */
  method HashHeader(out: Table<Field>, fields: Option<seq<Field>>)
    requires out.Valid() && (fields.Some? ==> WellNamed(fields.value))
    modifies out.Repr
    ensures out.Valid() && fresh(out.Repr - old(out.Repr))
    ensures out.M == FiledAll(old(out.M), if fields.Some? then fields.value else [])
  {
    hide Threads, KeyOf, IsChatName, Fold, Hashable;
    if fields == None {
      return;
    }
    for i := 0 to |fields.value|
      invariant out.Valid() && fresh(out.Repr - old(out.Repr))
      invariant out.M == FiledAll(old(out.M), fields.value[..i])
    {
      var field := fields.value[i];
      assert field in fields.value;
      assert fields.value[..i + 1][..i] == fields.value[..i];
      var key := KeyOf(field);
      if key.Some? {
        var known := out.Find(key.value);
        if known.Some? {
          if !field.fldType.OptionalField? || IsChatName(key.value) {
            var _ := out.Insert(key.value, Some(field));
          }
        } else {
          var _ := out.Insert(key.value, Some(field));
        }
      }
    }
    assert fields.value[..|fields.value|] == fields.value;
  }

  /** The header table of a parsed mail: emptied, then filled from the outer and the protected header. */
  method SetUpHeader(header: Table<Field>, root: Option<seq<Field>>, prot: Option<seq<Field>>)
    requires header.Valid()
    requires (root.Some? ==> WellNamed(root.value)) && (prot.Some? ==> WellNamed(prot.value))
    modifies header.Repr
    ensures header.Valid() && fresh(header.Repr - old(header.Repr))
    ensures header.M == FiledAll(map[], (if root.Some? then root.value else []) + (if prot.Some? then prot.value else []))
  {
    hide Threads;
    header.Clear();
    HashHeader(header, root);
    HashHeader(header, prot);
    FiledAllConcat(map[], if root.Some? then root.value else [], if prot.Some? then prot.value else []);
  }

  method LookupField(header: Table<Field>, name: string) returns (field: Option<Field>)
    requires header.Valid() && Hashable(name)
    ensures field == Lookup(header.M, name)
  {
    field := header.Find(name);
  }

  lemma {:induction false} FiledAllConcat(m: map<string, Field>, a: seq<Field>, b: seq<Field>)
    ensures FiledAll(m, a + b) == FiledAll(FiledAll(m, a), b)
    decreases |b|
  {
    if b == [] {
      assert a + b == a;
    } else {
      var n := |b| - 1;
      assert (a + b)[..|a + b| - 1] == a + b[..n];
      FiledAllConcat(m, a, b[..n]);
    }
  }

  // ----- Which field wins ------------------------------------------------------------------------

  predicate Named(field: Field, k: string) {
    KeyOf(field).Some? && Fold(KeyOf(field).value) == k
  }

  /** Field `i` is the last of its name that may overwrite, or, if there is none, the first of its name. */
  ghost predicate Wins(fields: seq<Field>, k: string, i: nat) {
    && i < |fields| && Named(fields[i], k)
    && if Overwrites(fields[i])
       then forall j :: i < j < |fields| && Named(fields[j], k) ==> !Overwrites(fields[j])
       else && (forall j :: 0 <= j < |fields| && Named(fields[j], k) ==> !Overwrites(fields[j]))
            && (forall j :: 0 <= j < i ==> !Named(fields[j], k))
  }

  lemma FiledAllNext(fields: seq<Field>, k: string)
    requires fields != []
    ensures var n, m := |fields| - 1, FiledAll(map[], fields[..|fields| - 1]);
            if Named(fields[n], k) && (k !in m || Overwrites(fields[n]))
            then k in FiledAll(map[], fields) && FiledAll(map[], fields)[k] == fields[n]
            else (k in FiledAll(map[], fields) <==> k in m)
                 && (k in m ==> FiledAll(map[], fields)[k] == m[k])
  {
    hide Fold, Overwrites, KeyOf;
  }

  /** A field that is filed wins over all fields before it. */
  lemma FiledWins(fields: seq<Field>, k: string)
    requires fields != [] && Named(fields[|fields| - 1], k)
    requires Overwrites(fields[|fields| - 1]) || forall j :: 0 <= j < |fields| - 1 ==> !Named(fields[j], k)
    ensures Wins(fields, k, |fields| - 1)
  {
    hide Named, Overwrites;
  }

  /** A winner keeps winning against a field that is not filed. */
  lemma StillWins(fields: seq<Field>, k: string, i: nat)
    requires fields != [] && Wins(fields[..|fields| - 1], k, i)
    requires !Named(fields[|fields| - 1], k) || !Overwrites(fields[|fields| - 1])
    ensures Wins(fields, k, i)
  {
    hide Named, Overwrites;
    assert forall j :: 0 <= j < |fields| - 1 ==> fields[j] == fields[..|fields| - 1][j];
  }

  /** For all field lists: a name is found exactly if a field has it, and what is found is the winner. */
  lemma {:induction false} LookupIsWinner(fields: seq<Field>, k: string)
    ensures k in FiledAll(map[], fields) <==> exists i :: 0 <= i < |fields| && Named(fields[i], k)
    ensures k in FiledAll(map[], fields) ==>
              exists i: nat :: Wins(fields, k, i) && FiledAll(map[], fields)[k] == fields[i]
    decreases |fields|
  {
    if fields != [] {
      hide FiledAll, Named, Overwrites, Wins;
      var n := |fields| - 1;
      var before := fields[..n];
      LookupIsWinner(before, k);
      FiledAllNext(fields, k);
      assert forall j :: 0 <= j < n ==> fields[j] == before[j];
      if Named(fields[n], k) && (k !in FiledAll(map[], before) || Overwrites(fields[n])) {
        FiledWins(fields, k);
      } else if k in FiledAll(map[], before) {
        var i: nat :| Wins(before, k, i) && FiledAll(map[], before)[k] == before[i];
        WinnerIsThere(before, k, i);
        StillWins(fields, k, i);
      }
    }
  }

  lemma WinnerIsThere(fields: seq<Field>, k: string, i: nat)
    requires Wins(fields, k, i)
    ensures i < |fields| && Named(fields[i], k)
  {
  }

  /** There is at most one winner, so the lookup above is determined. */
  lemma WinnerIsUnique(fields: seq<Field>, k: string, i: nat, j: nat)
    requires Wins(fields, k, i) && Wins(fields, k, j)
    ensures i == j
  {
  }

  // ----- What a lookup finds ---------------------------------------------------------------------

  /** The names of the standard fields. */
  predicate IsStandard(t: FieldType, name: string) {
    || (t == ReturnPath && name == "Return-Path") || (t == OrigDate && name == "Date")
    || (t == From && name == "From") || (t == Sender && name == "Sender")
    || (t == ReplyTo && name == "Reply-To") || (t == To && name == "To")
    || (t == Cc && name == "Cc") || (t == Bcc && name == "Bcc")
    || (t == MessageId && name == "Message-ID") || (t == InReplyTo && name == "In-Reply-To")
    || (t == References && name == "References") || (t == Subject && name == "Subject")
  }

  /** An optional field with the name in any case. */
  predicate Bears(field: Field, name: string) {
    field.fldType.OptionalField? && field.fldType.name.Some? && SameText(field.fldType.name.value, name)
  }

  lemma StandardKey(field: Field, name: string)
    requires IsStandard(field.fldType, name)
    ensures KeyOf(field) == Some(name) && Overwrites(field)
  {
  }

  lemma StandardNamesDiffer(t: FieldType, name: string, u: FieldType, other: string)
    requires IsStandard(t, name) && IsStandard(u, other) && SameText(name, other)
    ensures t == u
  {
    assert |name| == |other|;
    var a, b := name[0], other[0];
    assert a == b || a as int == b as int + 32 || b as int == a as int + 32;
  }

  /** Looking up the name of a standard field, in any case, finds the last field of its type. */
  lemma LookupOfStandard(fields: seq<Field>, t: FieldType, name: string, spelling: string, i: nat)
    requires IsStandard(t, name) && SameText(name, spelling)
    requires i < |fields| && fields[i].fldType == t && forall j | i < j < |fields| :: fields[j].fldType != t
    ensures Lookup(FiledAll(map[], fields), spelling) == Some(fields[i])
  {
    var k := Fold(name);
    EqualNoCaseIff(name, spelling);
    StandardKey(fields[i], name);
    forall j | i < j < |fields| && Named(fields[j], k) ensures !Overwrites(fields[j]) {
      OverwritesStandard(fields[j], t, name);
    }
    hide FiledAll, KeyOf, Fold, Overwrites, SameText, IsStandard;
    assert Named(fields[i], k);
    assert Wins(fields, k, i);
    FoundIsWinner(fields, k, i);
  }

  /** A field that is filed under a standard name and may overwrite is of its type. */
  lemma OverwritesStandard(field: Field, t: FieldType, name: string)
    requires IsStandard(t, name) && Named(field, Fold(name))
    ensures Overwrites(field) ==> field.fldType == t
  {
    var key := KeyOf(field).value;
    EqualNoCaseIff(key, name);
    if field.fldType.OptionalField? {
      ChatIsNotStandard(key, t, name);
    } else {
      assert IsStandard(field.fldType, key);
      StandardNamesDiffer(t, name, field.fldType, key);
    }
  }

  lemma ChatIsNotStandard(key: string, t: FieldType, name: string)
    requires IsStandard(t, name) && SameText(key, name)
    ensures !IsChatName(key)
  {
    if |key| > 5 {
      EqualNoCaseIff(key[..5], "Chat-");
      assert key[..5][0] == key[0] && key[..5][1] == key[1];
      assert "Chat-"[0] == 'C' && "Chat-"[1] == 'h';
    }
  }

  lemma FoundIsWinner(fields: seq<Field>, k: string, i: nat)
    requires Wins(fields, k, i)
    ensures k in FiledAll(map[], fields) && FiledAll(map[], fields)[k] == fields[i]
  {
    LookupIsWinner(fields, k);
    var j: nat :| Wins(fields, k, j) && FiledAll(map[], fields)[k] == fields[j];
    WinnerIsUnique(fields, k, i, j);
  }

  /** Looking up any other name finds the last field that bears it if the name begins with `Chat-` and goes on, and else
      the first one. */
  lemma LookupOfOptional(fields: seq<Field>, name: string, i: nat)
    requires forall t, other | IsStandard(t, other) :: !SameText(other, name)
    requires i < |fields| && Bears(fields[i], name)
    requires if |name| > 5 && SameText(name[..5], "Chat-")
             then forall j | i < j < |fields| :: !Bears(fields[j], name)
             else forall j | 0 <= j < i :: !Bears(fields[j], name)
    ensures Lookup(FiledAll(map[], fields), name) == Some(fields[i])
  {
    var k := Fold(name);
    forall j | 0 <= j < |fields| ensures Named(fields[j], k) <==> Bears(fields[j], name) {
      NamedOtherwise(fields[j], name);
    }
    forall j | 0 <= j < |fields| && Bears(fields[j], name)
      ensures Overwrites(fields[j]) <==> |name| > 5 && SameText(name[..5], "Chat-")
    {
      OverwritesOtherwise(fields[j], name);
    }
    hide FiledAll, Overwrites, Bears, Named, Fold, SameText, IsStandard;
    assert Wins(fields, k, i);
    FoundIsWinner(fields, k, i);
  }

  lemma NamedOtherwise(field: Field, name: string)
    requires forall t, other | IsStandard(t, other) :: !SameText(other, name)
    ensures Named(field, Fold(name)) <==> Bears(field, name)
  {
    if KeyOf(field).Some? {
      EqualNoCaseIff(KeyOf(field).value, name);
      if !field.fldType.OptionalField? {
        assert IsStandard(field.fldType, KeyOf(field).value);
      }
    }
  }

  lemma OverwritesOtherwise(field: Field, name: string)
    requires Bears(field, name)
    ensures Overwrites(field) <==> |name| > 5 && SameText(name[..5], "Chat-")
  {
    var key := field.fldType.name.value;
    if |key| > 5 {
      EqualNoCaseIff(key[..5], "Chat-");
      EqualNoCaseIff(name[..5], "Chat-");
      EqualNoCaseIff(key[..5], name[..5]);
      assert forall i | 0 <= i < 5 :: key[..5][i] == key[i] && name[..5][i] == name[i];
    }
  }

  /** A name that no field has is not found. */
  lemma LookupOfNone(fields: seq<Field>, name: string)
    requires forall f | f in fields :: !Bears(f, name)
    requires forall f, other | f in fields && IsStandard(f.fldType, other) :: !SameText(other, name)
    ensures Lookup(FiledAll(map[], fields), name) == None
  {
    LookupIsWinner(fields, Fold(name));
    forall i | 0 <= i < |fields| ensures !Named(fields[i], Fold(name)) {
      assert fields[i] in fields;
      if KeyOf(fields[i]).Some? {
        EqualNoCaseIff(KeyOf(fields[i]).value, name);
        if !fields[i].fldType.OptionalField? {
          assert IsStandard(fields[i].fldType, KeyOf(fields[i]).value);
        }
      }
    }
  }
}
