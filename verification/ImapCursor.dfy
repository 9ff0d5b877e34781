/** Fetching from one IMAP folder: the stored cursor, the fetch functions, and why the fetch loop ends. */
module ImapCursor {
  import opened CStrings
  import opened Decimal
  import opened Options

  type uint32 = x: nat | x < 0x1_0000_0000

  // ----- The stored cursor -----------------------------------------------------------------------

  datatype Cursor = Cursor(validity: uint32, lastSeen: uint32)

  const NO_CURSOR := Cursor(0, 0)

  function Key(folder: string): string {
    "imap.mailbox." + folder
  }

  function UpTo(s: string, c: char): (r: string)
    ensures r <= s && c !in r && (|r| < |s| ==> s[|r|] == c)
  {
    if s == "" || s[0] == c then "" else [s[0]] + UpTo(s[1..], c)
  }

  /** `<uidvalidity>:<lastseenuid>`, with everything from a second colon on ignored. */
  function ParsedCursor(entry: string): Cursor {
    var val1 := UpTo(entry, ':');
    if |val1| == |entry| then NO_CURSOR
    else Cursor(AsUint32(Atol(val1)), AsUint32(Atol(UpTo(entry[|val1| + 1..], ':'))))
  }

  function StoredCursor(config: map<string, string>, folder: string): Cursor {
    if Key(folder) in config then ParsedCursor(config[Key(folder)]) else NO_CURSOR
  }

  /** Every folder has an entry of its own. */
  lemma KeyIsInjective(folder: string, other: string)
    ensures Key(folder) == Key(other) <==> folder == other
  {
    assert Key(folder)[|Key("")|..] == folder && Key(other)[|Key("")|..] == other;
  }

  function Entry(c: Cursor): string {
    Print(c.validity) + ":" + Print(c.lastSeen)
  }

  lemma UpToIn(s: string, rest: string, c: char)
    requires c !in s
    ensures UpTo(s + [c] + rest, c) == s
    ensures UpTo(s, c) == s
  {
    var t := s + [c] + rest;
    var r := UpTo(t, c);
    assert |r| <= |s| by {
      assert t[|s|] == c;
    }
    assert forall i | 0 <= i < |s| :: t[i] == s[i];
  }

  lemma PrintHasNoColon(n: nat)
    ensures ':' !in Print(n)
  {
  }

  lemma ReadBack(n: uint32)
    ensures AsUint32(Atol(Print(n))) == n
  {
    hide Print, Atol;
    AtolOfPrint(n, "");
    assert Print(n) + "" == Print(n);
  }

  /** The cursor read is the cursor written, also with anything more behind a second colon. */
  lemma CursorRoundTrip(c: Cursor, more: string)
    ensures ParsedCursor(Entry(c)) == c
    ensures ParsedCursor(Entry(c) + ":" + more) == c
  {
    hide Print, Atol, AsUint32, UpTo;
    var a, b := Print(c.validity), Print(c.lastSeen);
    PrintHasNoColon(c.validity);
    PrintHasNoColon(c.lastSeen);
    assert Entry(c) == a + [':'] + b && Entry(c) + ":" + more == a + [':'] + (b + [':'] + more);
    UpToIn(a, b, ':');
    UpToIn(a, b + [':'] + more, ':');
    UpToIn(b, more, ':');
    assert Entry(c)[|a| + 1..] == b && (Entry(c) + ":" + more)[|a| + 1..] == b + [':'] + more;
    ReadBack(c.validity);
    ReadBack(c.lastSeen);
  }

  /** An entry without a colon is no cursor. */
  lemma NoColonIsNoCursor(entry: string)
    requires ':' !in entry
    ensures ParsedCursor(entry) == Cursor(0, 0)
  {
    hide Atol;
  }

  // ----- What a server answers -------------------------------------------------------------------

  datatype Code = NoError | StreamLost | OtherError

  datatype Content = NoResult | NoSuchMessage | Message(hasBody: bool, deleted: bool)

  datatype Fetched = Fetched(code: Code, content: Content)

  /** The answer to a command: the code of the library and the result, which may be missing although the code is
      good. */
  datatype Reply<+T> = Reply(code: Code, result: Option<T>) {
    function Value(): Option<T> {
      if code == NoError then result else None
    }
  }

  /** The answers to the commands of one call: SELECT, with the UIDVALIDITY; the number of messages, if the server told
      it; FETCH of the last message; UID FETCH of the list, and UID FETCH of each listed message. */
  datatype Answers = Answers(connected: bool, select: Reply<uint32>, count: Option<uint32>, last: Reply<uint32>,
                             listed: Reply<seq<(uint32, Fetched)>>)

  // ----- One call --------------------------------------------------------------------------------

  /** The stored cursor is of another UIDVALIDITY, and the folder is not known to be empty. */
  predicate AsksLast(stored: Cursor, a: Answers) {
    a.connected && a.select.Value().Some? && a.select.Value().value != stored.validity
    && a.select.Value().value != 0 && a.count != Some(0)
  }

  /** Where a call starts to read, and with which cursor stored; nothing if it ends before. */
  function Started(stored: Cursor, a: Answers): Option<Cursor> {
    if !a.connected || a.select.Value() == None then None
    else if stored.validity == a.select.Value().value then Some(stored)
    else if !AsksLast(stored, a) || a.last.Value() == None || a.last.Value() == Some(0) then None
    else
      var last := a.last.Value().value;
      Some(Cursor(a.select.Value().value, if stored.validity > 0 && last > 1 then last - 1 else last))
  }

  /** Whether the connection is to be renewed when the reading of messages begins, or the call ends before. */
  predicate BrokenBefore(reconnect: bool, stored: Cursor, a: Answers) {
    || reconnect
    || (a.connected && a.select.code == StreamLost)
    || (AsksLast(stored, a) && a.last.code == StreamLost)
    || (Started(stored, a).Some? && a.listed.code == StreamLost)
  }

  datatype Reading = Reading(reconnect: bool, received: seq<uint32>, readCnt: nat, errors: nat, newLast: uint32)

  /** The verdict on a message is final unless it could not be fetched because the connection broke. */
  predicate IsFinal(reconnect: bool, f: Fetched) {
    (f.code == NoError && f.content != NoResult) || !(reconnect || f.code == StreamLost)
  }

  function ReadOne(r: Reading, uid: uint32, f: Fetched, lastSeen: uint32): Reading {
    if uid == 0 || uid == lastSeen then r
    else Reading(r.reconnect || f.code == StreamLost,
                 if f == Fetched(NoError, Message(true, false)) then r.received + [uid] else r.received,
                 r.readCnt + 1,
                 if IsFinal(r.reconnect, f) then r.errors else r.errors + 1,
                 if IsFinal(r.reconnect, f) && uid > r.newLast then uid else r.newLast)
  }

  function ReadAll(r: Reading, listed: seq<(uint32, Fetched)>, lastSeen: uint32): Reading
    decreases |listed|
  {
    if listed == [] then r
    else ReadAll(ReadOne(r, listed[0].0, listed[0].1, lastSeen), listed[1..], lastSeen)
  }

  /** The cursor stored by a call, and what it read. */
  function Called(reconnect: bool, stored: Cursor, a: Answers): (Cursor, Reading) {
    var nothing := Reading(BrokenBefore(reconnect, stored, a), [], 0, 0, 0);
    match Started(stored, a)
    case None => (stored, nothing)
    case Some(start) =>
      if a.listed.Value() == None then (start, nothing)
      else
        var r := ReadAll(nothing, a.listed.Value().value, start.lastSeen);
        (if r.errors == 0 && r.newLast > 0 then start.(lastSeen := r.newLast) else start, r)
  }

  predicate IsRead(uid: uint32, lastSeen: uint32) {
    uid > 0 && uid != lastSeen
  }

  /** A message whose fetch breaks the connection counts as an error. */
  lemma {:induction false} BrokenFetchIsError(r: Reading, listed: seq<(uint32, Fetched)>, lastSeen: uint32, i: nat)
    requires i < |listed| && IsRead(listed[i].0, lastSeen) && listed[i].1.code == StreamLost
    ensures ReadAll(r, listed, lastSeen).errors > 0
    decreases |listed|
  {
    var first := ReadOne(r, listed[0].0, listed[0].1, lastSeen);
    if i > 0 {
      BrokenFetchIsError(first, listed[1..], lastSeen, i - 1);
    } else {
      ErrorsStay(first, listed[1..], lastSeen);
    }
  }

  lemma {:induction false} ErrorsStay(r: Reading, listed: seq<(uint32, Fetched)>, lastSeen: uint32)
    ensures ReadAll(r, listed, lastSeen).errors >= r.errors
    decreases |listed|
  {
    if listed != [] {
      ErrorsStay(ReadOne(r, listed[0].0, listed[0].1, lastSeen), listed[1..], lastSeen);
    }
  }

  /** If the connection broke on any message of a call, the call leaves the cursor where it started, so the message
      is fetched again. */
  lemma BrokenFetchKeepsCursor(reconnect: bool, stored: Cursor, a: Answers, i: nat)
    requires Started(stored, a).Some? && a.listed.Value().Some? && i < |a.listed.Value().value|
    requires var (uid, f) := a.listed.Value().value[i];
             IsRead(uid, Started(stored, a).value.lastSeen) && f.code == StreamLost
    ensures Called(reconnect, stored, a).0 == Started(stored, a).value
  {
    var nothing := Reading(BrokenBefore(reconnect, stored, a), [], 0, 0, 0);
    BrokenFetchIsError(nothing, a.listed.Value().value, Started(stored, a).value.lastSeen, i);
  }

  /** When a call gets as far as reading messages: the folder is selected and has the stored UIDVALIDITY, or one that is
      not 0 and a last message, unless the server says that the folder is empty. */
  lemma StartsIff(stored: Cursor, a: Answers)
    ensures Started(stored, a).Some?
            <==> a.connected && a.select.code == NoError && a.select.result.Some?
                 && (a.select.result.value == stored.validity
                     || (a.select.result.value != 0 && a.count != Some(0)
                         && a.last.code == NoError && a.last.result.Some? && a.last.result.value != 0))
    ensures Started(stored, a).Some? ==>
              Started(stored, a).value
              == (if a.select.result.value == stored.validity then stored
                  else Cursor(a.select.result.value,
                              a.last.result.value - (if stored.validity > 0 && a.last.result.value > 1 then 1 else 0)))
    ensures Started(stored, a) == None ==> Called(false, stored, a).0 == stored && Called(false, stored, a).1.received == []
  {
  }

  lemma {:induction false} BrokenIff(r: Reading, listed: seq<(uint32, Fetched)>, lastSeen: uint32)
    ensures ReadAll(r, listed, lastSeen).reconnect
            <==> r.reconnect
                 || exists i | 0 <= i < |listed| :: IsRead(listed[i].0, lastSeen) && listed[i].1.code == StreamLost
    decreases |listed|
  {
    if listed != [] {
      BrokenIff(ReadOne(r, listed[0].0, listed[0].1, lastSeen), listed[1..], lastSeen);
      assert forall i | 0 < i < |listed| :: listed[i] == listed[1..][i - 1];
      assert forall i | 0 <= i < |listed| - 1 :: listed[1..][i] == listed[i + 1];
    }
  }

  /** The connection is to be renewed exactly if it was, or any command of the call that was sent lost the stream: SELECT,
      FETCH of the last message under a new UIDVALIDITY, the listing, or the fetch of a message. */
  lemma ReconnectIff(reconnect: bool, stored: Cursor, a: Answers)
    ensures Called(reconnect, stored, a).1.reconnect
            <==> || reconnect
                 || (a.connected && a.select.code == StreamLost)
                 || (a.connected && a.select.code == NoError && a.select.result.Some? && a.count != Some(0)
                     && a.select.result.value != stored.validity && a.select.result.value != 0 && a.last.code == StreamLost)
                 || (Started(stored, a).Some?
                     && (a.listed.code == StreamLost
                         || (a.listed.code == NoError && a.listed.result.Some?
                             && exists i | 0 <= i < |a.listed.result.value| ::
                                  IsRead(a.listed.result.value[i].0, Started(stored, a).value.lastSeen)
                                  && a.listed.result.value[i].1.code == StreamLost)))
  {
    if Started(stored, a).Some? && a.listed.Value().Some? {
      BrokenIff(Reading(BrokenBefore(reconnect, stored, a), [], 0, 0, 0), a.listed.Value().value,
                Started(stored, a).value.lastSeen);
    }
  }

  /** The fetch of listed message `i` brought nothing, and the connection was broken by then. */
  predicate IsLost(reconnect: bool, listed: seq<(uint32, Fetched)>, lastSeen: uint32, i: nat)
    requires i < |listed|
  {
    && IsRead(listed[i].0, lastSeen)
    && (listed[i].1.code != NoError || listed[i].1.content == NoResult)
    && (reconnect || exists j | 0 <= j <= i :: IsRead(listed[j].0, lastSeen) && listed[j].1.code == StreamLost)
  }

  lemma IsLostBehindFirst(reconnect: bool, listed: seq<(uint32, Fetched)>, lastSeen: uint32, i: nat)
    requires 0 < i < |listed|
    ensures var broken := reconnect || (IsRead(listed[0].0, lastSeen) && listed[0].1.code == StreamLost);
            IsLost(reconnect, listed, lastSeen, i) <==> IsLost(broken, listed[1..], lastSeen, i - 1)
  {
    hide IsRead;
    var rest := listed[1..];
    assert forall j | 0 <= j < |rest| :: rest[j] == listed[j + 1];
    assert forall j | 0 < j < |listed| :: listed[j] == rest[j - 1];
  }

  /** A call counts an error exactly if some fetch was lost. */
  lemma {:induction false} ErrorsIff(r: Reading, listed: seq<(uint32, Fetched)>, lastSeen: uint32)
    ensures ReadAll(r, listed, lastSeen).errors == 0
            <==> r.errors == 0 && forall i | 0 <= i < |listed| :: !IsLost(r.reconnect, listed, lastSeen, i)
    decreases |listed|
  {
    if listed != [] {
      var next := ReadOne(r, listed[0].0, listed[0].1, lastSeen);
      ErrorsIff(next, listed[1..], lastSeen);
      assert next.errors == 0 <==> r.errors == 0 && !IsLost(r.reconnect, listed, lastSeen, 0);
      assert next.reconnect == (r.reconnect || (IsRead(listed[0].0, lastSeen) && listed[0].1.code == StreamLost));
      hide IsLost, ReadOne, IsRead;
      forall i | 0 < i < |listed|
        ensures IsLost(r.reconnect, listed, lastSeen, i) <==> IsLost(next.reconnect, listed[1..], lastSeen, i - 1)
      {
        IsLostBehindFirst(r.reconnect, listed, lastSeen, i);
      }
      assert forall i | 0 <= i < |listed| - 1 ::
          IsLost(r.reconnect, listed, lastSeen, i + 1) <==> IsLost(next.reconnect, listed[1..], lastSeen, i);
    }
  }

  /** The largest of the messages read. */
  predicate IsLargestRead(uid: uint32, listed: seq<(uint32, Fetched)>, lastSeen: uint32) {
    && (exists i | 0 <= i < |listed| :: IsRead(listed[i].0, lastSeen) && listed[i].0 == uid)
    && (forall i | 0 <= i < |listed| :: IsRead(listed[i].0, lastSeen) ==> listed[i].0 <= uid)
  }

  lemma {:induction false} NewLastIsLargest(r: Reading, listed: seq<(uint32, Fetched)>, lastSeen: uint32)
    requires ReadAll(r, listed, lastSeen).errors == 0
    ensures var last := ReadAll(r, listed, lastSeen).newLast;
            && last >= r.newLast
            && (forall i | 0 <= i < |listed| :: IsRead(listed[i].0, lastSeen) ==> listed[i].0 <= last)
            && (last == r.newLast || exists i | 0 <= i < |listed| :: IsRead(listed[i].0, lastSeen) && listed[i].0 == last)
    decreases |listed|
  {
    if listed != [] {
      var next := ReadOne(r, listed[0].0, listed[0].1, lastSeen);
      NewLastIsLargest(next, listed[1..], lastSeen);
      ErrorsStay(next, listed[1..], lastSeen);
      assert forall i | 0 < i < |listed| :: listed[i] == listed[1..][i - 1];
      assert forall i | 0 <= i < |listed| - 1 :: listed[1..][i] == listed[i + 1];
    }
  }

  /** Where a call that got a listing leaves the cursor: where it started, if a fetch was lost or nothing was read, and
      else at the largest message read, however the listing is ordered. */
  lemma CursorAfterCall(reconnect: bool, stored: Cursor, a: Answers)
    requires Started(stored, a).Some? && a.listed.Value().Some?
    ensures var start, listed := Started(stored, a).value, a.listed.Value().value;
            var cursor := Called(reconnect, stored, a).0;
            if (exists i | 0 <= i < |listed| :: IsLost(BrokenBefore(reconnect, stored, a), listed, start.lastSeen, i))
               || (forall i | 0 <= i < |listed| :: !IsRead(listed[i].0, start.lastSeen))
            then cursor == start
            else cursor.validity == start.validity && IsLargestRead(cursor.lastSeen, listed, start.lastSeen)
  {
    var start, listed := Started(stored, a).value, a.listed.Value().value;
    var nothing := Reading(BrokenBefore(reconnect, stored, a), [], 0, 0, 0);
    ErrorsIff(nothing, listed, start.lastSeen);
    hide BrokenBefore, Started, IsLost;
    if ReadAll(nothing, listed, start.lastSeen).errors == 0 {
      NewLastIsLargest(nothing, listed, start.lastSeen);
    }
  }

  /** The messages are read in the order of the listing: the next one is counted if it is one to be read, and received behind
      the others if it came with a body and is not deleted. */
  lemma {:induction false} ReadNext(r: Reading, listed: seq<(uint32, Fetched)>, next: (uint32, Fetched), lastSeen: uint32)
    ensures var before, after := ReadAll(r, listed, lastSeen), ReadAll(r, listed + [next], lastSeen);
            && after.readCnt == before.readCnt + (if IsRead(next.0, lastSeen) then 1 else 0)
            && after.received
               == before.received + (if IsRead(next.0, lastSeen) && next.1 == Fetched(NoError, Message(true, false)) then [next.0]
                                     else [])
    decreases |listed|
  {
    if listed == [] {
      assert [] + [next] == [next] && [next][1..] == [];
    } else {
      assert (listed + [next])[1..] == listed[1..] + [next];
      ReadNext(ReadOne(r, listed[0].0, listed[0].1, lastSeen), listed[1..], next, lastSeen);
    }
  }

  /** Received are exactly the listed messages not yet seen that have a body and are not marked as deleted. */
  lemma {:induction false} ReceivedIff(r: Reading, listed: seq<(uint32, Fetched)>, lastSeen: uint32, uid: uint32)
    ensures uid in ReadAll(r, listed, lastSeen).received
            <==> uid in r.received
                 || (IsRead(uid, lastSeen) && (uid, Fetched(NoError, Message(true, false))) in listed)
    decreases |listed|
  {
    if listed != [] {
      ReceivedIff(ReadOne(r, listed[0].0, listed[0].1, lastSeen), listed[1..], lastSeen, uid);
      assert listed == [listed[0]] + listed[1..];
    }
  }

  // ----- An unchanging, error-free mailbox -------------------------------------------------------

  /** The UIDs of a mailbox, ascending with the sequence numbers. */
  predicate IsMailbox(uids: seq<uint32>) {
    (forall i | 0 <= i < |uids| :: uids[i] > 0) && (forall i, j | 0 <= i < j < |uids| :: uids[i] < uids[j])
  }

  function From(uids: seq<uint32>, first: uint32): (r: seq<uint32>)
    ensures |r| <= |uids| && r == uids[|uids| - |r|..]
  {
    if uids == [] || uids[0] >= first then uids else From(uids[1..], first)
  }

  /** `UID FETCH first:*`, in which 0 stands for `*`: if no message is as large, the range is turned round and
      means the last message (section 6.4.8 of RFC 3501). */
  function Range(uids: seq<uint32>, first: uint32): seq<uint32> {
    if uids == [] then []
    else
      var last := uids[|uids| - 1];
      if first == 0 || first > last then [last] else From(uids, first)
  }

  /** A mailbox at rest: its UIDVALIDITY, its messages, whether the server reports EXISTS, and what is fetched. */
  datatype Mailbox = Mailbox(validity: uint32, uids: seq<uint32>, reportsExists: bool, content: uint32 -> Content)

  predicate AtRest(box: Mailbox) {
    IsMailbox(box.uids) && |box.uids| < 0x1_0000_0000 && forall i | 0 <= i < |box.uids| :: box.content(box.uids[i]) != NoResult
  }

  function Listed(uids: seq<uint32>, content: uint32 -> Content): (r: seq<(uint32, Fetched)>)
    ensures |r| == |uids|
    ensures forall i | 0 <= i < |r| :: r[i] == (uids[i], Fetched(NoError, content(uids[i])))
  {
    seq(|uids|, i requires 0 <= i < |uids| => (uids[i], Fetched(NoError, content(uids[i]))))
  }

  /** The answers of the mailbox to a call that begins with the given cursor. */
  function AnswersOf(box: Mailbox, stored: Cursor): Answers
    requires AtRest(box)
  {
    var n := |box.uids|;
    var a := Answers(true, Reply(NoError, Some(box.validity)), if box.reportsExists then Some(n) else None,
                     Reply(NoError, if n == 0 then None else Some(box.uids[n - 1])), Reply(NoError, None));
    match Started(stored, a)
    case None => a
    case Some(start) =>
      a.(listed := Reply(NoError, Some(Listed(Range(box.uids, AsUint32(start.lastSeen + 1)), box.content))))
  }

  function CalledAtRest(reconnect: bool, stored: Cursor, box: Mailbox): (Cursor, Reading)
    requires AtRest(box)
  {
    Called(reconnect, stored, AnswersOf(box, stored))
  }

  lemma {:induction false} ReadsAll(r: Reading, listed: seq<(uint32, Fetched)>, lastSeen: uint32)
    requires listed != [] && r.newLast < listed[0].0
    requires forall i | 0 <= i < |listed| :: listed[i].0 != lastSeen && listed[i].1.code == NoError
    requires forall i | 0 <= i < |listed| :: listed[i].1.content != NoResult
    requires forall i, j | 0 <= i < j < |listed| :: listed[i].0 < listed[j].0
    ensures var got := ReadAll(r, listed, lastSeen);
            got.readCnt == r.readCnt + |listed| && got.errors == r.errors && got.newLast == listed[|listed| - 1].0
    decreases |listed|
  {
    if |listed| > 1 {
      ReadsAll(ReadOne(r, listed[0].0, listed[0].1, lastSeen), listed[1..], lastSeen);
    }
  }

  lemma {:induction false} FromIsAbove(uids: seq<uint32>, first: uint32)
    requires IsMailbox(uids)
    ensures forall u | u in From(uids, first) :: u >= first
    ensures forall u | u in uids && u >= first :: u in From(uids, first)
    ensures uids != [] && uids[|uids| - 1] >= first ==> From(uids, first) != []
  {
    if uids != [] && uids[0] < first {
      FromIsAbove(uids[1..], first);
      assert forall u | u in uids :: u == uids[0] || u in uids[1..];
    }
  }

  lemma NextUid(lastSeen: uint32)
    ensures AsUint32(lastSeen + 1) == if lastSeen == 0xFFFF_FFFF then 0 else lastSeen + 1
  {
  }

  lemma SuffixIsMailbox(uids: seq<uint32>, k: nat)
    requires IsMailbox(uids) && k < |uids|
    ensures IsMailbox(uids[k..]) && uids[k..] != [] && uids[k..][|uids| - k - 1] == uids[|uids| - 1]
  {
  }

  /** A listing is either just the message already seen, or ascending messages without it up to the last one. */
  lemma RangeBehind(uids: seq<uint32>, lastSeen: uint32)
    requires IsMailbox(uids) && uids != []
    ensures var r := Range(uids, AsUint32(lastSeen + 1));
            var last := uids[|uids| - 1];
            && r != [] && r[|r| - 1] == last && IsMailbox(r)
            && (lastSeen == last ==> r == [last]) && (lastSeen != last ==> lastSeen !in r)
  {
    hide AsUint32, From, IsMailbox;
    NextUid(lastSeen);
    var first := AsUint32(lastSeen + 1);
    var r := Range(uids, first);
    SuffixIsMailbox(uids, |uids| - 1);
    assert uids[|uids| - 1..] == [uids[|uids| - 1]];
    FromIsAbove(uids, first);
    var k := |uids| - |From(uids, first)|;
    if k < |uids| {
      SuffixIsMailbox(uids, k);
    }
  }

  lemma CalledSame(reconnect: bool, stored: Cursor, box: Mailbox)
    requires AtRest(box) && stored.validity == box.validity
    ensures var r := ReadAll(Reading(reconnect, [], 0, 0, 0),
                             Listed(Range(box.uids, AsUint32(stored.lastSeen + 1)), box.content), stored.lastSeen);
            CalledAtRest(reconnect, stored, box)
            == (if r.errors == 0 && r.newLast > 0 then stored.(lastSeen := r.newLast) else stored, r)
  {
    hide AtRest, Range, ReadAll;
  }

  /** After a call on a non-empty mailbox with the same UIDVALIDITY the cursor is at the last message. */
  lemma CalledFrom(reconnect: bool, stored: Cursor, box: Mailbox)
    requires AtRest(box) && box.uids != [] && stored.validity == box.validity
    ensures var (cursor, r) := CalledAtRest(reconnect, stored, box);
            var last := box.uids[|box.uids| - 1];
            && cursor == Cursor(box.validity, last)
            && (r.readCnt == 0 <==> stored.lastSeen == last)
  {
    hide CalledAtRest, ReadAll, Range, AtRest;
    CalledSame(reconnect, stored, box);
    ReadsRange(reconnect, stored, box);
  }

  lemma ReadsRange(reconnect: bool, stored: Cursor, box: Mailbox)
    requires AtRest(box) && box.uids != []
    ensures var nothing := Reading(reconnect, [], 0, 0, 0);
            var listed := Listed(Range(box.uids, AsUint32(stored.lastSeen + 1)), box.content);
            var r, last := ReadAll(nothing, listed, stored.lastSeen), box.uids[|box.uids| - 1];
            if stored.lastSeen == last then r == nothing else r.errors == 0 && r.newLast == last > 0 && r.readCnt > 0
  {
    hide Range, AtRest, AsUint32, ReadAll, Listed, IsMailbox;
    var range := Range(box.uids, AsUint32(stored.lastSeen + 1));
    var nothing := Reading(reconnect, [], 0, 0, 0);
    RangeOfRest(box, stored);
    if stored.lastSeen == box.uids[|box.uids| - 1] {
      NothingRead(nothing, range[0], box.content);
    } else {
      ReadsListed(nothing, range, box.content, stored.lastSeen);
    }
  }

  lemma RangeOfRest(box: Mailbox, stored: Cursor)
    requires AtRest(box) && box.uids != []
    ensures var r, last := Range(box.uids, AsUint32(stored.lastSeen + 1)), box.uids[|box.uids| - 1];
            && r != [] && r[|r| - 1] == last > 0 && IsMailbox(r)
            && (if stored.lastSeen == last then r == [last] else stored.lastSeen !in r)
            && forall i | 0 <= i < |r| :: box.content(r[i]) != NoResult
  {
    RangeBehind(box.uids, stored.lastSeen);
    ContentOfRange(box, stored);
    hide Range, AsUint32;
  }

  lemma NothingRead(r: Reading, last: uint32, content: uint32 -> Content)
    ensures ReadAll(r, Listed([last], content), last) == r
  {
    ReadSingle(r, Listed([last], content), last);
  }

  lemma ReadsListed(r: Reading, range: seq<uint32>, content: uint32 -> Content, lastSeen: uint32)
    requires range != [] && IsMailbox(range) && lastSeen !in range && r.newLast == 0
    requires forall i | 0 <= i < |range| :: content(range[i]) != NoResult
    ensures var got := ReadAll(r, Listed(range, content), lastSeen);
            got.readCnt == r.readCnt + |range| && got.errors == r.errors && got.newLast == range[|range| - 1]
  {
    hide ReadAll, Listed;
    assert forall i | 0 <= i < |range| :: range[i] in range;
    ReadsAll(r, Listed(range, content), lastSeen);
  }

  lemma ContentOfRange(box: Mailbox, stored: Cursor)
    requires AtRest(box)
    ensures forall u | u in Range(box.uids, AsUint32(stored.lastSeen + 1)) :: u in box.uids && box.content(u) != NoResult
  {
  }

  /** A call from a cursor of another UIDVALIDITY is a call from the cursor it first stores. */
  lemma CalledAfterStart(reconnect: bool, stored: Cursor, box: Mailbox)
    requires AtRest(box)
    ensures match Started(stored, AnswersOf(box, stored))
            case None => CalledAtRest(reconnect, stored, box) == (stored, Reading(reconnect, [], 0, 0, 0))
            case Some(start) => start.validity == box.validity
                                && CalledAtRest(reconnect, stored, box) == CalledAtRest(reconnect, start, box)
  {
    hide Range, ReadAll, AtRest;
  }

  lemma NothingInEmptyMailbox(reconnect: bool, stored: Cursor, box: Mailbox)
    requires AtRest(box) && box.uids == []
    ensures CalledAtRest(reconnect, stored, box).1.readCnt == 0 && CalledAtRest(reconnect, stored, box).0 == stored
  {
  }

  /** Quiescence: whatever cursor a call started from, the next call reads nothing and leaves the cursor alone. */
  lemma Quiescence(reconnect: bool, reconnect': bool, stored: Cursor, box: Mailbox)
    requires AtRest(box)
    ensures var next := CalledAtRest(reconnect, stored, box).0;
            CalledAtRest(reconnect', next, box).1.readCnt == 0 && CalledAtRest(reconnect', next, box).0 == next
  {
    hide CalledAtRest, AtRest;
    if box.uids == [] {
      NothingInEmptyMailbox(reconnect, stored, box);
      NothingInEmptyMailbox(reconnect', CalledAtRest(reconnect, stored, box).0, box);
    } else {
      CalledAfterStart(reconnect, stored, box);
      CalledAfterStart(reconnect', stored, box);
      match Started(stored, AnswersOf(box, stored))
      case None =>
      case Some(start) =>
        CalledFrom(reconnect, start, box);
        CalledFrom(reconnect', CalledAtRest(reconnect, stored, box).0, box);
    }
  }

  /** A mailbox seen for the first time, or under a new UIDVALIDITY, on a server that gives one: of what is there already
      nothing is read the first time, and only the last message, once more, after a change. */
  lemma NewValidityReads(reconnect: bool, stored: Cursor, box: Mailbox)
    requires AtRest(box) && box.uids != [] && box.validity != 0 && stored.validity != box.validity
    ensures var (cursor, r) := CalledAtRest(reconnect, stored, box);
            var last := box.uids[|box.uids| - 1];
            && cursor == Cursor(box.validity, last)
            && r.readCnt == (if stored.validity == 0 || last == 1 then 0 else 1)
            && r.received == (if stored.validity != 0 && last > 1 && box.content(last) == Message(true, false) then [last] else [])
  {
    var last := box.uids[|box.uids| - 1];
    var start := NewStart(stored, box);
    var nothing := Reading(reconnect, [], 0, 0, 0);
    var listed := Listed([last], box.content);
    hide AtRest, Started, Called, ReadAll, Range;
    CalledAfterStart(reconnect, stored, box);
    CalledFrom(reconnect, start, box);
    SingleAtRest(reconnect, start, box);
    ReadSingle(nothing, listed, start.lastSeen);
  }

  lemma NewStart(stored: Cursor, box: Mailbox) returns (start: Cursor)
    requires AtRest(box) && box.uids != [] && box.validity != 0 && stored.validity != box.validity
    ensures var last := box.uids[|box.uids| - 1];
            && start == Cursor(box.validity, if stored.validity > 0 && last > 1 then last - 1 else last)
            && last > 0 && IsMailbox(box.uids) && box.content(last) != NoResult
            && Started(stored, AnswersOf(box, stored)) == Some(start)
  {
    start := Started(stored, AnswersOf(box, stored)).value;
  }

  lemma SingleAtRest(reconnect: bool, stored: Cursor, box: Mailbox)
    requires AtRest(box) && box.uids != [] && stored.validity == box.validity
    requires box.uids[|box.uids| - 1] - 1 <= stored.lastSeen <= box.uids[|box.uids| - 1]
    ensures CalledAtRest(reconnect, stored, box).1
            == ReadAll(Reading(reconnect, [], 0, 0, 0), Listed([box.uids[|box.uids| - 1]], box.content), stored.lastSeen)
  {
    hide AtRest, CalledAtRest, Range, ReadAll;
    CalledSame(reconnect, stored, box);
    LastOfRest(box, stored.lastSeen);
  }

  lemma LastOfRest(box: Mailbox, lastSeen: uint32)
    requires AtRest(box) && box.uids != []
    requires box.uids[|box.uids| - 1] - 1 <= lastSeen <= box.uids[|box.uids| - 1]
    ensures Range(box.uids, AsUint32(lastSeen + 1)) == [box.uids[|box.uids| - 1]]
  {
    RangeFromLast(box.uids, lastSeen);
  }

  lemma RangeFromLast(uids: seq<uint32>, lastSeen: uint32)
    requires IsMailbox(uids) && uids != [] && uids[|uids| - 1] - 1 <= lastSeen <= uids[|uids| - 1]
    ensures Range(uids, AsUint32(lastSeen + 1)) == [uids[|uids| - 1]]
  {
    var last := uids[|uids| - 1];
    hide AsUint32, From;
    NextUid(lastSeen);
    if lastSeen != last {
      OnlyLastIsFrom(uids);
    }
  }

  lemma {:induction false} OnlyLastIsFrom(uids: seq<uint32>)
    requires IsMailbox(uids) && uids != []
    ensures From(uids, uids[|uids| - 1]) == [uids[|uids| - 1]]
  {
    if |uids| > 1 {
      SuffixIsMailbox(uids, 1);
      OnlyLastIsFrom(uids[1..]);
    }
  }

  // ----- When the cursor moves down --------------------------------------------------------------

  /** The listed messages have these UIDs. */
  predicate UidsAre(listed: seq<(uint32, Fetched)>, uids: seq<uint32>) {
    |listed| == |uids| && forall i | 0 <= i < |uids| :: listed[i].0 == uids[i]
  }

  lemma {:induction false} NewLastIsListed(r: Reading, listed: seq<(uint32, Fetched)>, lastSeen: uint32, bound: uint32)
    requires r.newLast == 0 || r.newLast > bound
    requires forall i | 0 <= i < |listed| :: listed[i].0 > bound
    ensures ReadAll(r, listed, lastSeen).newLast == 0 || ReadAll(r, listed, lastSeen).newLast > bound
    decreases |listed|
  {
    if listed != [] {
      NewLastIsListed(ReadOne(r, listed[0].0, listed[0].1, lastSeen), listed[1..], lastSeen, bound);
    }
  }

  lemma RangeAbove(uids: seq<uint32>, lastSeen: uint32, first: uint32)
    requires IsMailbox(uids) && uids != [] && uids[|uids| - 1] > lastSeen && first == AsUint32(lastSeen + 1)
    ensures forall u | u in Range(uids, first) :: u > lastSeen
  {
    hide AsUint32, From, IsMailbox;
    NextUid(lastSeen);
    FromIsAbove(uids, lastSeen + 1);
  }

  lemma RangeTurned(uids: seq<uint32>, lastSeen: uint32)
    requires IsMailbox(uids) && uids != [] && uids[|uids| - 1] <= lastSeen
    ensures Range(uids, AsUint32(lastSeen + 1)) == [uids[|uids| - 1]] && uids[|uids| - 1] > 0
  {
    hide AsUint32, From;
    NextUid(lastSeen);
  }

  lemma ReadSingle(r: Reading, listed: seq<(uint32, Fetched)>, lastSeen: uint32)
    requires |listed| == 1
    ensures ReadAll(r, listed, lastSeen) == ReadOne(r, listed[0].0, listed[0].1, lastSeen)
  {
    assert listed[1..] == [];
  }

  /** A call on a mailbox with these messages under the stored UIDVALIDITY makes the cursor smaller exactly if all
      messages are below the cursor and the last one, which is then the only one listed, got a final verdict. */
  lemma CursorMovesDownIff(reconnect: bool, stored: Cursor, a: Answers, uids: seq<uint32>)
    requires IsMailbox(uids) && Started(stored, a) == Some(stored) && a.listed.Value().Some?
    requires UidsAre(a.listed.Value().value, Range(uids, AsUint32(stored.lastSeen + 1)))
    ensures Called(reconnect, stored, a).0.lastSeen < stored.lastSeen
            <==> uids != [] && uids[|uids| - 1] < stored.lastSeen
                 && IsFinal(BrokenBefore(reconnect, stored, a), a.listed.Value().value[0].1)
  {
    hide AsUint32, From, IsMailbox, BrokenBefore, Started, IsFinal;
    var listed, lastSeen := a.listed.Value().value, stored.lastSeen;
    var nothing := Reading(BrokenBefore(reconnect, stored, a), [], 0, 0, 0);
    if uids != [] {
      if uids[|uids| - 1] > lastSeen {
        hide Range;
        var first: uint32 := AsUint32(lastSeen + 1);
        var range := Range(uids, first);
        RangeAbove(uids, lastSeen, first);
        assert forall i | 0 <= i < |listed| :: listed[i].0 == range[i] && range[i] in range;
        NewLastIsListed(nothing, listed, lastSeen, lastSeen);
      } else {
        hide Range;
        RangeTurned(uids, lastSeen);
        ReadSingle(nothing, listed, lastSeen);
      }
    }
  }

  class Imap {
    var config: map<string, string>
    var shouldReconnect: bool
    var received: seq<uint32>

    method GetLastSeen(folder: string) returns (validity: uint32, lastSeen: uint32)
      ensures Cursor(validity, lastSeen) == StoredCursor(config, folder)
    {
      hide Atol, AsUint32, UpTo;
      validity, lastSeen := 0, 0;
      if Key(folder) in config {
        var val1 := config[Key(folder)];
        var colon := |UpTo(val1, ':')|;
        if colon < |val1| {
          assert val1[..colon] == UpTo(val1, ':');
          var val2 := val1[colon + 1..];
          val2 := UpTo(val2, ':');
          validity := AsUint32(Atol(val1[..colon]));
          lastSeen := AsUint32(Atol(val2));
        }
      }
    }

    method SetLastSeen(folder: string, validity: uint32, lastSeen: uint32)
      modifies this`config
      ensures config == old(config)[Key(folder) := Entry(Cursor(validity, lastSeen))]
      ensures config == old(config)["imap.mailbox." + folder := Print(validity) + ":" + Print(lastSeen)]
      ensures StoredCursor(config, folder) == Cursor(validity, lastSeen)
      ensures forall other | other != folder :: StoredCursor(config, other) == StoredCursor(old(config), other)
    {
      CursorRoundTrip(Cursor(validity, lastSeen), "");
      hide ParsedCursor;
      forall other | other != folder ensures Key(other) != Key(folder) {
        KeyIsInjective(folder, other);
      }
      config := config[Key(folder) := Entry(Cursor(validity, lastSeen))];
    }

    method IsError(code: Code) returns (error: bool)
      modifies this`shouldReconnect
      ensures error == (code != NoError)
      ensures shouldReconnect == (old(shouldReconnect) || code == StreamLost)
    {
      if code == NoError {
        return false;
      }
      if code == StreamLost {
        shouldReconnect := true;
      }
      error := true;
    }

    method FetchSingleMsg(uid: uint32, f: Fetched) returns (verdict: nat)
      modifies this`shouldReconnect, this`received
      ensures verdict == (if (f.code != NoError || f.content == NoResult) && (old(shouldReconnect) || f.code == StreamLost)
                          then 0 else 1)
      ensures shouldReconnect == (old(shouldReconnect) || f.code == StreamLost)
      ensures received == old(received) + if f == Fetched(NoError, Message(true, false)) then [uid] else []
    {
      var retryLater := false;
      var error := IsError(f.code);
      if error || f.content == NoResult {
        if shouldReconnect {
          retryLater := true;
        }
      } else if f.content.Message? && f.content.hasBody && !f.content.deleted {
        received := received + [uid];
      }
      verdict := if retryLater then 0 else 1;
    }

    /** Goes through the listed messages. */
    method ReadList(list: seq<(uint32, Fetched)>, lastSeen: uint32)
      returns (readCnt: nat, errors: nat, newLast: uint32)
      modifies this`shouldReconnect, this`received
      ensures var r := ReadAll(Reading(old(shouldReconnect), [], 0, 0, 0), list, lastSeen);
              r == Reading(shouldReconnect, r.received, readCnt, errors, newLast)
              && received == old(received) + r.received
    {
      readCnt, errors, newLast := 0, 0, 0;
      ghost var got: seq<uint32> := [];
      for i := 0 to |list|
        invariant ReadAll(Reading(shouldReconnect, got, readCnt, errors, newLast), list[i..], lastSeen)
                  == ReadAll(Reading(old(shouldReconnect), [], 0, 0, 0), list, lastSeen)
        invariant received == old(received) + got
      {
        var uid := list[i].0;
        ghost var before := Reading(shouldReconnect, got, readCnt, errors, newLast);
        if uid > 0 && uid != lastSeen {
          readCnt := readCnt + 1;
          got := if list[i].1 == Fetched(NoError, Message(true, false)) then got + [uid] else got;
          var verdict := FetchSingleMsg(uid, list[i].1);
          if verdict == 0 {
            errors := errors + 1;
          } else if uid > newLast {
            newLast := uid;
          }
        }
        assert Reading(shouldReconnect, got, readCnt, errors, newLast) == ReadOne(before, uid, list[i].1, lastSeen);
        assert list[i..][1..] == list[i + 1..];
      }
    }

    /** A usable answer of the server, if there is one; a broken connection is noted. */
    method Take<T>(reply: Reply<T>) returns (value: Option<T>)
      modifies this`shouldReconnect
      ensures value == reply.Value()
      ensures shouldReconnect == (old(shouldReconnect) || reply.code == StreamLost)
    {
      var error := IsError(reply.code);
      value := if error then None else reply.result;
    }

    method FetchFromSingleFolder(folder: string, a: Answers) returns (readCnt: nat)
      modifies this
      ensures var (cursor, r) := Called(old(shouldReconnect), StoredCursor(old(config), folder), a);
              && StoredCursor(config, folder) == cursor
              && readCnt == r.readCnt && shouldReconnect == r.reconnect && received == old(received) + r.received
      ensures forall other | other != folder :: StoredCursor(config, other) == StoredCursor(old(config), other)
      ensures forall key | key in old(config) && key != Key(folder) :: key in config && config[key] == old(config)[key]
      ensures config.Keys <= old(config).Keys + {Key(folder)}
    {
      hide ParsedCursor, Entry, Key, ReadAll, Print;
      readCnt := 0;
      if !a.connected {
        return;
      }
      var selected := Take(a.select);
      if selected == None {
        return;
      }
      var validity, lastSeen := GetLastSeen(folder);
      if validity != selected.value {
        if selected.value == 0 || a.count == Some(0) {
          return;
        }
        var last := Take(a.last);
        if last == None || last.value == 0 {
          return;
        }
        lastSeen := last.value;
        if validity > 0 && lastSeen > 1 {
          lastSeen := lastSeen - 1;
        }
        validity := selected.value;
        SetLastSeen(folder, validity, lastSeen);
      }
      var listed := Take(a.listed);
      if listed == None {
        return;
      }
      var errors, newLast;
      readCnt, errors, newLast := ReadList(listed.value, lastSeen);
      if errors == 0 && newLast > 0 {
        SetLastSeen(folder, validity, newLast);
      }
    }

    /** The fetch loop on a mailbox at rest: it ends after at most two calls, with nothing left to read. */
    method FetchUntilQuiet(folder: string, box: Mailbox) returns (calls: nat)
      requires AtRest(box)
      modifies this
      ensures 1 <= calls <= 2
      ensures var cursor := StoredCursor(config, folder);
              CalledAtRest(shouldReconnect, cursor, box).1.readCnt == 0
    {
      hide CalledAtRest, AtRest;
      calls := 1;
      var n := FetchOnce(folder, box);
      while n > 0
        invariant 1 <= calls <= if n > 0 then 1 else 2
        invariant forall reconnect :: n > 0 ==> CalledAtRest(reconnect, StoredCursor(config, folder), box).1.readCnt == 0
        invariant n == 0 ==> CalledAtRest(shouldReconnect, StoredCursor(config, folder), box).1.readCnt == 0
        decreases n
      {
        n := FetchOnce(folder, box);
        calls := calls + 1;
      }
    }

    method FetchOnce(folder: string, box: Mailbox) returns (n: nat)
      requires AtRest(box)
      modifies this
      ensures n == CalledAtRest(old(shouldReconnect), StoredCursor(old(config), folder), box).1.readCnt
      ensures forall reconnect :: CalledAtRest(reconnect, StoredCursor(config, folder), box).1.readCnt == 0
    {
      hide AtRest, StoredCursor, Called;
      var validity, lastSeen := GetLastSeen(folder);
      ghost var before := shouldReconnect;
      n := FetchFromSingleFolder(folder, AnswersOf(box, Cursor(validity, lastSeen)));
      forall reconnect: bool ensures CalledAtRest(reconnect, StoredCursor(config, folder), box).1.readCnt == 0 {
        Quiescence(before, reconnect, Cursor(validity, lastSeen), box);
      }
    }
  }
}
