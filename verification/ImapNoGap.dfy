/** One folder on a server that changes while it is read: the cursor never passes a message without a verdict. */
module ImapNoGap {
  import opened Decimal
  import opened ImapCursor
  import opened Options

  // ----- The machine -----------------------------------------------------------------------------

  /** The messages of the folder, and a bound of all UIDs ever given out under the present UIDVALIDITY. */
  datatype Server = Server(validity: uint32, uids: seq<uint32>, next: nat)

  datatype Pc = Idle | Listing | Reads(listed: seq<uint32>, done: nat, r: Reading)

  /** `judged` are the messages, with their UIDVALIDITY, that got a final verdict; `baseline` is the cursor with
      which the client started under a UIDVALIDITY. Neither influences the steps. */
  datatype State = State(server: Server, stored: Cursor, pc: Pc, judged: set<(uint32, uint32)>,
                         baseline: map<uint32, uint32>)

  datatype Action =
    // the server
    | Append(uid: uint32) | Expunge(index: nat) | Reset(validity: uint32, uids: seq<uint32>, next: nat)
    // the client
    | Start(a: Answers) | List(answered: bool, reconnect: bool) | Read(f: Fetched) | Finish

  predicate IsServer(s: Server) {
    s.validity > 0 && IsMailbox(s.uids) && forall u | u in s.uids :: u < s.next
  }

  /** A UIDVALIDITY only grows, and not while the folder is selected; a UID is never given out twice. */
  predicate Enabled(s: State, a: Action) {
    match a
    case Append(uid) => uid > 0 && uid >= s.server.next
    case Expunge(index) => index < |s.server.uids|
    case Reset(validity, uids, next) =>
      s.pc.Idle? && validity > s.server.validity && IsServer(Server(validity, uids, next))
    case Start(a) =>
      s.pc.Idle? && (a.select.Value().Some? ==> a.select.Value().value == s.server.validity)
      && (a.last.Value().Some? ==> a.last.Value().value < s.server.next)
    case List(_, _) => s.pc.Listing?
    case Read(_) => s.pc.Reads? && s.pc.done < |s.pc.listed|
    case Finish => s.pc.Reads? && s.pc.done == |s.pc.listed|
  }

  function Step(s: State, a: Action): State
    requires Enabled(s, a)
  {
    match a
    case Append(uid) => s.(server := s.server.(uids := s.server.uids + [uid], next := uid + 1))
    case Expunge(index) => s.(server := s.server.(uids := s.server.uids[..index] + s.server.uids[index + 1..]))
    case Reset(validity, uids, next) => s.(server := Server(validity, uids, next))
    case Start(a) =>
      (match Started(s.stored, a)
       case None => s
       case Some(start) =>
         s.(stored := start, pc := Listing,
            baseline := if s.stored.validity == start.validity then s.baseline
                        else s.baseline[start.validity := start.lastSeen]))
    case List(answered, reconnect) =>
      if !answered then s.(pc := Idle)
      else s.(pc := Reads(Range(s.server.uids, AsUint32(s.stored.lastSeen + 1)), 0, Reading(reconnect, [], 0, 0, 0)))
    case Read(f) =>
      var uid := s.pc.listed[s.pc.done];
      var judged := uid > 0 && uid != s.stored.lastSeen && IsFinal(s.pc.r.reconnect, f);
      s.(pc := s.pc.(done := s.pc.done + 1, r := ReadOne(s.pc.r, uid, f, s.stored.lastSeen)),
         judged := if judged then s.judged + {(s.stored.validity, uid)} else s.judged)
    case Finish =>
      s.(pc := Idle,
         stored := if s.pc.r.errors == 0 && s.pc.r.newLast > 0 then s.stored.(lastSeen := s.pc.r.newLast) else s.stored)
  }

  predicate IsInitial(s: State) {
    IsServer(s.server) && s.stored == NO_CURSOR && s.pc.Idle? && s.judged == {} && s.baseline == map[]
  }

  predicate IsRun(run: seq<Action>, s: State) {
    run == [] || (Enabled(s, run[0]) && IsRun(run[1..], Step(s, run[0])))
  }

  function After(run: seq<Action>, s: State): State
    requires IsRun(run, s)
  {
    if run == [] then s else After(run[1..], Step(s, run[0]))
  }

  // ----- No gap ----------------------------------------------------------------------------------

  function Base(s: State): uint32 {
    if s.stored.validity in s.baseline then s.baseline[s.stored.validity] else 0
  }

  /** Every message above the baseline and not above the cursor got its verdict. */
  predicate Complete(s: State) {
    s.stored.validity == s.server.validity ==>
      forall u | u in s.server.uids && Base(s) < u <= s.stored.lastSeen :: (s.server.validity, u) in s.judged
  }

  predicate Bounded(s: State) {
    && IsServer(s.server) && s.stored.validity <= s.server.validity
    && (s.stored.validity == s.server.validity ==> s.stored.lastSeen < s.server.next)
    && (!s.pc.Idle? ==> s.stored.validity == s.server.validity)
  }

  /** What is known while the listed messages are read. */
  predicate InReading(s: State) {
    s.pc.Reads? ==>
      var listed, r := s.pc.listed, s.pc.r;
      && s.pc.done <= |listed| && IsMailbox(listed)
      && (forall u | u in listed :: u < s.server.next)
      && (forall u | u in s.server.uids && s.stored.lastSeen < u && listed != [] && u <= listed[|listed| - 1] :: u in listed)
      && (r.newLast == 0 || r.newLast in listed)
      && (r.errors == 0 ==> forall k | 0 <= k < s.pc.done ::
            listed[k] == s.stored.lastSeen || (s.server.validity, listed[k]) in s.judged)
  }

  predicate Inv(s: State) {
    Bounded(s) && InReading(s) && Complete(s)
  }

  lemma ServerKept(s: Server, uid: uint32)
    requires IsServer(s) && uid > 0 && uid >= s.next
    ensures IsServer(s.(uids := s.uids + [uid], next := uid + 1))
  {
    var t := s.uids + [uid];
    assert forall i | 0 <= i < |s.uids| :: t[i] == s.uids[i] && s.uids[i] in s.uids;
    assert forall u | u in t :: u in s.uids || u == uid;
  }

  lemma ServerKeptByExpunge(s: Server, k: nat)
    requires IsServer(s) && k < |s.uids|
    ensures IsServer(s.(uids := s.uids[..k] + s.uids[k + 1..]))
  {
    var t := s.uids[..k] + s.uids[k + 1..];
    assert forall i | 0 <= i < |t| :: t[i] == s.uids[if i < k then i else i + 1];
    assert forall i | 0 <= i < |s.uids| :: s.uids[i] in s.uids;
  }

  lemma BoundedKept(s: State, a: Action)
    requires Inv(s) && Enabled(s, a)
    ensures Bounded(Step(s, a))
  {
    hide Complete, Range;
    if a.Append? {
      ServerKept(s.server, a.uid);
    } else if a.Expunge? {
      ServerKeptByExpunge(s.server, a.index);
    }
  }

  /** A listing leaves out no message between the cursor and its last one, also if the range is turned round. */
  lemma RangeCovers(uids: seq<uint32>, lastSeen: uint32)
    requires IsMailbox(uids)
    ensures var r := Range(uids, AsUint32(lastSeen + 1));
            && IsMailbox(r) && (forall u | u in r :: u in uids)
            && (forall u | u in uids && lastSeen < u && r != [] && u <= r[|r| - 1] :: u in r)
  {
    NextUid(lastSeen);
    FromIsAbove(uids, AsUint32(lastSeen + 1));
    if uids != [] {
      RangeBehind(uids, lastSeen);
    }
  }

  lemma InReadingAfterList(s: State, a: Action)
    requires Inv(s) && a.List? && Enabled(s, a)
    ensures InReading(Step(s, a))
  {
    hide Range, AsUint32;
    RangeCovers(s.server.uids, s.stored.lastSeen);
  }

  lemma UidIsPositive(uids: seq<uint32>, i: nat)
    requires IsMailbox(uids) && i < |uids|
    ensures uids[i] > 0
  {
  }

  lemma LastIsLargest(uids: seq<uint32>, u: uint32)
    requires IsMailbox(uids) && u in uids
    ensures u <= uids[|uids| - 1]
  {
  }

  lemma InReadingAfterRead(s: State, a: Action)
    requires Inv(s) && a.Read? && Enabled(s, a)
    ensures InReading(Step(s, a))
  {
    hide IsMailbox;
    var t := Step(s, a);
    var uid := s.pc.listed[s.pc.done];
    UidIsPositive(s.pc.listed, s.pc.done);
    assert t.pc.r == ReadOne(s.pc.r, uid, a.f, s.stored.lastSeen);
  }

  lemma InReadingOnServer(s: State, a: Action)
    requires Inv(s) && (a.Append? || a.Expunge?) && Enabled(s, a)
    ensures InReading(Step(s, a))
  {
    hide IsMailbox;
    var t := Step(s, a);
    if s.pc.Reads? && s.pc.listed != [] {
      assert s.pc.listed[|s.pc.listed| - 1] in s.pc.listed;
    }
    assert forall u | u in t.server.uids :: u in s.server.uids || (a.Append? && u == a.uid);
  }

  lemma InReadingKept(s: State, a: Action)
    requires Inv(s) && Enabled(s, a)
    ensures InReading(Step(s, a))
  {
    match a
    case Append(_) => InReadingOnServer(s, a);
    case Expunge(_) => InReadingOnServer(s, a);
    case List(_, _) => InReadingAfterList(s, a);
    case Read(_) => InReadingAfterRead(s, a);
    case _ =>
  }

  lemma CompleteAfterFinish(s: State, a: Action)
    requires Inv(s) && a.Finish? && Enabled(s, a)
    ensures Complete(Step(s, a))
  {
    hide IsMailbox;
    var t := Step(s, a);
    var listed := s.pc.listed;
    forall u | u in t.server.uids && Base(t) < u <= t.stored.lastSeen ensures (t.server.validity, u) in t.judged {
      if u > s.stored.lastSeen {
        assert s.pc.r.newLast in listed;
        LastIsLargest(listed, s.pc.r.newLast);
        var k :| 0 <= k < |listed| && listed[k] == u;
      }
    }
  }

  lemma CompleteKept(s: State, a: Action)
    requires Inv(s) && Enabled(s, a)
    ensures Complete(Step(s, a))
  {
    hide IsMailbox, Range;
    if a.Finish? {
      CompleteAfterFinish(s, a);
    }
  }

  lemma InvKept(s: State, a: Action)
    requires Inv(s) && Enabled(s, a)
    ensures Inv(Step(s, a))
  {
    hide Bounded, InReading, Complete;
    BoundedKept(s, a);
    InReadingKept(s, a);
    CompleteKept(s, a);
  }

  lemma {:induction false} InvAlways(run: seq<Action>, s: State)
    requires Inv(s) && IsRun(run, s)
    ensures Inv(After(run, s))
  {
    hide Inv, Enabled, Step;
    if run != [] {
      InvKept(s, run[0]);
      InvAlways(run[1..], Step(s, run[0]));
    }
  }

  /** No gap: in every run, with any appends, deletions, resets and read errors, every message on the server above the
      baseline and not above the stored cursor got a final verdict. */
  lemma NoGap(run: seq<Action>, init: State, u: uint32)
    requires IsInitial(init) && IsRun(run, init)
    requires var s := After(run, init);
             s.stored.validity == s.server.validity && u in s.server.uids && Base(s) < u <= s.stored.lastSeen
    ensures (After(run, init).server.validity, u) in After(run, init).judged
  {
    InvAlways(run, init);
  }

  lemma {:induction false} RunExtended(run: seq<Action>, s: State, a: Action)
    requires IsRun(run, s) && Enabled(After(run, s), a)
    ensures IsRun(run + [a], s) && After(run + [a], s) == Step(After(run, s), a)
  {
    if run == [] {
      assert [] + [a] == [a];
      assert [a][1..] == [];
    } else {
      assert (run + [a])[1..] == run[1..] + [a];
      RunExtended(run[1..], Step(s, run[0]), a);
    }
  }

  lemma Extend(run: seq<Action>, s: State, t: State, a: Action) returns (longer: seq<Action>, u: State)
    requires IsRun(run, s) && After(run, s) == t && Enabled(t, a)
    ensures longer == run + [a] && IsRun(longer, s) && After(longer, s) == u == Step(t, a)
  {
    RunExtended(run, s, a);
    longer, u := run + [a], Step(t, a);
  }

  // ----- What the baseline and the verdicts are --------------------------------------------------

  /** Step `k` of the run is the fetch of message `u` under the UIDVALIDITY `v`, and it brought the message, or the server
      said that there is none, or it failed on a connection that is not broken. */
  ghost predicate JudgedAt(run: seq<Action>, s: State, k: nat, v: uint32, u: uint32)
    requires IsRun(run, s)
  {
    && k < |run| && run[k].Read? && IsRun(run[..k], s)
    && var t := After(run[..k], s);
    && t.pc.Reads? && t.pc.done < |t.pc.listed| && t.pc.listed[t.pc.done] == u && t.stored.validity == v
    && u != 0 && u != t.stored.lastSeen
    && ((run[k].f.code == NoError && run[k].f.content != NoResult) || (!t.pc.r.reconnect && run[k].f.code != StreamLost))
  }

  lemma JudgedStep(s: State, a: Action, v: uint32, u: uint32)
    requires Enabled(s, a) && (v, u) !in s.judged && (v, u) in Step(s, a).judged
    ensures IsRun([a], s) && JudgedAt([a], s, 0, v, u)
  {
    assert [a][..0] == [];
  }

  lemma JudgedLater(run: seq<Action>, s: State, k: nat, v: uint32, u: uint32)
    requires IsRun(run, s) && run != [] && JudgedAt(run[1..], Step(s, run[0]), k, v, u)
    ensures JudgedAt(run, s, k + 1, v, u)
  {
    assert run[1..][..k] == run[..k + 1][1..];
  }

  lemma JudgedFirst(run: seq<Action>, s: State, v: uint32, u: uint32)
    requires IsRun(run, s) && run != [] && JudgedAt([run[0]], s, 0, v, u)
    ensures JudgedAt(run, s, 0, v, u)
  {
    assert run[..0] == [] && [run[0]][..0] == [];
  }

  /** Only a fetch of the message itself gives a verdict. */
  lemma {:induction false} JudgedMeansRead(run: seq<Action>, s: State, v: uint32, u: uint32) returns (k: nat)
    requires IsRun(run, s) && (v, u) !in s.judged && (v, u) in After(run, s).judged
    ensures JudgedAt(run, s, k, v, u)
  {
    hide JudgedAt, Step, Enabled;
    var t := Step(s, run[0]);
    if (v, u) in t.judged {
      JudgedStep(s, run[0], v, u);
      JudgedFirst(run, s, v, u);
      k := 0;
    } else {
      k := JudgedMeansRead(run[1..], t, v, u);
      JudgedLater(run, s, k, v, u);
      k := k + 1;
    }
  }

  /** The baselines are cursors from before: no message that comes later is covered by one. */
  predicate BaselineIsOld(s: State) {
    Bounded(s) && (s.server.validity in s.baseline ==> s.baseline[s.server.validity] < s.server.next)
    && forall v | v in s.baseline :: v <= s.server.validity
  }

  lemma BaselineKept(s: State, a: Action)
    requires Inv(s) && BaselineIsOld(s) && Enabled(s, a)
    ensures BaselineIsOld(Step(s, a))
  {
    hide Complete, InReading, Range, IsServer;
    BoundedKept(s, a);
  }

  lemma {:induction false} BaselineAlways(run: seq<Action>, s: State)
    requires Inv(s) && BaselineIsOld(s) && IsRun(run, s)
    ensures BaselineIsOld(After(run, s)) && Inv(After(run, s))
  {
    hide Inv, BaselineIsOld, Enabled, Step;
    if run != [] {
      InvKept(s, run[0]);
      BaselineKept(s, run[0]);
      BaselineAlways(run[1..], Step(s, run[0]));
    }
  }

  /** As long as the folder has the UIDVALIDITY `v`, the cursor has it too, and its baseline is below `u`. */
  predicate StaysBelow(s: State, v: uint32, u: uint32) {
    s.server.validity >= v && (s.server.validity == v ==> s.stored.validity == v && Base(s) < u)
  }

  lemma StaysBelowKept(s: State, a: Action, v: uint32, u: uint32)
    requires Inv(s) && Enabled(s, a) && StaysBelow(s, v, u)
    ensures StaysBelow(Step(s, a), v, u)
  {
    hide Complete, InReading, Range, IsServer;
  }

  lemma {:induction false} StaysBelowAlways(run: seq<Action>, s: State, v: uint32, u: uint32)
    requires Inv(s) && IsRun(run, s) && StaysBelow(s, v, u)
    ensures StaysBelow(After(run, s), v, u) && Inv(After(run, s))
  {
    hide Inv, StaysBelow, Enabled, Step;
    if run != [] {
      InvKept(s, run[0]);
      StaysBelowKept(s, run[0], v, u);
      StaysBelowAlways(run[1..], Step(s, run[0]), v, u);
    }
  }

  lemma InitialIsOld(init: State)
    requires IsInitial(init)
    ensures Inv(init) && BaselineIsOld(init)
  {
  }

  /** Every message that comes after the client first saw the folder, under the same UIDVALIDITY, and is still there, got
      its verdict by the time the cursor has reached it: whatever else was appended, deleted, or failed meanwhile. */
  lemma AppendedIsJudged(run: seq<Action>, init: State, u: uint32, more: seq<Action>)
    requires IsInitial(init) && IsRun(run, init)
    requires Enabled(After(run, init), Append(u)) && IsRun(more, Step(After(run, init), Append(u)))
    requires var s, t := After(run, init), After(more, Step(After(run, init), Append(u)));
             && s.stored.validity == s.server.validity == t.server.validity
             && u in t.server.uids && u <= t.stored.lastSeen
    ensures var t := After(more, Step(After(run, init), Append(u)));
            (t.server.validity, u) in t.judged
  {
    var s := After(run, init);
    InitialIsOld(init);
    BaselineAlways(run, init);
    InvKept(s, Append(u));
    assert Base(s) < u;
    StaysBelowKept(s, Append(u), s.server.validity, u);
    StaysBelowAlways(more, Step(s, Append(u)), s.server.validity, u);
  }

  lemma {:induction false} ReadRun(run: seq<Action>, s: State, t: State, rest: seq<(uint32, Fetched)>)
    returns (longer: seq<Action>, u: State)
    requires IsRun(run, s) && After(run, s) == t && t.pc.Reads? && t.pc.done + |rest| == |t.pc.listed|
    requires forall i | 0 <= i < |rest| :: rest[i].0 == t.pc.listed[t.pc.done + i]
    ensures IsRun(longer, s) && After(longer, s) == u && u.stored == t.stored
    ensures u.pc == Reads(t.pc.listed, |t.pc.listed|, ReadAll(t.pc.r, rest, t.stored.lastSeen))
    decreases |rest|
  {
    longer, u := run, t;
    if rest != [] {
      longer, u := Extend(run, s, t, Read(rest[0].1));
      longer, u := ReadRun(longer, s, u, rest[1..]);
    }
  }

  /** A whole call of the fetch function, with no change on the server in between, is a run of the machine: both store
      the same cursor. */
  lemma CallIsRun(s: State, a: Answers, reconnect: bool) returns (run: seq<Action>)
    requires Enabled(s, Start(a)) && Started(s.stored, a).Some? && a.listed.Value().Some?
    requires var range := Range(s.server.uids, AsUint32(Started(s.stored, a).value.lastSeen + 1));
             UidsAre(a.listed.Value().value, range)
    ensures IsRun(run, s) && After(run, s).pc.Idle?
    ensures After(run, s).stored == Called(reconnect, s.stored, a).0
  {
    hide ReadAll, Range, AsUint32;
    var t := s;
    run := [];
    run, t := Extend(run, s, t, Start(a));
    run, t := Extend(run, s, t, List(true, BrokenBefore(reconnect, s.stored, a)));
    run, t := ReadRun(run, s, t, a.listed.Value().value);
    run, t := Extend(run, s, t, Finish);
  }

  const TWO := Server(1, [1, 2], 3)
  const ONE := Server(1, [1], 3)

  lemma CursorAtTwo(init: State) returns (run: seq<Action>)
    requires init == State(TWO, NO_CURSOR, Idle, {}, map[])
    ensures IsRun(run, init) && After(run, init) == State(TWO, Cursor(1, 2), Idle, {}, map[1 := 2])
  {
    var t := init;
    run := [];
    assert IsRun(run, init) && After(run, init) == t;
    hide IsRun, After;
    run, t := Extend(run, init, t, Start(StartAnswers(2)));
    run, t := Extend(run, init, t, List(false, false));
  }

  lemma LastMessageListed(init: State, run: seq<Action>) returns (longer: seq<Action>)
    requires IsRun(run, init) && After(run, init) == State(ONE, Cursor(1, 2), Idle, {}, map[1 := 2])
    ensures IsRun(longer, init) && run <= longer
    ensures After(longer, init)
            == State(ONE, Cursor(1, 2), Reads([1], 0, Reading(false, [], 0, 0, 0)), {}, map[1 := 2])
  {
    hide IsRun, After;
    var t := After(run, init);
    longer, t := Extend(run, init, t, Start(StartAnswers(1)));
    longer, t := Extend(longer, init, t, List(true, false));
  }

  lemma LastMessageRead(init: State, run: seq<Action>) returns (longer: seq<Action>)
    requires IsRun(run, init)
    requires After(run, init)
             == State(ONE, Cursor(1, 2), Reads([1], 0, Reading(false, [], 0, 0, 0)), {}, map[1 := 2])
    ensures IsRun(longer, init) && run <= longer && After(longer, init).stored == Cursor(1, 1)
  {
    hide IsRun, After;
    var t := After(run, init);
    longer, t := Extend(run, init, t, Read(Fetched(NoError, Message(true, false))));
    longer, t := Extend(longer, init, t, Finish);
  }

  /** The cursor can move down under the same UIDVALIDITY: when the message it stands at is gone, the listing is turned
      round and has the last remaining message. */
  lemma CursorMovesDown() returns (init: State, run: seq<Action>, more: seq<Action>)
    ensures IsInitial(init) && IsRun(run, init) && After(run, init).stored == Cursor(1, 2)
    ensures IsRun(run + more, init) && After(run + more, init).stored == Cursor(1, 1)
  {
    init := State(TWO, NO_CURSOR, Idle, {}, map[]);
    run := CursorAtTwo(init);
    hide IsRun, After;
    var longer, t := Extend(run, init, After(run, init), Expunge(1));
    assert t.server.uids == [1];
    longer := LastMessageListed(init, longer);
    longer := LastMessageRead(init, longer);
    more := longer[|run|..];
    assert run + more == longer;
  }

  function StartAnswers(last: uint32): Answers {
    Answers(true, Reply(NoError, Some(1)), Some(last), Reply(NoError, Some(last)), Reply(OtherError, None))
  }
}
