/** No pending message gets stuck: it has a job until its fate is recorded. */
module SmtpDelivery {
  import opened SmtpThread

  // ----- The rows of a selection stay what they were ---------------------------------------------

  function Todo(pc: SmtpPc): seq<Row> {
    match pc
    case Trying(todo, _) => todo
    case Judged(todo, _) => todo
    case Pausing(todo) => todo
    case _ => []
  }

  predicate SelectionHolds(todo: seq<Row>, jobs: map<nat, Job>) {
    && (forall i | 0 <= i < |todo| ::
          && todo[i].id in jobs
          && jobs[todo[i].id].action == todo[i].job.action && jobs[todo[i].id].foreignId == todo[i].job.foreignId
          && todo[i].job.times == 0)
    && (forall i, j | 0 <= i < j < |todo| :: todo[i].id != todo[j].id)
  }

  /** No failed attempt is ever counted, because the last online state is compared and never assigned. */
  predicate NothingCounted(s: State) {
    !s.lastOnline && forall id | id in s.jobs :: s.jobs[id].times == 0
  }

  predicate RowsHold(s: State) {
    NothingCounted(s) && SelectionHolds(Todo(s.smtp), s.jobs)
  }

  lemma RowsHoldKept(s: State, a: Action)
    requires RowsHold(s) && Enabled(s, a)
    ensures RowsHold(Step(s, a))
  {
    hide IsSelection, Concluded, SelectionHolds;
    match a
    case Conclude(online) => ConcludeHolds(s, online);
    case Select(rows) => SelectedHold(s, rows);
    case AddJob(id, _, _, _) => AddedHolds(Todo(s.smtp), s.jobs, id, Step(s, a).jobs[id]);
    case _ =>
      SelectedHold(s, []);
      JobsUntouched(s, a);
      hide Step;
  }

  lemma JobsUntouched(s: State, a: Action)
    requires Enabled(s, a) && !a.Conclude? && !a.Select? && !a.AddJob?
    ensures var t := Step(s, a);
            && t.jobs == s.jobs && t.lastOnline == s.lastOnline
            && (Todo(t.smtp) == Todo(s.smtp) || Todo(t.smtp) == [])
  {
    hide TryRow, IdleEntered, IdleLoop, Interrupted;
  }

  lemma AddedHolds(todo: seq<Row>, jobs: map<nat, Job>, id: nat, job: Job)
    requires SelectionHolds(todo, jobs) && id !in jobs
    ensures SelectionHolds(todo, jobs[id := job])
  {
  }

  lemma ConcludeHolds(s: State, online: bool)
    requires RowsHold(s) && Enabled(s, Conclude(online))
    ensures RowsHold(Concluded(s, online))
  {
    hide Recorded;
    var row := s.smtp.todo[0];
    assert CountedTries(row.job.times, s.lastOnline, online) == 0;
  }

  lemma SelectedHold(s: State, rows: seq<Row>)
    requires NothingCounted(s) && (rows == [] || IsSelection(rows, s.jobs, s.now))
    ensures SelectionHolds(rows, s.jobs)
  {
  }

  // ----- Every pending message has a job ---------------------------------------------------------

  predicate Finished(pc: SmtpPc, id: nat) {
    pc.Judged? && pc.again == DontTryAgain && pc.todo != [] && pc.todo[0].id == id
  }

  /** The row `id` will still send the message `m`. */
  predicate Carries(s: State, id: nat, m: nat) {
    id in s.jobs && s.jobs[id].action == SendMsg && s.jobs[id].foreignId == m && !Finished(s.smtp, id)
  }

  ghost predicate HasJob(s: State, m: nat) {
    exists id :: Carries(s, id, m)
  }

  ghost predicate NothingStuck(s: State) {
    forall m | m in s.msgs && s.msgs[m] == Pending :: m > LAST_SPECIAL_MSG && (m in s.senders || HasJob(s, m))
  }

  /** An attempt at the only job of a pending message that reaches the server but finds no account address. */
  ghost predicate DropsJob(s: State, a: Action)
    requires Enabled(s, a)
  {
    a.Try? && a.c.connected && !a.c.fromAddr && s.smtp.todo[0].job.action == SendMsg
    && var row := s.smtp.todo[0];
       var m := row.job.foreignId;
       m in s.msgs && s.msgs[m] == Pending && m !in s.senders && forall id | Carries(s, id, m) :: id == row.id
  }

  /** A step leaves a pending message without a job exactly if it drops its job. */
  lemma NothingStuckIff(s: State, a: Action)
    requires RowsHold(s) && NothingStuck(s) && Enabled(s, a)
    ensures NothingStuck(Step(s, a)) <==> !DropsJob(s, a)
  {
    var t := Step(s, a);
    if DropsJob(s, a) {
      var m := s.smtp.todo[0].job.foreignId;
      assert m in t.msgs && t.msgs[m] == Pending && m !in t.senders;
      forall id | Carries(t, id, m) ensures false {
        assert Carries(s, id, m);
      }
    } else {
      forall m | m in t.msgs && t.msgs[m] == Pending ensures m > LAST_SPECIAL_MSG && (m in t.senders || HasJob(t, m)) {
        PendingCarried(s, a, m);
      }
    }
  }

  lemma PendingCarried(s: State, a: Action, m: nat)
    requires RowsHold(s) && NothingStuck(s) && Enabled(s, a) && !DropsJob(s, a)
    requires m in Step(s, a).msgs && Step(s, a).msgs[m] == Pending
    ensures m > LAST_SPECIAL_MSG && (m in Step(s, a).senders || HasJob(Step(s, a), m))
  {
    PendingBefore(s, a, m);
    hide TryRow, Concluded, IsSelection, IdleEntered, IdleLoop, Interrupted;
    var t := Step(s, a);
    if a.AddJob? && a.action == SendMsg && a.m == m {
      assert Carries(t, a.id, m);
    } else if m !in t.senders {
      if a.Try? {
        CarriedThroughTry(s, a, m);
      } else {
        CarriedThroughOther(s, a, m);
      }
    }
  }

  lemma PendingBefore(s: State, a: Action, m: nat)
    requires Enabled(s, a) && m in Step(s, a).msgs && Step(s, a).msgs[m] == Pending
    ensures a == InsertMsg(m) || (m in s.msgs && s.msgs[m] == Pending)
  {
    hide IsSelection, IdleEntered, IdleLoop, Interrupted;
  }

  lemma CarriedThroughOther(s: State, a: Action, m: nat)
    requires RowsHold(s) && NothingStuck(s) && !a.Try? && Enabled(s, a)
    requires m in Step(s, a).msgs && Step(s, a).msgs[m] == Pending && m !in Step(s, a).senders && m !in s.senders
    ensures HasJob(Step(s, a), m)
  {
    PendingBefore(s, a, m);
    hide TryRow, IsSelection, IdleEntered, IdleLoop, Interrupted;
    var id :| Carries(s, id, m);
    if a.Conclude? {
      CarriedThroughConclude(s, a.online, id, m);
    } else {
      hide Concluded;
      assert Carries(Step(s, a), id, m);
    }
  }

  lemma CarriedThroughConclude(s: State, online: bool, id: nat, m: nat)
    requires RowsHold(s) && Enabled(s, Conclude(online)) && Carries(s, id, m)
    ensures Carries(Concluded(s, online), id, m)
  {
    hide Recorded;
    assert CountedTries(s.smtp.todo[0].job.times, s.lastOnline, online) == 0;
  }

  lemma CarriedThroughTry(s: State, a: Action, m: nat)
    requires RowsHold(s) && NothingStuck(s) && a.Try? && Enabled(s, a) && !DropsJob(s, a)
    requires m in Step(s, a).msgs && Step(s, a).msgs[m] == Pending && m !in s.senders
    ensures HasJob(Step(s, a), m)
  {
    var t := Step(s, a);
    var row := s.smtp.todo[0];
    assert m in s.msgs && s.msgs[m] == Pending;
    var id :| Carries(s, id, m);
    if Carries(t, id, m) {
    } else {
      assert id == row.id && row.job.action == SendMsg && row.job.foreignId == m;
      assert a.c.connected && !a.c.fromAddr;
      var other :| Carries(s, other, m) && other != row.id;
      assert Carries(t, other, m);
    }
  }

  /** No step of the run drops the job of a message. */
  ghost predicate DropsNoJob(run: seq<Action>, s: State)
    requires IsRun(run, s)
  {
    run == [] || (!DropsJob(s, run[0]) && DropsNoJob(run[1..], Step(s, run[0])))
  }

  ghost predicate NothingStuckThroughout(run: seq<Action>, s: State)
    requires IsRun(run, s)
  {
    NothingStuck(s) && (run != [] ==> NothingStuckThroughout(run[1..], Step(s, run[0])))
  }

  /** Through a whole run every pending message has its sender or a job, exactly if no step of the run drops a job. */
  lemma {:induction false} NothingStuckThroughoutIff(run: seq<Action>, s: State)
    requires IsRun(run, s) && RowsHold(s) && NothingStuck(s)
    ensures NothingStuckThroughout(run, s) <==> DropsNoJob(run, s)
    ensures DropsNoJob(run, s) ==> RowsHold(After(run, s)) && NothingStuck(After(run, s))
  {
    hide RowsHold, NothingStuck, Enabled, Step, DropsJob;
    if run != [] {
      RowsHoldKept(s, run[0]);
      NothingStuckIff(s, run[0]);
      if !DropsJob(s, run[0]) {
        NothingStuckThroughoutIff(run[1..], Step(s, run[0]));
      } else {
        assert !NothingStuckThroughout(run[1..], Step(s, run[0]));
      }
    }
  }

  /** In every run that drops no job every pending message is still in the hands of its sender or has a job row that
      will send it. */
  lemma NoStuckMessage(run: seq<Action>, m: nat)
    requires IsRun(run, INITIAL) && DropsNoJob(run, INITIAL)
    requires var s := After(run, INITIAL); m in s.msgs && s.msgs[m] == Pending && m !in s.senders
    ensures HasJob(After(run, INITIAL), m)
  {
    NothingStuckThroughoutIff(run, INITIAL);
  }

  /** With the account address configured whenever a message is to be sent, no job is dropped. */
  lemma {:induction false} ConfiguredDropsNoJob(run: seq<Action>, s: State)
    requires IsRun(run, s) && forall a | a in run :: a.Try? ==> a.c.fromAddr
    ensures DropsNoJob(run, s)
  {
    if run != [] {
      assert run[0] in run && forall a | a in run[1..] :: a in run;
      ConfiguredDropsNoJob(run[1..], Step(s, run[0]));
    }
  }

  lemma {:induction false} RowsHoldAlways(run: seq<Action>, s: State)
    requires IsRun(run, s) && RowsHold(s)
    ensures RowsHold(After(run, s))
  {
    hide RowsHold, Enabled, Step;
    if run != [] {
      RowsHoldKept(s, run[0]);
      RowsHoldAlways(run[1..], Step(s, run[0]));
    }
  }

  /** A job that asked for another attempt is never given up: its row stays, in every run. */
  lemma NeverGivenUp(run: seq<Action>, online: bool)
    requires IsRun(run, INITIAL)
    requires var s := After(run, INITIAL); s.smtp.Judged? && s.smtp.todo != [] && s.smtp.again != DontTryAgain
    ensures var s := After(run, INITIAL);
            var t := Step(s, Conclude(online));
            && s.smtp.todo[0].id in t.jobs && t.msgs == s.msgs
            && (s.smtp.again != IncreationPoll ==> t.jobs[s.smtp.todo[0].id].desired == 0)
  {
    RowsHoldAlways(run, INITIAL);
  }

  lemma DeliveredByAttempt(s: State, a: Action, m: nat)
    requires Enabled(s, a) && (m in s.msgs ==> s.msgs[m] != Delivered)
    requires m in Step(s, a).msgs && Step(s, a).msgs[m] == Delivered
    ensures SendsNow(s, a, m)
  {
  }

  /** An attempt at a job of the message that the server takes, encrypted if that was guaranteed, or that has nobody to
      send to. */
  predicate SendsNow(s: State, a: Action, m: nat) {
    && a.Try? && s.smtp.Trying? && s.smtp.todo != []
    && s.smtp.todo[0].job.action == SendMsg && s.smtp.todo[0].job.foreignId == m
    && a.c.connected && a.c.fromAddr && !a.c.increation
    && (a.c.recipients ==> a.c.rendered && !a.c.e2eeBroken && a.c.sent)
  }

  /** What an attempt records about the message of its job: delivered exactly if the server took the mail, or there is
      nobody to send to; failed exactly if it cannot be rendered, or not with the encryption it needs, or the mailbox of
      the recipient is full; in all other cases, and for a receipt, nothing. */
  lemma AttemptRecords(s: State, c: Circumstances)
    requires Enabled(s, Try(c))
    ensures var job := s.smtp.todo[0].job;
            var m := job.foreignId;
            var reaches := job.action == SendMsg && m > 9 && m in s.msgs && c.connected && c.fromAddr && !c.increation;
            Step(s, Try(c)).msgs
            == if reaches && (!c.recipients || (c.rendered && !c.e2eeBroken && c.sent)) then s.msgs[m := Delivered]
               else if reaches && (!c.rendered || c.e2eeBroken || c.storageFull) then s.msgs[m := Failed]
               else s.msgs
  {
  }

  /** A sent message is recorded as delivered. */
  lemma SentIsDelivered(s: State, a: Action, m: nat)
    requires Enabled(s, a) && SendsNow(s, a, m) && m in s.msgs && m > LAST_SPECIAL_MSG
    ensures Step(s, a).msgs == s.msgs[m := Delivered]
  {
    AttemptRecords(s, a.c);
  }

  /** No other step touches the state of a message, but for inserting and removing it. */
  lemma OnlyAttemptsRecord(s: State, a: Action, m: nat)
    requires RowsHold(s) && Enabled(s, a) && !a.Try?
    ensures Step(s, a).msgs
            == match a
               case InsertMsg(m) => s.msgs[m := Pending]
               case RemoveMsg(m) => s.msgs - {m}
               case _ => s.msgs
  {
    if a.Conclude? {
      assert CountedTries(s.smtp.todo[0].job.times, s.lastOnline, a.online) == 0;
    }
  }

  /** Whether the attempt found everything it needs but the server did not take the mail. */
  predicate Refused(msgs: map<nat, MsgState>, job: Job, c: Circumstances) {
    c.connected && c.rendered && !c.sent
    && (job.action == SendMsg ==>
          job.foreignId > 9 && job.foreignId in msgs && c.fromAddr && !c.increation && c.recipients && !c.e2eeBroken
          && !c.storageFull)
  }

  predicate WaitsForFile(msgs: map<nat, MsgState>, job: Job, c: Circumstances) {
    job.action == SendMsg && job.foreignId > 9 && job.foreignId in msgs && c.connected && c.fromAddr && c.increation
  }

  /** A refused mail is tried once more at once. After the last attempt the row of the job stays exactly if there was no
      connection, the file of the message is not complete, or the mail was refused again, and then it is tried again in
      the next round, after a pause if the host is online; only for an incomplete file the time of the row stays and
      there is no pause. */
  lemma AttemptEnds(s: State, c: Circumstances, online: bool)
    requires RowsHold(s) && Enabled(s, Try(c))
    ensures var row, t := s.smtp.todo[0], Step(s, Try(c));
            var waits := WaitsForFile(s.msgs, row.job, c);
            if Refused(s.msgs, row.job, c) && s.smtp.tries == 0 then t.smtp == Trying(s.smtp.todo, 1) && t.jobs == s.jobs
            else
              && Enabled(t, Conclude(online)) && var u := Step(t, Conclude(online));
              && (row.id in u.jobs <==> !c.connected || waits || Refused(s.msgs, row.job, c))
              && (row.id in u.jobs ==>
                    u.jobs[row.id] == s.jobs[row.id].(desired := if waits then s.jobs[row.id].desired else 0))
              && u.smtp == (if online && row.id in u.jobs && !waits then Pausing(s.smtp.todo[1..])
                            else Trying(s.smtp.todo[1..], 0))
              && forall id | id != row.id :: (id in u.jobs <==> id in s.jobs) && (id in s.jobs ==> u.jobs[id] == s.jobs[id])
  {
    var row, t := s.smtp.todo[0], Step(s, Try(c));
    assert s.jobs[row.id].times == 0 && s.smtp.todo[0].job.times == 0 && row.id in s.jobs;
    assert CountedTries(0, s.lastOnline, online) == 0;
  }

  /** The branch that would give a job up, on any state: a failed attempt that is worth retrying is counted if the last one
      was made online too and the host is online, and forgiven otherwise; at five counted failures the row goes and its
      message is failed, below that the row stays with the new count. */
  lemma GivesUpIff(s: State, online: bool)
    requires Enabled(s, Conclude(online)) && (s.smtp.again == TryAtOnce || s.smtp.again == StandardDelay)
    requires s.smtp.todo[0].id in s.jobs
    ensures var row, t := s.smtp.todo[0], Step(s, Conclude(online));
            var counted := if s.lastOnline && online then row.job.times + 1 else if row.job.times == 0 then 0 else row.job.times - 1;
            if counted >= 5 then
              && t.jobs == s.jobs - {row.id} && t.smtp == Trying(s.smtp.todo[1..], 0)
              && t.msgs == (if row.job.action == SendMsg && row.job.foreignId in s.msgs then s.msgs[row.job.foreignId := Failed]
                            else s.msgs)
            else
              && t.jobs == s.jobs[row.id := s.jobs[row.id].(desired := 0, times := counted)] && t.msgs == s.msgs
              && (t.smtp.Pausing? <==> online && counted < 4)
  {
  }

  /** A message that is delivered at the end of a run was sent in some step of it. */
  lemma {:induction false} DeliveredMeansSent(run: seq<Action>, s: State, m: nat) returns (k: nat)
    requires IsRun(run, s) && (m in s.msgs ==> s.msgs[m] != Delivered)
    requires m in After(run, s).msgs && After(run, s).msgs[m] == Delivered
    ensures k < |run| && IsRun(run[..k], s) && SendsNow(After(run[..k], s), run[k], m)
  {
    hide Enabled, Step, SendsNow;
    var t := Step(s, run[0]);
    if m in t.msgs && t.msgs[m] == Delivered {
      DeliveredByAttempt(s, run[0], m);
      k := 0;
    } else {
      k := DeliveredMeansSent(run[1..], t, m);
      k := k + 1;
      assert run[..k][1..] == run[1..][..k - 1];
    }
  }

  // ----- Exactly one job -------------------------------------------------------------------------

  predicate IsJobOf(s: State, id: nat, m: nat) {
    id in s.jobs && s.jobs[id].action == SendMsg && s.jobs[id].foreignId == m
  }

  /** No two rows are jobs of the same message. */
  predicate AtMostOneJob(s: State) {
    forall i, j | i in s.jobs && j in s.jobs && i != j && s.jobs[i].action == SendMsg ::
      !IsJobOf(s, j, s.jobs[i].foreignId)
  }

  /** What keeps it so: a message whose sender is still to add the job has no job yet, and only one sender. */
  predicate SendersApart(s: State) {
    && (forall m | m in s.senders :: s.senders[m] == 1)
    && (forall i | i in s.jobs && s.jobs[i].action == SendMsg :: s.jobs[i].foreignId !in s.senders)
  }

  predicate JobsApart(s: State) {
    AtMostOneJob(s) && SendersApart(s)
  }

  /** The id given to a new message is not one for which an old job or sender is still around. The table hands out
      the id of a deleted last message again. */
  predicate FreshId(s: State, a: Action) {
    a.InsertMsg? ==> a.m !in s.senders && forall id | id in s.jobs :: !IsJobOf(s, id, a.m)
  }

  predicate FreshRun(run: seq<Action>, s: State)
    requires IsRun(run, s)
  {
    run == [] || (FreshId(s, run[0]) && FreshRun(run[1..], Step(s, run[0])))
  }

  lemma JobsApartAmongFewer(s: State, t: State)
    requires JobsApart(s) && t.senders == s.senders
    requires forall id | id in t.jobs ::
               id in s.jobs && t.jobs[id].action == s.jobs[id].action && t.jobs[id].foreignId == s.jobs[id].foreignId
    ensures JobsApart(t)
  {
  }

  lemma JobsApartAfterAdd(s: State, a: Action)
    requires JobsApart(s) && a.AddJob? && Enabled(s, a)
    ensures JobsApart(Step(s, a))
  {
    var t := Step(s, a);
    assert forall m | m in t.senders :: m in s.senders && t.senders[m] == s.senders[m];
    assert a.action == SendMsg ==> a.m !in t.senders;
  }

  lemma JobsApartKept(s: State, a: Action)
    requires JobsApart(s) && Enabled(s, a) && FreshId(s, a)
    ensures JobsApart(Step(s, a))
  {
    var t := Step(s, a);
    if a.AddJob? {
      JobsApartAfterAdd(s, a);
    } else if a.InsertMsg? {
      assert forall m | m in t.senders && m != a.m :: m in s.senders && t.senders[m] == s.senders[m];
    } else {
      hide JobsApart, FreshId;
      JobsApartAmongFewer(s, t);
    }
  }

  lemma {:induction false} JobsApartAlways(run: seq<Action>, s: State)
    requires IsRun(run, s) && JobsApart(s) && FreshRun(run, s)
    ensures JobsApart(After(run, s))
  {
    hide JobsApart, FreshId, Enabled, Step;
    if run != [] {
      JobsApartKept(s, run[0]);
      JobsApartAlways(run[1..], Step(s, run[0]));
    }
  }

  /** However the run goes on, as long as the further messages get fresh ids, no message gets two job rows. */
  ghost predicate StaysSingle(s: State) {
    forall more: seq<Action> | IsRun(more, s) && FreshRun(more, s) :: AtMostOneJob(After(more, s))
  }

  lemma {:induction false} UnusedIdAmong(ids: set<nat>) returns (id: nat)
    ensures forall x | x in ids :: x < id
  {
    if ids == {} {
      id := 0;
    } else {
      var x :| x in ids;
      var above := UnusedIdAmong(ids - {x});
      id := if x < above then above else x + 1;
      assert forall y | y in ids :: y == x || y in ids - {x};
    }
  }

  /** The sender of `m` adds its job under an unused row id. */
  lemma SenderAddsJob(run: seq<Action>, s: State, m: nat) returns (longer: seq<Action>, id: nat)
    requires IsRun(run, s) && FreshRun(run, s) && m in After(run, s).senders
    ensures IsRun(longer, s) && FreshRun(longer, s)
    ensures var t, u := After(run, s), After(longer, s);
            && id !in t.jobs && IsJobOf(u, id, m) && u.senders == t.senders - multiset{m}
            && forall i | i in t.jobs :: i in u.jobs && u.jobs[i] == t.jobs[i]
  {
    id := UnusedIdAmong(After(run, s).jobs.Keys);
    var add := AddJob(id, SendMsg, m, 0);
    RunExtended(run, s, add);
    FreshRunExtended(run, s, add);
    longer := run + [add];
  }

  lemma {:induction false} FreshRunExtended(run: seq<Action>, s: State, a: Action)
    requires IsRun(run, s) && FreshRun(run, s) && Enabled(After(run, s), a) && FreshId(After(run, s), a)
    ensures IsRun(run + [a], s) && FreshRun(run + [a], s)
  {
    hide Enabled, Step, FreshId;
    RunExtended(run, s, a);
    if run == [] {
      assert [] + [a] == [a];
      assert [a][1..] == [];
    } else {
      assert (run + [a])[1..] == run[1..] + [a];
      FreshRunExtended(run[1..], Step(s, run[0]), a);
    }
  }

  /** After an id that is not fresh, one or two senders that add their jobs make two rows for one message. */
  lemma StaleIdMakesTwoJobs(s: State, a: Action) returns (more: seq<Action>)
    requires JobsApart(s) && Enabled(s, a) && !FreshId(s, a)
    ensures IsRun(more, Step(s, a)) && FreshRun(more, Step(s, a)) && !AtMostOneJob(After(more, Step(s, a)))
  {
    hide IsRun, FreshRun, After;
    var t := Step(s, a);
    var m := a.m;
    NothingTaken(t);
    var id;
    more, id := SenderAddsJob([], t, m);
    if m in s.senders {
      var second;
      more, second := SenderAddsJob(more, t, m);
      assert IsJobOf(After(more, t), id, m);
    } else {
      var old_ :| old_ in s.jobs && IsJobOf(s, old_, m);
      assert IsJobOf(After(more, t), old_, m);
    }
  }

  lemma NothingTaken(s: State)
    ensures IsRun([], s) && FreshRun([], s) && After([], s) == s
  {
  }

  lemma FreshIdIff(s: State, a: Action)
    requires JobsApart(s) && Enabled(s, a)
    ensures StaysSingle(Step(s, a)) <==> FreshId(s, a)
  {
    hide IsRun, FreshRun, After, JobsApart, FreshId, Step;
    if FreshId(s, a) {
      JobsApartKept(s, a);
      forall more: seq<Action> | IsRun(more, Step(s, a)) && FreshRun(more, Step(s, a))
        ensures AtMostOneJob(After(more, Step(s, a)))
      {
        JobsApartAlways(more, Step(s, a));
        ApartMeansOne(After(more, Step(s, a)));
      }
    } else {
      var more := StaleIdMakesTwoJobs(s, a);
    }
  }

  lemma ApartMeansOne(s: State)
    requires JobsApart(s)
    ensures AtMostOneJob(s)
  {
  }

  ghost predicate StaysSingleThroughout(run: seq<Action>, s: State)
    requires IsRun(run, s)
  {
    StaysSingle(s) && (run != [] ==> StaysSingleThroughout(run[1..], Step(s, run[0])))
  }

  lemma ApartStaysSingle(s: State)
    requires JobsApart(s)
    ensures StaysSingle(s)
  {
    hide IsRun, FreshRun, After, JobsApart;
    forall more: seq<Action> | IsRun(more, s) && FreshRun(more, s) ensures AtMostOneJob(After(more, s)) {
      JobsApartAlways(more, s);
      ApartMeansOne(After(more, s));
    }
  }

  /** At every point of a run no way to go on makes two jobs of one message, exactly if every message of the run got a
      fresh id. */
  lemma {:induction false} StaysSingleThroughoutIff(run: seq<Action>, s: State)
    requires IsRun(run, s) && JobsApart(s)
    ensures StaysSingleThroughout(run, s) <==> FreshRun(run, s)
  {
    hide JobsApart, FreshId, Enabled, Step, StaysSingle;
    ApartStaysSingle(s);
    if run != [] {
      FreshIdIff(s, run[0]);
      if FreshId(s, run[0]) {
        JobsApartKept(s, run[0]);
        StaysSingleThroughoutIff(run[1..], Step(s, run[0]));
      } else {
        assert !StaysSingleThroughout(run[1..], Step(s, run[0]));
      }
    }
  }

  /** With fresh ids every pending message has exactly one job row once its sender is done. */
  lemma ExactlyOneJob(run: seq<Action>, m: nat)
    requires IsRun(run, INITIAL) && DropsNoJob(run, INITIAL) && FreshRun(run, INITIAL)
    requires var s := After(run, INITIAL); m in s.msgs && s.msgs[m] == Pending && m !in s.senders
    ensures var s := After(run, INITIAL);
            exists id :: IsJobOf(s, id, m) && forall other | other in s.jobs && IsJobOf(s, other, m) :: other == id
  {
    var s := After(run, INITIAL);
    NothingStuckThroughoutIff(run, INITIAL);
    JobsApartAlways(run, INITIAL);
    var id :| Carries(s, id, m);
    assert IsJobOf(s, id, m);
  }

  /** The row of a sending job disappears only when the fate of its message is recorded, or the message is gone. */
  lemma JobEndsWithRecord(run: seq<Action>, a: Action, id: nat)
    requires IsRun(run, INITIAL) && DropsNoJob(run, INITIAL) && FreshRun(run, INITIAL)
    requires var s := After(run, INITIAL); Enabled(s, a) && id in s.jobs && s.jobs[id].action == SendMsg
    requires id !in Step(After(run, INITIAL), a).jobs
    ensures var s := After(run, INITIAL);
            var m := s.jobs[id].foreignId;
            m !in s.msgs || s.msgs[m] == Delivered || s.msgs[m] == Failed
  {
    var s := After(run, INITIAL);
    NothingStuckThroughoutIff(run, INITIAL);
    JobsApartAlways(run, INITIAL);
    assert Finished(s.smtp, id);
    var m := s.jobs[id].foreignId;
    assert forall other :: !Carries(s, other, m);
    assert !HasJob(s, m) && m !in s.senders;
  }

  /** Without a fresh id the new message inherits the job of a deleted one and has two. */
  lemma InheritedJob() returns (run: seq<Action>)
    ensures IsRun(run, INITIAL)
    ensures var s := After(run, INITIAL);
            10 in s.msgs && s.msgs[10] == Pending && IsJobOf(s, 1, 10) && IsJobOf(s, 2, 10)
  {
    hide After, IsRun;
    var s := INITIAL;
    run := [];
    EmptyRun();
    run, s := Extend(run, s, InsertMsg(10));
    run, s := Extend(run, s, AddJob(1, SendMsg, 10, 0));
    run, s := Extend(run, s, RemoveMsg(10));
    run, s := Extend(run, s, InsertMsg(10));
    run, s := Extend(run, s, AddJob(2, SendMsg, 10, 0));
  }

  /** Without a configured address the job ends while the message stays pending. */
  lemma StuckWithoutAddress() returns (run: seq<Action>)
    ensures IsRun(run, INITIAL)
    ensures var s := After(run, INITIAL); 10 in s.msgs && s.msgs[10] == Pending && 10 !in s.senders && s.jobs == map[]
  {
    hide After, IsRun;
    var s := INITIAL;
    run := [];
    EmptyRun();
    run, s := Extend(run, s, InsertMsg(10));
    run, s := Extend(run, s, AddJob(1, SendMsg, 10, 0));
    run, s := Extend(run, s, ClearNeeded);
    run, s := Extend(run, s, Select([Row(1, Job(SendMsg, 10, 0, 0, 0))]));
    run, s := Extend(run, s, Try(Circumstances(true, false, false, true, true, false, true, false)));
    run, s := Extend(run, s, Conclude(true));
    assert s.jobs == map[];
  }
}
