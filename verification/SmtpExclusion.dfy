/** What the suspend handshake and the wake-up flags guarantee, for all interleavings. */
module SmtpExclusion {
  import opened SmtpThread

  // ----- Mutual exclusion ------------------------------------------------------------------------

  predicate InIdle(pc: SmtpPc) {
    pc.Waiting? || pc.Spinning?
  }

  predicate Handshake(s: State) {
    && (s.flags.inIdleing <==> InIdle(s.smtp))
    && (s.flags.suspend <==> !s.imapPc.Normal?)
    && (s.imapPc.Exclusive? ==> s.flags.inIdleing)
    && (s.smtp.Spinning? ==> s.flags.suspend && s.flags.condflag)
  }

  lemma HandshakeKept(s: State, a: Action)
    requires Handshake(s) && Enabled(s, a)
    ensures Handshake(Step(s, a))
  {
  }

  lemma {:induction false} HandshakeAlways(run: seq<Action>, s: State)
    requires Handshake(s) && IsRun(run, s)
    ensures Handshake(After(run, s))
  {
    if run != [] {
      HandshakeKept(s, run[0]);
      HandshakeAlways(run[1..], Step(s, run[0]));
    }
  }

  /** The steps of `dc_perform_smtp_jobs()`. */
  predicate PerformsSmtpJobs(a: Action) {
    a.ClearNeeded? || a.Select? || a.Try? || a.Conclude? || a.AskForPause? || a.EndJobs?
  }

  /** From the return of the suspending call until suspension ends, the SMTP thread takes no step of its jobs: no
      such step is possible, nor does any other step bring it out of the idle function. */
  lemma ExclusiveJobRunsAlone(run: seq<Action>, a: Action)
    requires IsRun(run, INITIAL)
    requires After(run, INITIAL).imapPc.Exclusive? && Enabled(After(run, INITIAL), a)
    ensures !PerformsSmtpJobs(a) && !a.EnterIdle?
    ensures InIdle(After(run, INITIAL).smtp)
    ensures !a.Resume? ==> Step(After(run, INITIAL), a).imapPc.Exclusive? && InIdle(Step(After(run, INITIAL), a).smtp)
  {
    HandshakeAlways(run, INITIAL);
    HandshakeKept(After(run, INITIAL), a);
  }

  /** The other way round: a suspending call does not return while the SMTP thread performs jobs. */
  lemma SuspendWaitsForJobs(run: seq<Action>)
    requires IsRun(run, INITIAL) && Enabled(After(run, INITIAL), PollIdle)
    ensures Step(After(run, INITIAL), PollIdle).imapPc.Exclusive? <==> After(run, INITIAL).smtp.Waiting?
  {
    HandshakeAlways(run, INITIAL);
  }

  // ----- No lost wake-up -------------------------------------------------------------------------

  predicate AboutToSelect(pc: SmtpPc) {
    pc.Returned? || pc.Cleared?
  }

  /** A job row is known to the last selection, or its adder still has to interrupt the idle function, or the flag
      is set, or the next selection comes before the next wait. */
  predicate Noticed(s: State, id: nat) {
    id in s.seen || id in s.unsignalled || s.flags.condflag || AboutToSelect(s.smtp)
  }

  predicate AllNoticed(s: State) {
    && s.seen <= s.jobs.Keys
    && s.unsignalled <= s.jobs.Keys
    && forall id | id in s.jobs :: Noticed(s, id)
  }

  lemma NoticedKept(s: State, a: Action)
    requires AllNoticed(s) && Enabled(s, a)
    ensures AllNoticed(Step(s, a))
  {
  }

  lemma {:induction false} NoticedAlways(run: seq<Action>, s: State)
    requires AllNoticed(s) && IsRun(run, s)
    ensures AllNoticed(After(run, s))
  {
    if run != [] {
      NoticedKept(s, run[0]);
      NoticedAlways(run[1..], Step(s, run[0]));
    }
  }

  /** The thread is never blocked in the timed wait with the flag unset while there is a job row, due or not, whose
      `dc_job_add()` was completed after the last selection. */
  lemma NoLostWakeup(run: seq<Action>)
    requires IsRun(run, INITIAL)
    ensures var s := After(run, INITIAL);
            s.smtp.Waiting? && !s.flags.condflag ==> forall id | id in s.jobs && id !in s.unsignalled :: id in s.seen
  {
    NoticedAlways(run, INITIAL);
  }

  /** With such a row the idle function does not even begin to wait, unless the thread is suspended. */
  lemma NoWaitWithNewJob(run: seq<Action>, id: nat)
    requires IsRun(run, INITIAL)
    requires var s := After(run, INITIAL);
             s.smtp.JobsDone? && !s.flags.suspend && id in s.jobs && id !in s.unsignalled && id !in s.seen
    ensures var s := After(run, INITIAL);
            Enabled(s, EnterIdle) && Step(s, EnterIdle).smtp.Returned?
  {
    NoticedAlways(run, INITIAL);
  }

  const MDN := Job(SendMdn, 0, 0, 0, 0)

  /** A run to the point where the thread failed to send a first job. */
  lemma FirstJobFails() returns (run: seq<Action>)
    ensures IsRun(run, INITIAL)
    ensures After(run, INITIAL) == State(Flags(NotNeeded, true, false, false), Judged([Row(1, MDN)], StandardDelay),
                                         Normal, map[1 := MDN], map[], multiset{}, {}, {1}, false, 0)
  {
    hide After, IsRun;
    var s := INITIAL;
    run := [];
    EmptyRun();
    run, s := Extend(run, s, AddJob(1, SendMdn, 0, 0));
    run, s := Extend(run, s, Signal(1));
    run, s := Extend(run, s, ClearNeeded);
    run, s := Extend(run, s, Select([Row(1, MDN)]));
    run, s := Extend(run, s, Try(Circumstances(false, true, false, true, true, false, false, false)));
  }

  /** The needed-flag alone would lose wake-ups: a job that fails once more asks for a pause and with that overwrites
      the request to run at once, which came with a new job. Only the flag of the condition keeps the thread awake. */
  lemma NeededFlagIsNotEnough() returns (run: seq<Action>)
    ensures IsRun(run, INITIAL)
    ensures var s := After(run, INITIAL);
            && s.smtp.JobsDone? && s.flags.needed == AvoidDos && s.flags.condflag
            && (exists id :: id in s.jobs && s.jobs[id].desired <= s.now && id !in s.unsignalled && id !in s.seen)
            && IdleEntered(s.flags).1 == Leaves && IdleEntered(s.flags.(condflag := false)).1 == Waits
  {
    hide After, IsRun;
    run := FirstJobFails();
    var s := After(run, INITIAL);
    run, s := Extend(run, s, AddJob(2, SendMdn, 0, 0));
    run, s := Extend(run, s, Signal(2));
    run, s := Extend(run, s, Conclude(true));
    run, s := Extend(run, s, AskForPause);
    run, s := Extend(run, s, EndJobs);
    assert 2 in s.jobs && 2 !in s.seen;
  }

  // ----- What each step does to the flags --------------------------------------------------------

  /** The needed-flag: who asks for jobs at once, who takes the request back, who turns it into a pause. */
  lemma RequestAfter(s: State, a: Action)
    requires Enabled(s, a)
    ensures Step(s, a).flags.needed
            == if a.Signal? || a.Interrupt? then AtOnce
               else if a.ClearNeeded? || (a.PollIdle? && Step(s, a).imapPc.Exclusive?) then NotNeeded
               else if a.AskForPause? then AvoidDos
               else s.flags.needed
  {
  }

  /** The condition flag is set by an interrupt and consumed by the wake-up that leaves the idle function. */
  lemma ConditionAfter(s: State, a: Action)
    requires Enabled(s, a)
    ensures Step(s, a).flags.condflag
            <==> || a.Signal? || a.Interrupt?
                 || (s.flags.condflag
                     && !(Step(s, a).smtp.Returned? && (a.Wake? || (a.EnterIdle? && s.flags.needed != AtOnce))))
  {
  }

  /** Who still has to interrupt, which rows the last selection saw, and which messages wait for their sender. */
  lemma BookkeepingAfter(s: State, a: Action)
    requires AllNoticed(s) && Enabled(s, a)
    ensures var t := Step(s, a);
            && t.unsignalled
               == (s.unsignalled + (if a.AddJob? then {a.id} else {}) - (if a.Signal? then {a.id} else {})) * t.jobs.Keys
            && t.seen == (if a.Select? then s.jobs.Keys else s.seen) * t.jobs.Keys
            && t.senders
               == (if a.InsertMsg? then s.senders + multiset{a.m}
                   else if a.AddJob? && a.action == SendMsg then s.senders - multiset{a.m}
                   else s.senders)
            && t.now == (if a.Tick? then a.time else s.now)
  {
    hide TryRow, IsSelection, IdleEntered, IdleLoop, Interrupted, Noticed, Concluded;
    match a
    case Conclude(online) => ConcludedBookkeeping(s, online);
    case AddJob(id, _, _, _) => Restricted(s, id, {});
    case Signal(id) => Restricted(s, id, {id});
    case _ => Restricted(s, 0, {});
  }

  /** Intersecting with the rows that are there takes nothing away. */
  lemma Restricted(s: State, id: nat, gone: set<nat>)
    requires s.seen <= s.jobs.Keys && s.unsignalled <= s.jobs.Keys
    ensures s.seen * s.jobs.Keys == s.seen && s.jobs.Keys * s.jobs.Keys == s.jobs.Keys
    ensures (s.unsignalled + {} - gone) * s.jobs.Keys == s.unsignalled - gone
    ensures s.seen * (s.jobs.Keys + {id}) == s.seen
    ensures (s.unsignalled + {id} - {}) * (s.jobs.Keys + {id}) == s.unsignalled + {id}
  {
  }

  lemma ConcludedBookkeeping(s: State, online: bool)
    requires AllNoticed(s) && Enabled(s, Conclude(online))
    ensures var t := Concluded(s, online);
            t.unsignalled == s.unsignalled * t.jobs.Keys && t.seen == s.seen * t.jobs.Keys && t.senders == s.senders
            && t.now == s.now
  {
    hide Noticed, CountedTries, Recorded;
  }

  /** When the idle function returns: at once on a request, else on the condition or after the time, but never while
      suspended. */
  lemma IdleIff(s: State, a: Action)
    requires Enabled(s, a) && (a.EnterIdle? || a.Wake?)
    ensures var f, t := s.flags, Step(s, a);
            var called, timedOut := a.EnterIdle? && f.needed == AtOnce, a.Wake? && a.timedOut;
            && (t.smtp.Returned? <==> called || ((f.condflag || timedOut) && !f.suspend))
            && (t.smtp.Spinning? <==> !called && f.condflag && f.suspend)
            && (t.smtp.Waiting? <==> !called && !f.condflag && (timedOut ==> f.suspend))
            && t.jobs == s.jobs && t.seen == s.seen && t.imapPc == s.imapPc && t.flags.suspend == f.suspend
  {
  }

  /** The suspending thread: it sets the flag, waits for the idle mark, and takes the flag back. */
  lemma SuspensionAfter(s: State, a: Action)
    requires Handshake(s) && Enabled(s, a)
    ensures var t := Step(s, a);
            && (t.flags.suspend <==> a.SetSuspend? || (s.flags.suspend && !a.Resume?))
            && (t.imapPc.Exclusive? <==> (a.PollIdle? && s.flags.inIdleing) || (s.imapPc.Exclusive? && !a.Resume?))
            && (t.imapPc.Normal? <==> a.Resume? || (s.imapPc.Normal? && !a.SetSuspend?))
  {
  }

  /** Without due jobs and without a new interrupt the thread comes to rest: it waits after one empty round, whatever
      request brought it out of the idle function. */
  lemma RestsWithoutWork(s: State)
    requires s.smtp.Returned? && !s.flags.condflag && forall id | id in s.jobs :: s.jobs[id].desired > s.now
    ensures var round := [ClearNeeded, Select([]), EndJobs, EnterIdle];
            IsRun(round, s) && After(round, s).smtp.Waiting? && After(round, s).flags.inIdleing
  {
    var t := Step(s, ClearNeeded);
    var u := Step(t, Select([]));
    var v := Step(u, EndJobs);
    hide IsRun, After;
    RunFirst(EnterIdle, [], v);
    RunFirst(EndJobs, [EnterIdle], u);
    RunFirst(Select([]), [EndJobs, EnterIdle], t);
    RunFirst(ClearNeeded, [Select([]), EndJobs, EnterIdle], s);
  }

  lemma RunFirst(a: Action, rest: seq<Action>, s: State)
    requires Enabled(s, a) && IsRun(rest, Step(s, a))
    ensures IsRun([a] + rest, s) && After([a] + rest, s) == After(rest, Step(s, a))
  {
    assert ([a] + rest)[1..] == rest;
  }

  // ----- Selections ------------------------------------------------------------------------------

  /** A job becomes due when its delay is over, and from then on is in every selection; without a delay it is due at
      once. */
  lemma SelectedIff(s: State, id: nat, action: JobAction, m: nat, delay: int, rows: seq<Row>, time: int)
    requires Enabled(s, AddJob(id, action, m, delay)) && time >= 0
    requires IsSelection(rows, Step(s, AddJob(id, action, m, delay)).jobs, time)
    ensures (exists i :: 0 <= i < |rows| && rows[i].id == id) <==> delay <= 0 || time >= s.now + delay
  {
    var jobs := Step(s, AddJob(id, action, m, delay)).jobs;
    if jobs[id].desired <= time {
      assert Row(id, jobs[id]) in rows;
    }
  }

  /** A new job comes behind the jobs of its kind that were added before. */
  lemma NewJobComesLast(s: State, id: nat, action: JobAction, m: nat, delay: int, rows: seq<Row>, time: int, i: nat, j: nat)
    requires Enabled(s, AddJob(id, action, m, delay))
    requires IsSelection(rows, Step(s, AddJob(id, action, m, delay)).jobs, time)
    requires i < |rows| && j < |rows| && rows[j].id == id && rows[i].job.action == action && rows[i].job.added < s.now
    ensures i < j
  {
  }

  function Ids(rows: seq<Row>): (ids: set<nat>)
  {
    set row | row in rows :: row.id
  }

  lemma {:induction false} IdsOfDistinct(rows: seq<Row>)
    requires forall i, j | 0 <= i < j < |rows| :: rows[i].id != rows[j].id
    ensures |Ids(rows)| == |rows|
  {
    if rows == [] {
      assert Ids(rows) == {};
    } else {
      var n := |rows| - 1;
      IdsOfDistinct(rows[..n]);
      assert rows == rows[..n] + [rows[n]];
      assert Ids(rows) == Ids(rows[..n]) + {rows[n].id};
      assert rows[n].id !in Ids(rows[..n]);
    }
  }

  /** The order: messages before receipts, older rows before newer ones. */
  predicate Precedes(a: Job, b: Job) {
    (a.action == SendMsg && b.action == SendMdn) || (a.action == b.action && a.added < b.added)
  }

  lemma NoneBehindPrecedes(rows: seq<Row>, jobs: map<nat, Job>, now: int, i: nat, j: nat)
    requires IsSelection(rows, jobs, now) && i <= j < |rows|
    ensures !Precedes(rows[j].job, rows[i].job)
  {
  }

  lemma {:induction false} SmallerOrSame(a: set<nat>, b: set<nat>)
    requires a <= b
    ensures |a| <= |b|
  {
    if a != {} {
      var x :| x in a;
      SmallerOrSame(a - {x}, b - {x});
    }
  }

  lemma NotLater(rows: seq<Row>, others: seq<Row>, jobs: map<nat, Job>, now: int, i: nat)
    requires IsSelection(rows, jobs, now) && IsSelection(others, jobs, now) && i < |rows| && i < |others|
    ensures !Precedes(rows[i].job, others[i].job)
  {
    if Precedes(rows[i].job, others[i].job) {
      forall id | id in Ids(rows[..i + 1]) ensures id in Ids(others[..i]) {
        var row :| row in rows[..i + 1] && row.id == id;
        var k :| 0 <= k <= i && rows[k] == row;
        NoneBehindPrecedes(rows, jobs, now, k, i);
        assert row in others by {
          assert rows[k].id in jobs && jobs[rows[k].id] == rows[k].job && rows[k].job.desired <= now;
        }
        var l :| 0 <= l < |others| && others[l] == row;
        if l >= i {
          NoneBehindPrecedes(others, jobs, now, i, l);
          assert false;
        }
        assert others[..i][l] == row;
      }
      IdsOfDistinct(rows[..i + 1]);
      IdsOfDistinct(others[..i]);
      SmallerOrSame(Ids(rows[..i + 1]), Ids(others[..i]));
      assert false;
    }
  }

  lemma SameLength(rows: seq<Row>, others: seq<Row>, jobs: map<nat, Job>, now: int)
    requires IsSelection(rows, jobs, now) && IsSelection(others, jobs, now)
    ensures |rows| <= |others|
  {
    forall id | id in Ids(rows) ensures id in Ids(others) {
      var row :| row in rows && row.id == id;
      var k :| 0 <= k < |rows| && rows[k] == row;
      assert rows[k].id in jobs;
      assert row in others;
    }
    IdsOfDistinct(rows);
    IdsOfDistinct(others);
    SmallerOrSame(Ids(rows), Ids(others));
  }

  /** The table determines what is selected and in which order: two selections have the same actions, added at the same
      times, place by place, every message before every receipt. */
  lemma SelectionsAgree(rows: seq<Row>, others: seq<Row>, jobs: map<nat, Job>, now: int)
    requires IsSelection(rows, jobs, now) && IsSelection(others, jobs, now)
    ensures |rows| == |others|
    ensures forall i | 0 <= i < |rows| :: rows[i].job.action == others[i].job.action && rows[i].job.added == others[i].job.added
    ensures forall i, j | 0 <= i < j < |rows| && rows[j].job.action == SendMsg :: rows[i].job.action == SendMsg
  {
    hide IsSelection;
    SameLength(rows, others, jobs, now);
    SameLength(others, rows, jobs, now);
    forall i: nat | i < |rows|
      ensures rows[i].job.action == others[i].job.action && rows[i].job.added == others[i].job.added
    {
      NotLater(rows, others, jobs, now, i);
      NotLater(others, rows, jobs, now, i);
    }
    forall i: nat, j: nat | i < j < |rows| && rows[j].job.action == SendMsg ensures rows[i].job.action == SendMsg {
      NoneBehindPrecedes(rows, jobs, now, i, j);
    }
  }
}
