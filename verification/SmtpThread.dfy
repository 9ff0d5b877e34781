/** The SMTP thread, the part of the IMAP thread that suspends it, and everybody who adds SMTP jobs, as one state
    machine. A step is one section under the idle mutex, one SQL statement, or one attempt to perform a job. */
module SmtpThread {

  // ----- The flags behind the idle mutex ---------------------------------------------------------

  /** The values 0, DC_JOBS_NEEDED_AT_ONCE and DC_JOBS_NEEDED_AVOID_DOS. */
  datatype Needed = NotNeeded | AtOnce | AvoidDos

  datatype Flags = Flags(needed: Needed, condflag: bool, suspend: bool, inIdleing: bool)

  /** How the idle function goes on when it has the mutex: it returns, it gives the mutex back and waits for the
      condition, or it loops for ever with the mutex held, as it does when it is suspended with the flag set. */
  datatype Idle = Leaves | Waits | Spins

  function Interrupted(f: Flags): Flags {
    f.(needed := AtOnce, condflag := true)
  }

  /** The idle loop from its inner loop on; `timedOut` says that the wait before it timed out. */
  function IdleLoop(f: Flags, timedOut: bool): (Flags, Idle) {
    if !f.condflag && !timedOut then (f, Waits)
    else if f.suspend then (f, if f.condflag then Spins else Waits)
    else (f.(condflag := false, inIdleing := false), Leaves)
  }

  function IdleEntered(f: Flags): (Flags, Idle) {
    if f.needed == AtOnce then (f, Leaves) else IdleLoop(f.(inIdleing := true), false)
  }

  /** The sections under the idle mutex, on the fields of the context. */
  class Context {
    var needed: Needed
    var condflag: bool
    var suspend: bool
    var inIdleing: bool

    ghost function Value(): Flags
      reads this
    {
      Flags(needed, condflag, suspend, inIdleing)
    }

    method InterruptSmtpIdle()
      modifies this
      ensures Value() == Interrupted(old(Value()))
    {
      needed := AtOnce;
      condflag := true;
    }

    method SetNeeded(value: Needed)
      modifies this`needed
      ensures Value() == old(Value()).(needed := value)
    {
      needed := value;
    }

    method SetSuspend(value: bool)
      modifies this`suspend
      ensures Value() == old(Value()).(suspend := value)
    {
      suspend := value;
    }

    /** One look of `dc_suspend_smtp_thread()` at the idle state: it may only go on if the SMTP thread is idle. */
    method PollIdle() returns (suspended: bool)
      modifies this`needed
      ensures suspended == old(inIdleing)
      ensures Value() == if suspended then old(Value()).(needed := NotNeeded) else old(Value())
    {
      suspended := inIdleing;
      if suspended {
        needed := NotNeeded;
      }
    }

    /** `dc_perform_smtp_idle()` up to the wait for the condition. */
    method EnterIdle() returns (next: Idle)
      modifies this
      ensures (Value(), next) == IdleEntered(old(Value()))
    {
      if needed == AtOnce {
        return Leaves;
      }
      inIdleing := true;
      next := ContinueIdle(false);
    }

    /** `dc_perform_smtp_idle()` after a wait that ended with a signal, spuriously or with a time-out. */
    method ContinueIdle(timedOut: bool) returns (next: Idle)
      modifies this
      ensures (Value(), next) == IdleLoop(old(Value()), timedOut)
    {
      var r := timedOut;
      if !condflag && !r {
        return Waits;
      }
      if suspend {
        r := false;
        return if condflag then Spins else Waits;
      }
      condflag := false;
      inIdleing := false;
      next := Leaves;
    }
  }

  // ----- Jobs ------------------------------------------------------------------------------------

  datatype JobAction = SendMdn | SendMsg

  /** A row of the jobs table; `times` is the parameter that counts failed attempts. */
  datatype Job = Job(action: JobAction, foreignId: nat, added: int, desired: int, times: nat)

  datatype Row = Row(id: nat, job: Job)

  datatype MsgState = Pending | Failed | Delivered

  datatype TryAgain = DontTryAgain | TryAtOnce | StandardDelay | IncreationPoll

  const LAST_SPECIAL_MSG := 9
  const JOB_RETRIES := 5

  /** What an attempt finds: the connection, the account, the file, the recipients, the rendered mail and the server. */
  datatype Circumstances = Circumstances(connected: bool, fromAddr: bool, increation: bool, recipients: bool,
                                         rendered: bool, e2eeBroken: bool, sent: bool, storageFull: bool)

  function Recorded(msgs: map<nat, MsgState>, m: nat, state: MsgState): map<nat, MsgState> {
    if m in msgs then msgs[m := state] else msgs
  }

  /** One attempt to send a message: the message table behind it and whether to try again. */
  function TrySendMsg(msgs: map<nat, MsgState>, m: nat, c: Circumstances): (map<nat, MsgState>, TryAgain) {
    if !c.connected then (msgs, StandardDelay)
    else if m <= LAST_SPECIAL_MSG || m !in msgs || !c.fromAddr then (msgs, DontTryAgain)
    else if c.increation then (msgs, IncreationPoll)
    else if c.recipients && (!c.rendered || c.e2eeBroken) then (Recorded(msgs, m, Failed), DontTryAgain)
    else if c.recipients && !c.sent then
      if c.storageFull then (Recorded(msgs, m, Failed), DontTryAgain) else (msgs, TryAtOnce)
    else (Recorded(msgs, m, Delivered), DontTryAgain)
  }

  function TryRow(msgs: map<nat, MsgState>, job: Job, c: Circumstances): (map<nat, MsgState>, TryAgain) {
    match job.action
    case SendMsg => TrySendMsg(msgs, job.foreignId, c)
    case SendMdn =>
      (msgs, if !c.connected then StandardDelay else if c.rendered && !c.sent then TryAtOnce else DontTryAgain)
  }

  /** The count of attempts that failed while online. */
  function CountedTries(times: nat, lastOnline: bool, online: bool): nat {
    if lastOnline && online then times + 1 else if times > 0 then times - 1 else 0
  }

  // ----- The machine -----------------------------------------------------------------------------

  /** Where the SMTP thread is: out of idle; the needed-flag cleared; before an attempt at the first row of the
      selection; after the last attempt at it; before asking for a pause; jobs performed; in the idle function. */
  datatype SmtpPc =
    | Returned
    | Cleared
    | Trying(todo: seq<Row>, tries: nat)
    | Judged(todo: seq<Row>, again: TryAgain)
    | Pausing(todo: seq<Row>)
    | JobsDone
    | Waiting
    | Spinning

  datatype ImapPc = Normal | Polling | Exclusive

  /** `senders` are the messages inserted whose job is not yet added, `unsignalled` the job rows whose adder did not
      yet interrupt the idle function, `seen` the job rows that were in the table at the last selection. */
  datatype State = State(flags: Flags, smtp: SmtpPc, imapPc: ImapPc, jobs: map<nat, Job>, msgs: map<nat, MsgState>,
                         senders: multiset<nat>, unsignalled: set<nat>, seen: set<nat>, lastOnline: bool, now: int)

  const INITIAL := State(Flags(NotNeeded, false, false, false), Returned, Normal, map[], map[], multiset{}, {}, {},
                         false, 0)

  datatype Action =
    // the SMTP thread
    | ClearNeeded | Select(rows: seq<Row>) | Try(c: Circumstances) | Conclude(online: bool) | AskForPause | EndJobs
    | EnterIdle | Wake(timedOut: bool)
    // the IMAP thread around an exclusive job
    | SetSuspend | PollIdle | Resume
    // any thread
    | InsertMsg(m: nat) | RemoveMsg(m: nat) | AddJob(id: nat, action: JobAction, m: nat, delay: int) | Signal(id: nat)
    | Interrupt | Tick(time: int)

  /** The due rows, each once, the important actions first and older rows before newer ones. */
  predicate IsSelection(rows: seq<Row>, jobs: map<nat, Job>, now: int) {
    && (forall i | 0 <= i < |rows| :: rows[i].id in jobs && jobs[rows[i].id] == rows[i].job && rows[i].job.desired <= now)
    && (forall id | id in jobs && jobs[id].desired <= now :: Row(id, jobs[id]) in rows)
    && (forall i, j | 0 <= i < j < |rows| :: rows[i].id != rows[j].id)
    && (forall i, j | 0 <= i < j < |rows| ::
          if rows[i].job.action == rows[j].job.action then rows[i].job.added <= rows[j].job.added
          else rows[i].job.action == SendMsg)
  }

  predicate NeedsMutex(a: Action) {
    a.ClearNeeded? || a.AskForPause? || a.EnterIdle? || a.Wake? || a.SetSuspend? || a.PollIdle? || a.Resume?
    || a.Signal? || a.Interrupt?
  }

  predicate Enabled(s: State, a: Action) {
    (NeedsMutex(a) ==> !s.smtp.Spinning?) &&
    match a
    case ClearNeeded => s.smtp.Returned?
    case Select(rows) => s.smtp.Cleared? && IsSelection(rows, s.jobs, s.now)
    case Try(_) => s.smtp.Trying? && s.smtp.todo != []
    case Conclude(_) => s.smtp.Judged? && s.smtp.todo != []
    case AskForPause => s.smtp.Pausing?
    case EndJobs => s.smtp.Trying? && s.smtp.todo == []
    case EnterIdle => s.smtp.JobsDone?
    case Wake(_) => s.smtp.Waiting?
    case SetSuspend => s.imapPc.Normal?
    case PollIdle => s.imapPc.Polling?
    case Resume => s.imapPc.Exclusive?
    case InsertMsg(m) => m > LAST_SPECIAL_MSG && m !in s.msgs
    case RemoveMsg(m) => m in s.msgs
    case AddJob(id, action, m, _) => id !in s.jobs && (action == SendMsg ==> m in s.senders)
    case Signal(id) => id in s.unsignalled
    case Interrupt => true
    case Tick(time) => time >= s.now
  }

  function AfterIdle(next: Idle): SmtpPc {
    match next case Leaves => Returned case Waits => Waiting case Spins => Spinning
  }

  function WithoutRow(s: State, id: nat): State {
    s.(jobs := s.jobs - {id}, unsignalled := s.unsignalled - {id}, seen := s.seen - {id})
  }

  /** What happens to the first row of the selection after the last attempt at it. */
  function Concluded(s: State, online: bool): State
    requires s.smtp.Judged? && s.smtp.todo != []
  {
    var row, rest := s.smtp.todo[0], s.smtp.todo[1..];
    match s.smtp.again
    case DontTryAgain => WithoutRow(s, row.id).(smtp := Trying(rest, 0))
    case IncreationPoll => s.(smtp := Trying(rest, 0))
    case _ =>
      var tries := CountedTries(row.job.times, s.lastOnline, online);
      if tries < JOB_RETRIES then
        s.(jobs := if row.id in s.jobs then s.jobs[row.id := s.jobs[row.id].(desired := 0, times := tries)] else s.jobs,
           smtp := if online && tries < JOB_RETRIES - 1 then Pausing(rest) else Trying(rest, 0))
      else
        WithoutRow(s, row.id).(msgs := if row.job.action == SendMsg then Recorded(s.msgs, row.job.foreignId, Failed)
                                       else s.msgs,
                               smtp := Trying(rest, 0))
  }

  function Step(s: State, a: Action): State
    requires Enabled(s, a)
  {
    match a
    case ClearNeeded => s.(flags := s.flags.(needed := NotNeeded), smtp := Cleared)
    case Select(rows) => s.(smtp := Trying(rows, 0), seen := s.jobs.Keys)
    case Try(c) =>
      var (msgs, again) := TryRow(s.msgs, s.smtp.todo[0].job, c);
      s.(msgs := msgs, smtp := if again == TryAtOnce && s.smtp.tries == 0 then Trying(s.smtp.todo, 1)
                               else Judged(s.smtp.todo, again))
    case Conclude(online) => Concluded(s, online)
    case AskForPause => s.(flags := s.flags.(needed := AvoidDos), smtp := Trying(s.smtp.todo, 0))
    case EndJobs => s.(smtp := JobsDone)
    case EnterIdle => var (flags, next) := IdleEntered(s.flags); s.(flags := flags, smtp := AfterIdle(next))
    case Wake(timedOut) => var (flags, next) := IdleLoop(s.flags, timedOut); s.(flags := flags, smtp := AfterIdle(next))
    case SetSuspend => s.(flags := s.flags.(suspend := true), imapPc := Polling)
    case PollIdle =>
      if s.flags.inIdleing then s.(flags := s.flags.(needed := NotNeeded), imapPc := Exclusive) else s
    case Resume => s.(flags := s.flags.(suspend := false), imapPc := Normal)
    case InsertMsg(m) => s.(msgs := s.msgs[m := Pending], senders := s.senders + multiset{m})
    case RemoveMsg(m) => s.(msgs := s.msgs - {m})
    case AddJob(id, action, m, delay) =>
      s.(jobs := s.jobs[id := Job(action, m, s.now, if delay > 0 then s.now + delay else 0, 0)],
         senders := if action == SendMsg then s.senders - multiset{m} else s.senders,
         unsignalled := s.unsignalled + {id})
    case Signal(id) => s.(flags := Interrupted(s.flags), unsignalled := s.unsignalled - {id})
    case Interrupt => s.(flags := Interrupted(s.flags))
    case Tick(time) => s.(now := time)
  }

  /** The runs of the machine: each action is enabled where it is taken. */
  predicate IsRun(run: seq<Action>, s: State) {
    run == [] || (Enabled(s, run[0]) && IsRun(run[1..], Step(s, run[0])))
  }

  function After(run: seq<Action>, s: State): State
    requires IsRun(run, s)
  {
    if run == [] then s else After(run[1..], Step(s, run[0]))
  }

  lemma {:induction false} RunExtended(run: seq<Action>, s: State, a: Action)
    requires IsRun(run, s) && Enabled(After(run, s), a)
    ensures IsRun(run + [a], s) && After(run + [a], s) == Step(After(run, s), a)
  {
    if run == [] {
      assert [] + [a] == [a];
      assert [a][1..] == [];
    } else {
      assert (run + [a])[1..] == run[1..] + [a];
      RunExtended(run[1..], Step(s, run[0]), a);
    }
  }

  lemma EmptyRun()
    ensures IsRun([], INITIAL) && After([], INITIAL) == INITIAL
  {
  }

  /** A run from the initial state, one action longer. */
  lemma Extend(run: seq<Action>, s: State, a: Action) returns (longer: seq<Action>, t: State)
    requires IsRun(run, INITIAL) && After(run, INITIAL) == s && Enabled(s, a)
    ensures longer == run + [a] && IsRun(longer, INITIAL) && After(longer, INITIAL) == t == Step(s, a)
  {
    RunExtended(run, INITIAL, a);
    longer, t := run + [a], Step(s, a);
  }
}
