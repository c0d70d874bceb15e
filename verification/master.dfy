/**
  The actor's master: it drives the game, UI and environment threads
  between two modes.  Held threads may be saved, loaded, resumed or closed;
  running threads may only be held.  A command not allowed in the current
  mode fails with `ModeMatch` and changes nothing.

  Commands that need every thread's acknowledgement broadcast a message
  and then read `Done` reports until each of the three threads has
  reported at least once; the reports are accumulated as one bit per
  thread.  The threads themselves, the channels and the file system are
  not modelled: the reports the master will read are given in advance as
  its inbox, and the messages it sends are logged.  Running out of reports
  before the wait is over is `Blocked` (the real master would wait for
  ever); an unexpected report where only the environment thread's is
  accepted is `Panicked`.
 */
module Masters {
  import opened Wrappers

  datatype ThreadId = Game | Ui | Env

  /** `as_bit_flag`: one bit per thread. */
  function AsBitFlag(id: ThreadId): (f: bv8)
    ensures f != 0 && f & (f - 1) == 0
    ensures f & 0xF8 == 0
  {
    match id
    case Game => 1
    case Ui => 2
    case Env => 4
  }

  /** Distinct threads have distinct bits, so a flag tells which thread reported. */
  lemma AsBitFlagInjective(a: ThreadId, b: ThreadId)
    ensures a != b <==> AsBitFlag(a) & AsBitFlag(b) == 0
    ensures AsBitFlag(a) == AsBitFlag(b) ==> a == b
  {
  }

  /** `all_flags`: the bits of all three threads. */
  function AllFlags(): (f: bv8)
    ensures f == 7
  {
    AsBitFlag(Game) | AsBitFlag(Ui) | AsBitFlag(Env)
  }

  /** The bits of the threads that reported, in the order of `ids`. */
  function DoneFlags(ids: seq<ThreadId>): bv8
    decreases |ids|
  {
    if |ids| == 0 then 0 else DoneFlags(ids[..|ids| - 1]) | AsBitFlag(ids[|ids| - 1])
  }

  /** A mask meets an OR exactly when it meets one of its operands. */
  lemma OrMeets(a: bv8, b: bv8, mask: bv8)
    ensures (a | b) & mask == 0 <==> a & mask == 0 && b & mask == 0
  {
  }

  /** A thread's bit is set exactly when it reported, and no bit outside the three ever is. */
  lemma {:induction false} DoneFlagsRecords(ids: seq<ThreadId>, id: ThreadId)
    ensures DoneFlags(ids) & AsBitFlag(id) != 0 <==> id in ids
    ensures DoneFlags(ids) & 0xF8 == 0
    decreases |ids|
  {
    if |ids| > 0 {
      var init, x := ids[..|ids| - 1], ids[|ids| - 1];
      assert ids == init + [x];
      assert id in ids <==> id in init || id == x;
      DoneFlagsRecords(init, id);
      OrMeets(DoneFlags(init), AsBitFlag(x), AsBitFlag(id));
      OrMeets(DoneFlags(init), AsBitFlag(x), 0xF8);
      AsBitFlagInjective(x, id);
    }
  }

  /** The reports add up to `all_flags` exactly when every thread is among them, whatever the order or repetitions. */
  lemma AllDoneIffAllReported(ids: seq<ThreadId>)
    ensures DoneFlags(ids) == AllFlags() <==> Game in ids && Ui in ids && Env in ids
  {
    DoneFlagsRecords(ids, Game);
    DoneFlagsRecords(ids, Ui);
    DoneFlagsRecords(ids, Env);
    var f := DoneFlags(ids);
    assert f & 0xF8 == 0 ==> (f == 7 <==> f & 1 != 0 && f & 2 != 0 && f & 4 != 0);
  }

  /** No prefix of the inbox of a length from `lo` to below `hi` has every thread's report. */
  ghost predicate NoneComplete(inbox: seq<ThreadId>, lo: nat, hi: nat) {
    forall j :: lo <= j < hi && j <= |inbox| ==> DoneFlags(inbox[..j]) != AllFlags()
  }

  lemma NoneCompleteBefore(inbox: seq<ThreadId>, i: nat, hi: nat)
    requires i <= |inbox| && DoneFlags(inbox[..i]) != AllFlags() && NoneComplete(inbox, i + 1, hi)
    ensures NoneComplete(inbox, i, hi)
  {
  }

  /**
    `wait_all_done` from the `i`-th report on.  The bits accumulated by the
    loop after `i` reports are `DoneFlags(inbox[..i])`.
   */
  function WaitFrom(inbox: seq<ThreadId>, i: nat): (n: Option<nat>)
    requires i <= |inbox| && DoneFlags(inbox[..i]) != AllFlags()
    ensures n.Some? ==> i < n.value <= |inbox| && DoneFlags(inbox[..n.value]) == AllFlags() && NoneComplete(inbox, i, n.value)
    ensures n.None? ==> NoneComplete(inbox, i, |inbox| + 1)
    decreases |inbox| - i
  {
    if i == |inbox| then None
    else if DoneFlags(inbox[..i + 1]) == AllFlags() then Some(i + 1)
    else
      var r := WaitFrom(inbox, i + 1);
      NoneCompleteBefore(inbox, i, if r.Some? then r.value else |inbox| + 1);
      r
  }

  /**
    `wait_all_done`: the number of reports read, which is the length of the
    shortest prefix of the inbox in which every thread reported; none when
    no prefix has them all.
   */
  function WaitAllDone(inbox: seq<ThreadId>): (n: Option<nat>)
    ensures n.Some? ==> 0 < n.value <= |inbox| && DoneFlags(inbox[..n.value]) == AllFlags()
    ensures n.Some? ==> forall j :: 0 <= j < n.value ==> DoneFlags(inbox[..j]) != AllFlags()
    ensures n.None? ==> forall j :: 0 <= j <= |inbox| ==> DoneFlags(inbox[..j]) != AllFlags()
  {
    assert inbox[..0] == [];
    WaitFrom(inbox, 0)
  }

  /**
    The loop of `wait_all_done` as written: each report ORs its thread's bit
    into the accumulated flags, and the loop stops as soon as they equal
    `all_flags`.  It reads exactly as many reports as `WaitAllDone` says.
   */
  method WaitAllDoneLoop(inbox: seq<ThreadId>) returns (n: Option<nat>)
    ensures n == WaitAllDone(inbox)
  {
    var ready: bv8 := 0;
    var i := 0;
    assert inbox[..0] == [];
    while i < |inbox|
      invariant i <= |inbox| && ready == DoneFlags(inbox[..i]) && ready != AllFlags()
      invariant WaitAllDone(inbox) == WaitFrom(inbox, i)
    {
      DoneFlagsNext(inbox, i);
      ready := ready | AsBitFlag(inbox[i]);
      i := i + 1;
      if ready == AllFlags() {
        return Some(i);
      }
    }
    return None;
  }

  /** The bits of one more report. */
  lemma DoneFlagsNext(inbox: seq<ThreadId>, i: nat)
    requires i < |inbox|
    ensures DoneFlags(inbox[..i + 1]) == DoneFlags(inbox[..i]) | AsBitFlag(inbox[i])
  {
    assert inbox[..i + 1][..i] == inbox[..i];
  }

  /**
    The wait ends exactly when all three threads appear in the inbox, and
    it ends at the first report of the last thread to report.
   */
  lemma WaitAllDoneEnds(inbox: seq<ThreadId>)
    ensures WaitAllDone(inbox).Some? <==> Game in inbox && Ui in inbox && Env in inbox
    ensures WaitAllDone(inbox).Some? ==>
      var n := WaitAllDone(inbox).value;
      Game in inbox[..n] && Ui in inbox[..n] && Env in inbox[..n] && inbox[n - 1] !in inbox[..n - 1]
  {
    var w := WaitAllDone(inbox);
    AllDoneIffAllReported(inbox);
    if w.Some? {
      var n := w.value;
      AllDoneIffAllReported(inbox[..n]);
      AllDoneIffAllReported(inbox[..n - 1]);
      assert inbox[..n] == inbox[..n - 1] + [inbox[n - 1]];
      forall id | id in inbox[..n]
        ensures id in inbox
      {
        var k :| 0 <= k < n && inbox[..n][k] == id;
        assert inbox[k] == id;
      }
    } else {
      assert inbox[..|inbox|] == inbox;
    }
  }

  // ------------------------------------------------------------- commands

  datatype Mode = Running | Held

  datatype CommandError = ModeMatch

  datatype MasterMessage = Save(path: string) | Load(path: string) | PrepareHold | Hold | Resume | Close

  datatype EnvThreadMessage = WaitForHold

  /** A message the master sends: to all three threads, or to the environment thread alone. */
  datatype Outgoing = ToAll(message: MasterMessage) | ToEnv(envMessage: EnvThreadMessage)

  /** How a command ends: it returns, waits for reports that never come, or panics. */
  datatype Outcome<T> = Returned(value: T) | Blocked | Panicked

  /** The master's mode, the reports it has yet to read and the messages it has sent. */
  datatype Master = Master(mode: Mode, inbox: seq<ThreadId>, sent: seq<Outgoing>)

  /** `Master::new`: the threads start held. */
  function NewMaster(inbox: seq<ThreadId>): (m: Master)
    ensures m.mode == Held && m.inbox == inbox && m.sent == []
  {
    Master(Held, inbox, [])
  }

  /**
    `send_all` followed by `wait_all_done`: the message goes to every
    thread, then the reports are read up to the first point where every
    thread has reported.
   */
  function SendAllAndWait(m: Master, message: MasterMessage): (o: Outcome<Master>)
    ensures o.Returned? <==> WaitAllDone(m.inbox).Some?
    ensures o.Returned? ==> o.value.mode == m.mode && o.value.sent == m.sent + [ToAll(message)]
    ensures o.Returned? ==> o.value.inbox == m.inbox[WaitAllDone(m.inbox).value..]
  {
    match WaitAllDone(m.inbox)
    case None => Blocked
    case Some(n) => Returned(Master(m.mode, m.inbox[n..], m.sent + [ToAll(message)]))
  }

  /** `wait_env_done`: the next report must be the environment thread's. */
  function WaitEnvDone(inbox: seq<ThreadId>): (o: Outcome<seq<ThreadId>>)
    ensures o.Returned? <==> |inbox| > 0 && inbox[0] == Env
    ensures o.Blocked? <==> |inbox| == 0
    ensures o.Returned? ==> o.value == inbox[1..]
  {
    if |inbox| == 0 then Blocked
    else if inbox[0] == Env then Returned(inbox[1..])
    else Panicked
  }

  /** `save`: only held threads are saved, into the `saved` directory. */
  function SaveCommand(m: Master): (o: Outcome<(Master, Result<(), CommandError>)>)
    ensures m.mode == Running ==> o == Returned((m, Err(ModeMatch)))
    ensures !o.Panicked?
    ensures m.mode == Held ==> (o.Returned? <==> WaitAllDone(m.inbox).Some?)
    ensures m.mode == Held && o.Returned? ==>
      o.value == (Master(Held, m.inbox[WaitAllDone(m.inbox).value..], m.sent + [ToAll(Save("saved"))]), Ok(()))
  {
    match m.mode
    case Running => Returned((m, Err(ModeMatch)))
    case Held =>
      match SendAllAndWait(m, Save("saved"))
      case Returned(m') => Returned((m', Ok(())))
      case Blocked => Blocked
      case Panicked => Panicked
  }

  /** `load`: only held threads are loaded, from the `load` directory. */
  function LoadCommand(m: Master): (o: Outcome<(Master, Result<(), CommandError>)>)
    ensures m.mode == Running ==> o == Returned((m, Err(ModeMatch)))
    ensures !o.Panicked?
    ensures m.mode == Held ==> (o.Returned? <==> WaitAllDone(m.inbox).Some?)
    ensures m.mode == Held && o.Returned? ==>
      o.value == (Master(Held, m.inbox[WaitAllDone(m.inbox).value..], m.sent + [ToAll(Load("load"))]), Ok(()))
  {
    match m.mode
    case Running => Returned((m, Err(ModeMatch)))
    case Held =>
      match SendAllAndWait(m, Load("load"))
      case Returned(m') => Returned((m', Ok(())))
      case Blocked => Blocked
      case Panicked => Panicked
  }

  /**
    `hold`: the environment thread is asked to stop and must confirm first;
    then every thread is told to prepare, all three confirm, and every
    thread is told to hold.
   */
  function HoldCommand(m: Master): (o: Outcome<(Master, Result<(), CommandError>)>)
    ensures m.mode == Held ==> o == Returned((m, Err(ModeMatch)))
    ensures m.mode == Running ==> (o.Panicked? <==> |m.inbox| > 0 && m.inbox[0] != Env)
    ensures m.mode == Running ==>
      (o.Returned? <==> |m.inbox| > 0 && m.inbox[0] == Env && WaitAllDone(m.inbox[1..]).Some?)
    ensures m.mode == Running && o.Returned? ==>
      o.value.1 == Ok(()) && o.value.0.mode == Held
      && o.value.0.sent == m.sent + [ToEnv(WaitForHold), ToAll(PrepareHold), ToAll(Hold)]
      && o.value.0.inbox == m.inbox[1..][WaitAllDone(m.inbox[1..]).value..]
  {
    match m.mode
    case Held => Returned((m, Err(ModeMatch)))
    case Running =>
      match WaitEnvDone(m.inbox)
      case Blocked => Blocked
      case Panicked => Panicked
      case Returned(rest) =>
        var asked := Master(Running, rest, m.sent + [ToEnv(WaitForHold)]);
        match SendAllAndWait(asked, PrepareHold)
        case Returned(prepared) =>
          Returned((Master(Held, prepared.inbox, prepared.sent + [ToAll(Hold)]), Ok(())))
        case Blocked => Blocked
        case Panicked => Panicked
  }

  /** `resume`: every thread is told to resume; no acknowledgement is awaited. */
  function ResumeCommand(m: Master): (o: Outcome<(Master, Result<(), CommandError>)>)
    ensures m.mode == Running ==> o == Returned((m, Err(ModeMatch)))
    ensures m.mode == Held ==> o == Returned((Master(Running, m.inbox, m.sent + [ToAll(Resume)]), Ok(())))
  {
    match m.mode
    case Running => Returned((m, Err(ModeMatch)))
    case Held => Returned((Master(Running, m.inbox, m.sent + [ToAll(Resume)]), Ok(())))
  }

  /**
    `close`: consumes the master.  Held threads are told to close (joining
    them is not modelled) and the messages sent are what remains; running
    threads are not closed and the master is handed back unchanged.
   */
  function CloseCommand(m: Master): (r: Result<seq<Outgoing>, (Master, CommandError)>)
    ensures r.Err? <==> m.mode == Running
    ensures r.Err? ==> r.error == (m, ModeMatch)
    ensures r.Ok? ==> r.value == m.sent + [ToAll(Close)]
  {
    match m.mode
    case Running => Err((m, ModeMatch))
    case Held => Ok(m.sent + [ToAll(Close)])
  }

  /** The commands that leave the master in place. */
  datatype Command = SaveCmd | LoadCmd | HoldCmd | ResumeCmd

  function Execute(m: Master, c: Command): Outcome<(Master, Result<(), CommandError>)> {
    match c
    case SaveCmd => SaveCommand(m)
    case LoadCmd => LoadCommand(m)
    case HoldCmd => HoldCommand(m)
    case ResumeCmd => ResumeCommand(m)
  }

  /** The mode each command needs: only `hold` applies to running threads. */
  function Needs(c: Command): Mode {
    if c == HoldCmd then Running else Held
  }

  /** The messages each command sends when it succeeds, in order. */
  function Messages(c: Command): seq<Outgoing> {
    match c
    case SaveCmd => [ToAll(Save("saved"))]
    case LoadCmd => [ToAll(Load("load"))]
    case HoldCmd => [ToEnv(WaitForHold), ToAll(PrepareHold), ToAll(Hold)]
    case ResumeCmd => [ToAll(Resume)]
  }

  /** The mode each command leaves behind when it succeeds. */
  function Leaves(c: Command): Mode {
    if c == ResumeCmd then Running else Held
  }

  /**
    Every command obeys the mode table: in the wrong mode it returns
    `ModeMatch` at once and changes nothing; in the right mode it never
    fails with `ModeMatch`, and when it returns the threads are in the
    mode the command leaves them in, with its messages logged after the
    earlier ones.
   */
  lemma CommandsFollowModes(m: Master, c: Command)
    ensures m.mode != Needs(c) ==> Execute(m, c) == Returned((m, Err(ModeMatch)))
    ensures m.mode == Needs(c) && Execute(m, c).Returned? ==>
      var (m', r) := Execute(m, c).value;
      r == Ok(()) && m'.mode == Leaves(c) && |m'.sent| > |m.sent| && m'.sent[..|m.sent|] == m.sent
      && m'.sent == m.sent + Messages(c)
  {
    if m.mode == Needs(c) && Execute(m, c).Returned? {
      var (m', r) := Execute(m, c).value;
      if c == HoldCmd {
        assert m'.sent == m.sent + [ToEnv(WaitForHold), ToAll(PrepareHold), ToAll(Hold)];
      } else {
        assert m'.sent[..|m.sent|] == m.sent;
      }
    }
  }

  /** `save` and `load` succeed exactly when the threads are held and all three report back. */
  lemma SaveLoadNeedReports(m: Master)
    requires m.mode == Held
    ensures SaveCommand(m).Returned? <==> Game in m.inbox && Ui in m.inbox && Env in m.inbox
    ensures LoadCommand(m).Returned? <==> Game in m.inbox && Ui in m.inbox && Env in m.inbox
  {
    WaitAllDoneEnds(m.inbox);
  }

  /**
    Resuming held threads and holding them again brings them back to held,
    provided the environment thread reports first and every thread
    reports afterwards; the first report of each thread after the
    environment's is consumed.
   */
  lemma ResumeThenHold(m: Master)
    requires m.mode == Held && |m.inbox| > 0 && m.inbox[0] == Env
    requires Game in m.inbox[1..] && Ui in m.inbox[1..] && Env in m.inbox[1..]
    ensures ResumeCommand(m).Returned?
    ensures var resumed := ResumeCommand(m).value.0;
      HoldCommand(resumed).Returned? && HoldCommand(resumed).value.1 == Ok(())
      && HoldCommand(resumed).value.0.mode == Held
      && HoldCommand(resumed).value.0.inbox == m.inbox[1 + WaitAllDone(m.inbox[1..]).value..]
  {
    WaitAllDoneEnds(m.inbox[1..]);
  }
}
