/** What every atomic step of the writer, every step of the session thread and every crash keep. */
module WriterInvariant {
  import opened Basics
  import opened WriterModel
  import opened WriterLog

  /** The open handle is the file that memory and the log name, with all its bytes. */
  ghost predicate OpenFile(w: Writer) {
    && w.file == Some(w.Name())
    && OnDiskOpen(w)
    && w.size == |Content(w.log[|w.log| - 1])|
  }

  /** The last file of the log is in the working directory under the name memory gives it. */
  ghost predicate OnDiskOpen(w: Writer) {
    && w.log != []
    && w.log[|w.log| - 1].name == w.Name()
    && w.Name() in w.inProgress
    && w.log[|w.log| - 1].cut.None?
    && w.inProgress[w.Name()] == Content(w.log[|w.log| - 1])
  }

  /** Data only reaches files the journal already accounts for, and only a file within the limit grows. */
  ghost predicate Tidy(cfg: Config, e: Entry) {
    && (!e.journaled ==> e.chunks == [])
    && (e.chunks != [] ==> |Flatten(e.chunks[..|e.chunks| - 1])| <= cfg.maxFileSize)
  }

  /** Between the writer's actions: a file is open and journalled, or none is and memory is as at the start. */
  ghost predicate Resting(w: Writer) {
    if w.file.Some? then OpenFile(w) && w.log[|w.log| - 1].journaled else w.count == -1 && w.size == 0
  }

  /** What memory and disk agree on at each program point. */
  ghost predicate AtPc(cfg: Config, w: Writer) {
    match w.pc
    case Idle => Resting(w)
    case TestRunning => Resting(w)
    case TestRotate => Resting(w)
    case FcloseOld => Resting(w)
    case TestStop => Resting(w)
    case Fwrite => OpenFile(w) && w.log[|w.log| - 1].journaled && w.size <= cfg.maxFileSize
    case FcloseStop => OpenFile(w) && w.log[|w.log| - 1].journaled
    case RenameOld => w.file.None? && OnDiskOpen(w) && w.log[|w.log| - 1].journaled
    case RenameStop => w.file.None? && OnDiskOpen(w) && w.log[|w.log| - 1].journaled
    case CompareRun => w.file.None? && w.size == 0 && (w.count == -1 || w.count == JournalIndex(w.journal, w.run))
    case PickIndex => w.file.None? && w.size == 0 && (w.count == -1 || w.count == JournalIndex(w.journal, w.run))
    case LoadRun => w.file.None? && w.size == 0
    case Fopen => w.file.None? && w.size == 0 && w.count == JournalIndex(w.journal, w.run)
    case WriteNewJournal => OpenFile(w) && !w.log[|w.log| - 1].journaled
    case RenameJournal =>
      OpenFile(w) && !w.log[|w.log| - 1].journaled && w.newJournal == Journal(w.run, w.count + 1)
  }

  /** The journal is the one that the files opened so far leave behind, and their names came from it. */
  ghost predicate LogOk(cfg: Config, journal: Journal, log: seq<Entry>) {
    && journal == JournalOf(log)
    && Generated(log)
    && forall k :: 0 <= k < |log| ==> Tidy(cfg, log[k])
  }

  ghost predicate Consistent(cfg: Config, w: Writer) { LogOk(cfg, w.journal, w.log) && AtPc(cfg, w) }

  /** A file is in the working directory with what survives of it, or else in the target directory, whole. */
  ghost predicate Stored(w: Writer, e: Entry) {
    if e.name in w.inProgress then w.inProgress[e.name] == Survives(e)
    else e.cut.None? && e.name in w.target && w.target[e.name] == Content(e)
  }

  /** Nothing that was ever written is lost, but for what a crash found in the buffer of the open file. */
  ghost predicate Durable(w: Writer) {
    forall k :: 0 <= k < |w.log| && w.log[k].journaled ==> Stored(w, w.log[k])
  }

  /** fopen adds an entry that the journal does not know yet. */
  lemma OpenedLog(cfg: Config, journal: Journal, log: seq<Entry>, e: Entry)
    requires LogOk(cfg, journal, log) && e.chunks == [] && !e.journaled
    requires e.name.index == JournalIndex(journal, e.name.run)
    ensures LogOk(cfg, journal, log + [e]) && Extends(log, log + [e])
  {
    hide Tidy;
    assert Tidy(cfg, e) by { EmptyIsTidy(cfg, e); }
    GeneratedOpen(log, e);
    assert (log + [e])[..|log|] == log;
  }

  lemma EmptyIsTidy(cfg: Config, e: Entry)
    requires e.chunks == []
    ensures Tidy(cfg, e)
  {}

  /** The journal then names the successor of the last entry, whatever was written to it. */
  lemma TouchedLog(cfg: Config, journal: Journal, log: seq<Entry>, e: Entry)
    requires LogOk(cfg, journal, log) && log != [] && e.name == log[|log| - 1].name && e.journaled && Tidy(cfg, e)
    ensures LogOk(cfg, Journal(e.name.run, e.name.index + 1), log[|log| - 1 := e]) && Extends(log, log[|log| - 1 := e])
    ensures log[|log| - 1].journaled ==> journal == Journal(e.name.run, e.name.index + 1)
  {
    hide Tidy, Generated;
    GeneratedTouch(log, e);
  }

  lemma FopenKeeps(cfg: Config, w: Writer)
    requires Consistent(cfg, w) && w.pc == Fopen
    ensures Consistent(cfg, Opened(w).(pc := WriteNewJournal)) && Extends(w.log, Opened(w).log)
  {
    hide LogOk, Extends, JournalIndex;
    OpenedLog(cfg, w.journal, w.log, Entry(w.Name(), [], false, None));
  }

  lemma JournalKeeps(cfg: Config, w: Writer)
    requires Consistent(cfg, w) && w.pc == RenameJournal
    ensures Consistent(cfg, JournalReplaced(w).(pc := Fwrite)) && Extends(w.log, JournalReplaced(w).log)
  {
    hide LogOk, Extends, Content, Tidy;
    var last := w.log[|w.log| - 1];
    LastIsEmpty(cfg, w.journal, w.log);
    EmptyIsTidy(cfg, last.(journaled := true));
    TouchedLog(cfg, w.journal, w.log, last.(journaled := true));
  }

  lemma LastIsEmpty(cfg: Config, journal: Journal, log: seq<Entry>)
    requires LogOk(cfg, journal, log) && log != [] && !log[|log| - 1].journaled
    ensures var last := log[|log| - 1];
            last.chunks == [] && Content(last) == Content(last.(journaled := true)) == []
  {
    assert Tidy(cfg, log[|log| - 1]);
  }

  lemma LongerEntry(cfg: Config, e: Entry, chunk: seq<Byte>)
    requires e.journaled && |Content(e)| <= cfg.maxFileSize
    ensures Tidy(cfg, e.(chunks := e.chunks + [chunk]))
    ensures Content(e.(chunks := e.chunks + [chunk])) == Content(e) + chunk
  {
    FlattenAppend(e.chunks, chunk);
    assert (e.chunks + [chunk])[..|e.chunks|] == e.chunks;
  }

  lemma FwriteKeeps(cfg: Config, w: Writer, chunk: seq<Byte>)
    requires Consistent(cfg, w) && w.pc == Fwrite
    ensures Consistent(cfg, Appended(w, chunk).(pc := TestStop)) && Extends(w.log, Appended(w, chunk).log)
  {
    hide LogOk, Extends, Content, Tidy;
    var last := w.log[|w.log| - 1];
    LongerEntry(cfg, last, chunk);
    TouchedLog(cfg, w.journal, w.log, last.(chunks := last.chunks + [chunk]));
  }

  lemma MoveThenKeeps(cfg: Config, w: Writer)
    requires Consistent(cfg, w)
    ensures w.pc == RenameOld ==> Consistent(cfg, Moved(w).(pc := CompareRun))
    ensures w.pc == RenameStop ==> Consistent(cfg, Moved(w).(count := -1, pc := Idle, slice := []))
    ensures Moved(w).log == w.log
  {
    hide Generated, Tidy, Content;
  }

  predicate TouchesDisk(pc: Pc) {
    pc in {Fopen, RenameJournal, Fwrite, RenameOld, RenameStop}
  }

  lemma QuietStep(cfg: Config, w: Writer, ctl: Control, written: nat)
    requires !TouchesDisk(w.pc)
    ensures var v := WriterStep(cfg, w, ctl, written);
            v.log == w.log && v.inProgress == w.inProgress && v.target == w.target && v.journal == w.journal
  {
    hide Moved, Opened, JournalReplaced, Appended, MustRotate, JournalIndex;
  }

  lemma QuietKeeps(cfg: Config, w: Writer, ctl: Control, written: nat)
    requires Consistent(cfg, w) && !TouchesDisk(w.pc)
    ensures Consistent(cfg, WriterStep(cfg, w, ctl, written))
  {
    hide Moved, Opened, JournalReplaced, Appended, LogOk, Content;
  }

  lemma DiskStepIs(cfg: Config, w: Writer, ctl: Control, written: nat)
    requires TouchesDisk(w.pc)
    ensures WriterStep(cfg, w, ctl, written) ==
            match w.pc
            case Fopen => Opened(w).(pc := WriteNewJournal)
            case RenameJournal => JournalReplaced(w).(pc := Fwrite)
            case Fwrite => Appended(w, Accepted(w.slice, written)).(pc := TestStop)
            case RenameOld => Moved(w).(pc := CompareRun)
            case _ => Moved(w).(count := -1, pc := Idle, slice := [])
  {
    hide Opened, JournalReplaced, Appended, Accepted, Moved;
  }

  /** Every atomic step of the writer keeps memory, journal, directories and log in agreement. */
  lemma WriterStepKeeps(cfg: Config, w: Writer, ctl: Control, written: nat)
    requires Consistent(cfg, w)
    ensures Consistent(cfg, WriterStep(cfg, w, ctl, written)) && Extends(w.log, WriterStep(cfg, w, ctl, written).log)
  {
    hide WriterStep, Consistent, Opened, JournalReplaced, Appended, Accepted, Moved;
    if TouchesDisk(w.pc) {
      DiskStepIs(cfg, w, ctl, written);
      match w.pc {
        case Fopen => FopenKeeps(cfg, w);
        case RenameJournal => JournalKeeps(cfg, w);
        case Fwrite => FwriteKeeps(cfg, w, Accepted(w.slice, written));
        case _ => MoveThenKeeps(cfg, w);
      }
    } else {
      QuietStep(cfg, w, ctl, written);
      QuietKeeps(cfg, w, ctl, written);
    }
  }

  lemma FopenDurable(w: Writer)
    requires Durable(w) && NamesReusedOnlyUnjournaled(Opened(w).log)
    ensures Durable(Opened(w))
  {
    var v := Opened(w);
    forall k | 0 <= k < |v.log| && v.log[k].journaled ensures Stored(v, v.log[k]) {
      assert v.log[k] == w.log[k] && v.log[|w.log|].name == w.Name();
    }
  }

  lemma JournalDurable(w: Writer)
    requires Durable(w) && OnDiskOpen(w)
    ensures Durable(JournalReplaced(w))
  {
    var v := JournalReplaced(w);
    forall k | 0 <= k < |v.log| && v.log[k].journaled ensures Stored(v, v.log[k]) {
      if k < |w.log| - 1 {
        assert v.log[k] == w.log[k];
      }
    }
  }

  lemma FwriteDurable(w: Writer, chunk: seq<Byte>)
    requires Durable(w) && OpenFile(w) && NamesReusedOnlyUnjournaled(w.log)
    ensures Durable(Appended(w, chunk))
  {
    var v := Appended(w, chunk);
    FlattenAppend(w.log[|w.log| - 1].chunks, chunk);
    forall k | 0 <= k < |v.log| && v.log[k].journaled ensures Stored(v, v.log[k]) {
      if k < |w.log| - 1 {
        assert v.log[k] == w.log[k];
      }
    }
  }

  lemma MoveDurable(w: Writer)
    requires Durable(w) && OnDiskOpen(w) && NamesReusedOnlyUnjournaled(w.log)
    ensures Durable(Moved(w))
  {
    forall k | 0 <= k < |w.log| && w.log[k].journaled ensures Stored(Moved(w), w.log[k]) {
      assert Stored(w, w.log[k]);
    }
  }

  lemma SameDiskDurable(w: Writer, v: Writer)
    requires Durable(w) && v.log == w.log && v.inProgress == w.inProgress && v.target == w.target
    ensures Durable(v)
  {
    forall k | 0 <= k < |v.log| && v.log[k].journaled ensures Stored(v, v.log[k]) {
      assert Stored(w, w.log[k]);
    }
  }

  lemma DiskStepDurable(cfg: Config, w: Writer, ctl: Control, written: nat)
    requires AtPc(cfg, w) && Durable(w) && TouchesDisk(w.pc) && NamesReusedOnlyUnjournaled(w.log)
    requires w.pc == Fopen ==> NamesReusedOnlyUnjournaled(Opened(w).log)
    ensures Durable(WriterStep(cfg, w, ctl, written))
  {
    var v := WriterStep(cfg, w, ctl, written);
    if w.pc == Fopen {
      FopenDurable(w);
      SameDiskDurable(Opened(w), v);
    } else if w.pc == RenameJournal {
      JournalDurable(w);
      SameDiskDurable(JournalReplaced(w), v);
    } else if w.pc == Fwrite {
      FwriteDurable(w, Accepted(w.slice, written));
      SameDiskDurable(Appended(w, Accepted(w.slice, written)), v);
    } else {
      MoveDurable(w);
      SameDiskDurable(Moved(w), v);
    }
  }

  /** Every atomic step of the writer keeps every byte, as long as no journalled name is reused. */
  lemma WriterStepDurable(cfg: Config, w: Writer, ctl: Control, written: nat)
    requires Consistent(cfg, w) && Durable(w)
    requires NamesReusedOnlyUnjournaled(WriterStep(cfg, w, ctl, written).log)
    ensures Durable(WriterStep(cfg, w, ctl, written))
  {
    assert AtPc(cfg, w);
    hide WriterStep, AtPc, LogOk, Durable, NamesReusedOnlyUnjournaled, Opened;
    if TouchesDisk(w.pc) {
      DiskStepIs(cfg, w, ctl, written);
      assert NamesReusedOnlyUnjournaled(w.log) by {
        WriterStepKeeps(cfg, w, ctl, written);
        DistinctShrinks(w.log, WriterStep(cfg, w, ctl, written).log);
      }
      DiskStepDurable(cfg, w, ctl, written);
    } else {
      QuietStep(cfg, w, ctl, written);
      SameDiskDurable(w, WriterStep(cfg, w, ctl, written));
    }
  }

  lemma StepDurable(cfg: Config, s: System, a: Action)
    requires Consistent(cfg, s.w) && Durable(s.w)
    requires NamesReusedOnlyUnjournaled(Step(cfg, s, a).w.log)
    ensures Durable(Step(cfg, s, a).w)
  {
    hide WriterStep, Restarted, CutOff, Consistent, Durable, NamesReusedOnlyUnjournaled;
    if a.Write? {
      WriterStepDurable(cfg, s.w, s.ctl, a.written);
    } else if a.Crash? {
      CrashDurable(cfg, s.w, a.kept);
    } else {
      SameDiskDurable(s.w, Step(cfg, s, a).w);
    }
  }

  lemma PacketKeeps(cfg: Config, w: Writer, slice: seq<Byte>)
    requires Consistent(cfg, w) && w.pc == Idle
    ensures Consistent(cfg, w.(pc := TestRunning, slice := slice))
  {
    hide LogOk, Content;
  }

  lemma RestartKeeps(cfg: Config, w: Writer)
    requires LogOk(cfg, w.journal, w.log)
    ensures Consistent(cfg, Restarted(w)) && Restarted(w).log == w.log
  {
    hide LogOk, Content;
  }

  lemma {:induction false} SameJournal(log: seq<Entry>, e: Entry)
    requires log != [] && e.name == log[|log| - 1].name && e.journaled == log[|log| - 1].journaled
    ensures JournalOf(log[|log| - 1 := e]) == JournalOf(log)
  {
    assert log[|log| - 1 := e][..|log| - 1] == log[..|log| - 1];
  }

  lemma CutLog(cfg: Config, journal: Journal, log: seq<Entry>, cut: Option<nat>)
    requires LogOk(cfg, journal, log) && log != []
    ensures var cutLog := log[|log| - 1 := log[|log| - 1].(cut := cut)];
            LogOk(cfg, journal, cutLog) && Extends(log, cutLog)
  {
    var e := log[|log| - 1].(cut := cut);
    assert Tidy(cfg, e) by { assert Tidy(cfg, log[|log| - 1]); }
    hide Tidy, Generated, JournalOf;
    SameJournal(log, e);
    GeneratedTouch(log, e);
  }

  lemma CrashKeeps(cfg: Config, w: Writer, kept: nat)
    requires Consistent(cfg, w)
    ensures Consistent(cfg, Restarted(CutOff(w, kept))) && Extends(w.log, Restarted(CutOff(w, kept)).log)
  {
    hide LogOk, AtPc, Restarted;
    if w.log != [] {
      CutLog(cfg, w.journal, w.log, Some(kept));
    }
    RestartKeeps(cfg, CutOff(w, kept));
  }

  /** A crash leaves what survives, as long as no journalled name was reused. */
  lemma CrashDurable(cfg: Config, w: Writer, kept: nat)
    requires Consistent(cfg, w) && Durable(w) && NamesReusedOnlyUnjournaled(Restarted(CutOff(w, kept)).log)
    ensures Durable(Restarted(CutOff(w, kept)))
  {
    assert w.file.Some? ==> OpenFile(w);
    hide CutOff, Consistent, Durable, NamesReusedOnlyUnjournaled, OpenFile;
    var v := CutOff(w, kept);
    CrashKeeps(cfg, w, kept);
    DistinctShrinks(w.log, v.log);
    CutDurable(w, kept);
    SameDiskDurable(v, Restarted(v));
  }

  lemma CutDurable(w: Writer, kept: nat)
    requires Durable(w) && NamesReusedOnlyUnjournaled(w.log) && (w.file.Some? ==> OpenFile(w))
    ensures Durable(CutOff(w, kept))
  {
    var v := CutOff(w, kept);
    forall k | 0 <= k < |v.log| && v.log[k].journaled ensures Stored(v, v.log[k]) {
      assert Stored(w, w.log[k]);
      if w.file.Some? && k < |w.log| - 1 {
        assert v.log[k] == w.log[k];
      }
    }
  }

  lemma StepKeeps(cfg: Config, s: System, a: Action)
    requires Consistent(cfg, s.w)
    ensures Consistent(cfg, Step(cfg, s, a).w) && Extends(s.w.log, Step(cfg, s, a).w.log)
  {
    hide WriterStep, Consistent, Restarted, CutOff;
    match a {
      case Write(written) => WriterStepKeeps(cfg, s.w, s.ctl, written);
      case Packet(slice) => if s.w.pc == Idle { PacketKeeps(cfg, s.w, slice); }
      case Crash(kept) => CrashKeeps(cfg, s.w, kept);
      case _ =>
    }
  }

  lemma ExtendsTransitive(a: seq<Entry>, b: seq<Entry>, c: seq<Entry>)
    requires Extends(a, b) && Extends(b, c)
    ensures Extends(a, c)
  {}

  /** Every history keeps the agreement, from any state that has it. */
  lemma {:induction false} RunKeeps(cfg: Config, s: System, acts: seq<Action>)
    requires Consistent(cfg, s.w)
    ensures Consistent(cfg, Run(cfg, s, acts).w) && Extends(s.w.log, Run(cfg, s, acts).w.log)
    decreases |acts|
  {
    if acts == [] {
    } else {
      var t := Step(cfg, s, acts[0]);
      StepKeeps(cfg, s, acts[0]);
      RunKeeps(cfg, t, acts[1..]);
      ExtendsTransitive(s.w.log, t.w.log, Run(cfg, s, acts).w.log);
    }
  }

  lemma {:induction false} RunDurable(cfg: Config, s: System, acts: seq<Action>)
    requires Consistent(cfg, s.w) && Durable(s.w)
    requires NamesReusedOnlyUnjournaled(Run(cfg, s, acts).w.log)
    ensures Durable(Run(cfg, s, acts).w)
    decreases |acts|
  {
    if acts == [] {
    } else {
      var t := Step(cfg, s, acts[0]);
      StepKeeps(cfg, s, acts[0]);
      RunKeeps(cfg, t, acts[1..]);
      DistinctShrinks(t.w.log, Run(cfg, t, acts[1..]).w.log);
      StepDurable(cfg, s, acts[0]);
      RunDurable(cfg, t, acts[1..]);
    }
  }
}
