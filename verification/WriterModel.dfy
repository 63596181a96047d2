/** The file writer of src/output.cc as a machine of atomic steps, the run-control thread of
    src/session.h that changes the shared control block between those steps, and a crash that
    may strike between any two of them. */
module WriterModel {
  import opened Basics

  /** Key of a file name; module FileNames proves that printing it loses nothing. */
  datatype FileName = FileName(run: nat, index: int)

  datatype Config = Config(maxFileSize: nat, forceWrite: bool)

  /** The part of `ctrl` that two threads share. */
  datatype Control = Control(runNumber: nat, running: bool)

  datatype Journal = NoJournal | Journal(run: nat, index: int)

  /** History: one entry for every fopen, with the chunks fwrite accepted for it, whether the journal was
      replaced after the fopen, and, if a crash found the file open, how many bytes had left the process. */
  datatype Entry = Entry(name: FileName, chunks: seq<seq<Byte>>, journaled: bool, cut: Option<nat>)

  /** The next thing the writer thread will do. */
  datatype Pc =
    | Idle | TestRunning | TestRotate
    | FcloseOld | RenameOld | CompareRun | LoadRun | PickIndex
    | Fopen | WriteNewJournal | RenameJournal
    | Fwrite | TestStop | FcloseStop | RenameStop

  /** `inProgress` holds of an open file what fwrite took, whether it is on disk or still in the buffer of
      the stream. */
  datatype Writer = Writer(
    pc: Pc, slice: seq<Byte>,
    file: Option<FileName>, size: nat, count: int, run: nat,
    journal: Journal, newJournal: Journal,
    inProgress: map<FileName, seq<Byte>>, target: map<FileName, seq<Byte>>,
    log: seq<Entry>)
  {
    function Name(): FileName { FileName(run, count) }
  }

  /** A fresh process on whatever the previous one left on disk. */
  function Restarted(w: Writer): Writer {
    w.(pc := Idle, slice := [], file := None, size := 0, count := -1, run := 0)
  }

  const EMPTY_DISK := Writer(Idle, [], None, 0, -1, 0, NoJournal, NoJournal, map[], map[], [])

  /** The index a run starts from when its journal is consulted. */
  function JournalIndex(journal: Journal, run: nat): int {
    if journal.Journal? && journal.run == run then journal.index else 0
  }

  /** rename(2) of the closed file into the target directory, and the two assignments after it. */
  function Moved(w: Writer): Writer {
    var closed := w.(size := 0, count := w.count + 1);
    if w.Name() in w.inProgress
    then closed.(inProgress := w.inProgress - {w.Name()}, target := w.target[w.Name() := w.inProgress[w.Name()]])
    else closed
  }

  /** fopen with mode "w": the name now denotes an empty file in the working directory. */
  function Opened(w: Writer): Writer {
    w.(file := Some(w.Name()), inProgress := w.inProgress[w.Name() := []],
       log := w.log + [Entry(w.Name(), [], false, None)])
  }

  /** rename(2) of the new journal over the old one. */
  function JournalReplaced(w: Writer): Writer {
    w.(journal := w.newJournal, newJournal := NoJournal,
       log := if w.log == [] then [] else w.log[|w.log| - 1 := w.log[|w.log| - 1].(journaled := true)])
  }

  /** What fwrite took when it returned `written`; also, what a crash leaves of a longer sequence. */
  function Accepted(slice: seq<Byte>, written: nat): (taken: seq<Byte>)
    ensures taken <= slice && |taken| == Min(written, |slice|)
  {
    if written <= |slice| then slice[..written] else slice
  }

  function Appended(w: Writer, chunk: seq<Byte>): Writer {
    if w.file.Some? && w.file.value in w.inProgress && w.log != [] then
      var last := w.log[|w.log| - 1];
      w.(inProgress := w.inProgress[w.file.value := w.inProgress[w.file.value] + chunk],
         size := w.size + |chunk|,
         log := w.log[|w.log| - 1 := last.(chunks := last.chunks + [chunk])])
    else w
  }

  /** The process dies: of the open file only what had left the stream's buffer, its first `kept` bytes,
      stays on disk. A closed file was flushed by fclose. */
  function CutOff(w: Writer, kept: nat): Writer {
    if w.file.Some? && w.file.value in w.inProgress && w.log != [] then
      var last := w.log[|w.log| - 1];
      w.(inProgress := w.inProgress[w.file.value := Accepted(w.inProgress[w.file.value], kept)],
         log := w.log[|w.log| - 1 := last.(cut := Some(kept))])
    else w
  }

  predicate MustRotate(cfg: Config, w: Writer, runNumber: nat) {
    w.file.None? || w.size > cfg.maxFileSize || w.run != runNumber
  }

  /** One atomic step of the writer thread; `ctl` is the control block at that instant and
      `written` is what fwrite returns if this step is the fwrite. */
  function WriterStep(cfg: Config, w: Writer, ctl: Control, written: nat): Writer {
    match w.pc
    case Idle => w
    case TestRunning => w.(pc := if ctl.running || cfg.forceWrite then TestRotate else TestStop)
    case TestRotate => w.(pc := if MustRotate(cfg, w, ctl.runNumber) then FcloseOld else Fwrite)
    case FcloseOld => if w.file.Some? then w.(file := None, pc := RenameOld) else w.(pc := CompareRun)
    case RenameOld => Moved(w).(pc := CompareRun)
    case CompareRun => w.(pc := if w.run != ctl.runNumber then LoadRun else PickIndex)
    case LoadRun => w.(run := ctl.runNumber, count := -1, pc := PickIndex)
    case PickIndex => w.(count := if w.count < 0 then JournalIndex(w.journal, w.run) else w.count, pc := Fopen)
    case Fopen => Opened(w).(pc := WriteNewJournal)
    case WriteNewJournal => w.(newJournal := Journal(w.run, w.count + 1), pc := RenameJournal)
    case RenameJournal => JournalReplaced(w).(pc := Fwrite)
    case Fwrite => Appended(w, Accepted(w.slice, written)).(pc := TestStop)
    case TestStop =>
      if !ctl.running && w.file.Some? && !cfg.forceWrite then w.(pc := FcloseStop) else w.(pc := Idle, slice := [])
    case FcloseStop => w.(file := None, pc := RenameStop)
    case RenameStop => Moved(w).(count := -1, pc := Idle, slice := [])
  }

  /** How far a call still is from returning; every step of a running call lowers it. */
  function Rank(pc: Pc): nat {
    match pc
    case Idle => 0 case RenameStop => 1 case FcloseStop => 2 case TestStop => 3 case Fwrite => 4
    case RenameJournal => 5 case WriteNewJournal => 6 case Fopen => 7 case PickIndex => 8 case LoadRun => 9
    case CompareRun => 10 case RenameOld => 11 case FcloseOld => 12 case TestRotate => 13 case TestRunning => 14
  }

  /** The session thread between two commands, or between its two stores of one `start`. */
  datatype Session = Ready | Publishing

  /** One recorded slice: what was offered, what fwrite took, the file it went to, and indices
      into the list of published run numbers: the one current when the call began, the one whose
      `start` made the call see `running`, the one the writer read, the one current at the write. */
  datatype Record = Record(slice: seq<Byte>, chunk: seq<Byte>, name: FileName,
                           callIdx: nat, sawIdx: nat, readIdx: nat, endIdx: nat)

  /** `pubs` lists every value `control.run_number` ever took, oldest first. */
  datatype History = History(pubs: seq<nat>, startIdx: nat, callIdx: nat, sawIdx: nat, readIdx: nat,
                             records: seq<Record>)

  datatype System = System(ctl: Control, session: Session, w: Writer, h: History)

  /** Packet: the pipeline hands the writer a slice. Write: the writer's next atomic step.
      Start, Go, Stop: the session thread's atomic steps. Crash: the process dies with `kept` bytes of
      the open file on disk, and is restarted. */
  datatype Action = Packet(slice: seq<Byte>) | Write(written: nat) | Start(run: nat) | Go | Stop | Crash(kept: nat)

  predicate NoCrash(acts: seq<Action>) { forall a :: a in acts ==> !a.Crash? }

  const INIT := System(Control(0, false), Ready, EMPTY_DISK, History([0], 0, 0, 0, 0, []))

  /** `std::stoul` yields 64 bits, the variable it is stored in has 32. */
  function RunNumber(parsed: nat): nat { parsed % 0x1_0000_0000 }

  function Current(h: History): nat { if h.pubs == [] then 0 else |h.pubs| - 1 }

  /** The bookkeeping that goes with the writer step about to be taken. */
  function Observe(cfg: Config, s: System, written: nat): History {
    match s.w.pc
    case TestRunning => s.h.(sawIdx := if s.ctl.running then s.h.startIdx else 0)
    case TestRotate => if MustRotate(cfg, s.w, s.ctl.runNumber) then s.h else s.h.(readIdx := Current(s.h))
    case CompareRun => s.h.(readIdx := Current(s.h))
    case LoadRun => s.h.(readIdx := Current(s.h))
    case Fwrite =>
      var name := if s.w.file.Some? then s.w.file.value else s.w.Name();
      s.h.(records := s.h.records + [Record(s.w.slice, Accepted(s.w.slice, written), name,
                                            s.h.callIdx, s.h.sawIdx, s.h.readIdx, Current(s.h))])
    case _ => s.h
  }

  function Step(cfg: Config, s: System, a: Action): System {
    match a
    case Packet(slice) =>
      if s.w.pc == Idle
      then s.(w := s.w.(pc := TestRunning, slice := slice), h := s.h.(callIdx := Current(s.h), sawIdx := 0))
      else s
    case Write(written) => s.(w := WriterStep(cfg, s.w, s.ctl, written), h := Observe(cfg, s, written))
    case Start(parsed) =>
      var r := RunNumber(parsed);
      if s.session == Ready && (!s.ctl.running || s.ctl.runNumber != r)
      then s.(ctl := s.ctl.(runNumber := r), session := Publishing, h := s.h.(pubs := s.h.pubs + [r]))
      else s
    case Go =>
      if s.session == Publishing
      then s.(ctl := s.ctl.(running := true), session := Ready, h := s.h.(startIdx := Current(s.h)))
      else s
    case Stop => if s.session == Ready then s.(ctl := s.ctl.(running := false)) else s
    case Crash(kept) =>
      System(Control(0, false), Ready, Restarted(CutOff(s.w, kept)), s.h.(pubs := s.h.pubs + [0]))
  }

  /** The state after a history of actions, in the order they happened. */
  function Run(cfg: Config, s: System, acts: seq<Action>): System
    decreases |acts|
  {
    if acts == [] then s else Run(cfg, Step(cfg, s, acts[0]), acts[1..])
  }

  lemma {:induction false} RunConcat(cfg: Config, s: System, first: seq<Action>, second: seq<Action>)
    ensures Run(cfg, s, first + second) == Run(cfg, Run(cfg, s, first), second)
    decreases |first|
  {
    if first == [] {
      assert first + second == second;
    } else {
      assert (first + second)[1..] == first[1..] + second;
      RunConcat(cfg, Step(cfg, s, first[0]), first[1..], second);
    }
  }
}
