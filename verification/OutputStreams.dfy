/** The classes of src/output.cc and src/session.h, proved against the writer model. */
module OutputStreams {
  import opened Basics
  import opened WriterModel
  import opened WriterInvariant
  import opened WriterCalls

  /** The output directory: the journal, its replacement, and the files of the two directories. */
  class Disk {
    var journal: Journal
    var newJournal: Journal
    var inProgress: map<FileName, seq<Byte>>
    var target: map<FileName, seq<Byte>>

    constructor ()
      ensures journal == NoJournal && newJournal == NoJournal && inProgress == map[] && target == map[]
    {
      journal, newJournal, inProgress, target := NoJournal, NoJournal, map[], map[];
    }
  }

  class OutputStream {
    const cfg: Config
    const disk: Disk
    var currentFile: Option<FileName>
    var currentFileSize: nat
    var fileCount: int
    var currentRunNumber: nat
    ghost var log: seq<Entry>

    ghost function Abs(): Writer
      reads this, disk
    {
      Writer(Idle, [], currentFile, currentFileSize, fileCount, currentRunNumber,
             disk.journal, disk.newJournal, disk.inProgress, disk.target, log)
    }

    /** A freshly started writer on the directory that `disk` describes. */
    constructor (cfg: Config, disk: Disk, ghost log: seq<Entry>)
      ensures this.disk == disk && this.cfg == cfg
      ensures currentFile == None && currentFileSize == 0 && fileCount == -1 && currentRunNumber == 0
      ensures Abs() == Restarted(EMPTY_DISK.(journal := disk.journal, newJournal := disk.newJournal,
                                            inProgress := disk.inProgress, target := disk.target, log := log))
    {
      this.cfg, this.disk, this.log := cfg, disk, log;
      currentFile, currentFileSize, fileCount, currentRunNumber := None, 0, -1, 0;
    }

    method CloseAndMoveCurrentFile()
      modifies this, disk
      ensures Abs() == Close(old(Abs()))
      ensures currentFile == None && currentRunNumber == old(currentRunNumber)
      ensures old(currentFile).Some? ==> currentFileSize == 0 && fileCount == old(fileCount) + 1
      ensures old(currentFile).None? ==> currentFileSize == old(currentFileSize) && fileCount == old(fileCount)
    {
      if currentFile.Some? {
        currentFile := None;
        var runFile := FileName(currentRunNumber, fileCount);
        if runFile in disk.inProgress {
          disk.target := disk.target[runFile := disk.inProgress[runFile]];
          disk.inProgress := disk.inProgress - {runFile};
        }
        currentFileSize := 0;
        fileCount := fileCount + 1;
      }
    }

    method UpdateJournal(run: nat, index: int)
      requires log != []
      modifies this, disk
      ensures Abs() == JournalReplaced(old(Abs()).(newJournal := Journal(run, index)))
      ensures disk.journal == Journal(run, index) && disk.newJournal == NoJournal
      ensures disk.inProgress == old(disk.inProgress) && disk.target == old(disk.target)
    {
      disk.newJournal := Journal(run, index);
      disk.journal, disk.newJournal := disk.newJournal, NoJournal;
      log := log[|log| - 1 := log[|log| - 1].(journaled := true)];
    }

    /** `run153` and `run154` are what the two reads of `control.run_number` return. */
    method OpenNextFile(run153: nat, run154: nat)
      modifies this, disk
      ensures Abs() == OpenNext(old(Abs()), run153, run154)
      ensures currentRunNumber == (if old(currentRunNumber) != run153 then run154 else old(currentRunNumber))
      ensures currentFile == Some(FileName(currentRunNumber, fileCount))
      ensures disk.journal == Journal(currentRunNumber, fileCount + 1)
      ensures currentFile.value in disk.inProgress && disk.inProgress[currentFile.value] == [] && log != []
    {
      hide Close;
      CloseAndMoveCurrentFile();
      if currentRunNumber != run153 {
        currentRunNumber := run154;
        fileCount := -1;
      }
      if fileCount < 0 {
        fileCount := 0;
        if disk.journal.Journal? && disk.journal.run == currentRunNumber {
          fileCount := disk.journal.index;
        }
      }
      var name := FileName(currentRunNumber, fileCount);
      disk.inProgress := disk.inProgress[name := []];
      currentFile := Some(name);
      log := log + [Entry(name, [], false, None)];
      UpdateJournal(currentRunNumber, fileCount + 1);
    }

    method Fwrite(slice: seq<Byte>, written: nat) returns (n: nat)
      requires currentFile.Some? && currentFile.value in disk.inProgress && log != []
      modifies this, disk
      ensures n == |Accepted(slice, written)|
      ensures Abs() == Appended(old(Abs()), Accepted(slice, written))
    {
      var chunk := if written <= |slice| then slice[..written] else slice;
      n := |chunk|;
      disk.inProgress := disk.inProgress[currentFile.value := disk.inProgress[currentFile.value] + chunk];
      ghost var last := log[|log| - 1];
      log := log[|log| - 1 := last.(chunks := last.chunks + [chunk])];
      currentFileSize := currentFileSize + n;
    }

    /** One slice. The values its reads of the shared control block return are `e`: the session
        thread may have changed the block before each of them. */
    method Process(slice: seq<Byte>, e: Reads)
      requires Consistent(cfg, Abs())
      modifies this, disk
      ensures Abs() == Call(cfg, old(Abs()), slice, e)
      ensures Consistent(cfg, Abs())
    {
      CallKeepsConsistent(cfg, Abs(), slice, e);
      assert currentFile.Some? ==> currentFile.value in disk.inProgress && log != [];
      hide Close, OpenNext, Appended, Accepted, Consistent;
      if e.running94 || cfg.forceWrite {
        if currentFile.None? || currentFileSize > cfg.maxFileSize || currentRunNumber != e.run95 {
          OpenNextFile(e.run153, e.run154);
        }
        var n := Fwrite(slice, e.written);
      }
      if !e.running107 && currentFile.Some? && !cfg.forceWrite {
        CloseAndMoveCurrentFile();
        fileCount := -1;
      }
    }
  }

  lemma {:induction false} FinishKeepsConsistent(cfg: Config, w: Writer, e: Reads)
    requires Consistent(cfg, w)
    ensures Consistent(cfg, Finish(cfg, w, e)) && Finish(cfg, w, e).pc == Idle
    decreases Rank(w.pc)
  {
    hide WriterStep, Consistent, ControlAt;
    if w.pc == Idle {
    } else {
      RankFalls(cfg, w, ControlAt(e, w.pc), e.written);
      WriterStepKeeps(cfg, w, ControlAt(e, w.pc), e.written);
      FinishKeepsConsistent(cfg, WriterStep(cfg, w, ControlAt(e, w.pc), e.written), e);
    }
  }

  /** A whole call keeps memory, journal, directories and log in agreement, whatever it reads. */
  lemma CallKeepsConsistent(cfg: Config, w: Writer, slice: seq<Byte>, e: Reads)
    requires Consistent(cfg, w) && w.pc == Idle && w.slice == []
    ensures Consistent(cfg, Call(cfg, w, slice, e))
  {
    hide Consistent, Finish, Call;
    PacketKeeps(cfg, w, slice);
    StepsComposeToCall(cfg, w, slice, e);
    FinishKeepsConsistent(cfg, w.(pc := TestRunning, slice := slice), e);
  }

  // ---- The run-control session ------------------------------------------------------------------

  datatype Reply = WrongNumberOfArguments | Done | Ignored | UnknownCommand | CannotParse

  /** What the tokens of a command ask for, or the reply that rejects them. */
  datatype Request = StartRun(run: nat) | StopRun | Reject(reply: Reply)

  /** The tests of process_command in their order; `stoul` is the library's parser. */
  function RequestOf(items: seq<string>, stoul: string -> Option<nat>): Request {
    if |items| < 1 || |items| > 2 then Reject(WrongNumberOfArguments)
    else if items[0] == "start" then
      if |items| != 2 then Reject(WrongNumberOfArguments)
      else match stoul(items[1]) case None => Reject(CannotParse) case Some(n) => StartRun(n)
    else if items[0] == "stop" then StopRun
    else Reject(UnknownCommand)
  }

  /** The atomic steps of the session thread for one request. */
  function Steps(q: Request): seq<Action> {
    match q
    case StartRun(n) => [Start(n), Go]
    case StopRun => [Stop]
    case Reject(_) => []
  }

  class ControlBlock {
    var runNumber: nat
    var running: bool

    function Value(): Control
      reads this
    {
      Control(runNumber, running)
    }

    /** One command of the run-control protocol. The block ends in the state that the session
        thread's atomic steps lead to from any state of the writer, and the reply says whether
        the command did anything. */
    method ProcessCommand(items: seq<string>, stoul: string -> Option<nat>) returns (reply: Reply)
      modifies this
      ensures forall cfg: Config, s: System :: s.ctl == old(Value()) && s.session == Ready ==>
                Run(cfg, s, Steps(RequestOf(items, stoul))).ctl == Value()
      ensures |items| < 1 || |items| > 2 || (items[0] == "start" && |items| != 2) ==>
                reply == WrongNumberOfArguments && Value() == old(Value())
      ensures |items| == 2 && items[0] == "start" && stoul(items[1]).None? ==>
                reply == CannotParse && Value() == old(Value())
      ensures |items| == 2 && items[0] == "start" && stoul(items[1]).Some? ==>
                var run := stoul(items[1]).value % 0x1_0000_0000;
                && Value() == Control(run, true)
                && reply == if old(running) && old(runNumber) == run then Ignored else Done
      ensures 1 <= |items| <= 2 && items[0] == "stop" ==>
                Value() == Control(old(runNumber), false) && reply == if old(running) then Done else Ignored
      ensures 1 <= |items| <= 2 && items[0] != "start" && items[0] != "stop" ==>
                reply == UnknownCommand && Value() == old(Value())
    {
      ghost var before := Value();
      if |items| < 1 || |items| > 2 {
        return WrongNumberOfArguments;
      }
      if items[0] == "start" {
        if |items| != 2 {
          return WrongNumberOfArguments;
        }
        var parsed := stoul(items[1]);
        if parsed.None? {
          return CannotParse;
        }
        var run := parsed.value % 0x1_0000_0000;
        if !running || runNumber != run {
          runNumber := run;
          running := true;
          reply := Done;
        } else {
          reply := Ignored;
        }
        forall cfg: Config, s: System | s.ctl == before && s.session == Ready
          ensures Run(cfg, s, Steps(RequestOf(items, stoul))).ctl == Value()
        {
          StartThenGo(cfg, s, parsed.value);
        }
      } else if items[0] == "stop" {
        if running {
          running := false;
          reply := Done;
        } else {
          reply := Ignored;
        }
      } else {
        reply := UnknownCommand;
      }
    }
  }

  /** `start n` publishes the run number before it sets `running`, and is ignored while that very
      run is being recorded. */
  lemma StartThenGo(cfg: Config, s: System, parsed: nat)
    requires s.session == Ready
    ensures Run(cfg, s, [Start(parsed), Go]).ctl == Control(RunNumber(parsed), true)
    ensures Run(cfg, s, [Start(parsed), Go]).session == Ready
    ensures Step(cfg, s, Start(parsed)).ctl == Control(RunNumber(parsed), s.ctl.running)
  {
    var t := Step(cfg, s, Start(parsed));
    assert [Start(parsed), Go][1..] == [Go];
    assert Run(cfg, s, [Start(parsed), Go]) == Run(cfg, t, [Go]) == Step(cfg, t, Go);
  }
}
