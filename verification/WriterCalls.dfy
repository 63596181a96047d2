/** One call of the writer seen from outside: what `operator()` does when the values its reads of
    `control` return are given. Every interleaving of the atomic steps is such a call. */
module WriterCalls {
  import opened Basics
  import opened WriterModel

  /** The values read at lines 94, 95, 153, 154 and 107 of src/output.cc, and fwrite's result. */
  datatype Reads = Reads(running94: bool, run95: nat, run153: nat, run154: nat, written: nat, running107: bool)

  function Close(w: Writer): Writer {
    if w.file.Some? then Moved(w.(file := None)) else w
  }

  function Renumbered(w: Writer, run153: nat, run154: nat): Writer {
    var c := if w.run != run153 then w.(run := run154, count := -1) else w;
    if c.count < 0 then c.(count := JournalIndex(c.journal, c.run)) else c
  }

  function Journaled(w: Writer): Writer {
    JournalReplaced(w.(newJournal := Journal(w.run, w.count + 1)))
  }

  function OpenNext(w: Writer, run153: nat, run154: nat): Writer {
    Journaled(Opened(Renumbered(Close(w), run153, run154)))
  }

  function StopPart(cfg: Config, w: Writer, running107: bool): Writer {
    if !running107 && w.file.Some? && !cfg.forceWrite then Close(w).(count := -1) else w
  }

  function Call(cfg: Config, w: Writer, slice: seq<Byte>, e: Reads): Writer {
    var record := e.running94 || cfg.forceWrite;
    var ready := if record && MustRotate(cfg, w, e.run95) then OpenNext(w, e.run153, e.run154) else w;
    var done := if record then Appended(ready, Accepted(slice, e.written)) else w;
    StopPart(cfg, done, e.running107)
  }

  /** The control block as the read at program point `pc` finds it. */
  function ControlAt(e: Reads, pc: Pc): Control {
    match pc
    case TestRunning => Control(0, e.running94)
    case TestRotate => Control(e.run95, false)
    case CompareRun => Control(e.run153, false)
    case LoadRun => Control(e.run154, false)
    case TestStop => Control(0, e.running107)
    case _ => Control(0, false)
  }

  /** Atomic steps until the call returns. */
  function Finish(cfg: Config, w: Writer, e: Reads): Writer
    decreases Rank(w.pc)
  {
    if w.pc == Idle then w else Finish(cfg, WriterStep(cfg, w, ControlAt(e, w.pc), e.written), e)
  }

  function AtRest(w: Writer): Writer { w.(pc := Idle, slice := []) }

  lemma FinishFromStop(cfg: Config, w: Writer, e: Reads)
    requires w.pc == TestStop
    ensures Finish(cfg, w, e) == StopPart(cfg, AtRest(w), e.running107)
  {
    var a := WriterStep(cfg, w, ControlAt(e, TestStop), e.written);
    if a.pc == FcloseStop {
      var b := WriterStep(cfg, a, ControlAt(e, FcloseStop), e.written);
      var c := WriterStep(cfg, b, ControlAt(e, RenameStop), e.written);
      assert Finish(cfg, a, e) == Finish(cfg, b, e) == Finish(cfg, c, e) == c;
    }
  }

  lemma OneStep(cfg: Config, w: Writer, e: Reads)
    requires w.pc != Idle
    ensures Finish(cfg, w, e) == Finish(cfg, WriterStep(cfg, w, ControlAt(e, w.pc), e.written), e)
  {
    hide WriterStep, ControlAt;
  }

  lemma FinishFromFwrite(cfg: Config, w: Writer, e: Reads)
    requires w.pc == Fwrite
    ensures Finish(cfg, w, e) == StopPart(cfg, Appended(AtRest(w), Accepted(w.slice, e.written)), e.running107)
  {
    var written := Appended(w, Accepted(w.slice, e.written)).(pc := TestStop);
    assert AtRest(written) == Appended(AtRest(w), Accepted(w.slice, e.written));
    hide Finish, Appended, Accepted, StopPart, AtRest;
    OneStep(cfg, w, e);
    FinishFromStop(cfg, written, e);
  }

  lemma FinishFromPick(cfg: Config, w: Writer, e: Reads)
    requires w.pc == PickIndex
    ensures var p := w.(count := if w.count < 0 then JournalIndex(w.journal, w.run) else w.count);
            Finish(cfg, w, e) == Finish(cfg, Journaled(Opened(p)).(pc := Fwrite), e)
  {
    hide Finish, JournalReplaced, Opened;
    var p := w.(count := if w.count < 0 then JournalIndex(w.journal, w.run) else w.count);
    OneStep(cfg, w, e);
    OneStep(cfg, p.(pc := Fopen), e);
    FinishFromOpened(cfg, Opened(p).(pc := WriteNewJournal), e);
    OpenedIgnoresPc(p, Fopen, WriteNewJournal);
    JournaledIgnoresPc(Opened(p), WriteNewJournal, Fwrite);
  }

  lemma FinishFromOpened(cfg: Config, w: Writer, e: Reads)
    requires w.pc == WriteNewJournal
    ensures Finish(cfg, w, e) == Finish(cfg, Journaled(w).(pc := Fwrite), e)
  {
    hide Finish, JournalReplaced;
    var n := w.(newJournal := Journal(w.run, w.count + 1));
    OneStep(cfg, w, e);
    OneStep(cfg, n.(pc := RenameJournal), e);
    assert JournalReplaced(n.(pc := RenameJournal)).(pc := Fwrite) == JournalReplaced(n).(pc := Fwrite) by {
      ReplacedIgnoresPc(n, RenameJournal, Fwrite);
    }
  }

  lemma OpenedIgnoresPc(w: Writer, pc: Pc, pc': Pc)
    ensures Opened(w.(pc := pc)).(pc := pc') == Opened(w).(pc := pc')
  {}

  lemma ReplacedIgnoresPc(w: Writer, pc: Pc, pc': Pc)
    ensures JournalReplaced(w.(pc := pc)).(pc := pc') == JournalReplaced(w).(pc := pc')
  {}

  lemma JournaledIgnoresPc(w: Writer, pc: Pc, pc': Pc)
    ensures Journaled(w.(pc := pc)).(pc := pc') == Journaled(w).(pc := pc')
  {}

  lemma FinishFromCompare(cfg: Config, w: Writer, e: Reads)
    requires w.pc == CompareRun
    ensures Finish(cfg, w, e) == Finish(cfg, Journaled(Opened(Renumbered(w, e.run153, e.run154))).(pc := Fwrite), e)
  {
    hide Finish, Journaled, Opened;
    var a := if w.run != e.run153 then w.(run := e.run154, count := -1, pc := PickIndex) else w.(pc := PickIndex);
    OneStep(cfg, w, e);
    if w.run != e.run153 {
      OneStep(cfg, w.(pc := LoadRun), e);
    }
    FinishFromPick(cfg, a, e);
    var r := Renumbered(w, e.run153, e.run154);
    var p := a.(count := if a.count < 0 then JournalIndex(a.journal, a.run) else a.count);
    assert p == r.(pc := PickIndex);
    OpenedIgnoresPc(r, PickIndex, CompareRun);
    OpenedIgnoresPc(r, PickIndex, Fwrite);
    JournaledIgnoresPc(Opened(p), CompareRun, Fwrite);
    JournaledIgnoresPc(Opened(r), CompareRun, Fwrite);
  }

  lemma OpenNextIgnoresPc(w: Writer, pc: Pc, slice: seq<Byte>, run153: nat, run154: nat)
    ensures OpenNext(w.(pc := pc, slice := slice), run153, run154)
         == OpenNext(w, run153, run154).(pc := pc, slice := slice)
  {
    var v := w.(pc := pc, slice := slice);
    assert Close(v) == Close(w).(pc := pc, slice := slice);
    assert Renumbered(Close(v), run153, run154) == Renumbered(Close(w), run153, run154).(pc := pc, slice := slice);
  }

  lemma FinishFromRotate(cfg: Config, w: Writer, e: Reads)
    requires w.pc == FcloseOld
    ensures Finish(cfg, w, e) == Finish(cfg, OpenNext(w, e.run153, e.run154).(pc := Fwrite), e)
  {
    var closed := Close(w).(pc := CompareRun);
    CloseSteps(cfg, w, e);
    hide Finish, Close, Opened, Journaled;
    FinishFromCompare(cfg, closed, e);
    var r := Renumbered(Close(w), e.run153, e.run154);
    assert Renumbered(closed, e.run153, e.run154) == r.(pc := CompareRun);
    OpenedIgnoresPc(r, CompareRun, CompareRun);
    JournaledIgnoresPc(Opened(r), CompareRun, Fwrite);
  }

  lemma CloseSteps(cfg: Config, w: Writer, e: Reads)
    requires w.pc == FcloseOld
    ensures Finish(cfg, w, e) == Finish(cfg, Close(w).(pc := CompareRun), e)
  {
    hide Finish, Moved;
    OneStep(cfg, w, e);
    if w.file.Some? {
      OneStep(cfg, w.(file := None, pc := RenameOld), e);
      assert Moved(w.(file := None, pc := RenameOld)).(pc := CompareRun) == Close(w).(pc := CompareRun) by {
        MovedIgnoresPc(w.(file := None), RenameOld, CompareRun);
      }
    }
  }

  lemma MovedIgnoresPc(w: Writer, pc: Pc, pc': Pc)
    ensures Moved(w.(pc := pc)).(pc := pc') == Moved(w).(pc := pc')
  {}

  lemma FinishRecording(cfg: Config, w: Writer, slice: seq<Byte>, e: Reads)
    requires w.pc == Idle && w.slice == []
    ensures Finish(cfg, w.(pc := TestRotate, slice := slice), e)
         == StopPart(cfg, Appended(if MustRotate(cfg, w, e.run95) then OpenNext(w, e.run153, e.run154) else w,
                                   Accepted(slice, e.written)), e.running107)
  {
    var t := w.(pc := TestRotate, slice := slice);
    assert MustRotate(cfg, t, e.run95) == MustRotate(cfg, w, e.run95);
    FinishFromRotateTest(cfg, t, e);
    hide Finish, OpenNext, StopPart, Appended, MustRotate, Accepted;
    if MustRotate(cfg, w, e.run95) {
      var o := OpenNext(t.(pc := FcloseOld), e.run153, e.run154).(pc := Fwrite);
      FinishFromRotate(cfg, t.(pc := FcloseOld), e);
      OpenNextIgnoresPc(w, FcloseOld, slice, e.run153, e.run154);
      FinishFromFwrite(cfg, o, e);
      OpenNextPc(w, e.run153, e.run154);
      assert AtRest(o) == OpenNext(w, e.run153, e.run154);
    } else {
      FinishFromFwrite(cfg, t.(pc := Fwrite), e);
      assert AtRest(t.(pc := Fwrite)) == w;
    }
  }

  lemma OpenNextPc(w: Writer, run153: nat, run154: nat)
    ensures OpenNext(w, run153, run154).pc == w.pc && OpenNext(w, run153, run154).slice == w.slice
  {}

  lemma FinishFromRotateTest(cfg: Config, w: Writer, e: Reads)
    requires w.pc == TestRotate
    ensures Finish(cfg, w, e) == Finish(cfg, w.(pc := if MustRotate(cfg, w, e.run95) then FcloseOld else Fwrite), e)
  {
    hide MustRotate;
  }

  /** The atomic steps of an undisturbed call compose to the call. */
  lemma StepsComposeToCall(cfg: Config, w: Writer, slice: seq<Byte>, e: Reads)
    requires w.pc == Idle && w.slice == []
    ensures Finish(cfg, w.(pc := TestRunning, slice := slice), e) == Call(cfg, w, slice, e)
  {
    if e.running94 || cfg.forceWrite {
      FinishRecording(cfg, w, slice, e);
    } else {
      FinishFromStop(cfg, w.(pc := TestStop, slice := slice), e);
      assert AtRest(w.(pc := TestStop, slice := slice)) == w;
    }
  }

  // ---- Every interleaving is a call ------------------------------------------------------------

  /** The reads of a call whose next writer step is taken now and whose later reads are `later`. */
  function Noted(s: System, written: nat, later: Reads): Reads {
    match s.w.pc
    case TestRunning => later.(running94 := s.ctl.running)
    case TestRotate => later.(run95 := s.ctl.runNumber)
    case CompareRun => later.(run153 := s.ctl.runNumber)
    case LoadRun => later.(run154 := s.ctl.runNumber)
    case Fwrite => later.(written := written)
    case TestStop => later.(running107 := s.ctl.running)
    case _ => later
  }

  /** The reads of the call in progress, taken from the interleaving itself. */
  function ReadsOf(cfg: Config, s: System, acts: seq<Action>): Reads
    decreases |acts|
  {
    if acts == [] then Reads(false, 0, 0, 0, 0, false)
    else
      var later := ReadsOf(cfg, Step(cfg, s, acts[0]), acts[1..]);
      if acts[0].Write? then Noted(s, acts[0].written, later) else later
  }

  /** The two sets of reads agree on everything a call at or past `pc` can still read. */
  predicate SameFrom(pc: Pc, e: Reads, f: Reads) {
    && (Rank(TestRunning) <= Rank(pc) ==> e.running94 == f.running94)
    && (Rank(TestRotate) <= Rank(pc) ==> e.run95 == f.run95)
    && (Rank(CompareRun) <= Rank(pc) ==> e.run153 == f.run153)
    && (Rank(LoadRun) <= Rank(pc) ==> e.run154 == f.run154)
    && (Rank(Fwrite) <= Rank(pc) ==> e.written == f.written)
    && (Rank(TestStop) <= Rank(pc) ==> e.running107 == f.running107)
  }

  lemma StepReadsOnlyItsOwn(cfg: Config, w: Writer, ctl: Control, written: nat, e: Reads)
    requires w.pc == TestRunning ==> e.running94 == ctl.running
    requires w.pc == TestRotate ==> e.run95 == ctl.runNumber
    requires w.pc == CompareRun ==> e.run153 == ctl.runNumber
    requires w.pc == LoadRun ==> e.run154 == ctl.runNumber
    requires w.pc == Fwrite ==> e.written == written
    requires w.pc == TestStop ==> e.running107 == ctl.running
    ensures WriterStep(cfg, w, ctl, written) == WriterStep(cfg, w, ControlAt(e, w.pc), e.written)
  {}

  lemma {:induction false} FinishIgnoresThePast(cfg: Config, w: Writer, e: Reads, f: Reads)
    requires SameFrom(w.pc, e, f)
    ensures Finish(cfg, w, e) == Finish(cfg, w, f)
    decreases Rank(w.pc)
  {
    if w.pc == Idle {
    } else {
      StepReadsOnlyItsOwn(cfg, w, ControlAt(e, w.pc), e.written, f);
      RankFalls(cfg, w, ControlAt(e, w.pc), e.written);
      hide WriterStep, ControlAt;
      FinishIgnoresThePast(cfg, WriterStep(cfg, w, ControlAt(e, w.pc), e.written), e, f);
    }
  }

  lemma NotedStep(cfg: Config, s: System, written: nat, later: Reads)
    requires s.w.pc != Idle
    ensures var t := Step(cfg, s, Write(written));
            Finish(cfg, t.w, later) == Finish(cfg, s.w, Noted(s, written, later))
  {
    var e := Noted(s, written, later);
    var v := WriterStep(cfg, s.w, s.ctl, written);
    StepReadsOnlyItsOwn(cfg, s.w, s.ctl, written, e);
    RankFalls(cfg, s.w, s.ctl, written);
    hide WriterStep, Finish, ControlAt;
    OneStep(cfg, s.w, e);
    FinishIgnoresThePast(cfg, v, later, e);
  }

  lemma RankFalls(cfg: Config, w: Writer, ctl: Control, written: nat)
    requires w.pc != Idle
    ensures Rank(WriterStep(cfg, w, ctl, written).pc) < Rank(w.pc)
  {
    hide Moved, Opened, JournalReplaced, Appended, MustRotate, JournalIndex;
  }

  lemma {:induction false} InterleavingFinishes(cfg: Config, s: System, acts: seq<Action>)
    requires forall a :: a in acts ==> !a.Packet? && !a.Crash?
    requires Run(cfg, s, acts).w.pc == Idle
    ensures Run(cfg, s, acts).w == Finish(cfg, s.w, ReadsOf(cfg, s, acts))
    decreases |acts|
  {
    if acts == [] {
    } else {
      var t := Step(cfg, s, acts[0]);
      var later := ReadsOf(cfg, t, acts[1..]);
      InterleavingFinishes(cfg, t, acts[1..]);
      if acts[0].Write? && s.w.pc != Idle {
        NotedStep(cfg, s, acts[0].written, later);
      } else {
        assert t.w == s.w;
      }
    }
  }

  /** However the session thread interleaves with a call, the call ends in the state that
      `Call` gives for the values it read. */
  lemma EveryInterleavingIsACall(cfg: Config, s: System, slice: seq<Byte>, acts: seq<Action>)
    requires s.w.pc == Idle && s.w.slice == []
    requires forall a :: a in acts ==> !a.Packet? && !a.Crash?
    requires Run(cfg, s, [Packet(slice)] + acts).w.pc == Idle
    ensures Run(cfg, s, [Packet(slice)] + acts).w
         == Call(cfg, s.w, slice, ReadsOf(cfg, Step(cfg, s, Packet(slice)), acts))
  {
    assert ([Packet(slice)] + acts)[1..] == acts;
    var t := Step(cfg, s, Packet(slice));
    InterleavingFinishes(cfg, t, acts);
    StepsComposeToCall(cfg, s.w, slice, ReadsOf(cfg, t, acts));
  }
}
