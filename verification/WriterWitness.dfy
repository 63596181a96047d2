/** Two histories that lose data: one without any crash, in which the second visit to a run overwrites the
    file of the first, and one without any return, in which a crash takes what fwrite had buffered. */
module WriterWitness {
  import opened Basics
  import opened WriterModel
  import opened WriterLog
  import opened WriterInvariant
  import opened WriterCalls

  function Writes(written: nat, n: nat): seq<Action> { seq(n, _ => Write(written)) }

  function Quiet(ctl: Control, written: nat): Reads {
    Reads(ctl.running, ctl.runNumber, ctl.runNumber, ctl.runNumber, written, ctl.running)
  }

  lemma {:induction false} Drain(cfg: Config, s: System, written: nat, n: nat)
    requires Rank(s.w.pc) <= n
    ensures var t := Run(cfg, s, Writes(written, n));
            t.w == Finish(cfg, s.w, Quiet(s.ctl, written)) && t.w.pc == Idle && t.ctl == s.ctl && t.session == s.session
    decreases n
  {
    if n == 0 {
    } else {
      var t := Step(cfg, s, Write(written));
      StepReadsOnlyItsOwn(cfg, s.w, s.ctl, written, Quiet(s.ctl, written));
      assert Writes(written, n)[1..] == Writes(written, n - 1);
      if s.w.pc != Idle {
        RankFalls(cfg, s.w, s.ctl, written);
      }
      assert t.w == WriterStep(cfg, s.w, s.ctl, written);
      hide WriterStep;
      Drain(cfg, t, written, n - 1);
    }
  }

  /** `start run` followed by one slice, with nobody interfering. */
  function Visit(run: nat, slice: seq<Byte>): seq<Action> {
    [Start(run), Go, Packet(slice)] + Writes(|slice|, 14)
  }

  lemma VisitIsACall(cfg: Config, s: System, run: nat, slice: seq<Byte>)
    requires s.w.pc == Idle && s.w.slice == [] && s.session == Ready
    requires run < 0x1_0000_0000 && (s.ctl.runNumber != run || !s.ctl.running)
    ensures var t := Run(cfg, s, Visit(run, slice));
            t.w == Call(cfg, s.w, slice, Quiet(Control(run, true), |slice|))
            && t.ctl == Control(run, true) && t.session == Ready && t.w.pc == Idle
  {
    hide WriterStep, Call, Finish, Writes, Quiet;
    var started := Step(cfg, Step(cfg, s, Start(run)), Go);
    var begun := Step(cfg, started, Packet(slice));
    var acts := Visit(run, slice);
    assert Run(cfg, s, acts) == Run(cfg, begun, Writes(|slice|, 14)) by {
      assert acts[1..] == [Go, Packet(slice)] + Writes(|slice|, 14);
      assert acts[1..][1..] == [Packet(slice)] + Writes(|slice|, 14);
      assert acts[1..][1..][1..] == Writes(|slice|, 14);
      assert Run(cfg, s, acts) == Run(cfg, Step(cfg, s, Start(run)), acts[1..]) == Run(cfg, started, acts[1..][1..]);
    }
    Drain(cfg, begun, |slice|, 14);
    StepsComposeToCall(cfg, s.w, slice, Quiet(Control(run, true), |slice|));
  }

  /** What a visit to another run leaves: the open file moved to the target directory, and the
      slice in a new file that the journal numbers. */
  function Visited(w: Writer, run: nat, slice: seq<Byte>): Writer {
    var closed := Close(w);
    var name := FileName(run, JournalIndex(w.journal, run));
    Writer(Idle, [], Some(name), |slice|, name.index, run, Journal(run, name.index + 1), NoJournal,
           closed.inProgress[name := slice], closed.target, w.log + [Entry(name, [slice], true, None)])
  }

  lemma OpenNextValue(w: Writer, run: nat)
    requires w.pc == Idle && w.slice == [] && w.run != run && (w.file.None? ==> w.size == 0)
    ensures var name := FileName(run, JournalIndex(w.journal, run));
            OpenNext(w, run, run) ==
            Writer(Idle, [], Some(name), 0, name.index, run, Journal(run, name.index + 1), NoJournal,
                   Close(w).inProgress[name := []], Close(w).target, w.log + [Entry(name, [], true, None)])
  {
    var name := FileName(run, JournalIndex(w.journal, run));
    var e := Entry(name, [], false, None);
    assert (w.log + [e])[|w.log| := Entry(name, [], true, None)] == w.log + [Entry(name, [], true, None)];
  }

  lemma FirstSlice(o: Writer, log: seq<Entry>, slice: seq<Byte>)
    requires o.file.Some? && o.file.value in o.inProgress && o.inProgress[o.file.value] == []
    requires o.log == log + [Entry(o.file.value, [], true, None)]
    ensures Appended(o, slice) == o.(size := o.size + |slice|, log := log + [Entry(o.file.value, [slice], true, None)],
                                     inProgress := o.inProgress[o.file.value := slice])
  {
    assert [] + slice == slice;
    assert Entry(o.file.value, [], true, None).chunks + [slice] == [slice];
  }

  lemma VisitEffect(cfg: Config, s: System, run: nat, slice: seq<Byte>)
    requires s.w.pc == Idle && s.w.slice == [] && s.session == Ready && s.w.run != run
    requires run < 0x1_0000_0000 && (s.ctl.runNumber != run || !s.ctl.running)
    requires s.w.file.None? ==> s.w.size == 0
    ensures var t := Run(cfg, s, Visit(run, slice));
            t.w == Visited(s.w, run, slice) && t.ctl == Control(run, true) && t.session == Ready
  {
    hide Run, Visit, OpenNext, JournalIndex, Appended;
    VisitIsACall(cfg, s, run, slice);
    OpenNextValue(s.w, run);
    FirstSlice(OpenNext(s.w, run, run), s.w.log, slice);
    var name := FileName(run, JournalIndex(s.w.journal, run));
    assert Close(s.w).inProgress[name := []][name := slice] == Close(s.w).inProgress[name := slice];
    assert Accepted(slice, |slice|) == slice;
    assert Call(cfg, s.w, slice, Quiet(Control(run, true), |slice|)) == Appended(OpenNext(s.w, run, run), slice);
  }

  /** Runs 1, 2, 1, 3 with one slice each: after the history no directory holds the first slice. */
  lemma ReturningLosesData(cfg: Config, a: seq<Byte>, b: seq<Byte>, c: seq<Byte>, d: seq<Byte>)
    requires a != c
    ensures var w := Run(cfg, INIT, Visit(1, a) + Visit(2, b) + Visit(1, c) + Visit(3, d)).w;
            && |w.log| == 4 && w.log[0] == Entry(FileName(1, 0), [a], true, None)
            && w.inProgress == map[FileName(3, 0) := d]
            && w.target == map[FileName(1, 0) := c, FileName(2, 0) := b]
            && !Durable(w)
  {
    hide Run, Visit;
    var s1 := Run(cfg, INIT, Visit(1, a));
    VisitEffect(cfg, INIT, 1, a);
    var s2 := Run(cfg, s1, Visit(2, b));
    VisitEffect(cfg, s1, 2, b);
    assert s2.w.inProgress == map[FileName(2, 0) := b] && s2.w.target == map[FileName(1, 0) := a];
    var s3 := Run(cfg, s2, Visit(1, c));
    VisitEffect(cfg, s2, 1, c);
    assert s3.w.inProgress == map[FileName(1, 0) := c] && s3.w.target == map[FileName(1, 0) := a, FileName(2, 0) := b];
    var s4 := Run(cfg, s3, Visit(3, d));
    VisitEffect(cfg, s3, 3, d);
    assert s4.w.inProgress == map[FileName(3, 0) := d] && s4.w.target == map[FileName(1, 0) := c, FileName(2, 0) := b];
    RunConcat(cfg, INIT, Visit(1, a), Visit(2, b));
    RunConcat(cfg, INIT, Visit(1, a) + Visit(2, b), Visit(1, c));
    RunConcat(cfg, INIT, Visit(1, a) + Visit(2, b) + Visit(1, c), Visit(3, d));
    assert Content(s4.w.log[0]) == a by { FlattenAppend([], a); assert [] + [a] == [a]; }
    assert !Stored(s4.w, s4.w.log[0]);
  }

  /** Run 1 with one slice, and a crash before anything has left the buffer: the file is journalled, no run
      is returned to, and nothing is left of the slice. */
  lemma CrashLosesTail(cfg: Config, a: seq<Byte>)
    requires a != []
    ensures var w := Run(cfg, INIT, Visit(1, a) + [Crash(0)]).w;
      && w.log == [Entry(FileName(1, 0), [a], true, Some(0))] && NoReturn(w.log)
      && w.inProgress == map[FileName(1, 0) := []] && w.target == map[]
      && Content(w.log[0]) == a && Survives(w.log[0]) == []
  {
    VisitEffect(cfg, INIT, 1, a);
    RunConcat(cfg, INIT, Visit(1, a), [Crash(0)]);
    var s := Run(cfg, INIT, Visit(1, a));
    OneCrash(cfg, s, 0);
    hide Run, Visit;
    assert s.w.log == [Entry(FileName(1, 0), [a], true, None)] && s.w.inProgress == map[FileName(1, 0) := a];
    FlattenAppend([], a);
    assert [] + [a] == [a] && [] + a == a;
  }

  lemma OneCrash(cfg: Config, s: System, kept: nat)
    ensures Run(cfg, s, [Crash(kept)]).w == Restarted(CutOff(s.w, kept))
  {
    assert [Crash(kept)][1..] == [];
  }
}
