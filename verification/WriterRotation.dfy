/** When the writer begins a new file: a call does exactly if it records and has to, and over whole
    histories a file is followed by another of its run only for a reason. */
module WriterRotation {
  import opened Basics
  import opened WriterModel
  import opened WriterLog
  import opened WriterInvariant
  import opened WriterTheorems
  import opened WriterCalls

  // ---- One call ---------------------------------------------------------------------------------

  /** No file is open, or the open one is over the limit, or the run number read at line 95 of
      src/output.cc is not that of the open file. */
  ghost predicate NewFileDue(cfg: Config, w: Writer, run95: nat) {
    || w.file.None?
    || (w.log != [] && (|Content(w.log[|w.log| - 1])| > cfg.maxFileSize || w.log[|w.log| - 1].name.run != run95))
  }

  lemma OpenNextLog(w: Writer, run153: nat, run154: nat)
    ensures var v := OpenNext(w, run153, run154);
      && |v.log| == |w.log| + 1 && v.log[..|w.log|] == w.log && v.file == Some(v.log[|w.log|].name)
      && v.log[|w.log|].chunks == [] && v.log[|w.log|].name.run == (if w.run != run153 then run154 else w.run)
      && v.file.value in v.inProgress
  {
    var r := Renumbered(Close(w), run153, run154);
    assert r.log == w.log && r.run == if w.run != run153 then run154 else w.run;
    hide Close, Renumbered;
    var o := Opened(r);
    assert o.log[..|w.log|] == w.log;
  }

  lemma AppendedLog(w: Writer, chunk: seq<Byte>)
    requires w.file.Some? && w.file.value in w.inProgress && w.log != []
    ensures var v, last := Appended(w, chunk), w.log[|w.log| - 1];
            v.log == w.log[|w.log| - 1 := last.(chunks := last.chunks + [chunk])] && v.file == w.file
  {}

  lemma StopPartLog(cfg: Config, w: Writer, running107: bool)
    ensures StopPart(cfg, w, running107).log == w.log
    ensures StopPart(cfg, w, running107).file.Some? <==> w.file.Some? && (running107 || cfg.forceWrite)
  {}

  lemma DueIsTested(cfg: Config, w: Writer, run95: nat)
    requires Consistent(cfg, w) && w.pc == Idle
    ensures MustRotate(cfg, w, run95) <==> NewFileDue(cfg, w, run95)
    ensures w.file.Some? ==> w.log != [] && w.file.value in w.inProgress
  {
    hide LogOk, Content;
  }

  /** The chunk joins the last file. */
  ghost predicate GoesOn(log: seq<Entry>, later: seq<Entry>, chunk: seq<Byte>) {
    && log != [] && |later| == |log| && later[..|log| - 1] == log[..|log| - 1]
    && later[|log| - 1] == log[|log| - 1].(chunks := log[|log| - 1].chunks + [chunk])
  }

  /** The chunk is the first of a new file of the given run. */
  ghost predicate Begins(log: seq<Entry>, later: seq<Entry>, chunk: seq<Byte>, run: nat) {
    && |later| == |log| + 1 && later[..|log|] == log
    && later[|log|].chunks == [chunk] && later[|log|].name.run == run
  }

  /** What a call does to the files, for any values of its reads: if it records, a new file is opened
      exactly when one is due, and else the last one goes on; if it does not record, none is touched. A
      file is open afterwards unless the call found the recording over. */
  lemma CallRotatesExactlyWhen(cfg: Config, w: Writer, slice: seq<Byte>, e: Reads)
    requires Consistent(cfg, w) && w.pc == Idle && w.slice == []
    ensures var v, chunk, records := Call(cfg, w, slice, e), Accepted(slice, e.written), e.running94 || cfg.forceWrite;
      && (!records ==> v.log == w.log)
      && ((records && !NewFileDue(cfg, w, e.run95)) ==> GoesOn(w.log, v.log, chunk))
      && ((records && NewFileDue(cfg, w, e.run95)) ==>
            Begins(w.log, v.log, chunk, if w.run != e.run153 then e.run154 else w.run))
      && (v.file.Some? <==> (records || w.file.Some?) && (e.running107 || cfg.forceWrite))
  {
    var chunk, records := Accepted(slice, e.written), e.running94 || cfg.forceWrite;
    var due := MustRotate(cfg, w, e.run95);
    DueIsTested(cfg, w, e.run95);
    OpenNextLog(w, e.run153, e.run154);
    var ready := if due then OpenNext(w, e.run153, e.run154) else w;
    var done := if records then Appended(ready, chunk) else w;
    assert Call(cfg, w, slice, e) == StopPart(cfg, done, e.running107);
    StopPartLog(cfg, done, e.running107);
    hide MustRotate, NewFileDue, OpenNext, Appended, StopPart, Call, Consistent, Accepted;
    if records {
      AppendedLog(ready, chunk);
      if due {
        assert [] + [chunk] == [chunk];
        assert done.log[..|w.log|] == ready.log[..|w.log|];
      }
    }
  }

  /** A run number that is another one at line 95 and the old one again at line 153 ends a file early and
      begins the next one of the same run. */
  lemma FlipRotatesEarly(cfg: Config, w: Writer, slice: seq<Byte>, written: nat, other: nat)
    requires Consistent(cfg, w) && w.pc == Idle && w.slice == [] && w.file.Some? && other != w.run
    ensures var v := Call(cfg, w, slice, Reads(true, other, w.run, w.run, written, true));
            |v.log| == |w.log| + 1 && v.log[|w.log|].name.run == w.run == w.log[|w.log| - 1].name.run
  {
    hide Call;
    assert w.log != [] && w.log[|w.log| - 1].name.run == w.run;
    CallRotatesExactlyWhen(cfg, w, slice, Reads(true, other, w.run, w.run, written, true));
  }

  // ---- Whole histories --------------------------------------------------------------------------

  predicate Rotating(pc: Pc) {
    pc in {FcloseOld, RenameOld, CompareRun, LoadRun, PickIndex, Fopen}
  }

  ghost predicate Full(cfg: Config, e: Entry) { |Content(e)| > cfg.maxFileSize }

  /** The files that were open when the writer read another run number at line 95 of src/output.cc. */
  function Flips(cfg: Config, s: System, acts: seq<Action>): set<nat>
    decreases |acts|
  {
    if acts == [] then {} else StepFlips(s, acts[0]) + Flips(cfg, Step(cfg, s, acts[0]), acts[1..])
  }

  function StepFlips(s: System, a: Action): set<nat> {
    if a.Write? && s.w.pc == TestRotate && s.w.log != [] && s.ctl.runNumber != s.w.run then {|s.w.log| - 1} else {}
  }

  /** A file may be followed by another. */
  ghost predicate Followed(cfg: Config, log: seq<Entry>, flips: set<nat>, k: nat)
    requires k < |log|
  {
    Full(cfg, log[k]) || k in flips
  }

  /** A file is open from the first one on, but for the time of a rotation that has a reason. */
  ghost predicate Needed(cfg: Config, s: System, flips: set<nat>) {
    && (forall k :: 0 <= k < |s.w.log| - 1 && s.w.log[k].name.run == s.w.log[k + 1].name.run ==>
          Followed(cfg, s.w.log, flips, k))
    && (s.w.log != [] || s.w.pc !in {Idle, TestRunning, TestStop} ==> s.ctl.running || cfg.forceWrite)
    && s.w.pc != FcloseStop && s.w.pc != RenameStop
    && (s.w.log != [] && Rotating(s.w.pc) ==> Followed(cfg, s.w.log, flips, |s.w.log| - 1))
    && (s.w.log != [] && !Rotating(s.w.pc) ==> s.w.file.Some?)
  }

  lemma OtherNeeded(cfg: Config, s: System, flips: set<nat>, a: Action)
    requires Needed(cfg, s, flips) && !a.Write? && !a.Crash? && (cfg.forceWrite || a != Stop)
    ensures Needed(cfg, Step(cfg, s, a), flips)
  {
    hide Full;
  }

  lemma MoreFlips(cfg: Config, s: System, flips: set<nat>, more: set<nat>)
    requires Needed(cfg, s, flips)
    ensures Needed(cfg, s, flips + more)
  {
    hide Full;
  }

  lemma TestNeeded(cfg: Config, s: System, flips: set<nat>, written: nat)
    requires AtPc(cfg, s.w) && Needed(cfg, s, flips) && s.w.pc == TestRotate
    ensures Needed(cfg, Step(cfg, s, Write(written)), flips + StepFlips(s, Write(written)))
  {
    MoreFlips(cfg, s, flips, StepFlips(s, Write(written)));
  }

  lemma QuietNeeded(cfg: Config, s: System, flips: set<nat>, written: nat)
    requires AtPc(cfg, s.w) && Needed(cfg, s, flips) && s.w.pc != TestRotate && !TouchesDisk(s.w.pc)
    ensures Needed(cfg, Step(cfg, s, Write(written)), flips)
  {
    QuietStep(cfg, s.w, s.ctl, written);
    hide Full, Content, Moved, Opened, JournalReplaced, Appended, JournalIndex, Observe;
  }

  lemma FopenNeeded(cfg: Config, s: System, flips: set<nat>, written: nat)
    requires Needed(cfg, s, flips) && s.w.pc == Fopen
    ensures Needed(cfg, Step(cfg, s, Write(written)), flips)
  {
    DiskStepIs(cfg, s.w, s.ctl, written);
    hide WriterStep, Observe, Full;
    var t := Step(cfg, s, Write(written));
    forall k | 0 <= k < |s.w.log| && t.w.log[k].name.run == t.w.log[k + 1].name.run
      ensures Followed(cfg, t.w.log, flips, k)
    {
      assert t.w.log[k] == s.w.log[k] && Followed(cfg, s.w.log, flips, k);
    }
  }

  lemma DiskNeeded(cfg: Config, s: System, flips: set<nat>, written: nat)
    requires AtPc(cfg, s.w) && Needed(cfg, s, flips) && TouchesDisk(s.w.pc) && s.w.pc != Fopen && s.w.pc != Fwrite
    ensures Needed(cfg, Step(cfg, s, Write(written)), flips)
  {
    DiskStepIs(cfg, s.w, s.ctl, written);
    hide WriterStep, Observe, Appended, Opened;
  }

  lemma FwriteNeeded(cfg: Config, s: System, flips: set<nat>, written: nat)
    requires AtPc(cfg, s.w) && Needed(cfg, s, flips) && s.w.pc == Fwrite
    ensures Needed(cfg, Step(cfg, s, Write(written)), flips)
  {
    DiskStepIs(cfg, s.w, s.ctl, written);
    LongerIsFull(cfg, s.w, Accepted(s.w.slice, written));
    hide WriterStep, Observe, Full, Content, Accepted;
  }

  lemma LongerIsFull(cfg: Config, w: Writer, chunk: seq<Byte>)
    ensures |Appended(w, chunk).log| == |w.log|
    ensures forall k :: 0 <= k < |w.log| && Full(cfg, w.log[k]) ==> Full(cfg, Appended(w, chunk).log[k])
  {
    if w.log != [] {
      FlattenAppend(w.log[|w.log| - 1].chunks, chunk);
    }
  }

  lemma {:induction false} RunNeeded(cfg: Config, s: System, acts: seq<Action>, flips: set<nat>)
    requires Consistent(cfg, s.w) && Needed(cfg, s, flips) && NoCrash(acts) && (cfg.forceWrite || Stop !in acts)
    ensures Needed(cfg, Run(cfg, s, acts), flips + Flips(cfg, s, acts))
    decreases |acts|
  {
    if acts == [] {
      assert flips + {} == flips;
    } else {
      var a := acts[0];
      var t, now := Step(cfg, s, a), flips + StepFlips(s, a);
      StepKeeps(cfg, s, a);
      if !a.Write? {
        OtherNeeded(cfg, s, flips, a);
      } else if s.w.pc == TestRotate {
        TestNeeded(cfg, s, flips, a.written);
      } else if s.w.pc == Fopen {
        FopenNeeded(cfg, s, flips, a.written);
      } else if s.w.pc == Fwrite {
        FwriteNeeded(cfg, s, flips, a.written);
      } else if TouchesDisk(s.w.pc) {
        DiskNeeded(cfg, s, flips, a.written);
      } else {
        QuietNeeded(cfg, s, flips, a.written);
      }
      assert s.w.pc != TestRotate || !a.Write? ==> now == flips;
      RunNeeded(cfg, t, acts[1..], now);
      assert now + Flips(cfg, t, acts[1..]) == flips + Flips(cfg, s, acts);
    }
  }

  /** Without crashes and stops, or with writing forced, a file is followed by another of its run only if
      it is over the limit, or the run number was another one when the writer tested it. */
  lemma RotatesOnlyWhenNeeded(cfg: Config, acts: seq<Action>, k: nat)
    requires NoCrash(acts) && (cfg.forceWrite || Stop !in acts)
    requires k + 1 < |Run(cfg, INIT, acts).w.log|
    ensures var log := Run(cfg, INIT, acts).w.log;
            log[k].name.run == log[k + 1].name.run ==>
              |Content(log[k])| > cfg.maxFileSize || k in Flips(cfg, INIT, acts)
  {
    InitKeeps(cfg);
    RunNeeded(cfg, INIT, acts, {});
    assert {} + Flips(cfg, INIT, acts) == Flips(cfg, INIT, acts);
  }
}
