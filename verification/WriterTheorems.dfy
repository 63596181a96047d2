/** What holds of the writer after every history of packets, run-control commands and crashes. */
module WriterTheorems {
  import opened Basics
  import opened WriterModel
  import opened WriterLog
  import opened WriterInvariant

  // ---- Crash safety -------------------------------------------------------------------------

  /** Whatever happens, names of journalled files stay their own exactly when no journalled run is
      returned to over another. Every journalled file that is moved is then in the target directory with
      every byte fwrite ever took for it; one that is not is in the working directory, whole, or as far
      as it had left the process when a crash found it open. The names that are opened twice belong to
      empty files. */
  lemma CrashSafety(cfg: Config, acts: seq<Action>)
    ensures var w := Run(cfg, INIT, acts).w;
      && (NamesReusedOnlyUnjournaled(w.log) <==> NoJournaledReturn(w.log))
      && (NoJournaledReturn(w.log) ==> Durable(w))
      && (NoReturn(w.log) ==> NoJournaledReturn(w.log))
      && forall k :: 0 <= k < |w.log| && !w.log[k].journaled ==> w.log[k].chunks == []
  {
    hide *;
    var w := Run(cfg, INIT, acts).w;
    InitKeeps(cfg);
    RunKeeps(cfg, INIT, acts);
    ConsistentLog(cfg, w);
    NamesStayFreshExactlyWhen(w.log);
    NoReturnIsEnough(w.log);
    if NoJournaledReturn(w.log) {
      RunDurable(cfg, INIT, acts);
    }
  }

  lemma InitKeeps(cfg: Config)
    ensures Consistent(cfg, INIT.w) && Durable(INIT.w)
  {}

  lemma ConsistentLog(cfg: Config, w: Writer)
    requires Consistent(cfg, w)
    ensures Generated(w.log)
    ensures forall k :: 0 <= k < |w.log| && !w.log[k].journaled ==> w.log[k].chunks == []
    ensures forall k :: 0 <= k < |w.log| && w.log[k].chunks != [] ==>
              |Flatten(w.log[k].chunks[..|w.log[k].chunks| - 1])| <= cfg.maxFileSize
  {
    forall k | 0 <= k < |w.log| ensures Tidy(cfg, w.log[k]) {}
  }

  /** The first loss, after any history with crashes: the fopen about to happen takes the name of an
      existing data file exactly when the journal belongs to another run and the first file of this run
      exists. */
  lemma FopenReusesExactlyWhen(cfg: Config, acts: seq<Action>)
    requires Run(cfg, INIT, acts).w.pc == Fopen && NamesReusedOnlyUnjournaled(Run(cfg, INIT, acts).w.log)
    ensures var w := Run(cfg, INIT, acts).w;
            Occurs(w.log, w.Name())
            <==> !(w.journal.Journal? && w.journal.run == w.run) && Occurs(w.log, FileName(w.run, 0))
  {
    RunKeeps(cfg, INIT, acts);
    var w := Run(cfg, INIT, acts).w;
    NextNameTakenExactlyWhen(w.log, w.run);
  }

  /** Whatever its name, the fopen keeps what is stored exactly when nothing is left of any journalled
      file of that name. */
  lemma FopenKeepsExactlyWhen(cfg: Config, w: Writer, ctl: Control, written: nat)
    requires w.pc == Fopen && Durable(w)
    ensures Durable(WriterStep(cfg, w, ctl, written))
       <==> forall k :: 0 <= k < |w.log| && w.log[k].journaled && w.log[k].name == w.Name() ==> Survives(w.log[k]) == []
  {
    var v := WriterStep(cfg, w, ctl, written);
    assert forall k :: 0 <= k < |w.log| ==> v.log[k] == w.log[k];
    forall k | 0 <= k < |w.log| && w.log[k].journaled
      ensures Stored(v, w.log[k]) <==> w.log[k].name != w.Name() || Survives(w.log[k]) == []
    {
      assert Stored(w, w.log[k]);
    }
  }

  // ---- The counter and the journal ------------------------------------------------------------

  /** While a file is open for writing the journal holds the run and the next index. */
  lemma JournalNamesNextFile(cfg: Config, acts: seq<Action>)
    ensures var w := Run(cfg, INIT, acts).w;
            w.file.Some? && w.pc != WriteNewJournal && w.pc != RenameJournal
            ==> w.file == Some(w.Name()) && w.journal == Journal(w.run, w.count + 1)
  {
    RunKeeps(cfg, INIT, acts);
  }

  /** Forgetting the in-memory counter after a close never changes the index chosen next. */
  lemma ForgettingTheCounterIsHarmless(cfg: Config, acts: seq<Action>, ctl: Control, written: nat)
    requires Run(cfg, INIT, acts).w.pc == PickIndex
    ensures var w := Run(cfg, INIT, acts).w;
            WriterStep(cfg, w.(count := -1), ctl, written) == WriterStep(cfg, w, ctl, written)
  {
    RunKeeps(cfg, INIT, acts);
  }

  ghost predicate AllJournaledBefore(w: Writer) {
    && (forall k :: 0 <= k < |w.log| - 1 ==> w.log[k].journaled)
    && (w.log != [] && w.pc != WriteNewJournal && w.pc != RenameJournal ==> w.log[|w.log| - 1].journaled)
    && (forall k :: 0 <= k < |w.log| ==> w.log[k].cut.None?)
  }

  /** The log as the writer's next step leaves it; otherwise only a crash touches it. */
  function NextLog(w: Writer, written: nat): seq<Entry> {
    match w.pc
    case Fopen => Opened(w).log
    case RenameJournal => JournalReplaced(w).log
    case Fwrite => Appended(w, Accepted(w.slice, written)).log
    case _ => w.log
  }

  lemma StepLog(cfg: Config, s: System, a: Action)
    ensures Step(cfg, s, a).w.log ==
            if a.Write? then NextLog(s.w, a.written) else if a.Crash? then CutOff(s.w, a.kept).log else s.w.log
  {}

  lemma StepAllJournaled(cfg: Config, s: System, a: Action)
    requires AtPc(cfg, s.w) && AllJournaledBefore(s.w) && !a.Crash?
    ensures AllJournaledBefore(Step(cfg, s, a).w)
  {
    StepLog(cfg, s, a);
    if a.Write? && s.w.pc == Fwrite {
      assert OpenFile(s.w);
    }
  }

  lemma {:induction false} WithoutCrashAllJournaled(cfg: Config, s: System, acts: seq<Action>)
    requires Consistent(cfg, s.w) && AllJournaledBefore(s.w) && NoCrash(acts)
    ensures AllJournaledBefore(Run(cfg, s, acts).w)
    decreases |acts|
  {
    if acts == [] {
    } else {
      StepKeeps(cfg, s, acts[0]);
      StepAllJournaled(cfg, s, acts[0]);
      WithoutCrashAllJournaled(cfg, Step(cfg, s, acts[0]), acts[1..]);
    }
  }

  /** Without crashes the files of a run are numbered consecutively; across crashes an index is
      repeated only for a file the journal never heard of; a new run starts at 0; and no index
      exceeds the number of earlier fopens. */
  lemma Numbering(cfg: Config, acts: seq<Action>, k: nat)
    requires k < |Run(cfg, INIT, acts).w.log|
    ensures var log := Run(cfg, INIT, acts).w.log;
            && 0 <= log[k].name.index <= k
            && (k > 0 && log[k - 1].name.run == log[k].name.run && NoCrash(acts)
                ==> log[k].name.index == log[k - 1].name.index + 1)
            && (k > 0 && log[k - 1].name.run == log[k].name.run
                ==> log[k].name.index == log[k - 1].name.index + (if log[k - 1].journaled then 1 else 0))
            && ((forall j :: 0 <= j < k ==> log[j].name.run != log[k].name.run) ==> log[k].name.index == 0)
  {
    RunKeeps(cfg, INIT, acts);
    var log := Run(cfg, INIT, acts).w.log;
    IndexWithinOpens(log, k);
    if k > 0 && log[k - 1].name.run == log[k].name.run {
      Successor(log, k);
      if NoCrash(acts) {
        WithoutCrashAllJournaled(cfg, INIT, acts);
      }
    }
    if forall j :: 0 <= j < k ==> log[j].name.run != log[k].name.run {
      FreshRunStartsAtZero(log, k);
    }
  }

  // ---- Linearization against the run-control thread -------------------------------------------

  /** The run in the file name is a value `run_number` held between the beginning of the call and
      the write, and not one published before the `start` that the call saw. */
  ghost predicate Witnessed(pubs: seq<nat>, r: Record) {
    && r.callIdx <= r.readIdx <= r.endIdx < |pubs|
    && r.sawIdx <= r.readIdx
    && pubs[r.readIdx] == r.name.run
  }

  predicate RunIsChosen(pc: Pc) {
    pc in {PickIndex, Fopen, WriteNewJournal, RenameJournal, Fwrite}
  }

  ghost predicate LinearRead(w: Writer, h: History) {
    RunIsChosen(w.pc) ==>
      h.callIdx <= h.readIdx < |h.pubs| && h.sawIdx <= h.readIdx && h.pubs[h.readIdx] == w.run
  }

  ghost predicate LinearControl(ctl: Control, h: History) {
    && h.pubs != [] && h.pubs[|h.pubs| - 1] == ctl.runNumber
    && (ctl.running ==> h.startIdx < |h.pubs|)
    && h.callIdx < |h.pubs| && h.sawIdx < |h.pubs|
  }

  ghost predicate LinearRecords(h: History) {
    forall i :: 0 <= i < |h.records| ==> Witnessed(h.pubs, h.records[i])
  }

  ghost predicate Linear(s: System) {
    LinearControl(s.ctl, s.h) && LinearRead(s.w, s.h) && LinearRecords(s.h)
  }

  lemma WriteLinear(cfg: Config, s: System, written: nat)
    requires Linear(s) && (s.w.pc == Fwrite ==> s.w.file == Some(s.w.Name()))
    ensures Linear(Step(cfg, s, Write(written)))
  {
    var t := Step(cfg, s, Write(written));
    assert LinearControl(t.ctl, t.h);
    assert LinearRead(t.w, t.h);
    forall i | 0 <= i < |t.h.records| ensures Witnessed(t.h.pubs, t.h.records[i]) {
      if i < |s.h.records| {
        assert Witnessed(s.h.pubs, s.h.records[i]);
      }
    }
  }

  lemma StepLinear(cfg: Config, s: System, a: Action)
    requires AtPc(cfg, s.w) && Linear(s)
    ensures Linear(Step(cfg, s, a))
  {
    if a.Write? {
      assert s.w.pc == Fwrite ==> OpenFile(s.w);
      WriteLinear(cfg, s, a.written);
    } else {
      var t := Step(cfg, s, a);
      assert LinearRead(t.w, t.h);
      forall i | 0 <= i < |t.h.records| ensures Witnessed(t.h.pubs, t.h.records[i]) {
        assert Witnessed(s.h.pubs, s.h.records[i]);
      }
    }
  }

  lemma {:induction false} RunLinear(cfg: Config, s: System, acts: seq<Action>)
    requires Consistent(cfg, s.w) && Linear(s)
    ensures Linear(Run(cfg, s, acts))
    decreases |acts|
  {
    if acts == [] {
    } else {
      StepKeeps(cfg, s, acts[0]);
      StepLinear(cfg, s, acts[0]);
      RunLinear(cfg, Step(cfg, s, acts[0]), acts[1..]);
    }
  }

  /** Under every interleaving, every recorded slice is in a file of a run that was current during
      the call and not superseded by the start that began the recording; so is every file named. */
  lemma RecordsLinearize(cfg: Config, acts: seq<Action>)
    ensures var s := Run(cfg, INIT, acts);
            && (forall i :: 0 <= i < |s.h.records| ==> Witnessed(s.h.pubs, s.h.records[i]))
            && (s.w.pc == Fopen ==>
                  exists j: nat :: s.h.callIdx <= j < |s.h.pubs| && s.h.sawIdx <= j && s.h.pubs[j] == s.w.Name().run)
  {
    RunLinear(cfg, INIT, acts);
    var s := Run(cfg, INIT, acts);
    if s.w.pc == Fopen {
      assert s.h.pubs[s.h.readIdx] == s.w.Name().run;
    }
  }

  // ---- Lossless rotation ----------------------------------------------------------------------

  function Chunks(log: seq<Entry>): seq<seq<Byte>> {
    if log == [] then [] else Chunks(log[..|log| - 1]) + log[|log| - 1].chunks
  }

  function Taken(records: seq<Record>): seq<seq<Byte>> {
    seq(|records|, i requires 0 <= i < |records| => records[i].chunk)
  }

  function Offered(records: seq<Record>): seq<seq<Byte>> {
    seq(|records|, i requires 0 <= i < |records| => records[i].slice)
  }

  /** The slice of a call between the test of `running` and the fwrite. */
  function InHand(w: Writer): seq<seq<Byte>> {
    if w.pc == Idle || w.pc == TestRunning || w.pc == TestStop || w.pc == FcloseStop || w.pc == RenameStop then []
    else [w.slice]
  }

  /** The slices whose calls find the recording on, in order. */
  function Consumed(cfg: Config, s: System, acts: seq<Action>): seq<seq<Byte>>
    decreases |acts|
  {
    if acts == [] then [] else StepConsumed(cfg, s, acts[0]) + Consumed(cfg, Step(cfg, s, acts[0]), acts[1..])
  }

  /** The slices that a crash finds in hand. */
  function Dropped(cfg: Config, s: System, acts: seq<Action>): seq<seq<Byte>>
    decreases |acts|
  {
    if acts == [] then [] else StepDropped(s, acts[0]) + Dropped(cfg, Step(cfg, s, acts[0]), acts[1..])
  }

  /** What a reader finds on disk under the names of the journalled files, in opening order. */
  function ReadBack(w: Writer, log: seq<Entry>): seq<Byte> {
    if log == [] then []
    else
      var last := log[|log| - 1];
      ReadBack(w, log[..|log| - 1]) +
      (if !last.journaled then []
       else if last.name in w.inProgress then w.inProgress[last.name]
       else if last.name in w.target then w.target[last.name]
       else [])
  }

  lemma ChunksTouch(log: seq<Entry>, e: Entry)
    requires log != []
    ensures Chunks(log[|log| - 1 := e]) == Chunks(log[..|log| - 1]) + e.chunks
  {
    assert log[|log| - 1 := e][..|log| - 1] == log[..|log| - 1];
  }

  lemma StepChunks(cfg: Config, s: System, a: Action)
    requires AtPc(cfg, s.w) && Chunks(s.w.log) == Taken(s.h.records)
    ensures Chunks(Step(cfg, s, a).w.log) == Taken(Step(cfg, s, a).h.records)
  {
    if a.Write? {
      WriteChunks(cfg, s, a.written);
    } else {
      StepLog(cfg, s, a);
      CutChunks(s.w, if a.Crash? then a.kept else 0);
      hide CutOff, Chunks;
    }
  }

  lemma CutChunks(w: Writer, kept: nat)
    ensures Chunks(CutOff(w, kept).log) == Chunks(w.log)
  {
    if w.log != [] {
      ChunksTouch(w.log, w.log[|w.log| - 1].(cut := Some(kept)));
    }
  }

  lemma WriteChunks(cfg: Config, s: System, written: nat)
    requires AtPc(cfg, s.w) && Chunks(s.w.log) == Taken(s.h.records)
    ensures Chunks(Step(cfg, s, Write(written)).w.log) == Taken(Step(cfg, s, Write(written)).h.records)
  {
    StepLog(cfg, s, Write(written));
    if s.w.pc == Fopen {
      assert Opened(s.w).log[..|s.w.log|] == s.w.log;
    } else if s.w.pc == RenameJournal {
      ChunksTouch(s.w.log, s.w.log[|s.w.log| - 1].(journaled := true));
    } else if s.w.pc == Fwrite {
      assert OpenFile(s.w);
      var last := s.w.log[|s.w.log| - 1];
      var chunk := Accepted(s.w.slice, written);
      ChunksTouch(s.w.log, last.(chunks := last.chunks + [chunk]));
      assert Taken(Step(cfg, s, Write(written)).h.records) == Taken(s.h.records) + [chunk];
    }
  }

  lemma {:induction false} RunChunks(cfg: Config, s: System, acts: seq<Action>)
    requires Consistent(cfg, s.w) && Chunks(s.w.log) == Taken(s.h.records)
    ensures Chunks(Run(cfg, s, acts).w.log) == Taken(Run(cfg, s, acts).h.records)
    decreases |acts|
  {
    if acts == [] {
    } else {
      StepKeeps(cfg, s, acts[0]);
      StepChunks(cfg, s, acts[0]);
      RunChunks(cfg, Step(cfg, s, acts[0]), acts[1..]);
    }
  }

  /** What a step adds to the slices consumed. */
  function StepConsumed(cfg: Config, s: System, a: Action): seq<seq<Byte>> {
    if a.Write? && s.w.pc == TestRunning && (s.ctl.running || cfg.forceWrite) then [s.w.slice] else []
  }

  /** What a step adds to the slices lost to a crash. */
  function StepDropped(s: System, a: Action): seq<seq<Byte>> {
    if a.Crash? then InHand(s.w) else []
  }

  function StepRecorded(s: System, a: Action): seq<seq<Byte>> {
    if a.Write? && s.w.pc == Fwrite then [s.w.slice] else []
  }

  lemma StepRecords(cfg: Config, s: System, a: Action)
    ensures Offered(Step(cfg, s, a).h.records) == Offered(s.h.records) + StepRecorded(s, a)
  {
    hide WriterStep, Restarted, MustRotate;
  }

  lemma StepHand(cfg: Config, s: System, a: Action)
    ensures StepRecorded(s, a) + InHand(Step(cfg, s, a).w) + StepDropped(s, a) == InHand(s.w) + StepConsumed(cfg, s, a)
  {
    hide Moved, Opened, JournalReplaced, Appended, MustRotate, JournalIndex, Accepted, Observe;
    StepSlice(cfg, s, a);
  }

  lemma StepSlice(cfg: Config, s: System, a: Action)
    ensures a.Write? && InHand(Step(cfg, s, a).w) != [] ==> Step(cfg, s, a).w.slice == s.w.slice
  {
    hide MustRotate, JournalIndex, Accepted, Observe;
  }

  lemma Regroup<T>(o: seq<T>, r: seq<T>, h: seq<T>, d: seq<T>, h0: seq<T>, c: seq<T>)
    requires r + h + d == h0 + c
    ensures (o + r) + h + d == o + h0 + c
  {
    assert (o + r) + h + d == o + (r + h + d);
    assert o + h0 + c == o + (h0 + c);
  }

  lemma TwoSteps<T>(o0: seq<T>, h0: seq<T>, c: seq<T>, d: seq<T>, o1: seq<T>, h1: seq<T>,
                    c': seq<T>, d': seq<T>, o2: seq<T>, h2: seq<T>)
    requires o1 + h1 + d == o0 + h0 + c
    requires multiset(o2) + multiset(h2) + multiset(d') == multiset(o1) + multiset(h1) + multiset(c')
    ensures multiset(o2) + multiset(h2) + multiset(d + d') == multiset(o0) + multiset(h0) + multiset(c + c')
  {
    assert multiset(o1) + multiset(h1) + multiset(d) == multiset(o1 + h1 + d);
    assert multiset(o0) + multiset(h0) + multiset(c) == multiset(o0 + h0 + c);
    assert multiset(d + d') == multiset(d) + multiset(d') && multiset(c + c') == multiset(c) + multiset(c');
    Balance(multiset(o0) + multiset(h0), multiset(c), multiset(d), multiset(o1) + multiset(h1),
            multiset(c'), multiset(d'), multiset(o2) + multiset(h2));
  }

  lemma Balance<T>(x0: multiset<T>, c: multiset<T>, d: multiset<T>, x1: multiset<T>,
                   c': multiset<T>, d': multiset<T>, x2: multiset<T>)
    requires x1 + d == x0 + c && x2 + d' == x1 + c'
    ensures x2 + (d + d') == x0 + (c + c')
  {
    assert x2 + (d + d') == (x2 + d') + d == (x1 + d) + c';
  }

  /** Nothing is skipped: the slices recorded, the one in hand and those a crash found in hand are the
      slices whose calls found the recording on. */
  lemma {:induction false} ConsumedIsConserved(cfg: Config, s: System, acts: seq<Action>)
    ensures multiset(Offered(Run(cfg, s, acts).h.records)) + multiset(InHand(Run(cfg, s, acts).w))
              + multiset(Dropped(cfg, s, acts))
         == multiset(Offered(s.h.records)) + multiset(InHand(s.w)) + multiset(Consumed(cfg, s, acts))
    decreases |acts|
  {
    if acts == [] {
    } else {
      var t, u := Step(cfg, s, acts[0]), Run(cfg, s, acts);
      StepRecords(cfg, s, acts[0]);
      StepHand(cfg, s, acts[0]);
      ConsumedIsConserved(cfg, t, acts[1..]);
      hide Step, Offered, InHand, StepConsumed, StepDropped, StepRecorded;
      Regroup(Offered(s.h.records), StepRecorded(s, acts[0]), InHand(t.w), StepDropped(s, acts[0]),
              InHand(s.w), StepConsumed(cfg, s, acts[0]));
      TwoSteps(Offered(s.h.records), InHand(s.w), StepConsumed(cfg, s, acts[0]), StepDropped(s, acts[0]),
               Offered(t.h.records), InHand(t.w), Consumed(cfg, t, acts[1..]), Dropped(cfg, t, acts[1..]),
               Offered(u.h.records), InHand(u.w));
    }
  }

  /** Without crashes the slices are recorded in the order in which they were consumed. */
  lemma {:induction false} ConsumedInOrder(cfg: Config, s: System, acts: seq<Action>)
    requires NoCrash(acts)
    ensures Offered(Run(cfg, s, acts).h.records) + InHand(Run(cfg, s, acts).w)
         == Offered(s.h.records) + InHand(s.w) + Consumed(cfg, s, acts)
    decreases |acts|
  {
    if acts == [] {
    } else {
      var t := Step(cfg, s, acts[0]);
      StepRecords(cfg, s, acts[0]);
      StepHand(cfg, s, acts[0]);
      ConsumedInOrder(cfg, t, acts[1..]);
      assert StepDropped(s, acts[0]) == [];
      hide Step, Offered, InHand, StepConsumed, StepDropped, StepRecorded;
      Regroup(Offered(s.h.records), StepRecorded(s, acts[0]), InHand(t.w), [],
              InHand(s.w), StepConsumed(cfg, s, acts[0]));
      Append(Offered(t.h.records) + InHand(t.w), Offered(s.h.records) + InHand(s.w),
             StepConsumed(cfg, s, acts[0]), Consumed(cfg, t, acts[1..]));
    }
  }

  lemma Append<T>(after: seq<T>, before: seq<T>, c: seq<T>, c': seq<T>)
    requires after + [] == before + c
    ensures after + c' == before + (c + c')
  {
    assert after + [] == after;
  }

  /** What crashes left of the files, in opening order. */
  function Survivors(log: seq<Entry>): seq<Byte> {
    if log == [] then [] else Survivors(log[..|log| - 1]) + Survives(log[|log| - 1])
  }

  /** The directories hold exactly what survives. */
  lemma {:induction false} ReadBackIsWhatSurvives(w: Writer, log: seq<Entry>)
    requires forall k :: 0 <= k < |log| && log[k].journaled ==> Stored(w, log[k])
    requires forall k :: 0 <= k < |log| && !log[k].journaled ==> log[k].chunks == []
    ensures ReadBack(w, log) == Survivors(log)
    decreases |log|
  {
    if log == [] {
    } else {
      var last := log[|log| - 1];
      ReadBackIsWhatSurvives(w, log[..|log| - 1]);
      assert last.journaled ==> Stored(w, last);
    }
  }

  ghost predicate AllWhole(log: seq<Entry>) {
    forall k :: 0 <= k < |log| ==> Survives(log[k]) == Content(log[k])
  }

  lemma SurvivesPart(e: Entry)
    ensures |Survives(e)| <= |Content(e)| && (|Survives(e)| == |Content(e)| ==> Survives(e) == Content(e))
  {
    hide Content;
  }

  lemma SplitLast(log: seq<Entry>)
    requires log != []
    ensures var init, last := log[..|log| - 1], log[|log| - 1];
      && (AllWhole(log) <==> AllWhole(init) && Survives(last) == Content(last))
      && Survivors(log) == Survivors(init) + Survives(last)
      && Flatten(Chunks(log)) == Flatten(Chunks(init)) + Content(last)
  {
    FlattenConcat(Chunks(log[..|log| - 1]), log[|log| - 1].chunks);
    hide Survives, Flatten;
    var init, last := log[..|log| - 1], log[|log| - 1];
    forall k | 0 <= k < |log| ensures log[k] == if k == |log| - 1 then last else init[k] {}
  }

  /** That is everything exactly when every file survives whole. */
  lemma {:induction false} EverythingSurvivesExactlyWhen(log: seq<Entry>)
    ensures |Survivors(log)| <= |Flatten(Chunks(log))|
    ensures |Survivors(log)| == |Flatten(Chunks(log))| ==> AllWhole(log)
    ensures AllWhole(log) ==> Survivors(log) == Flatten(Chunks(log))
    decreases |log|
  {
    if log == [] {
    } else {
      var init, last := log[..|log| - 1], log[|log| - 1];
      EverythingSurvivesExactlyWhen(init);
      SplitLast(log);
      SurvivesPart(last);
      hide *;
    }
  }

  /** Reading the files back in opening order gives what survives of them: all that fwrite took, slice by
      slice and in order, exactly when no crash cut a file short. With complete fwrites that is the
      recorded slices, and without crashes these are, between calls, all slices consumed while recording.
      No slice is split between files, and a file exceeds the limit by less than its last slice. */
  lemma LosslessRotation(cfg: Config, acts: seq<Action>)
    requires NoJournaledReturn(Run(cfg, INIT, acts).w.log)
    ensures var s := Run(cfg, INIT, acts);
      && Chunks(s.w.log) == Taken(s.h.records)
      && ReadBack(s.w, s.w.log) == Survivors(s.w.log)
      && (ReadBack(s.w, s.w.log) == Flatten(Taken(s.h.records)) <==> AllWhole(s.w.log))
      && forall k :: 0 <= k < |s.w.log| && s.w.log[k].chunks != [] ==>
           |Flatten(s.w.log[k].chunks[..|s.w.log[k].chunks| - 1])| <= cfg.maxFileSize
    ensures var s := Run(cfg, INIT, acts);
      NoCrash(acts) ==>
        && ReadBack(s.w, s.w.log) == Flatten(Taken(s.h.records))
        && Offered(s.h.records) + InHand(s.w) == Consumed(cfg, INIT, acts)
        && (s.w.pc == Idle && Taken(s.h.records) == Offered(s.h.records) ==>
              ReadBack(s.w, s.w.log) == Flatten(Consumed(cfg, INIT, acts)))
  {
    hide *;
    var s := Run(cfg, INIT, acts);
    CrashSafety(cfg, acts);
    InitKeeps(cfg);
    RunKeeps(cfg, INIT, acts);
    ConsistentLog(cfg, s.w);
    NothingRecorded();
    RunChunks(cfg, INIT, acts);
    DurableIsStored(s.w);
    ReadBackIsWhatSurvives(s.w, s.w.log);
    EverythingSurvivesExactlyWhen(s.w.log);
    if NoCrash(acts) {
      NothingOpen();
      WithoutCrashAllJournaled(cfg, INIT, acts);
      UncutSurvives(s.w);
      InOrderFromInit(cfg, acts);
    }
  }

  lemma UncutSurvives(w: Writer)
    requires AllJournaledBefore(w)
    ensures AllWhole(w.log)
  {}

  lemma NothingRecorded()
    ensures Chunks(INIT.w.log) == Taken(INIT.h.records)
  {}

  lemma DurableIsStored(w: Writer)
    requires Durable(w)
    ensures forall k :: 0 <= k < |w.log| && w.log[k].journaled ==> Stored(w, w.log[k])
  {}

  lemma InOrderFromInit(cfg: Config, acts: seq<Action>)
    requires NoCrash(acts)
    ensures var s := Run(cfg, INIT, acts);
      && Offered(s.h.records) + InHand(s.w) == Consumed(cfg, INIT, acts)
      && (s.w.pc == Idle ==> Offered(s.h.records) == Consumed(cfg, INIT, acts))
  {
    ConsumedInOrder(cfg, INIT, acts);
    assert Offered(INIT.h.records) == [] && InHand(INIT.w) == [];
    hide Run, Consumed, Offered;
    assert [] + [] + Consumed(cfg, INIT, acts) == Consumed(cfg, INIT, acts);
    var s := Run(cfg, INIT, acts);
    assert Offered(s.h.records) + [] == Offered(s.h.records);
  }

  // ---- Delivery ---------------------------------------------------------------------------------

  /** Files of the log that are closed and moved. */
  function Closed(w: Writer): nat {
    if w.log == [] then 0 else if w.file.Some? || w.pc == RenameOld || w.pc == RenameStop then |w.log| - 1 else |w.log|
  }

  /** Closed files are in the target directory, and only a file not yet moved is in the working one. */
  ghost predicate Delivered(w: Writer) {
    && (forall k :: 0 <= k < Closed(w) ==> w.log[k].name in w.target)
    && (forall name :: name in w.inProgress ==> Closed(w) < |w.log| && name == w.log[|w.log| - 1].name)
  }

  lemma StepDelivers(cfg: Config, s: System, a: Action)
    requires AtPc(cfg, s.w) && Delivered(s.w) && !a.Crash?
    ensures Delivered(Step(cfg, s, a).w)
  {
    hide WriterStep, AtPc;
    if a.Write? {
      WriteDelivers(cfg, s.w, s.ctl, a.written);
    }
  }

  lemma WriteDelivers(cfg: Config, w: Writer, ctl: Control, written: nat)
    requires AtPc(cfg, w) && Delivered(w)
    ensures Delivered(WriterStep(cfg, w, ctl, written))
  {
    hide Content;
    if TouchesDisk(w.pc) {
      DiskStepIs(cfg, w, ctl, written);
      hide WriterStep, Accepted;
    } else {
      QuietStep(cfg, w, ctl, written);
      hide Moved, Opened, JournalReplaced, Appended, MustRotate, JournalIndex;
    }
  }

  /** Without crashes every closed file is delivered: it is in the target directory, with all its bytes
      if no journalled run is returned to, and the working directory holds the open file only. */
  lemma {:induction false} RunDelivers(cfg: Config, s: System, acts: seq<Action>)
    requires Consistent(cfg, s.w) && Delivered(s.w) && NoCrash(acts)
    ensures Delivered(Run(cfg, s, acts).w)
    decreases |acts|
  {
    if acts == [] {
    } else {
      StepKeeps(cfg, s, acts[0]);
      StepDelivers(cfg, s, acts[0]);
      RunDelivers(cfg, Step(cfg, s, acts[0]), acts[1..]);
    }
  }

  lemma ClosedFilesAreDelivered(cfg: Config, acts: seq<Action>)
    requires NoCrash(acts)
    ensures var w := Run(cfg, INIT, acts).w;
      && Delivered(w)
      && (NoJournaledReturn(w.log) ==>
            forall k :: 0 <= k < Closed(w) ==>
              w.log[k].name in w.target && w.target[w.log[k].name] == Content(w.log[k]))
  {
    hide *;
    InitKeeps(cfg);
    NothingOpen();
    RunDelivers(cfg, INIT, acts);
    RunKeeps(cfg, INIT, acts);
    CrashSafety(cfg, acts);
    WithoutCrashAllJournaled(cfg, INIT, acts);
    var w := Run(cfg, INIT, acts).w;
    if NoJournaledReturn(w.log) {
      DeliveredWhole(cfg, w);
    }
  }

  lemma NothingOpen()
    ensures Delivered(INIT.w) && AllJournaledBefore(INIT.w)
  {}

  lemma DeliveredWhole(cfg: Config, w: Writer)
    requires Consistent(cfg, w) && Delivered(w) && AllJournaledBefore(w)
    requires Durable(w) && NamesReusedOnlyUnjournaled(w.log)
    ensures forall k :: 0 <= k < Closed(w) ==> w.log[k].name in w.target && w.target[w.log[k].name] == Content(w.log[k])
  {
    hide LogOk, Content;
    forall k | 0 <= k < Closed(w) ensures w.log[k].name in w.target && w.target[w.log[k].name] == Content(w.log[k]) {
      assert w.log[k].journaled;
      assert Stored(w, w.log[k]);
    }
  }

  // ---- Stopping ---------------------------------------------------------------------------------

  /** No file is open between calls, nor once the last one is about to be moved. */
  ghost predicate ClosedAtRest(w: Writer) { w.pc == Idle || w.pc == RenameStop ==> w.file.None? }

  /** The writer is between calls, or in one that does not record. */
  predicate NotRecording(pc: Pc) { pc in {Idle, TestRunning, TestStop, FcloseStop, RenameStop} }

  lemma StoppedStep(cfg: Config, s: System, a: Action)
    requires !cfg.forceWrite && !s.ctl.running && a != Go && !a.Crash?
    ensures var t := Step(cfg, s, a);
      && !t.ctl.running
      && (ClosedAtRest(s.w) ==> ClosedAtRest(t.w))
      && (NotRecording(s.w.pc) ==> NotRecording(t.w.pc) && t.w.log == s.w.log && t.h.records == s.h.records)
  {
    hide Opened, JournalReplaced, Appended, MustRotate, JournalIndex, Accepted;
  }

  /** While `running` stays false, nothing is recorded from the first call on that begins so; and if no
      file is open at rest, none will be. */
  lemma {:induction false} StoppedRecordsNothing(cfg: Config, s: System, acts: seq<Action>)
    requires !cfg.forceWrite && !s.ctl.running && Go !in acts && NoCrash(acts)
    ensures var t := Run(cfg, s, acts);
      && !t.ctl.running
      && (ClosedAtRest(s.w) ==> ClosedAtRest(t.w))
      && (NotRecording(s.w.pc) ==> NotRecording(t.w.pc) && t.w.log == s.w.log && t.h.records == s.h.records)
    decreases |acts|
  {
    if acts == [] {
    } else {
      StoppedStep(cfg, s, acts[0]);
      StoppedRecordsNothing(cfg, Step(cfg, s, acts[0]), acts[1..]);
    }
  }

  lemma StopIsStored(cfg: Config, s: System, acts: seq<Action>)
    requires s.session == Ready
    ensures Run(cfg, s, [Stop]).ctl == Control(s.ctl.runNumber, false)
    ensures Run(cfg, s, [Stop]).w == s.w && Run(cfg, s, [Stop]).h.records == s.h.records
    ensures Run(cfg, s, [Stop] + acts) == Run(cfg, Run(cfg, s, [Stop]), acts)
  {
    assert [Stop][1..] == [];
    RunConcat(cfg, s, [Stop], acts);
  }

  /** A stop while a call is in progress: once this has returned no file is open, and until a `start` sets
      `running` again none is open between calls and nothing is recorded. */
  lemma StopEndsTheRecording(cfg: Config, s: System, during: seq<Action>, after: seq<Action>)
    requires !cfg.forceWrite && s.session == Ready && AtPc(cfg, s.w) && s.w.pc != Idle
    requires Go !in during && Go !in after && NoCrash(during) && NoCrash(after)
    requires Run(cfg, s, [Stop] + during).w.pc == Idle
    ensures var u := Run(cfg, s, [Stop] + during);
            var t := Run(cfg, u, after);
      && u.w.file.None? && !t.ctl.running
      && t.h.records == u.h.records && t.w.log == u.w.log && (t.w.pc == Idle ==> t.w.file.None?)
  {
    StopIsStored(cfg, s, during);
    var u := Run(cfg, s, [Stop] + during);
    StoppedRecordsNothing(cfg, Run(cfg, s, [Stop]), during);
    StoppedRecordsNothing(cfg, u, after);
  }

  /** A stop between calls: nothing is recorded from then on, and the next call closes the open file. */
  lemma StopBetweenCalls(cfg: Config, s: System, slice: seq<Byte>, before: seq<Action>, after: seq<Action>)
    requires !cfg.forceWrite && s.session == Ready && s.w.pc == Idle
    requires forall a :: a in before ==> a.Start? || a == Stop
    requires Go !in after && NoCrash(after)
    ensures var u := Run(cfg, Run(cfg, s, [Stop]), before + [Packet(slice)]);
            var t := Run(cfg, u, after);
      && u.w.pc == TestRunning && t.h.records == s.h.records && t.w.log == s.w.log
      && (t.w.pc == Idle ==> t.w.file.None?)
  {
    StopIsStored(cfg, s, []);
    var stopped := Run(cfg, s, [Stop]);
    RunConcat(cfg, stopped, before, [Packet(slice)]);
    SessionOnly(cfg, stopped, before);
    StoppedRecordsNothing(cfg, stopped, before);
    var v := Run(cfg, stopped, before);
    assert [Packet(slice)][1..] == [];
    var u := Step(cfg, v, Packet(slice));
    assert Run(cfg, v, [Packet(slice)]) == u;
    StoppedRecordsNothing(cfg, u, after);
  }

  lemma {:induction false} SessionOnly(cfg: Config, s: System, acts: seq<Action>)
    requires forall a :: a in acts ==> a.Start? || a == Stop
    ensures Run(cfg, s, acts).w == s.w
    decreases |acts|
  {
    if acts == [] {
    } else {
      assert acts[0] in acts;
      SessionOnly(cfg, Step(cfg, s, acts[0]), acts[1..]);
    }
  }

  // ---- What the history says of a call ----------------------------------------------------------

  /** A call that begins after `start r` has been carried out sees this start: the run numbers published
      before it are out of reach. */
  lemma StartIsSeen(cfg: Config, s: System, parsed: nat, slice: seq<Byte>)
    requires s.session == Ready && s.w.pc == Idle && (!s.ctl.running || s.ctl.runNumber != RunNumber(parsed))
    ensures var t := Run(cfg, s, [Start(parsed), Go, Packet(slice), Write(0)]);
      && t.h.pubs == s.h.pubs + [RunNumber(parsed)] && t.w.pc == TestRotate
      && t.h.sawIdx == t.h.callIdx == |s.h.pubs|
  {
    var acts := [Start(parsed), Go, Packet(slice), Write(0)];
    assert acts[1..] == [Go, Packet(slice), Write(0)] && acts[1..][1..] == [Packet(slice), Write(0)];
    assert acts[1..][1..][1..] == [Write(0)] && acts[1..][1..][1..][1..] == [];
    var s1 := Step(cfg, s, Start(parsed));
    var s2 := Step(cfg, s1, Go);
    var s3 := Step(cfg, s2, Packet(slice));
    var s4 := Step(cfg, s3, Write(0));
    assert Run(cfg, s, acts) == Run(cfg, s1, acts[1..]) == Run(cfg, s2, acts[1..][1..]);
    assert Run(cfg, s2, acts[1..][1..]) == Run(cfg, s3, acts[1..][1..][1..]);
    assert Run(cfg, s3, acts[1..][1..][1..]) == Run(cfg, s4, []) == s4;
  }

  /** A slice is recorded at the moment of the fwrite, with the file it goes to. */
  lemma FwriteRecords(cfg: Config, s: System, written: nat)
    requires AtPc(cfg, s.w) && s.w.pc == Fwrite && s.h.pubs != []
    ensures var t := Step(cfg, s, Write(written));
      && |t.h.records| == |s.h.records| + 1 && t.h.records[..|s.h.records|] == s.h.records
      && var r := t.h.records[|s.h.records|];
         r.slice == s.w.slice && r.chunk == Accepted(s.w.slice, written) && Some(r.name) == s.w.file
         && r.callIdx == s.h.callIdx && r.sawIdx == s.h.sawIdx && r.endIdx == |s.h.pubs| - 1
  {
    hide Appended, Accepted;
  }
}
