/** The three-stage pipeline as a step system: a serial reader (src/InputFilter.cc) that blocks on the
    slice pool (src/slice.cc), a parallel processor (src/processor.cc) and a serial in-order writer
    (src/output.cc), run by a number of workers with a limit on the packets in flight (src/scdaq.cc). */
module Pipeline {
  import opened Basics

  /** `slices` were preallocated; `workers` threads share the work. */
  datatype Config = Config(slices: nat, workers: nat) {
    function Tokens(): nat { 4 * workers }
  }

  /** The reader is between calls, inside a call, or in the pop with a filled slice in hand. */
  datatype Reader = AtRest | Reading | Popping

  /** A packet waiting for the processor, being processed, and processed. */
  datatype Job = Job(no: nat, slice: nat)
  datatype Task = Task(no: nat, slice: nat, out: nat)
  datatype Result = Result(no: nat, out: nat)

  /** `held` is the slice of the reader; `size` is the logical size of every preallocated slice;
      `nextRead`, `nextWrite`, `nextOut` count packets read, packets written and output slices. */
  datatype State = State(
    free: seq<nat>, reader: Reader, held: nat, size: map<nat, nat>,
    pending: seq<Job>, working: seq<Task>, ready: seq<Result>, writing: Option<Result>,
    nextRead: nat, nextWrite: nat, nextOut: nat, freed: seq<nat>)

  datatype Action =
    | ReadBegin | ReadEnd(length: nat) | Pop
    | ProcessBegin(i: nat) | ProcessEnd(i: nat)
    | WriteBegin(i: nat) | WriteEnd

  function Remove<T>(s: seq<T>, i: nat): seq<T>
    requires i < |s|
  {
    s[..i] + s[i + 1..]
  }

  function Upto(n: nat): seq<nat> { seq(n, i => i) }

  /** After the reader's constructor took the first of the preallocated slices. */
  function Init(cfg: Config): State
    requires cfg.slices >= 1
  {
    State(Upto(cfg.slices)[1..], AtRest, 0, map i | i in Upto(cfg.slices) :: 0, [], [], [], None, 0, 0, 0, [])
  }

  function Busy(s: State): nat {
    (if s.reader == AtRest then 0 else 1) + |s.working| + (if s.writing.None? then 0 else 1)
  }

  /** Packets that have entered the pipeline and not left it. */
  function InFlight(s: State): nat {
    (if s.reader == AtRest then 0 else 1) + |s.pending| + |s.working| + |s.ready| + (if s.writing.None? then 0 else 1)
  }

  predicate Enabled(cfg: Config, s: State, a: Action) {
    match a
    case ReadBegin => s.reader == AtRest && Busy(s) < cfg.workers && InFlight(s) < cfg.Tokens()
    case ReadEnd(length) => s.reader == Reading && length > 0
    case Pop => s.reader == Popping && s.free != []
    case ProcessBegin(i) => i < |s.pending| && Busy(s) < cfg.workers
    case ProcessEnd(i) => i < |s.working|
    case WriteBegin(i) => i < |s.ready| && s.writing.None? && s.ready[i].no == s.nextWrite && Busy(s) < cfg.workers
    case WriteEnd => s.writing.Some?
  }

  /** ReadEnd adds what was read to the end of the slice, as set_end(end() + bytesRead) does; the
      slice leaves the reader when the pop succeeds. ProcessBegin allocates the output slice,
      ProcessEnd empties the input slice and gives it back, WriteEnd frees the output slice. */
  function Step(cfg: Config, s: State, a: Action): State
    requires Enabled(cfg, s, a)
  {
    match a
    case ReadBegin => s.(reader := Reading)
    case ReadEnd(length) =>
      s.(reader := Popping, size := s.size[s.held := (if s.held in s.size then s.size[s.held] else 0) + length])
    case Pop =>
      s.(reader := AtRest, held := s.free[0], free := s.free[1..],
         pending := s.pending + [Job(s.nextRead, s.held)], nextRead := s.nextRead + 1)
    case ProcessBegin(i) =>
      var j := s.pending[i];
      s.(pending := Remove(s.pending, i), working := s.working + [Task(j.no, j.slice, s.nextOut)],
         nextOut := s.nextOut + 1)
    case ProcessEnd(i) =>
      var t := s.working[i];
      s.(working := Remove(s.working, i), ready := s.ready + [Result(t.no, t.out)],
         size := s.size[t.slice := 0], free := s.free + [t.slice])
    case WriteBegin(i) => s.(writing := Some(s.ready[i]), ready := Remove(s.ready, i))
    case WriteEnd => s.(writing := None, nextWrite := s.nextWrite + 1, freed := s.freed + [s.writing.value.out])
  }

  // ---- What is where ------------------------------------------------------------------------------

  function JobSlices(js: seq<Job>): seq<nat> { seq(|js|, i requires 0 <= i < |js| => js[i].slice) }
  function JobNos(js: seq<Job>): seq<nat> { seq(|js|, i requires 0 <= i < |js| => js[i].no) }
  function TaskSlices(ts: seq<Task>): seq<nat> { seq(|ts|, i requires 0 <= i < |ts| => ts[i].slice) }
  function TaskNos(ts: seq<Task>): seq<nat> { seq(|ts|, i requires 0 <= i < |ts| => ts[i].no) }
  function TaskOuts(ts: seq<Task>): seq<nat> { seq(|ts|, i requires 0 <= i < |ts| => ts[i].out) }
  function ResultNos(rs: seq<Result>): seq<nat> { seq(|rs|, i requires 0 <= i < |rs| => rs[i].no) }
  function ResultOuts(rs: seq<Result>): seq<nat> { seq(|rs|, i requires 0 <= i < |rs| => rs[i].out) }
  function Writing(s: State): seq<Result> { if s.writing.None? then [] else [s.writing.value] }

  /** Where the preallocated slices are. */
  ghost function SlicesHeld(s: State): multiset<nat> {
    multiset(s.free) + multiset{s.held} + multiset(JobSlices(s.pending)) + multiset(TaskSlices(s.working))
  }

  /** Where the packets are. */
  ghost function PacketsHeld(s: State): multiset<nat> {
    multiset(JobNos(s.pending)) + multiset(TaskNos(s.working))
    + multiset(ResultNos(s.ready)) + multiset(ResultNos(Writing(s)))
  }

  /** Where the output slices are. */
  ghost function OutputsHeld(s: State): multiset<nat> {
    multiset(TaskOuts(s.working)) + multiset(ResultOuts(s.ready)) + multiset(ResultOuts(Writing(s))) + multiset(s.freed)
  }

  function Between(lo: nat, hi: nat): seq<nat>
    requires lo <= hi
  {
    seq(hi - lo, i => lo + i)
  }

  /** Every preallocated slice is in exactly one place. */
  ghost predicate SlicesConserved(cfg: Config, s: State) { SlicesHeld(s) == multiset(Upto(cfg.slices)) }

  /** Exactly the packets read and not yet written are between reader and writer, each once. */
  ghost predicate PacketsConserved(s: State) {
    s.nextWrite <= s.nextRead && PacketsHeld(s) == multiset(Between(s.nextWrite, s.nextRead))
  }

  /** Every output slice ever allocated is on its way to the writer or was freed, once. */
  ghost predicate OutputsConserved(s: State) { OutputsHeld(s) == multiset(Upto(s.nextOut)) }

  ghost predicate Conserved(cfg: Config, s: State) {
    SlicesConserved(cfg, s) && PacketsConserved(s) && OutputsConserved(s)
  }

  ghost predicate Sized(s: State) {
    && (forall i :: i in s.free ==> i in s.size && s.size[i] == 0)
    && s.held in s.size && (s.reader != Popping ==> s.size[s.held] == 0) && (s.reader == Popping ==> s.size[s.held] > 0)
    && (forall j :: j in s.pending ==> j.slice in s.size && s.size[j.slice] > 0)
    && (forall t :: t in s.working ==> t.slice in s.size && s.size[t.slice] > 0)
  }

  ghost predicate Bounded(cfg: Config, s: State) {
    && Busy(s) <= cfg.workers && InFlight(s) <= cfg.Tokens()
    && (s.writing.Some? ==> s.writing.value.no == s.nextWrite)
  }

  ghost predicate Inv(cfg: Config, s: State) { Conserved(cfg, s) && Sized(s) && Bounded(cfg, s) }

  ghost predicate Stuck(cfg: Config, s: State) { forall a: Action :: !Enabled(cfg, s, a) }

  lemma RemoveOne<T>(s: seq<T>, i: nat)
    requires i < |s|
    ensures multiset(Remove(s, i)) == multiset(s) - multiset{s[i]} && s[i] in multiset(s)
    ensures forall x :: x in Remove(s, i) ==> x in s
  {
    assert s == s[..i] + [s[i]] + s[i + 1..];
  }

  lemma AddOne<T>(s: seq<T>, x: T)
    ensures multiset(s + [x]) == multiset(s) + multiset{x}
  {}

  lemma TakeFirst<T>(s: seq<T>)
    requires s != []
    ensures multiset(s[1..]) == multiset(s) - multiset{s[0]} && s[0] in multiset(s)
  {
    assert s == [s[0]] + s[1..];
  }

  lemma JobRemoved(js: seq<Job>, i: nat)
    requires i < |js|
    ensures multiset(JobSlices(Remove(js, i))) == multiset(JobSlices(js)) - multiset{js[i].slice}
    ensures js[i].slice in multiset(JobSlices(js))
    ensures multiset(JobNos(Remove(js, i))) == multiset(JobNos(js)) - multiset{js[i].no}
    ensures js[i].no in multiset(JobNos(js))
  {
    assert JobSlices(Remove(js, i)) == Remove(JobSlices(js), i);
    assert JobNos(Remove(js, i)) == Remove(JobNos(js), i);
    RemoveOne(JobSlices(js), i);
    RemoveOne(JobNos(js), i);
  }

  lemma TaskRemoved(ts: seq<Task>, i: nat)
    requires i < |ts|
    ensures multiset(TaskSlices(Remove(ts, i))) == multiset(TaskSlices(ts)) - multiset{ts[i].slice}
    ensures ts[i].slice in multiset(TaskSlices(ts))
    ensures multiset(TaskNos(Remove(ts, i))) == multiset(TaskNos(ts)) - multiset{ts[i].no}
    ensures ts[i].no in multiset(TaskNos(ts))
    ensures multiset(TaskOuts(Remove(ts, i))) == multiset(TaskOuts(ts)) - multiset{ts[i].out}
    ensures ts[i].out in multiset(TaskOuts(ts))
  {
    assert TaskSlices(Remove(ts, i)) == Remove(TaskSlices(ts), i);
    assert TaskNos(Remove(ts, i)) == Remove(TaskNos(ts), i);
    assert TaskOuts(Remove(ts, i)) == Remove(TaskOuts(ts), i);
    RemoveOne(TaskSlices(ts), i);
    RemoveOne(TaskNos(ts), i);
    RemoveOne(TaskOuts(ts), i);
  }

  lemma ResultRemoved(rs: seq<Result>, i: nat)
    requires i < |rs|
    ensures multiset(ResultNos(Remove(rs, i))) == multiset(ResultNos(rs)) - multiset{rs[i].no}
    ensures rs[i].no in multiset(ResultNos(rs))
    ensures multiset(ResultOuts(Remove(rs, i))) == multiset(ResultOuts(rs)) - multiset{rs[i].out}
    ensures rs[i].out in multiset(ResultOuts(rs))
  {
    assert ResultNos(Remove(rs, i)) == Remove(ResultNos(rs), i);
    assert ResultOuts(Remove(rs, i)) == Remove(ResultOuts(rs), i);
    RemoveOne(ResultNos(rs), i);
    RemoveOne(ResultOuts(rs), i);
  }

  lemma JobAdded(js: seq<Job>, j: Job)
    ensures multiset(JobSlices(js + [j])) == multiset(JobSlices(js)) + multiset{j.slice}
    ensures multiset(JobNos(js + [j])) == multiset(JobNos(js)) + multiset{j.no}
  {
    assert JobSlices(js + [j]) == JobSlices(js) + [j.slice];
    assert JobNos(js + [j]) == JobNos(js) + [j.no];
  }

  lemma TaskAdded(ts: seq<Task>, t: Task)
    ensures multiset(TaskSlices(ts + [t])) == multiset(TaskSlices(ts)) + multiset{t.slice}
    ensures multiset(TaskNos(ts + [t])) == multiset(TaskNos(ts)) + multiset{t.no}
    ensures multiset(TaskOuts(ts + [t])) == multiset(TaskOuts(ts)) + multiset{t.out}
  {
    assert TaskSlices(ts + [t]) == TaskSlices(ts) + [t.slice];
    assert TaskNos(ts + [t]) == TaskNos(ts) + [t.no];
    assert TaskOuts(ts + [t]) == TaskOuts(ts) + [t.out];
  }

  lemma ResultAdded(rs: seq<Result>, r: Result)
    ensures multiset(ResultNos(rs + [r])) == multiset(ResultNos(rs)) + multiset{r.no}
    ensures multiset(ResultOuts(rs + [r])) == multiset(ResultOuts(rs)) + multiset{r.out}
  {
    assert ResultNos(rs + [r]) == ResultNos(rs) + [r.no];
    assert ResultOuts(rs + [r]) == ResultOuts(rs) + [r.out];
  }

  /** Moving one element between two of four places leaves the sum alone. */
  lemma Moved<T>(a: multiset<T>, b: multiset<T>, from: multiset<T>, to: multiset<T>, x: T)
    requires x in from
    ensures a + b + (from - multiset{x}) + (to + multiset{x}) == a + b + from + to
    ensures (from - multiset{x}) + (to + multiset{x}) + a + b == from + to + a + b
    ensures a + (from - multiset{x}) + (to + multiset{x}) + b == a + from + to + b
    ensures (to + multiset{x}) + a + b + (from - multiset{x}) == to + a + b + from
  {}

  lemma Joined<T>(a: multiset<T>, b: multiset<T>, c: multiset<T>, d: multiset<T>, x: T)
    ensures (a + multiset{x}) + b + c + d == (a + b + c + d) + multiset{x}
  {}

  lemma PopSlices(cfg: Config, s: State)
    requires SlicesConserved(cfg, s) && Enabled(cfg, s, Pop)
    ensures SlicesConserved(cfg, Step(cfg, s, Pop))
  {
    hide JobSlices, TaskSlices;
    TakeFirst(s.free);
    JobAdded(s.pending, Job(s.nextRead, s.held));
    var f, p, w := multiset(s.free), multiset(JobSlices(s.pending)), multiset(TaskSlices(s.working));
    assert (f - multiset{s.free[0]}) + multiset{s.free[0]} == f;
    assert (f - multiset{s.free[0]}) + multiset{s.free[0]} + (p + multiset{s.held}) + w == f + multiset{s.held} + p + w;
  }

  lemma PopPackets(cfg: Config, s: State)
    requires PacketsConserved(s) && Enabled(cfg, s, Pop)
    ensures PacketsConserved(Step(cfg, s, Pop))
  {
    hide JobNos, TaskNos, ResultNos;
    JobAdded(s.pending, Job(s.nextRead, s.held));
    assert Between(s.nextWrite, s.nextRead + 1) == Between(s.nextWrite, s.nextRead) + [s.nextRead];
  }

  lemma ProcessBeginSlices(cfg: Config, s: State, i: nat)
    requires SlicesConserved(cfg, s) && Enabled(cfg, s, ProcessBegin(i))
    ensures SlicesConserved(cfg, Step(cfg, s, ProcessBegin(i)))
  {
    hide JobSlices, TaskSlices, Remove;
    var j := s.pending[i];
    JobRemoved(s.pending, i);
    TaskAdded(s.working, Task(j.no, j.slice, s.nextOut));
    Moved(multiset(s.free), multiset{s.held}, multiset(JobSlices(s.pending)), multiset(TaskSlices(s.working)), j.slice);
  }

  lemma ProcessBeginPackets(cfg: Config, s: State, i: nat)
    requires PacketsConserved(s) && Enabled(cfg, s, ProcessBegin(i))
    ensures PacketsConserved(Step(cfg, s, ProcessBegin(i)))
  {
    hide JobNos, TaskNos, ResultNos, Remove, Between;
    var j := s.pending[i];
    JobRemoved(s.pending, i);
    TaskAdded(s.working, Task(j.no, j.slice, s.nextOut));
    Moved(multiset(ResultNos(s.ready)), multiset(ResultNos(Writing(s))),
          multiset(JobNos(s.pending)), multiset(TaskNos(s.working)), j.no);
  }

  lemma ProcessBeginOutputs(cfg: Config, s: State, i: nat)
    requires OutputsConserved(s) && Enabled(cfg, s, ProcessBegin(i))
    ensures OutputsConserved(Step(cfg, s, ProcessBegin(i)))
  {
    var started := Task(s.pending[i].no, s.pending[i].slice, s.nextOut);
    var t := Step(cfg, s, ProcessBegin(i));
    assert t.working == s.working + [started] && Writing(t) == Writing(s);
    UptoNext(s.nextOut);
    hide TaskOuts, ResultOuts, Upto, Remove, Enabled, Writing, OutputsHeld, Step;
    TaskAdded(s.working, started);
    OutputStarted(s, t, s.nextOut);
  }

  lemma UptoNext(n: nat)
    ensures multiset(Upto(n + 1)) == multiset(Upto(n)) + multiset{n}
  {
    assert Upto(n + 1) == Upto(n) + [n];
  }

  lemma OutputStarted(s: State, t: State, out: nat)
    requires multiset(TaskOuts(t.working)) == multiset(TaskOuts(s.working)) + multiset{out}
    requires t.ready == s.ready && Writing(t) == Writing(s) && t.freed == s.freed
    ensures OutputsHeld(t) == OutputsHeld(s) + multiset{out}
  {
    hide TaskOuts, ResultOuts;
    Joined(multiset(TaskOuts(s.working)), multiset(ResultOuts(s.ready)), multiset(ResultOuts(Writing(s))),
           multiset(s.freed), out);
  }

  lemma ProcessEndSlices(cfg: Config, s: State, i: nat)
    requires SlicesConserved(cfg, s) && Enabled(cfg, s, ProcessEnd(i))
    ensures SlicesConserved(cfg, Step(cfg, s, ProcessEnd(i)))
  {
    hide JobSlices, TaskSlices, Remove;
    TaskRemoved(s.working, i);
    AddOne(s.free, s.working[i].slice);
    Moved(multiset{s.held}, multiset(JobSlices(s.pending)), multiset(TaskSlices(s.working)), multiset(s.free),
          s.working[i].slice);
  }

  lemma ProcessEndPackets(cfg: Config, s: State, i: nat)
    requires PacketsConserved(s) && Enabled(cfg, s, ProcessEnd(i))
    ensures PacketsConserved(Step(cfg, s, ProcessEnd(i)))
  {
    hide JobNos, TaskNos, ResultNos, Remove, Between;
    TaskRemoved(s.working, i);
    ResultAdded(s.ready, Result(s.working[i].no, s.working[i].out));
    Moved(multiset(JobNos(s.pending)), multiset(ResultNos(Writing(s))),
          multiset(TaskNos(s.working)), multiset(ResultNos(s.ready)), s.working[i].no);
  }

  lemma ProcessEndOutputs(cfg: Config, s: State, i: nat)
    requires OutputsConserved(s) && Enabled(cfg, s, ProcessEnd(i))
    ensures OutputsConserved(Step(cfg, s, ProcessEnd(i)))
  {
    hide TaskOuts, ResultOuts, Remove, Upto;
    TaskRemoved(s.working, i);
    ResultAdded(s.ready, Result(s.working[i].no, s.working[i].out));
    Moved(multiset(ResultOuts(Writing(s))), multiset(s.freed),
          multiset(TaskOuts(s.working)), multiset(ResultOuts(s.ready)), s.working[i].out);
  }

  lemma NowWriting(r: Result, before: State, after: State)
    requires before.writing.None? && after.writing == Some(r)
    ensures multiset(ResultNos(Writing(before))) == multiset{} && multiset(ResultNos(Writing(after))) == multiset{r.no}
    ensures multiset(ResultOuts(Writing(before))) == multiset{}
    ensures multiset(ResultOuts(Writing(after))) == multiset{r.out}
  {
    assert ResultNos([]) == [] && ResultNos([r]) == [r.no] && ResultOuts([]) == [] && ResultOuts([r]) == [r.out];
  }

  lemma WriteBeginPackets(cfg: Config, s: State, i: nat)
    requires PacketsConserved(s) && Enabled(cfg, s, WriteBegin(i))
    ensures PacketsConserved(Step(cfg, s, WriteBegin(i)))
  {
    hide JobNos, TaskNos, ResultNos, Remove, Between, Writing;
    ResultRemoved(s.ready, i);
    NowWriting(s.ready[i], s, Step(cfg, s, WriteBegin(i)));
    Moved(multiset(JobNos(s.pending)), multiset(TaskNos(s.working)), multiset(ResultNos(s.ready)), multiset{},
          s.ready[i].no);
  }

  lemma WriteBeginOutputs(cfg: Config, s: State, i: nat)
    requires OutputsConserved(s) && Enabled(cfg, s, WriteBegin(i))
    ensures OutputsConserved(Step(cfg, s, WriteBegin(i)))
  {
    hide TaskOuts, ResultOuts, Remove, Upto, Writing;
    ResultRemoved(s.ready, i);
    NowWriting(s.ready[i], s, Step(cfg, s, WriteBegin(i)));
    Moved(multiset(TaskOuts(s.working)), multiset(s.freed), multiset(ResultOuts(s.ready)), multiset{}, s.ready[i].out);
  }

  lemma InRange(s: State, no: nat)
    requires PacketsConserved(s) && no in PacketsHeld(s)
    ensures s.nextWrite <= no < s.nextRead
  {
    assert no in Between(s.nextWrite, s.nextRead);
  }

  lemma WriteEndPackets(cfg: Config, s: State)
    requires PacketsConserved(s) && Bounded(cfg, s) && Enabled(cfg, s, WriteEnd)
    ensures PacketsConserved(Step(cfg, s, WriteEnd))
  {
    hide JobNos, TaskNos, ResultNos, Writing;
    NowWriting(s.writing.value, Step(cfg, s, WriteEnd), s);
    InRange(s, s.nextWrite);
    assert Between(s.nextWrite, s.nextRead) == [s.nextWrite] + Between(s.nextWrite + 1, s.nextRead);
    Cancel(multiset(JobNos(s.pending)) + multiset(TaskNos(s.working)) + multiset(ResultNos(s.ready)),
           multiset(Between(s.nextWrite + 1, s.nextRead)), s.nextWrite);
  }

  lemma Cancel<T>(a: multiset<T>, b: multiset<T>, x: T)
    requires a + multiset{x} == multiset{x} + b
    ensures a + multiset{} == b
  {
    assert (a + multiset{x}) - multiset{x} == a && (multiset{x} + b) - multiset{x} == b;
  }

  lemma WriteEndOutputs(cfg: Config, s: State)
    requires OutputsConserved(s) && Enabled(cfg, s, WriteEnd)
    ensures OutputsConserved(Step(cfg, s, WriteEnd))
  {
    hide TaskOuts, ResultOuts, Writing, Upto;
    NowWriting(s.writing.value, Step(cfg, s, WriteEnd), s);
    AddOne(s.freed, s.writing.value.out);
  }

  lemma StepConserves(cfg: Config, s: State, a: Action)
    requires Conserved(cfg, s) && Bounded(cfg, s) && Enabled(cfg, s, a)
    ensures Conserved(cfg, Step(cfg, s, a))
  {
    hide JobNos, JobSlices, TaskNos, TaskSlices, TaskOuts, ResultNos, ResultOuts, Remove, Between, Upto;
    match a {
      case Pop => PopSlices(cfg, s); PopPackets(cfg, s);
      case ProcessBegin(i) =>
        ProcessBeginSlices(cfg, s, i);
        ProcessBeginPackets(cfg, s, i);
        ProcessBeginOutputs(cfg, s, i);
      case ProcessEnd(i) => ProcessEndSlices(cfg, s, i); ProcessEndPackets(cfg, s, i); ProcessEndOutputs(cfg, s, i);
      case WriteBegin(i) => WriteBeginPackets(cfg, s, i); WriteBeginOutputs(cfg, s, i);
      case WriteEnd => WriteEndPackets(cfg, s); WriteEndOutputs(cfg, s);
      case _ =>
    }
  }

  lemma DistinctSlices(cfg: Config, s: State, x: nat)
    requires SlicesConserved(cfg, s)
    ensures SlicesHeld(s)[x] <= 1
  {
    UptoOnce(cfg.slices, x);
  }

  lemma {:induction false} UptoOnce(n: nat, x: nat)
    ensures multiset(Upto(n))[x] == if x < n then 1 else 0
    decreases n
  {
    if n == 0 {
    } else {
      UptoOnce(n - 1, x);
      assert Upto(n) == Upto(n - 1) + [n - 1];
    }
  }

  lemma BoundedStep(cfg: Config, s: State, a: Action)
    requires Bounded(cfg, s) && Enabled(cfg, s, a)
    ensures Bounded(cfg, Step(cfg, s, a))
  {}

  lemma JobHasSlice(js: seq<Job>, j: Job)
    requires j in js
    ensures j.slice in multiset(JobSlices(js))
  {
    var i :| 0 <= i < |js| && js[i] == j;
    assert JobSlices(js)[i] == j.slice;
  }

  lemma TaskHasSlice(ts: seq<Task>, t: Task)
    requires t in ts
    ensures t.slice in multiset(TaskSlices(ts))
  {
    var i :| 0 <= i < |ts| && ts[i] == t;
    assert TaskSlices(ts)[i] == t.slice;
  }

  /** Filling the held slice leaves every other slice's size alone, since no other place has it. */
  lemma ReadEndSized(cfg: Config, s: State, length: nat)
    requires Conserved(cfg, s) && Sized(s) && Enabled(cfg, s, ReadEnd(length))
    ensures Sized(Step(cfg, s, ReadEnd(length))) && Step(cfg, s, ReadEnd(length)).size[s.held] == length
  {
    DistinctSlices(cfg, s, s.held);
    forall j | j in s.pending ensures j.slice != s.held { JobHasSlice(s.pending, j); }
    forall t | t in s.working ensures t.slice != s.held { TaskHasSlice(s.working, t); }
    assert s.held !in multiset(s.free);
  }

  /** Emptying a processed slice leaves every other slice's size alone. */
  lemma ProcessEndSized(cfg: Config, s: State, i: nat)
    requires Conserved(cfg, s) && Sized(s) && Enabled(cfg, s, ProcessEnd(i))
    ensures Sized(Step(cfg, s, ProcessEnd(i)))
  {
    var x := s.working[i].slice;
    DistinctSlices(cfg, s, x);
    TaskRemoved(s.working, i);
    RemoveOne(s.working, i);
    forall j | j in s.pending ensures j.slice != x { JobHasSlice(s.pending, j); }
    forall t | t in Remove(s.working, i) ensures t.slice != x { TaskHasSlice(Remove(s.working, i), t); }
  }

  lemma StepSized(cfg: Config, s: State, a: Action)
    requires Conserved(cfg, s) && Sized(s) && Enabled(cfg, s, a)
    ensures Sized(Step(cfg, s, a))
  {
    match a {
      case ReadEnd(length) => ReadEndSized(cfg, s, length);
      case ProcessEnd(i) => ProcessEndSized(cfg, s, i);
      case ProcessBegin(i) =>
        RemoveOne(s.pending, i);
        assert s.pending[i] in s.pending;
      case WriteBegin(i) => RemoveOne(s.ready, i);
      case _ =>
    }
  }

  // ---- Histories ------------------------------------------------------------------------------------

  /** A history: every action is enabled when it happens. */
  ghost predicate Possible(cfg: Config, s: State, acts: seq<Action>)
    decreases |acts|
  {
    acts == [] || (Enabled(cfg, s, acts[0]) && Possible(cfg, Step(cfg, s, acts[0]), acts[1..]))
  }

  ghost function Run(cfg: Config, s: State, acts: seq<Action>): State
    requires Possible(cfg, s, acts)
    decreases |acts|
  {
    if acts == [] then s else Run(cfg, Step(cfg, s, acts[0]), acts[1..])
  }

  lemma InitInv(cfg: Config)
    requires cfg.slices >= 1
    ensures Inv(cfg, Init(cfg))
  {
    var s := Init(cfg);
    assert Upto(cfg.slices) == [0] + Upto(cfg.slices)[1..];
    assert Writing(s) == [] && Between(0, 0) == [] && Upto(0) == [];
    assert SlicesHeld(s) == multiset(Upto(cfg.slices));
  }

  lemma {:induction false} RunKeeps(cfg: Config, s: State, acts: seq<Action>)
    requires Inv(cfg, s) && Possible(cfg, s, acts)
    ensures Inv(cfg, Run(cfg, s, acts))
    decreases |acts|
  {
    if acts == [] {
    } else {
      StepKeepsInv(cfg, s, acts[0]);
      RunKeeps(cfg, Step(cfg, s, acts[0]), acts[1..]);
    }
  }

  /** Conservation over every history: each preallocated slice is in the pool, with the reader, or
      between reader and processor, and in one place only; slices in the pool are empty; each output
      slice is allocated once and freed at most once; packets are written in the order read. */
  lemma PoolConservation(cfg: Config, acts: seq<Action>)
    requires cfg.slices >= 1 && Possible(cfg, Init(cfg), acts)
    ensures var s := Run(cfg, Init(cfg), acts);
            && SlicesHeld(s) == multiset(Upto(cfg.slices)) && (forall x :: SlicesHeld(s)[x] <= 1)
            && (forall i :: i in s.free ==> i in s.size && s.size[i] == 0)
            && OutputsHeld(s) == multiset(Upto(s.nextOut)) && (forall x :: OutputsHeld(s)[x] <= 1)
            && s.nextWrite <= s.nextRead && PacketsHeld(s) == multiset(Between(s.nextWrite, s.nextRead))
            && (if s.reader == AtRest then 0 else 1) + |s.pending| + |s.working| + |s.ready|
               + (if s.writing.None? then 0 else 1) <= 4 * cfg.workers
            && (if s.reader == AtRest then 0 else 1) + |s.working| + (if s.writing.None? then 0 else 1) <= cfg.workers
  {
    InitInv(cfg);
    RunKeeps(cfg, Init(cfg), acts);
    var s := Run(cfg, Init(cfg), acts);
    forall x: nat ensures SlicesHeld(s)[x] <= 1 && OutputsHeld(s)[x] <= 1 {
      UptoOnce(cfg.slices, x);
      UptoOnce(s.nextOut, x);
    }
  }

  // ---- Progress ---------------------------------------------------------------------------------------

  predicate NeverStarves(cfg: Config) { cfg.slices >= 2 && (cfg.workers >= 2 || cfg.slices > cfg.Tokens()) }

  /** The packet to be written next is somewhere a step can move it from. */
  lemma NextPacketMoves(cfg: Config, s: State) returns (a: Action)
    requires Inv(cfg, s) && s.nextWrite < s.nextRead && Busy(s) < cfg.workers && s.writing.None? && s.working == []
    ensures Enabled(cfg, s, a) && a != ReadBegin
  {
    assert ResultNos(Writing(s)) == [] && TaskNos(s.working) == [];
    assert Between(s.nextWrite, s.nextRead)[0] == s.nextWrite;
    assert s.nextWrite in PacketsHeld(s);
    if s.nextWrite in multiset(ResultNos(s.ready)) {
      var i :| 0 <= i < |ResultNos(s.ready)| && ResultNos(s.ready)[i] == s.nextWrite;
      a := WriteBegin(i);
    } else {
      assert s.nextWrite in multiset(JobNos(s.pending));
      a := ProcessBegin(0);
    }
  }

  lemma SliceCount(cfg: Config, s: State)
    requires SlicesConserved(cfg, s)
    ensures |s.free| + 1 + |s.pending| + |s.working| == cfg.slices
  {
    assert |SlicesHeld(s)| == |multiset(Upto(cfg.slices))| == cfg.slices;
    assert |multiset(JobSlices(s.pending))| == |s.pending| && |multiset(TaskSlices(s.working))| == |s.working|;
  }

  lemma PacketCount(s: State)
    requires PacketsConserved(s)
    ensures |s.pending| + |s.working| + |s.ready| + |Writing(s)| == s.nextRead - s.nextWrite
  {
    assert |PacketsHeld(s)| == |multiset(Between(s.nextWrite, s.nextRead))| == s.nextRead - s.nextWrite;
    assert |multiset(JobNos(s.pending))| == |s.pending| && |multiset(TaskNos(s.working))| == |s.working|;
    assert |multiset(ResultNos(s.ready))| == |s.ready| && |multiset(ResultNos(Writing(s)))| == |Writing(s)|;
  }

  /** Steps still to be made for what is in the pipeline, none of them the beginning of a read. */
  function Work(s: State): nat {
    (match s.reader case AtRest => 0 case Reading => 6 case Popping => 5)
    + 4 * |s.pending| + 3 * |s.working| + 2 * |s.ready| + (if s.writing.None? then 0 else 1)
  }

  lemma WorkFalls(cfg: Config, s: State, a: Action)
    requires Enabled(cfg, s, a) && a != ReadBegin
    ensures Work(Step(cfg, s, a)) < Work(s)
  {}

  /** As long as a packet is in the pipeline some step other than the beginning of a read is enabled. */
  lemma DrainingStep(cfg: Config, s: State) returns (a: Action)
    requires Inv(cfg, s) && NeverStarves(cfg) && cfg.workers >= 1 && Work(s) > 0
    ensures Enabled(cfg, s, a) && a != ReadBegin
  {
    SliceCount(cfg, s);
    PacketCount(s);
    if s.working != [] {
      a := ProcessEnd(0);
    } else if s.writing.Some? {
      a := WriteEnd;
    } else if s.reader == Reading {
      a := ReadEnd(1);
    } else if s.reader == Popping && s.free != [] {
      a := Pop;
    } else if s.reader == Popping {
      assert s.pending != [];
      a := ProcessBegin(0);
    } else {
      a := NextPacketMoves(cfg, s);
    }
  }

  /** Whatever the history, some step is enabled: the blocking pop never stops everything. */
  lemma SomeStepEnabled(cfg: Config, s: State) returns (a: Action)
    requires Inv(cfg, s) && NeverStarves(cfg) && cfg.workers >= 1
    ensures Enabled(cfg, s, a)
  {
    if Work(s) > 0 {
      a := DrainingStep(cfg, s);
    } else {
      a := ReadBegin;
    }
  }

  /** Without new reads every history ends, after at most `Work(s)` steps, and it can only end with every
      packet written, every output slice freed and every preallocated slice but the reader's in the
      pool. */
  lemma {:induction false} EveryScheduleDrains(cfg: Config, s: State, acts: seq<Action>)
    requires Inv(cfg, s) && NeverStarves(cfg) && cfg.workers >= 1
    requires Possible(cfg, s, acts) && ReadBegin !in acts
    ensures var t := Run(cfg, s, acts);
      && |acts| + Work(t) <= Work(s)
      && ((forall a :: a != ReadBegin ==> !Enabled(cfg, t, a)) ==>
            t.nextWrite == t.nextRead && |t.free| == cfg.slices - 1 && multiset(t.freed) == multiset(Upto(t.nextOut)))
    decreases |acts|
  {
    if acts == [] {
      if Work(s) > 0 {
        var a := DrainingStep(cfg, s);
      } else {
        Drained(cfg, s);
      }
    } else {
      StepKeepsInv(cfg, s, acts[0]);
      WorkFalls(cfg, s, acts[0]);
      EveryScheduleDrains(cfg, Step(cfg, s, acts[0]), acts[1..]);
    }
  }

  lemma Drained(cfg: Config, s: State)
    requires Inv(cfg, s) && Work(s) == 0
    ensures s.nextWrite == s.nextRead && |s.free| == cfg.slices - 1 && multiset(s.freed) == multiset(Upto(s.nextOut))
  {
    SliceCount(cfg, s);
    PacketCount(s);
    assert TaskOuts(s.working) == [] && ResultOuts(s.ready) == [] && ResultOuts(Writing(s)) == [];
  }

  /** From every state of a configuration that does not starve, the packets read can be written. */
  lemma PacketsCanBeWritten(cfg: Config, s: State) returns (acts: seq<Action>)
    requires Inv(cfg, s) && NeverStarves(cfg) && cfg.workers >= 1
    ensures Possible(cfg, s, acts) && |acts| <= Work(s)
    ensures Run(cfg, s, acts).nextWrite == Run(cfg, s, acts).nextRead >= s.nextRead
    decreases Work(s)
  {
    if Work(s) == 0 {
      Drained(cfg, s);
      acts := [];
    } else {
      var a := DrainingStep(cfg, s);
      StepKeepsInv(cfg, s, a);
      WorkFalls(cfg, s, a);
      var rest := PacketsCanBeWritten(cfg, Step(cfg, s, a));
      Prepend(cfg, s, a, rest);
      acts := [a] + rest;
    }
  }

  lemma StepKeepsInv(cfg: Config, s: State, a: Action)
    requires Inv(cfg, s) && Enabled(cfg, s, a)
    ensures Inv(cfg, Step(cfg, s, a))
  {
    StepConserves(cfg, s, a);
    StepSized(cfg, s, a);
    BoundedStep(cfg, s, a);
  }

  lemma Prepend(cfg: Config, s: State, a: Action, rest: seq<Action>)
    requires Enabled(cfg, s, a) && Possible(cfg, Step(cfg, s, a), rest)
    ensures Possible(cfg, s, [a] + rest) && Run(cfg, s, [a] + rest) == Run(cfg, Step(cfg, s, a), rest)
  {
    assert ([a] + rest)[1..] == rest;
  }

  /** `k` packets read and handed over, and one more read, while nothing else moves. */
  lemma FillUp(cfg: Config, s: State, k: nat) returns (acts: seq<Action>)
    requires s.reader == AtRest && s.working == [] && s.ready == [] && s.writing.None?
    requires cfg.workers >= 1 && k <= |s.free| && |s.pending| + k < cfg.Tokens()
    ensures Possible(cfg, s, acts)
    ensures var t := Run(cfg, s, acts);
            && t.reader == Popping && t.working == [] && t.ready == [] && t.writing.None?
            && |t.free| == |s.free| - k && |t.pending| == |s.pending| + k
    decreases k
  {
    var s1 := Step(cfg, s, ReadBegin);
    var s2 := Step(cfg, s1, ReadEnd(1));
    acts := [];
    if k > 0 {
      acts := FillUp(cfg, Step(cfg, s2, Pop), k - 1);
      Prepend(cfg, s2, Pop, acts);
      acts := [Pop] + acts;
    }
    Prepend(cfg, s1, ReadEnd(1), acts);
    Prepend(cfg, s, ReadBegin, [ReadEnd(1)] + acts);
    acts := [ReadBegin] + ([ReadEnd(1)] + acts);
  }

  /** With enough slices as many packets can be in flight as there are tokens, four for every worker. */
  lemma TokensAreUsed(cfg: Config) returns (acts: seq<Action>)
    requires cfg.workers >= 1 && cfg.slices >= 4 * cfg.workers
    ensures Possible(cfg, Init(cfg), acts) && InFlight(Run(cfg, Init(cfg), acts)) == 4 * cfg.workers
  {
    acts := FillUp(cfg, Init(cfg), 4 * cfg.workers - 1);
  }

  /** The pipeline can reach a state in which nothing can move exactly when there is one slice only,
      or one worker and no more slices than packets allowed in flight. */
  lemma StuckExactlyWhen(cfg: Config)
    requires cfg.workers >= 1 && cfg.slices >= 1
    ensures (exists acts :: Possible(cfg, Init(cfg), acts) && Stuck(cfg, Run(cfg, Init(cfg), acts)))
       <==> cfg.slices == 1 || (cfg.workers == 1 && cfg.slices <= 4)
  {
    if NeverStarves(cfg) {
      forall acts | Possible(cfg, Init(cfg), acts) ensures !Stuck(cfg, Run(cfg, Init(cfg), acts)) {
        InitInv(cfg);
        RunKeeps(cfg, Init(cfg), acts);
        var a := SomeStepEnabled(cfg, Run(cfg, Init(cfg), acts));
      }
    } else {
      var acts := FillUp(cfg, Init(cfg), cfg.slices - 1);
      assert Stuck(cfg, Run(cfg, Init(cfg), acts));
    }
  }
}
