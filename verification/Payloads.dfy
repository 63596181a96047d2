/** What the pipeline carries: the contents of the slices, which are used over and over, on their way from
    the reader through the processor to the writer. */
module Payloads {
  import opened Basics
  import opened Pipeline
  import opened GmtFormat
  import opened GmtOrbit

  type Words = seq<Word>

  /** `slices` and `outs` are the contents of the preallocated and of the output slices, `written` what the
      writer was handed, in that order. */
  datatype Payload = Payload(slices: map<nat, Words>, outs: map<nat, Words>, written: seq<Words>)

  /** What a step does to the contents: the reader puts the next packet into the slice it holds, the
      processor has filled its output slice from its input slice when it gives that back, and the writer
      takes its output slice before it frees it. */
  function Flow(s: State, d: Payload, a: Action, packet: nat -> Words, f: Words -> Words): Payload {
    match a
    case ReadEnd(_) => d.(slices := d.slices[s.held := packet(s.nextRead)])
    case ProcessEnd(i) =>
      if i < |s.working| && s.working[i].slice in d.slices
      then d.(outs := d.outs[s.working[i].out := f(d.slices[s.working[i].slice])]) else d
    case WriteEnd =>
      if s.writing.Some? && s.writing.value.out in d.outs
      then d.(written := d.written + [d.outs[s.writing.value.out]]) else d
    case _ => d
  }

  function RunPayload(cfg: Config, s: State, d: Payload, acts: seq<Action>,
                      packet: nat -> Words, f: Words -> Words): Payload
    requires Possible(cfg, s, acts)
    decreases |acts|
  {
    if acts == [] then d
    else RunPayload(cfg, Step(cfg, s, acts[0]), Flow(s, d, acts[0], packet, f), acts[1..], packet, f)
  }

  /** A slice has the packet of the given number, an output slice what becomes of it. */
  predicate HasPacket(d: Payload, slice: nat, no: nat, packet: nat -> Words) {
    slice in d.slices && d.slices[slice] == packet(no)
  }

  predicate HasResult(d: Payload, out: nat, no: nat, packet: nat -> Words, f: Words -> Words) {
    out in d.outs && d.outs[out] == f(packet(no))
  }

  /** The first `n` packets, as the processor makes them, in the order in which they were read. */
  predicate HandedOver(written: seq<Words>, n: nat, packet: nat -> Words, f: Words -> Words) {
    |written| == n && forall k: nat :: k < n ==> written[k] == f(packet(k))
  }

  ghost predicate Carried(s: State, d: Payload, packet: nat -> Words, f: Words -> Words) {
    && (s.reader == Popping ==> HasPacket(d, s.held, s.nextRead, packet))
    && (forall j :: j in s.pending ==> HasPacket(d, j.slice, j.no, packet))
    && (forall t :: t in s.working ==> HasPacket(d, t.slice, t.no, packet))
    && (forall r :: r in s.ready ==> HasResult(d, r.out, r.no, packet, f))
    && (s.writing.Some? ==> HasResult(d, s.writing.value.out, s.writing.value.no, packet, f))
    && HandedOver(d.written, s.nextWrite, packet, f)
  }

  lemma ReadEndCarries(cfg: Config, s: State, d: Payload, length: nat, packet: nat -> Words, f: Words -> Words)
    requires Inv(cfg, s) && Carried(s, d, packet, f) && Enabled(cfg, s, ReadEnd(length))
    ensures Carried(Step(cfg, s, ReadEnd(length)), Flow(s, d, ReadEnd(length), packet, f), packet, f)
  {
    hide SlicesHeld, PacketsConserved, OutputsConserved, Sized;
    forall j | j in s.pending ensures j.slice != s.held { OthersHold(cfg, s, s.held); JobHasSlice(s.pending, j); }
    forall t | t in s.working ensures t.slice != s.held { OthersHold(cfg, s, s.held); TaskHasSlice(s.working, t); }
  }

  /** A slice that the reader holds is in no job and no task. */
  lemma OthersHold(cfg: Config, s: State, x: nat)
    requires SlicesConserved(cfg, s) && x == s.held
    ensures x !in multiset(JobSlices(s.pending)) && x !in multiset(TaskSlices(s.working))
  {
    DistinctSlices(cfg, s, x);
  }

  lemma ResultHasOut(rs: seq<Result>, r: Result)
    requires r in rs
    ensures r.out in multiset(ResultOuts(rs))
  {
    var i :| 0 <= i < |rs| && rs[i] == r;
    assert ResultOuts(rs)[i] == r.out;
  }

  /** An output slice that is being filled is in no result. */
  lemma ResultsHold(s: State, i: nat)
    requires OutputsConserved(s) && i < |s.working|
    ensures s.working[i].out !in multiset(ResultOuts(s.ready)) && s.working[i].out !in multiset(ResultOuts(Writing(s)))
  {
    var out := s.working[i].out;
    UptoOnce(s.nextOut, out);
    assert TaskOuts(s.working)[i] == out;
    assert OutputsHeld(s)[out] <= 1;
  }

  lemma ProcessEndCarries(cfg: Config, s: State, d: Payload, i: nat, packet: nat -> Words, f: Words -> Words)
    requires Inv(cfg, s) && Carried(s, d, packet, f) && Enabled(cfg, s, ProcessEnd(i))
    ensures Carried(Step(cfg, s, ProcessEnd(i)), Flow(s, d, ProcessEnd(i), packet, f), packet, f)
  {
    hide SlicesConserved, PacketsConserved, OutputsHeld, Sized, Remove;
    var t := s.working[i];
    assert t in s.working;
    ResultsHold(s, i);
    RemoveOne(s.working, i);
    forall r | r in s.ready ensures r.out != t.out { ResultHasOut(s.ready, r); }
    if s.writing.Some? {
      assert s.writing.value in Writing(s);
      ResultHasOut(Writing(s), s.writing.value);
    }
  }

  lemma WriteEndCarries(cfg: Config, s: State, d: Payload, packet: nat -> Words, f: Words -> Words)
    requires Inv(cfg, s) && Carried(s, d, packet, f) && Enabled(cfg, s, WriteEnd)
    ensures Carried(Step(cfg, s, WriteEnd), Flow(s, d, WriteEnd, packet, f), packet, f)
  {
    hide Conserved, Sized;
    var r := s.writing.value;
    assert r.no == s.nextWrite && HasResult(d, r.out, r.no, packet, f);
    OneMoreHanded(d.written, s.nextWrite, packet, f);
  }

  lemma OneMoreHanded(written: seq<Words>, n: nat, packet: nat -> Words, f: Words -> Words)
    requires HandedOver(written, n, packet, f)
    ensures HandedOver(written + [f(packet(n))], n + 1, packet, f)
  {
    var longer := written + [f(packet(n))];
    forall k: nat | k < n + 1 ensures longer[k] == f(packet(k)) {
      assert k < n ==> longer[k] == written[k];
    }
  }

  lemma StepCarries(cfg: Config, s: State, d: Payload, a: Action, packet: nat -> Words, f: Words -> Words)
    requires Inv(cfg, s) && Carried(s, d, packet, f) && Enabled(cfg, s, a)
    ensures Carried(Step(cfg, s, a), Flow(s, d, a, packet, f), packet, f)
  {
    hide SlicesConserved, PacketsConserved, OutputsConserved, Sized, HasPacket, Remove;
    match a {
      case ReadEnd(length) => ReadEndCarries(cfg, s, d, length, packet, f);
      case ProcessEnd(i) => ProcessEndCarries(cfg, s, d, i, packet, f);
      case ProcessBegin(i) =>
        assert s.pending[i] in s.pending;
        RemoveOne(s.pending, i);
      case WriteBegin(i) =>
        assert s.ready[i] in s.ready;
        RemoveOne(s.ready, i);
      case WriteEnd => WriteEndCarries(cfg, s, d, packet, f);
      case Pop =>
      case ReadBegin =>
    }
  }

  lemma {:induction false} RunCarries(cfg: Config, s: State, d: Payload, acts: seq<Action>,
                                            packet: nat -> Words, f: Words -> Words)
    requires Inv(cfg, s) && Carried(s, d, packet, f) && Possible(cfg, s, acts)
    ensures Carried(Run(cfg, s, acts), RunPayload(cfg, s, d, acts, packet, f), packet, f)
    decreases |acts|
  {
    if acts == [] {
    } else {
      StepKeepsInv(cfg, s, acts[0]);
      StepCarries(cfg, s, d, acts[0], packet, f);
      RunCarries(cfg, Step(cfg, s, acts[0]), Flow(s, d, acts[0], packet, f), acts[1..], packet, f);
    }
  }

  /** In every history the writer is handed the packets as the processor makes them, in the order in which
      they were read, each once: no slice is overwritten before its packet has been processed. */
  lemma WrittenInReadOrder(cfg: Config, acts: seq<Action>, packet: nat -> Words, f: Words -> Words)
    requires cfg.slices >= 1 && Possible(cfg, Init(cfg), acts)
    ensures HandedOver(RunPayload(cfg, Init(cfg), Payload(map[], map[], []), acts, packet, f).written,
                       Run(cfg, Init(cfg), acts).nextWrite, packet, f)
  {
    InitInv(cfg);
    RunCarries(cfg, Init(cfg), Payload(map[], map[], []), acts, packet, f);
  }

  /** What the processor makes of a packet in one pass. */
  function Reformatted(w: Words, doZS: bool): Words {
    match FindTrailer(w, 0)
    case None => []
    case Some(n) => EncodeAll(Records(w, 0, n, CrossingsOf(w, n), 0, doZS))
  }

  /** From the reader to the writer: of well-formed single-orbit packets the k-th slice handed to the writer
      decodes to one record for every block of the k-th packet read, under the crossings of its map. */
  lemma RecordsArriveInReadOrder(cfg: Config, acts: seq<Action>, packet: nat -> Words, blocks: nat -> nat, doZS: bool)
    requires cfg.slices >= 1 && Possible(cfg, Init(cfg), acts)
    requires forall k: nat :: SingleOrbit(packet(k), blocks(k), doZS)
    ensures var written := RunPayload(cfg, Init(cfg), Payload(map[], map[], []), acts, packet,
                                      w => Reformatted(w, doZS)).written;
      && |written| == Run(cfg, Init(cfg), acts).nextWrite
      && forall k: nat :: k < |written| ==> OrbitArrives(written[k], packet(k), blocks(k), doZS)
  {
    var f := w => Reformatted(w, doZS);
    WrittenInReadOrder(cfg, acts, packet, f);
    var written := RunPayload(cfg, Init(cfg), Payload(map[], map[], []), acts, packet, f).written;
    forall k: nat | k < |written| ensures OrbitArrives(written[k], packet(k), blocks(k), doZS) {
      assert written[k] == f(packet(k));
      SingleOrbitMeaning(packet(k), blocks(k), doZS);
    }
  }

  ghost predicate OrbitArrives(slice: Words, w: Words, n: nat, doZS: bool) {
    && SingleOrbit(w, n, doZS) && |CrossingsOf(w, n)| == n
    && var rs := Decode(slice);
       rs.Some? && |rs.value| == n
       && forall k :: 0 <= k < n ==> rs.value[k] == Meaning(BlockAt(w, k), CrossingsOf(w, n)[k], doZS)
  }
}
