/** What the log of opened files can look like: file names are a function of the log alone,
    because the on-disk journal always equals the last journalled entry of the log. */
module WriterLog {
  import opened Basics
  import opened WriterModel

  /** What fwrite took for a file, and what of it is on disk once its process is gone. */
  function Content(e: Entry): seq<Byte> { Flatten(e.chunks) }

  function Survives(e: Entry): seq<Byte> { if e.cut.None? then Content(e) else Accepted(Content(e), e.cut.value) }

  /** The journal that the files opened so far leave behind. */
  function JournalOf(log: seq<Entry>): Journal {
    if log == [] then NoJournal
    else
      var last := log[|log| - 1];
      if last.journaled then Journal(last.name.run, last.name.index + 1) else JournalOf(log[..|log| - 1])
  }

  /** The index that the next file of `run` gets. */
  function NextIndex(log: seq<Entry>, run: nat): int { JournalIndex(JournalOf(log), run) }

  /** Every file got the index that the journal of its predecessors gives. */
  ghost predicate Generated(log: seq<Entry>) {
    forall k :: 0 <= k < |log| ==> log[k].name.index == NextIndex(log[..k], log[k].name.run)
  }

  /** No run is returned to after a file of another run was opened. */
  ghost predicate NoReturn(log: seq<Entry>) {
    forall i, j, k :: 0 <= i < j < k < |log| && log[i].name.run == log[k].name.run ==>
      log[j].name.run == log[i].name.run
  }

  /** No run whose file reached the journal is returned to after a file of another run reached it. Files
      that never reached the journal do not matter. */
  ghost predicate NoJournaledReturn(log: seq<Entry>) {
    forall i, j, k :: 0 <= i < j < k < |log| && log[i].name.run == log[k].name.run ==>
      log[i].journaled && log[j].journaled ==> log[j].name.run == log[i].name.run
  }

  /** A name is opened again only while its file is still empty, because the process died between
      the fopen and the replacement of the journal. */
  ghost predicate NamesReusedOnlyUnjournaled(log: seq<Entry>) {
    forall j, k :: 0 <= j < k < |log| && log[j].name == log[k].name ==> !log[j].journaled
  }

  ghost predicate Occurs(log: seq<Entry>, name: FileName) {
    exists k :: 0 <= k < |log| && log[k].journaled && log[k].name == name
  }

  /** Same names in the same order, no journal mark withdrawn: how a log develops. */
  ghost predicate Extends(log: seq<Entry>, later: seq<Entry>) {
    && |log| <= |later|
    && (forall k :: 0 <= k < |log| ==> log[k].name == later[k].name)
    && (forall k :: 0 <= k < |log| - 1 ==> log[k] == later[k])
  }

  lemma DistinctShrinks(log: seq<Entry>, later: seq<Entry>)
    requires Extends(log, later) && NamesReusedOnlyUnjournaled(later)
    ensures NamesReusedOnlyUnjournaled(log)
  {
    forall j, k | 0 <= j < k < |log| && log[j].name == log[k].name ensures !log[j].journaled {
      assert later[j].name == later[k].name;
    }
  }

  lemma GeneratedOpen(log: seq<Entry>, e: Entry)
    requires Generated(log) && e.name.index == NextIndex(log, e.name.run)
    ensures Generated(log + [e])
  {
    forall k | 0 <= k < |log + [e]|
      ensures (log + [e])[k].name.index == NextIndex((log + [e])[..k], (log + [e])[k].name.run)
    {
      if k < |log| {
        assert (log + [e])[..k] == log[..k];
      } else {
        assert (log + [e])[..k] == log;
      }
    }
  }

  lemma GeneratedTouch(log: seq<Entry>, e: Entry)
    requires Generated(log) && log != [] && e.name == log[|log| - 1].name
    ensures Generated(log[|log| - 1 := e])
  {
    var touched := log[|log| - 1 := e];
    forall k | 0 <= k < |touched| ensures touched[k].name.index == NextIndex(touched[..k], touched[k].name.run) {
      assert touched[..k] == log[..k];
    }
  }

  /** Within one run the index grows by one exactly when the previous file reached the journal. */
  lemma Successor(log: seq<Entry>, k: nat)
    requires Generated(log) && 0 < k < |log| && log[k - 1].name.run == log[k].name.run
    ensures log[k].name.index == log[k - 1].name.index + (if log[k - 1].journaled then 1 else 0)
  {
    assert log[..k][..k - 1] == log[..k - 1];
  }

  /** Position of the entry the journal was written for. */
  lemma {:induction false} JournalComesFromLog(log: seq<Entry>) returns (m: nat)
    requires JournalOf(log).Journal?
    ensures m < |log| && log[m].journaled && JournalOf(log) == Journal(log[m].name.run, log[m].name.index + 1)
    ensures forall k :: m < k < |log| ==> !log[k].journaled
    decreases |log|
  {
    if log[|log| - 1].journaled {
      m := |log| - 1;
    } else {
      m := JournalComesFromLog(log[..|log| - 1]);
    }
  }

  /** Within a run the index of a journalled file is below every later one. */
  lemma {:induction false} JournaledIndicesGrow(log: seq<Entry>, i: nat, k: nat)
    requires Generated(log) && NoJournaledReturn(log) && i < k < |log|
    requires log[i].journaled && log[i].name.run == log[k].name.run
    ensures log[i].name.index < log[k].name.index
    decreases k
  {
    JournalReached(log, i, k);
    var m := JournalComesFromLog(log[..k]);
    if m == i {
    } else {
      assert log[m].journaled && log[m].name.run == log[i].name.run;
      JournaledIndicesGrow(log, i, m);
    }
  }

  lemma {:induction false} JournalReached(log: seq<Entry>, i: nat, k: nat)
    requires i < k <= |log| && log[i].journaled
    ensures JournalOf(log[..k]).Journal?
    decreases k
  {
    assert log[..k][..k - 1] == log[..k - 1];
    if i == k - 1 {
    } else {
      JournalReached(log, i, k - 1);
    }
  }

  /** The first journalled file of a run has index 0. */
  lemma {:induction false} FirstJournaled(log: seq<Entry>, i: nat) returns (first: nat)
    requires Generated(log) && i < |log| && log[i].journaled
    ensures first <= i && log[first].journaled && log[first].name == FileName(log[i].name.run, 0)
    decreases i
  {
    if JournalOf(log[..i]).Journal? && JournalOf(log[..i]).run == log[i].name.run {
      var m := JournalComesFromLog(log[..i]);
      first := FirstJournaled(log, m);
    } else {
      first := i;
    }
  }

  /** A return to a journalled run over a journalled file of another run reuses a journalled name. */
  lemma {:induction false} ReturnReuses(log: seq<Entry>, i: nat, j: nat, k: nat)
    requires Generated(log) && i < j < k < |log| && log[i].journaled && log[j].journaled
    requires log[i].name.run == log[k].name.run != log[j].name.run
    ensures !NamesReusedOnlyUnjournaled(log)
    decreases k
  {
    JournalReached(log, j, k);
    var m := JournalComesFromLog(log[..k]);
    assert m >= j;
    if log[m].name.run == log[k].name.run {
      ReturnReuses(log, i, j, m);
    } else {
      var first := FirstJournaled(log, i);
      assert log[first].name == log[k].name;
    }
  }

  /** The names of journalled files stay their own, whatever crashes happen, exactly when no journalled
      run is returned to over another. */
  lemma NamesStayFreshExactlyWhen(log: seq<Entry>)
    requires Generated(log)
    ensures NamesReusedOnlyUnjournaled(log) <==> NoJournaledReturn(log)
  {
    if NoJournaledReturn(log) {
      forall j, k | 0 <= j < k < |log| && log[j].name == log[k].name ensures !log[j].journaled {
        if log[j].journaled {
          JournaledIndicesGrow(log, j, k);
          assert false;
        }
      }
    } else {
      var i, j, k :| 0 <= i < j < k < |log| && log[i].journaled && log[j].journaled
        && log[i].name.run == log[k].name.run != log[j].name.run;
      ReturnReuses(log, i, j, k);
    }
  }

  lemma NoReturnIsEnough(log: seq<Entry>)
    ensures NoReturn(log) ==> NoJournaledReturn(log)
  {}

  /** As long as no journalled name was reused, the next file of `run` takes the name of a journalled
      file exactly when the journal belongs to another run although the first file of `run` exists. */
  lemma NextNameTakenExactlyWhen(log: seq<Entry>, run: nat)
    requires Generated(log) && NamesReusedOnlyUnjournaled(log)
    ensures Occurs(log, FileName(run, NextIndex(log, run)))
       <==> !(JournalOf(log).Journal? && JournalOf(log).run == run) && Occurs(log, FileName(run, 0))
  {
    NamesStayFreshExactlyWhen(log);
    if JournalOf(log).Journal? && JournalOf(log).run == run {
      var m := JournalComesFromLog(log);
      forall k | 0 <= k < |log| && log[k].journaled && log[k].name == FileName(run, NextIndex(log, run)) ensures false {
        if k < m {
          JournaledIndicesGrow(log, k, m);
        }
      }
    }
  }

  /** Indices never run ahead of the number of fopens before them. */
  lemma {:induction false} IndexWithinOpens(log: seq<Entry>, k: nat)
    requires Generated(log) && k < |log|
    ensures 0 <= log[k].name.index <= k
    decreases k
  {
    if JournalOf(log[..k]).NoJournal? {
    } else {
      var m := JournalComesFromLog(log[..k]);
      IndexWithinOpens(log, m);
    }
  }

  /** The first file of a run that was never opened before has index 0. */
  lemma FreshRunStartsAtZero(log: seq<Entry>, k: nat)
    requires Generated(log) && k < |log|
    requires forall j :: 0 <= j < k ==> log[j].name.run != log[k].name.run
    ensures log[k].name.index == 0
  {
    if JournalOf(log[..k]).Journal? {
      var m := JournalComesFromLog(log[..k]);
    }
  }
}
