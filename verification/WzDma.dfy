/** Reading packets from the WZ DMA device (src/WZDmaInputFilter.cc): a failed read is retried after
    restarting the device, an oversized packet is skipped, and every hundredth one resets the board. */
module WzDma {
  const MAX_TRIES := 10
  const SKIPS := 100
  const MAX_RESETS := 10
  const MAX_READS := SKIPS * (MAX_RESETS + 1)

  datatype Restart = Restarted | InitFails | StartFails

  /** What one `wz_read_start` answers; EIO comes with what restarting the device does then. */
  datatype Answer = Bytes(count: nat) | Eio(restart: Restart) | OtherError

  /** How a read ends: with a packet, on the assertion against empty packets, or with an exception. */
  datatype Outcome =
    | Packet(bytes: nat) | EmptyPacket
    | CannotRestart | RestartsDidNotHelp | Unrecoverable | StillOversized

  /** The number of device reads made so far and the filter's counters; `performed` is the number of
      calls of `wz_reset_board`. */
  datatype Tally = Tally(asked: nat, errors: nat, oversized: nat, resets: nat, performed: nat)

  predicate TooLarge(o: Outcome, size: nat) { o.Packet? && o.bytes > size }

  /** One packet read of which attempt number `tries` is about to be made. */
  function DmaRead(answers: nat -> Answer, tries: nat, c: Tally): (Outcome, Tally)
    requires tries < MAX_TRIES
    decreases MAX_TRIES - tries, c.asked
  {
    var next := c.(asked := c.asked + 1);
    var failed := next.(errors := c.errors + 1);
    match answers(c.asked)
    case Bytes(n) => (if n > 0 then Packet(n) else EmptyPacket, next)
    case OtherError => (Unrecoverable, failed)
    case Eio(restart) =>
      if restart != Restarted then (CannotRestart, failed)
      else if tries + 1 == MAX_TRIES then (RestartsDidNotHelp, failed)
      else DmaRead(answers, tries + 1, failed)
  }

  /** From the end of a packet read on: whether to return, to reset the board, and to read again. */
  function Skipping(answers: nat -> Answer, size: nat, skip: nat, reset: nat, read: (Outcome, Tally)): (Outcome, Tally)
    requires skip < SKIPS && reset <= MAX_RESETS
    decreases MAX_RESETS - reset, SKIPS - skip, read.1.asked
  {
    var c := read.1.(oversized := read.1.oversized + 1);
    var counted := c.(resets := c.resets + 1);
    if !TooLarge(read.0, size) then read
    else if skip + 1 < SKIPS then Skipping(answers, size, skip + 1, reset, DmaRead(answers, 1, c))
    else if reset + 1 > MAX_RESETS then (StillOversized, counted)
    else Skipping(answers, size, 0, reset + 1, DmaRead(answers, 1, counted.(performed := c.performed + 1)))
  }

  class WzDmaReader {
    const answers: nat -> Answer
    var asked: nat
    var nbDmaErrors: nat
    var nbDmaOversizedPackets: nat
    var nbBoardResets: nat
    ghost var performed: nat

    constructor (answers: nat -> Answer)
      ensures this.answers == answers && Counters() == Tally(0, 0, 0, 0, 0)
    {
      this.answers := answers;
      asked, nbDmaErrors, nbDmaOversizedPackets, nbBoardResets, performed := 0, 0, 0, 0, 0;
    }

    ghost function Counters(): Tally
      reads this
    {
      Tally(asked, nbDmaErrors, nbDmaOversizedPackets, nbBoardResets, performed)
    }

    /** `wz_read_start`, restarted and repeated on EIO. */
    method ReadPacketFromDma() returns (outcome: Outcome)
      modifies this
      ensures (outcome, Counters()) == DmaRead(answers, 1, old(Counters()))
    {
      var tries: nat := 1;
      while true
        invariant tries < MAX_TRIES
        invariant DmaRead(answers, tries, Counters()) == DmaRead(answers, 1, old(Counters()))
        decreases MAX_TRIES - tries
      {
        var answer := answers(asked);
        asked := asked + 1;
        if !answer.Bytes? {
          nbDmaErrors := nbDmaErrors + 1;
          if answer.Eio? {
            if answer.restart != Restarted {
              return CannotRestart;
            }
            tries := tries + 1;
            if tries == MAX_TRIES {
              return RestartsDidNotHelp;
            }
            continue;
          }
          return Unrecoverable;
        }
        return if answer.count > 0 then Packet(answer.count) else EmptyPacket;
      }
    }

    method ResetBoard()
      modifies this`performed
      ensures performed == old(performed) + 1
    {
      performed := performed + 1;
    }

    method ReadPacket(size: nat) returns (outcome: Outcome)
      modifies this
      ensures (outcome, Counters()) == ReadPacketIs(answers, size, old(Counters()))
    {
      hide DmaRead;
      var skip: nat, reset: nat := 0, 0;
      outcome := ReadPacketFromDma();
      while TooLarge(outcome, size)
        invariant skip < SKIPS && reset <= MAX_RESETS
        invariant Skipping(answers, size, skip, reset, (outcome, Counters()))
               == ReadPacketIs(answers, size, old(Counters()))
        decreases MAX_RESETS - reset, SKIPS - skip, if TooLarge(outcome, size) then 1 else 0
      {
        nbDmaOversizedPackets := nbDmaOversizedPackets + 1;
        skip := skip + 1;
        if skip >= SKIPS {
          reset := reset + 1;
          nbBoardResets := nbBoardResets + 1;
          if reset > MAX_RESETS {
            return StillOversized;
          }
          ResetBoard();
          skip := 0;
        }
        outcome := ReadPacketFromDma();
      }
    }
  }

  /** A whole call. */
  function ReadPacketIs(answers: nat -> Answer, size: nat, c: Tally): (Outcome, Tally) {
    Skipping(answers, size, 0, 0, DmaRead(answers, 1, c))
  }

  // ---- One packet read ----------------------------------------------------------------------------

  /** The attempts `from` to `to` all fail with EIO and the device restarts after each. */
  ghost predicate Restarts(answers: nat -> Answer, from: nat, to: nat) {
    forall i :: from <= i < to ==> answers(i) == Eio(Restarted)
  }

  /** What the attempt after the last restart makes of the read. */
  function Verdict(answer: Answer): Outcome {
    match answer
    case Bytes(n) => if n > 0 then Packet(n) else EmptyPacket
    case OtherError => Unrecoverable
    case Eio(restart) => if restart == Restarted then RestartsDidNotHelp else CannotRestart
  }

  /** A packet read makes at most nine attempts. It ends at the first answer that is not an EIO with a
      successful restart, or with the ninth such EIO; every attempt but an answered one is an error. */
  lemma {:induction false} DmaReadEnds(answers: nat -> Answer, tries: nat, c: Tally)
    requires tries < MAX_TRIES
    ensures var r := DmaRead(answers, tries, c); var last := r.1.asked - 1;
      && c.asked <= last < c.asked + MAX_TRIES - tries
      && Restarts(answers, c.asked, last)
      && (answers(last) == Eio(Restarted) ==> last + 1 == c.asked + MAX_TRIES - tries)
      && r.0 == Verdict(answers(last))
      && r.1 == c.(asked := last + 1, errors := c.errors + (last - c.asked) + (if answers(last).Bytes? then 0 else 1))
    decreases MAX_TRIES - tries
  {
    if answers(c.asked) != Eio(Restarted) || tries + 1 >= MAX_TRIES {
    } else {
      DmaReadEnds(answers, tries + 1, c.(asked := c.asked + 1, errors := c.errors + 1));
    }
  }

  /** A packet of n bytes comes out exactly when one of the first nine answers is n bytes and all the
      answers before it are EIO with a successful restart. */
  lemma PacketExactlyWhen(answers: nat -> Answer, c: Tally, n: nat)
    ensures DmaRead(answers, 1, c).0 == Packet(n) <==>
            n > 0 && exists p: nat ::
              c.asked <= p < c.asked + 9 && Restarts(answers, c.asked, p) && answers(p) == Bytes(n)
  {
    hide DmaRead;
    DmaReadEnds(answers, 1, c);
    var last := DmaRead(answers, 1, c).1.asked - 1;
    forall p: nat | c.asked <= p < c.asked + 9 && Restarts(answers, c.asked, p) && answers(p) == Bytes(n)
      ensures last == p
    {
    }
  }

  /** How a packet read fails: with an empty packet or an unrecoverable error as the first answer after
      some restarts, with a device that cannot be restarted, or with the ninth restart in a row. */
  lemma FailureExactlyWhen(answers: nat -> Answer, c: Tally)
    ensures var o := DmaRead(answers, 1, c).0;
      && (o == EmptyPacket <==> exists p: nat :: p < c.asked + 9 && Decides(answers, c.asked, p, Bytes(0)))
      && (o == Unrecoverable <==> exists p: nat :: p < c.asked + 9 && Decides(answers, c.asked, p, OtherError))
      && (o == CannotRestart <==>
            ((exists p: nat :: p < c.asked + 9 && Decides(answers, c.asked, p, Eio(InitFails)))
             || exists p: nat :: p < c.asked + 9 && Decides(answers, c.asked, p, Eio(StartFails))))
      && (o == RestartsDidNotHelp <==> Restarts(answers, c.asked, c.asked + 9))
  {
    hide DmaRead;
    DmaReadEnds(answers, 1, c);
    var last := DmaRead(answers, 1, c).1.asked - 1;
    assert Decides(answers, c.asked, last, answers(last));
    forall p: nat, a: Answer | p < c.asked + 9 && Decides(answers, c.asked, p, a) && a != Eio(Restarted)
      ensures p == last && a == answers(last)
    {
    }
  }

  /** The answer at `p` is the first from `from` on that is not an EIO with a successful restart, or is one
      after only such. */
  ghost predicate Decides(answers: nat -> Answer, from: nat, p: nat, a: Answer) {
    from <= p && Restarts(answers, from, p) && answers(p) == a
  }

  // ---- A whole call -------------------------------------------------------------------------------

  /** The number of device reads made after `k` packet reads, and how read number `k` ends. */
  function After(answers: nat -> Answer, at: nat, k: nat): nat
    decreases k
  {
    if k == 0 then at else DmaRead(answers, 1, Tally(After(answers, at, k - 1), 0, 0, 0, 0)).1.asked
  }

  function Read(answers: nat -> Answer, at: nat, k: nat): Outcome {
    DmaRead(answers, 1, Tally(After(answers, at, k), 0, 0, 0, 0)).0
  }

  ghost predicate FirstTooLarge(answers: nat -> Answer, at: nat, size: nat, k: nat) {
    forall i :: 0 <= i < k ==> TooLarge(Read(answers, at, i), size)
  }

  /** How a call ends, from its first answer on: with the first packet read that is not too large, or
      with the 1100th that is; what the counters show then. */
  ghost predicate Ends(answers: nat -> Answer, size: nat, c: Tally, r: (Outcome, Tally)) {
    var k := r.1.oversized - c.oversized;
    && 0 <= k <= MAX_READS && FirstTooLarge(answers, c.asked, size, k)
    && (k < MAX_READS ==>
          && r.0 == Read(answers, c.asked, k) && !TooLarge(r.0, size) && r.1.asked == After(answers, c.asked, k + 1)
          && r.1.resets == c.resets + k / SKIPS && r.1.performed == c.performed + k / SKIPS)
    && (k == MAX_READS ==>
          && r.0 == StillOversized && r.1.asked == After(answers, c.asked, k)
          && r.1.resets == c.resets + MAX_RESETS + 1 && r.1.performed == c.performed + MAX_RESETS)
  }

  lemma {:induction false} OnlyAskedMatters(answers: nat -> Answer, tries: nat, c: Tally, d: Tally)
    requires tries < MAX_TRIES && c.asked == d.asked
    ensures var r, s := DmaRead(answers, tries, c), DmaRead(answers, tries, d);
            r.0 == s.0 && r.1.asked == s.1.asked
            && r.1.oversized == c.oversized && r.1.resets == c.resets && r.1.performed == c.performed
    decreases MAX_TRIES - tries
  {
    if answers(c.asked) != Eio(Restarted) || tries + 1 >= MAX_TRIES {
    } else {
      OnlyAskedMatters(answers, tries + 1, c.(asked := c.asked + 1, errors := c.errors + 1),
                       d.(asked := d.asked + 1, errors := d.errors + 1));
    }
  }

  /** The same for read number `k`, whatever the counters show when it begins. */
  lemma ReadFrom(answers: nat -> Answer, at: nat, k: nat, c: Tally)
    requires c.asked == After(answers, at, k)
    ensures var r := DmaRead(answers, 1, c);
            r.0 == Read(answers, at, k) && r.1.asked == After(answers, at, k + 1)
            && r.1.oversized == c.oversized && r.1.resets == c.resets && r.1.performed == c.performed
  {
    hide DmaRead;
    OnlyAskedMatters(answers, 1, c, Tally(After(answers, at, k), 0, 0, 0, 0));
  }

  lemma {:induction false} SkippingEnds(answers: nat -> Answer, size: nat, skip: nat, reset: nat, c: Tally,
                                        read: (Outcome, Tally))
    requires skip < SKIPS && reset <= MAX_RESETS
    requires var k := SKIPS * reset + skip;
      && FirstTooLarge(answers, c.asked, size, k) && read.0 == Read(answers, c.asked, k)
      && read.1.asked == After(answers, c.asked, k + 1) && read.1.oversized == c.oversized + k
      && read.1.resets == c.resets + reset && read.1.performed == c.performed + reset
    ensures Ends(answers, size, c, Skipping(answers, size, skip, reset, read))
    decreases MAX_RESETS - reset, SKIPS - skip
  {
    hide DmaRead, Read, After;
    var k := SKIPS * reset + skip;
    var d := read.1.(oversized := read.1.oversized + 1);
    if !TooLarge(read.0, size) {
    } else {
      if skip + 1 < SKIPS {
        ReadFrom(answers, c.asked, k + 1, d);
        SkippingEnds(answers, size, skip + 1, reset, c, DmaRead(answers, 1, d));
      } else if reset + 1 <= MAX_RESETS {
        var e := d.(resets := d.resets + 1, performed := d.performed + 1);
        ReadFrom(answers, c.asked, k + 1, e);
        SkippingEnds(answers, size, 0, reset + 1, c, DmaRead(answers, 1, e));
      }
    }
  }

  lemma ReadPacketEnds(answers: nat -> Answer, size: nat, c: Tally)
    ensures Ends(answers, size, c, ReadPacketIs(answers, size, c))
  {
    hide DmaRead, Skipping, Read;
    ReadFrom(answers, c.asked, 0, c);
    SkippingEnds(answers, size, 0, 0, c, DmaRead(answers, 1, c));
  }

  lemma {:induction false} AttemptsBound(answers: nat -> Answer, at: nat, k: nat)
    ensures at + k <= After(answers, at, k) <= at + 9 * k
    decreases k
  {
    if k == 0 {
    } else {
      hide DmaRead;
      AttemptsBound(answers, at, k - 1);
      DmaReadEnds(answers, 1, Tally(After(answers, at, k - 1), 0, 0, 0, 0));
    }
  }

  /** A call makes at most 1100 packet reads: it ends where the last of them does. They take at most 9900
      device reads, and there are at most 10 board resets. */
  lemma RetriesAreBounded(answers: nat -> Answer, size: nat, c: Tally)
    ensures var r := ReadPacketIs(answers, size, c);
            var made := if r.1.oversized - c.oversized >= 1100 then 1100 else r.1.oversized - c.oversized + 1;
      && 1 <= made <= 1100 && r.1.asked == After(answers, c.asked, made)
      && c.asked < r.1.asked <= c.asked + 9900
      && c.performed <= r.1.performed <= c.performed + 10
  {
    hide ReadPacketIs, Read, After, FirstTooLarge;
    ReadPacketEnds(answers, size, c);
    var k := ReadPacketIs(answers, size, c).1.oversized - c.oversized;
    AttemptsBound(answers, c.asked, k);
    AttemptsBound(answers, c.asked, k + 1);
  }

  /** On normal return the packet fits, and the two counters have advanced in step. */
  lemma CountersAdvanceInStep(answers: nat -> Answer, size: nat, c: Tally)
    requires ReadPacketIs(answers, size, c).0.Packet?
    ensures var r := ReadPacketIs(answers, size, c);
      && 0 < r.0.bytes <= size
      && 0 <= (r.1.oversized - c.oversized) - 100 * (r.1.resets - c.resets) < 100
      && r.1.performed - c.performed == r.1.resets - c.resets
  {
    hide ReadPacketIs, After, FirstTooLarge;
    ReadPacketEnds(answers, size, c);
    var k := ReadPacketIs(answers, size, c).1.oversized - c.oversized;
    DmaReadEnds(answers, 1, Tally(After(answers, c.asked, k), 0, 0, 0, 0));
  }

  lemma NeverStillOversized(answers: nat -> Answer, at: nat, k: nat)
    ensures Read(answers, at, k) != StillOversized
  {
    hide DmaRead;
    DmaReadEnds(answers, 1, Tally(After(answers, at, k), 0, 0, 0, 0));
  }

  /** A call returns exactly when one of the first 1100 packet reads returns a packet that fits after
      only oversized ones; it then returns that packet. It gives up on exactly 1100 oversized ones. */
  lemma ReturnsExactlyWhen(answers: nat -> Answer, size: nat, c: Tally, n: nat)
    ensures ReadPacketIs(answers, size, c).0 == Packet(n) <==>
            n <= size && exists k: nat ::
              k < 1100 && FirstTooLarge(answers, c.asked, size, k) && Read(answers, c.asked, k) == Packet(n)
    ensures ReadPacketIs(answers, size, c).0 == StillOversized <==> FirstTooLarge(answers, c.asked, size, 1100)
  {
    hide ReadPacketIs, After, Read, DmaRead;
    ReadPacketEnds(answers, size, c);
    var r := ReadPacketIs(answers, size, c);
    var k := r.1.oversized - c.oversized;
    if k < MAX_READS {
      NeverStillOversized(answers, c.asked, k);
      assert !TooLarge(Read(answers, c.asked, k), size);
    }
    forall j: nat | j < 1100 && FirstTooLarge(answers, c.asked, size, j) && Read(answers, c.asked, j) == Packet(n)
                    && n <= size
      ensures j == k
    {
    }
  }
}
