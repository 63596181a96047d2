/** Reading packets back from a file (src/FileDmaInputFilter.cc): lines of 32 bytes up to a line that
    begins with the marker, starting over when the file ends between packets. */
module Framing {
  import opened Basics

  const LINE := 32

  /** 0xdeadbeefdeadbeef as it stands in memory, least significant byte first. */
  const MARKER: seq<Byte> := [0xef, 0xbe, 0xad, 0xde, 0xef, 0xbe, 0xad, 0xde]

  predicate Marked(line: seq<Byte>) { MARKER <= line }

  /** How one call ends. Spins: the file is empty, and the loop seeks to its beginning forever.
      NoEnd: an earlier call already met the end of the file. StillOversized: skipping did not help. */
  datatype Outcome = Packet | EndsPrematurely(missing: nat) | NoEnd | TooBig | Spins | StillOversized

  datatype Got = Got(outcome: Outcome, bytes: seq<Byte>, pos: nat)

  /** The rest of a packet of which `soFar` is read, for a buffer of `size` bytes. */
  function Lines(file: seq<Byte>, pos: nat, size: nat, soFar: seq<Byte>): (g: Got)
    requires pos <= |file|
    ensures g.pos <= |file| && !g.outcome.StillOversized?
    decreases |file| - pos
  {
    if |soFar| >= size then Got(TooBig, soFar, pos)
    else if pos + LINE > |file| then Got(EndsPrematurely(pos + LINE - |file|), soFar, |file|)
    else
      var line := file[pos..pos + LINE];
      if Marked(line) then Got(Packet, soFar + line, pos + LINE) else Lines(file, pos + LINE, size, soFar + line)
  }

  /** One call that starts at `pos`: at the end of the file it starts over. */
  function ReadAt(file: seq<Byte>, pos: nat, size: nat): (g: Got)
    requires pos <= |file|
    ensures g.pos <= |file| && !g.outcome.StillOversized?
  {
    if size == 0 then Got(TooBig, [], pos)
    else if file == [] then Got(Spins, [], 0)
    else Lines(file, if pos == |file| then 0 else pos, size, [])
  }

  lemma {:induction false} PacketFits(file: seq<Byte>, pos: nat, size: nat, soFar: seq<Byte>)
    requires pos <= |file| && |soFar| % LINE == 0 && Lines(file, pos, size, soFar).outcome.Packet?
    ensures |Lines(file, pos, size, soFar).bytes| < size + LINE && |Lines(file, pos, size, soFar).bytes| % LINE == 0
    decreases |file| - pos
  {
    var line := file[pos..pos + LINE];
    if Marked(line) {
    } else {
      PacketFits(file, pos + LINE, size, soFar + line);
    }
  }

  /** With a buffer of whole lines no packet is ever reported larger than the buffer. */
  lemma NeverOversized(file: seq<Byte>, pos: nat, size: nat)
    requires pos <= |file| && size % 32 == 0 && ReadAt(file, pos, size).outcome.Packet?
    ensures |ReadAt(file, pos, size).bytes| <= size
  {
    PacketFits(file, if pos == |file| then 0 else pos, size, []);
  }

  lemma LinesStep(file: seq<Byte>, pos: nat, size: nat, soFar: seq<Byte>)
    requires pos + LINE <= |file| && |soFar| < size
    ensures var line := file[pos..pos + LINE];
            Lines(file, pos, size, soFar) ==
            if Marked(line) then Got(Packet, soFar + line, pos + LINE) else Lines(file, pos + LINE, size, soFar + line)
  {}

  lemma LinesEnd(file: seq<Byte>, pos: nat, size: nat, soFar: seq<Byte>)
    requires pos <= |file| && (|soFar| >= size || pos + LINE > |file|)
    ensures Lines(file, pos, size, soFar) ==
            if |soFar| >= size then Got(TooBig, soFar, pos)
            else Got(EndsPrematurely(pos + LINE - |file|), soFar, |file|)
  {}

  // ---- How a packet read ends ------------------------------------------------------------------------

  function LittleEndian(bytes: seq<Byte>): nat {
    if bytes == [] then 0 else bytes[0] as nat + 256 * LittleEndian(bytes[1..])
  }

  /** The marker is the number that the original compares with, in the order of its bytes in memory. */
  lemma MarkerIs()
    ensures |MARKER| == 8 && LittleEndian(MARKER) == 0xdead_beef_dead_beef
  {
    FourBytes([]);
    FourBytes([0xef, 0xbe, 0xad, 0xde]);
    assert MARKER == [0xef, 0xbe, 0xad, 0xde] + [0xef, 0xbe, 0xad, 0xde];
    assert [0xef, 0xbe, 0xad, 0xde] + [] == [0xef as Byte, 0xbe, 0xad, 0xde];
  }

  lemma FourBytes(rest: seq<Byte>)
    ensures LittleEndian([0xef, 0xbe, 0xad, 0xde] + rest) == 0xdead_beef + 0x1_0000_0000 * LittleEndian(rest)
  {
    var b0: seq<Byte> := [0xef, 0xbe, 0xad, 0xde] + rest;
    var b1, b2, b3 := b0[1..], b0[2..], b0[3..];
    assert b0[1..] == b1 && b1[1..] == b2 && b2[1..] == b3 && b3[1..] == rest;
    assert LittleEndian(b3) == 0xde + 256 * LittleEndian(rest);
    assert LittleEndian(b2) == 0xad + 256 * LittleEndian(b3);
    assert LittleEndian(b1) == 0xbe + 256 * LittleEndian(b2);
  }

  /** The `n` lines from `pos` on are in the file and have no marker. */
  ghost predicate Plain(file: seq<Byte>, pos: nat, n: nat) {
    && pos + LINE * n <= |file|
    && forall t :: 0 <= t < n ==> !Marked(file[pos + LINE * t..pos + LINE * t + LINE])
  }

  lemma PlainStep(file: seq<Byte>, pos: nat, n: nat)
    requires pos + LINE <= |file| && !Marked(file[pos..pos + LINE]) && Plain(file, pos + LINE, n)
    ensures Plain(file, pos, n + 1)
  {
    hide Marked;
    forall t | 0 <= t < n + 1 ensures !Marked(file[pos + LINE * t..pos + LINE * t + LINE]) {
      if t > 0 {
        assert !Marked(file[pos + LINE + LINE * (t - 1)..pos + LINE + LINE * (t - 1) + LINE]);
      }
    }
  }

  /** How a read of lines ends after `t` plain lines: with a marked one as the buffer is not full before it,
      with a full buffer, or with a file that has no whole line left. */
  ghost predicate EndsAfter(file: seq<Byte>, pos: nat, size: nat, soFar: seq<Byte>, g: Got, t: nat)
    requires pos <= |file|
  {
    && Plain(file, pos, t)
    && var at, read := pos + LINE * t, |soFar| + LINE * t;
       match g.outcome
       case Packet =>
         read < size && at + LINE <= |file| && Marked(file[at..at + LINE])
         && g.bytes == soFar + file[pos..at + LINE] && g.pos == at + LINE
       case TooBig => size <= read < size + LINE && g.bytes == soFar + file[pos..at] && g.pos == at
       case EndsPrematurely(missing) =>
         read < size && at + LINE == |file| + missing && missing > 0
         && g.bytes == soFar + file[pos..at] && g.pos == |file|
       case _ => false
  }

  lemma {:induction false} LinesEndAfter(file: seq<Byte>, pos: nat, size: nat, soFar: seq<Byte>) returns (t: nat)
    requires pos <= |file| && |soFar| < size + LINE
    ensures EndsAfter(file, pos, size, soFar, Lines(file, pos, size, soFar), t)
    decreases |file| - pos
  {
    hide Marked;
    t := 0;
    assert file[pos..pos] == [] && soFar + [] == soFar;
    if |soFar| < size && pos + LINE <= |file| && !Marked(file[pos..pos + LINE]) {
      var line := file[pos..pos + LINE];
      var later := LinesEndAfter(file, pos + LINE, size, soFar + line);
      PlainStep(file, pos, later);
      t := later + 1;
      Joins(file, pos, pos + LINE + LINE * later, soFar);
      if pos + LINE * t + LINE <= |file| {
        Joins(file, pos, pos + LINE * t + LINE, soFar);
      }
    }
  }

  lemma Joins(file: seq<Byte>, pos: nat, at: nat, soFar: seq<Byte>)
    requires pos + LINE <= at <= |file|
    ensures (soFar + file[pos..pos + LINE]) + file[pos + LINE..at] == soFar + file[pos..at]
  {
    assert file[pos..pos + LINE] + file[pos + LINE..at] == file[pos..at];
  }

  /** How a packet read ends, from the bytes of the file alone: the number `t` of plain lines decides. */
  lemma ReadEndsAfter(file: seq<Byte>, pos: nat, size: nat) returns (t: nat)
    requires pos <= |file|
    ensures var start, g := if pos == |file| then 0 else pos, ReadAt(file, pos, size);
      && (size == 0 ==> g == Got(TooBig, [], pos))
      && (size > 0 && file == [] ==> g == Got(Spins, [], 0))
      && (size > 0 && file != [] ==> EndsAfter(file, start, size, [], g, t))
  {
    t := 0;
    if size > 0 && file != [] {
      t := LinesEndAfter(file, if pos == |file| then 0 else pos, size, []);
    }
  }

  // ---- Writing beyond the buffer -------------------------------------------------------------------

  /** How many bytes the reads of a call put into memory from the beginning of the buffer on. */
  function Written(g: Got): int {
    match g.outcome
    case Packet => |g.bytes|
    case TooBig => |g.bytes|
    case EndsPrematurely(missing) => |g.bytes| + LINE - missing
    case _ => 0
  }

  /** From `pos` on the file has only lines without the marker as far as whole lines fit into `room` bytes,
      and then more bytes than there is room for, but room for some. */
  ghost predicate RunsPast(file: seq<Byte>, pos: nat, room: nat) {
    && room % LINE != 0
    && pos + LINE * (room / LINE) + room % LINE < |file|
    && forall t :: 0 <= t < room / LINE ==> !Marked(file[pos + LINE * t..pos + LINE * t + LINE])
  }

  lemma RunsPastStep(file: seq<Byte>, pos: nat, room: nat)
    requires room >= LINE
    ensures RunsPast(file, pos, room) <==>
            pos + LINE <= |file| && !Marked(file[pos..pos + LINE]) && RunsPast(file, pos + LINE, room - LINE)
  {
    hide Marked;
    assert (room - LINE) / LINE == room / LINE - 1 && (room - LINE) % LINE == room % LINE;
    if RunsPast(file, pos, room) {
      assert !Marked(file[pos + LINE * 0..pos + LINE * 0 + LINE]);
      forall t | 0 <= t < room / LINE - 1
        ensures !Marked(file[pos + LINE + LINE * t..pos + LINE + LINE * t + LINE])
      {
        assert !Marked(file[pos + LINE * (t + 1)..pos + LINE * (t + 1) + LINE]);
      }
    } else if pos + LINE <= |file| && !Marked(file[pos..pos + LINE]) && RunsPast(file, pos + LINE, room - LINE) {
      forall t | 0 <= t < room / LINE ensures !Marked(file[pos + LINE * t..pos + LINE * t + LINE]) {
        if t > 0 {
          assert !Marked(file[pos + LINE + LINE * (t - 1)..pos + LINE + LINE * (t - 1) + LINE]);
        }
      }
    }
  }

  lemma {:induction false} LinesRunPast(file: seq<Byte>, pos: nat, size: nat, soFar: seq<Byte>)
    requires pos <= |file| && |soFar| <= size
    ensures Written(Lines(file, pos, size, soFar)) > size <==> RunsPast(file, pos, size - |soFar|)
    decreases |file| - pos
  {
    hide Marked;
    var room := size - |soFar|;
    if room == 0 {
    } else if pos + LINE > |file| {
      if room >= LINE {
        RunsPastStep(file, pos, room);
      }
    } else {
      var line := file[pos..pos + LINE];
      LinesStep(file, pos, size, soFar);
      if room >= LINE {
        RunsPastStep(file, pos, room);
        if !Marked(line) {
          LinesRunPast(file, pos + LINE, size, soFar + line);
        }
      } else if !Marked(line) {
        LinesEnd(file, pos + LINE, size, soFar + line);
      }
    }
  }

  /** A call writes beyond a buffer of `size` bytes exactly when this is no whole number of lines, no line
      that fits as a whole has the marker, and the file goes on for longer than the rest of the buffer. */
  lemma OverrunsExactlyWhen(file: seq<Byte>, pos: nat, size: nat)
    requires pos <= |file|
    ensures Written(ReadAt(file, pos, size)) > size <==> RunsPast(file, if pos == |file| then 0 else pos, size)
  {
    if size > 0 && file != [] {
      LinesRunPast(file, if pos == |file| then 0 else pos, size, []);
    }
  }

  // ---- Whole calls ---------------------------------------------------------------------------------

  /** What a call makes of a packet read, `skip` packets being skipped already: an oversized packet is
      skipped, the hundredth ends it. Second component: the packets skipped in the end. */
  function FromRead(file: seq<Byte>, g: Got, size: nat, skip: nat): (r: (Got, nat))
    requires g.pos <= |file| && skip < 100
    ensures r.0.pos <= |file|
    decreases 100 - skip, 0
  {
    if !(g.outcome.Packet? && |g.bytes| > size) then (g, skip)
    else if skip + 1 >= 100 then (g.(outcome := StillOversized), skip + 1)
    else FirstFitting(file, g.pos, size, skip + 1)
  }

  function FirstFitting(file: seq<Byte>, pos: nat, size: nat, skip: nat): (r: (Got, nat))
    requires pos <= |file| && skip < 100
    ensures r.0.pos <= |file|
    decreases 100 - skip, 1
  {
    FromRead(file, ReadAt(file, pos, size), size, skip)
  }

  /** A returned packet fits, and fewer than a hundred were skipped before it; a hundred end the call. */
  lemma {:induction false} FirstFittingFits(file: seq<Byte>, pos: nat, size: nat, skip: nat)
    requires pos <= |file| && skip < 100
    ensures var (g, skipped) := FirstFitting(file, pos, size, skip);
      && skip <= skipped <= 100
      && (g.outcome.Packet? ==> |g.bytes| <= size && skipped < 100)
      && (g.outcome.StillOversized? <==> skipped == 100)
    decreases 100 - skip
  {
    var g := ReadAt(file, pos, size);
    if !(g.outcome.Packet? && |g.bytes| > size) || skip + 1 >= 100 {
    } else {
      FirstFittingFits(file, g.pos, size, skip + 1);
    }
  }

  /** Nothing is skipped exactly when the next packet is not too large; for a buffer of whole lines that
      is always so. The call then is a single packet read. */
  lemma NothingSkippedExactlyWhen(file: seq<Byte>, pos: nat, size: nat)
    requires pos <= |file|
    ensures var g := ReadAt(file, pos, size);
      && (FirstFitting(file, pos, size, 0) == (g, 0) <==> !(g.outcome.Packet? && |g.bytes| > size))
      && (size % LINE == 0 ==> FirstFitting(file, pos, size, 0) == (g, 0))
  {
    var g := ReadAt(file, pos, size);
    if g.outcome.Packet? && size % LINE == 0 {
      NeverOversized(file, pos, size);
    }
    if g.outcome.Packet? && |g.bytes| > size {
      FirstFittingFits(file, g.pos, size, 1);
    }
  }

  class FileReader {
    const file: seq<Byte>
    var pos: nat
    var eof: bool
    var nbOversizedPackets: nat

    ghost predicate Valid()
      reads this
    {
      pos <= |file|
    }

    constructor (file: seq<Byte>)
      ensures Valid() && this.file == file && pos == 0 && !eof && nbOversizedPackets == 0
    {
      this.file, pos, eof, nbOversizedPackets := file, 0, false, 0;
    }

    /** fread of one line to position `at` of the buffer. What lies beyond the buffer takes the rest. */
    method Fread(buffer: array<Byte>, at: nat) returns (line: seq<Byte>)
      requires Valid() && at < buffer.Length
      modifies this`pos, this`eof, buffer
      ensures Valid() && pos == old(pos) + |line| && line == file[old(pos)..pos]
      ensures |line| == (if old(pos) + LINE <= |file| then LINE else |file| - old(pos))
      ensures eof == (old(eof) || |line| < LINE)
      ensures forall i :: 0 <= i < at ==> buffer[i] == old(buffer[i])
      ensures forall i :: at <= i < Min(at + |line|, buffer.Length) ==> buffer[i] == line[i - at]
    {
      line := if pos + LINE <= |file| then file[pos..pos + LINE] else file[pos..];
      forall i | at <= i < Min(at + |line|, buffer.Length) {
        buffer[i] := line[i - at];
      }
      pos := pos + |line|;
      eof := eof || |line| < LINE;
    }

    /** The beginning of `bytes` stands in the buffer, all of it if it fits. */
    ghost predicate InBuffer(buffer: array<Byte>, bytes: seq<Byte>)
      reads buffer
    {
      forall i :: 0 <= i < Min(|bytes|, buffer.Length) ==> buffer[i] == bytes[i]
    }

    /** `overrun` tells whether a byte was written beyond the buffer. */
    method ReadDmaPacket(buffer: array<Byte>) returns (outcome: Outcome, bytesRead: nat, overrun: bool)
      requires Valid()
      modifies this`pos, this`eof, buffer
      ensures Valid()
      ensures !outcome.StillOversized?
      ensures old(eof) ==> outcome == NoEnd && pos == old(pos) && eof && !overrun
      ensures !old(eof) ==>
                var g := ReadAt(file, old(pos), buffer.Length);
                && outcome == g.outcome && pos == g.pos && eof == (outcome.EndsPrematurely? || outcome.Spins?)
                && (overrun <==> Written(g) > buffer.Length)
                && (outcome.Packet? ==> bytesRead == |g.bytes| && InBuffer(buffer, g.bytes))
    {
      hide Lines, Marked;
      var size := buffer.Length;
      bytesRead, overrun := 0, false;
      if eof {
        return NoEnd, 0, false;
      }
      ghost var soFar: seq<Byte> := [];
      while bytesRead < size
        invariant Valid() && !eof && bytesRead == |soFar| && InBuffer(buffer, soFar)
        invariant overrun <==> bytesRead > size
        invariant bytesRead == 0 ==> pos == old(pos) || (pos == 0 && old(pos) == |file| && file != [])
        invariant size == 0 ==> pos == old(pos)
        invariant bytesRead > 0 || (0 < size && pos < |file|) ==>
                    Lines(file, pos, size, soFar) == ReadAt(file, old(pos), size)
        decreases if bytesRead == 0 && pos == |file| then 1 else 0, |file| - pos
      {
        ghost var at := pos;
        var line := Fread(buffer, bytesRead);
        if |line| != LINE {
          if |line| == 0 && bytesRead == 0 {
            if file == [] {
              return Spins, 0, false;
            }
            pos, eof := 0, false;
            continue;
          }
          LinesEnd(file, at, size, soFar);
          return EndsPrematurely(LINE - |line|), bytesRead, bytesRead + |line| > size;
        }
        LinesStep(file, at, size, soFar);
        soFar := soFar + line;
        bytesRead := bytesRead + LINE;
        overrun := bytesRead > size;
        if Marked(line) {
          return Packet, bytesRead, overrun;
        }
      }
      if bytesRead > 0 {
        LinesEnd(file, pos, size, soFar);
      }
      outcome := TooBig;
    }

    /** Packets reported larger than the buffer are skipped, a hundred at most. */
    method ReadPacket(buffer: array<Byte>) returns (outcome: Outcome, bytesRead: nat, overrun: bool)
      requires Valid()
      modifies this, buffer
      ensures Valid()
      ensures old(eof) ==> outcome == NoEnd && pos == old(pos) && nbOversizedPackets == old(nbOversizedPackets)
      ensures !old(eof) ==>
                var (g, skipped) := FirstFitting(file, old(pos), buffer.Length, 0);
                && outcome == g.outcome && pos == g.pos && eof == (outcome.EndsPrematurely? || outcome.Spins?)
                && nbOversizedPackets == old(nbOversizedPackets) + skipped
                && (outcome.Packet? ==> bytesRead == |g.bytes| && InBuffer(buffer, g.bytes))
      ensures !old(eof) ==> (overrun <==> Written(ReadAt(file, old(pos), buffer.Length)) > buffer.Length)
    {
      hide ReadAt;
      var skip := 0;
      outcome, bytesRead, overrun := ReadDmaPacket(buffer);
      ghost var g := if old(eof) then Got(NoEnd, [], pos) else ReadAt(file, old(pos), buffer.Length);
      ghost var first := g;
      while outcome.Packet? && bytesRead > buffer.Length
        invariant Valid() && skip < 100 && nbOversizedPackets == old(nbOversizedPackets) + skip
        invariant outcome == g.outcome && pos == g.pos && !outcome.StillOversized?
        invariant old(eof) ==> outcome == NoEnd && skip == 0 && pos == old(pos)
        invariant !old(eof) ==> eof == (outcome.EndsPrematurely? || outcome.Spins?)
        invariant !old(eof) ==> FirstFitting(file, old(pos), buffer.Length, 0) == FromRead(file, g, buffer.Length, skip)
        invariant !old(eof) ==> (overrun <==> Written(first) > buffer.Length)
        invariant outcome.Packet? && bytesRead > buffer.Length ==> overrun
        invariant outcome.Packet? ==> bytesRead == |g.bytes| && InBuffer(buffer, g.bytes)
        decreases 100 - skip
      {
        nbOversizedPackets := nbOversizedPackets + 1;
        skip := skip + 1;
        if skip >= 100 {
          return StillOversized, bytesRead, overrun;
        }
        g := ReadAt(file, pos, buffer.Length);
        var again;
        outcome, bytesRead, again := ReadDmaPacket(buffer);
      }
    }
  }

  // ---- Round trip over unbounded runs ---------------------------------------------------------------

  /** Whole lines, with the marker at the beginning of the last one only. */
  ghost predicate WellFormed(p: seq<Byte>) {
    && |p| > 0 && |p| % LINE == 0
    && forall t :: 0 <= t < |p| / LINE ==> (Marked(p[LINE * t..LINE * t + LINE]) <==> t == |p| / LINE - 1)
  }

  /** What `n` calls in a row return, and where the file then stands; None once a call fails. */
  function ReadMany(file: seq<Byte>, pos: nat, size: nat, n: nat): Option<(seq<seq<Byte>>, nat)>
    requires pos <= |file|
    decreases n
  {
    if n == 0 then Some(([], pos))
    else
      var g := FirstFitting(file, pos, size, 0).0;
      if !g.outcome.Packet? then None
      else match ReadMany(file, g.pos, size, n - 1)
        case None => None
        case Some(later) => Some(([g.bytes] + later.0, later.1))
  }

  /** Position of the i-th packet of a file. */
  function Offset(packets: seq<seq<Byte>>, i: nat): nat
    requires i <= |packets|
  {
    |Flatten(packets[..i])|
  }

  lemma PacketAt(packets: seq<seq<Byte>>, i: nat)
    requires i < |packets|
    ensures Offset(packets, i + 1) == Offset(packets, i) + |packets[i]| <= |Flatten(packets)|
    ensures Flatten(packets)[Offset(packets, i)..Offset(packets, i + 1)] == packets[i]
    ensures Offset(packets, |packets|) == |Flatten(packets)| && Offset(packets, 0) == 0
  {
    assert packets[..i + 1] == packets[..i] + [packets[i]];
    FlattenAppend(packets[..i], packets[i]);
    assert packets == packets[..i + 1] + packets[i + 1..];
    FlattenConcat(packets[..i + 1], packets[i + 1..]);
    assert packets[..|packets|] == packets;
  }

  lemma SliceOfSlice(file: seq<Byte>, a: nat, b: nat, lo: nat, hi: nat)
    requires a <= b <= |file| && lo <= hi <= b - a
    ensures file[a..b][lo..hi] == file[a + lo..a + hi]
  {
    var outer, inner := file[a..b][lo..hi], file[a + lo..a + hi];
    forall i | 0 <= i < hi - lo ensures outer[i] == inner[i] {
      assert file[a..b][lo + i] == file[a + lo + i];
    }
  }

  /** Line `t` of the packet, as part of the packet, of what is read so far, and of the file. */
  lemma LineOfPacket(file: seq<Byte>, start: nat, p: seq<Byte>, t: nat)
    requires WellFormed(p) && start + |p| <= |file| && file[start..start + |p|] == p && t < |p| / LINE
    ensures LINE * t + LINE <= |p|
    ensures file[start + LINE * t..start + LINE * t + LINE] == p[LINE * t..LINE * t + LINE]
    ensures p[..LINE * t] + p[LINE * t..LINE * t + LINE] == p[..LINE * t + LINE]
    ensures Marked(p[LINE * t..LINE * t + LINE]) <==> LINE * t + LINE == |p|
    ensures LINE * t + LINE < |p| ==> t + 1 < |p| / LINE
  {
    assert |p| == LINE * (|p| / LINE);
    assert t + 1 <= |p| / LINE;
    SliceOfSlice(file, start, start + |p|, LINE * t, LINE * t + LINE);
  }

  lemma {:induction false} LinesOfPacket(file: seq<Byte>, start: nat, p: seq<Byte>, size: nat, t: nat)
    requires WellFormed(p) && |p| <= size && start + |p| <= |file| && file[start..start + |p|] == p && t < |p| / LINE
    ensures LINE * t <= |p|
    ensures Lines(file, start + LINE * t, size, p[..LINE * t]) == Got(Packet, p, start + |p|)
    decreases |p| / LINE - t
  {
    hide Marked, Lines, WellFormed;
    LineOfPacket(file, start, p, t);
    LinesStep(file, start + LINE * t, size, p[..LINE * t]);
    if LINE * t + LINE < |p| {
      LinesOfPacket(file, start, p, size, t + 1);
      assert LINE * t + LINE == LINE * (t + 1);
    } else {
      assert p[..|p|] == p;
    }
  }

  ghost predicate GoodFile(packets: seq<seq<Byte>>, size: nat) {
    |packets| >= 1 && forall i :: 0 <= i < |packets| ==> WellFormed(packets[i]) && |packets[i]| <= size
  }

  lemma WholePacket(file: seq<Byte>, start: nat, p: seq<Byte>, size: nat)
    requires WellFormed(p) && |p| <= size && start + |p| <= |file| && file[start..start + |p|] == p
    ensures |p| > 0 && Lines(file, start, size, []) == Got(Packet, p, start + |p|)
  {
    assert 0 < |p| / LINE;
    assert p[..LINE * 0] == [];
    LinesOfPacket(file, start, p, size, 0);
  }

  lemma OneRead(packets: seq<seq<Byte>>, size: nat, i: nat)
    requires GoodFile(packets, size) && i <= |packets|
    ensures var j := if i == |packets| then 0 else i;
            Offset(packets, i) <= |Flatten(packets)| &&
            FirstFitting(Flatten(packets), Offset(packets, i), size, 0) == (Got(Packet, packets[j], Offset(packets,
                         j + 1)), 0)
  {
    hide *;
    NotEmpty(packets, size);
    PacketAt(packets, |packets| - 1);
    if i == |packets| {
      ReadOf(packets, size, 0);
    } else {
      ReadOf(packets, size, i);
    }
    ReadAtLines(Flatten(packets), Offset(packets, i), size);
    NothingSkippedExactlyWhen(Flatten(packets), Offset(packets, i), size);
  }

  lemma NotEmpty(packets: seq<seq<Byte>>, size: nat)
    requires GoodFile(packets, size)
    ensures packets != [] && size > 0
  {
    assert WellFormed(packets[0]) && |packets[0]| <= size;
  }

  /** From its first byte on every packet is read as a whole. */
  lemma ReadOf(packets: seq<seq<Byte>>, size: nat, j: nat)
    requires GoodFile(packets, size) && j < |packets|
    ensures Offset(packets, j) < |Flatten(packets)| && |packets[j]| <= size
    ensures Lines(Flatten(packets), Offset(packets, j), size, []) == Got(Packet, packets[j], Offset(packets, j + 1))
  {
    assert WellFormed(packets[j]) && |packets[j]| <= size;
    hide *;
    PacketAt(packets, j);
    WholePacket(Flatten(packets), Offset(packets, j), packets[j], size);
  }

  lemma ReadAtLines(file: seq<Byte>, pos: nat, size: nat)
    requires pos <= |file| && size > 0 && file != []
    ensures ReadAt(file, pos, size) == Lines(file, if pos == |file| then 0 else pos, size, [])
  {
    hide Lines;
  }

  /** The packet that follows packet position `i`, and the position after it. */
  function Turn(i: nat, k: nat): nat { if i >= k then 0 else i }

  /** `n` packets in turn from position `i` on. */
  function Cycle(packets: seq<seq<Byte>>, i: nat, n: nat): (ps: seq<seq<Byte>>)
    requires packets != []
    ensures |ps| == n
    decreases n
  {
    if n == 0 then [] else [packets[Turn(i, |packets|)]] + Cycle(packets, Turn(i, |packets|) + 1, n - 1)
  }

  lemma {:induction false} ReadsCycle(packets: seq<seq<Byte>>, size: nat, i: nat, n: nat)
    requires GoodFile(packets, size) && i <= |packets|
    ensures Offset(packets, i) <= |Flatten(packets)|
    ensures var r := ReadMany(Flatten(packets), Offset(packets, i), size, n);
            r.Some? && r.value.0 == Cycle(packets, i, n)
    decreases n
  {
    hide ReadAt, FirstFitting, Flatten, Offset, WellFormed;
    OneRead(packets, size, i);
    if n == 0 {
    } else {
      ReadsCycle(packets, size, Turn(i, |packets|) + 1, n - 1);
    }
  }

  lemma {:induction false} CycleIs(packets: seq<seq<Byte>>, i: nat, n: nat, m: nat)
    requires packets != [] && i <= |packets| && m < n
    ensures Cycle(packets, i, n)[m] == packets[(i + m) % |packets|]
    decreases n
  {
    Wraps(i, m, |packets|);
    if m == 0 {
    } else {
      CycleIs(packets, Turn(i, |packets|) + 1, n - 1, m - 1);
      assert Turn(i, |packets|) + 1 + (m - 1) == Turn(i, |packets|) + m;
    }
  }

  /** The n-th call on a file of well-formed packets returns packet n mod k, for ever, starting over
      at the end of the file. */
  lemma FramingRoundTrip(packets: seq<seq<Byte>>, size: nat, n: nat)
    requires GoodFile(packets, size)
    ensures var r := ReadMany(Flatten(packets), 0, size, n);
            r.Some? && |r.value.0| == n && forall m :: 0 <= m < n ==> r.value.0[m] == packets[m % |packets|]
  {
    hide *;
    NotEmpty(packets, size);
    PacketAt(packets, 0);
    ReadsCycle(packets, size, 0, n);
    forall m | 0 <= m < n ensures Cycle(packets, 0, n)[m] == packets[m % |packets|] {
      CycleIs(packets, 0, n, m);
    }
  }

  lemma Wraps(i: nat, m: nat, k: nat)
    requires k >= 1 && i <= k
    ensures var j := Turn(i, k); (j + m) % k == (i + m) % k && (m == 0 ==> (i + m) % k == j)
  {
    var j := Turn(i, k);
    if m == 0 {
      DivisionIs(j, k, 0, j);
    }
    if i == k {
      DivisionIs(k + m, k, m / k + 1, m % k);
    }
  }
}
