/** Packets of several orbits under the reformatting of src/processor.cc, which looks at the first orbit
    only; and three packets that show what goes wrong. */
module GmtPackets {
  import opened Basics
  import opened GmtFormat
  import opened GmtOrbit

  /** A packet of well-formed orbits, of `ns[i]` blocks each, closed by the packet trailer. */
  ghost predicate MultiOrbit(w: seq<Word>, orbits: seq<seq<Word>>, ns: seq<nat>, doZS: bool) {
    && orbits != [] && |ns| == |orbits|
    && (forall i :: 0 <= i < |orbits| ==> WellFormedOrbit(orbits[i], ns[i], doZS))
    && |w| == |Flatten(orbits)| + 8 && w[..|w| - 8] == Flatten(orbits) && w[|w| - 8] == DEADBEEF
  }

  /** Among the data, no word at a multiple of `d` looks like the packet trailer. */
  ghost predicate NoStrayMarker(w: seq<Word>, d: nat) {
    forall m: nat :: m >= 1 && m * d + 8 < |w| ==> w[m * d] != DEADBEEF
  }

  // ---- When the loop halts -------------------------------------------------------------------------

  /** Groups of 48 words in the orbits. */
  function Groups(ns: seq<nat>): nat { if ns == [] then 0 else Groups(ns[..|ns| - 1]) + ns[|ns| - 1] + 3 }

  lemma {:induction false} OrbitsAreGroups(orbits: seq<seq<Word>>, ns: seq<nat>)
    requires |ns| == |orbits| && forall i :: 0 <= i < |orbits| ==> |orbits[i]| == OrbitWords(ns[i])
    ensures |Flatten(orbits)| == 48 * Groups(ns)
    decreases |orbits|
  {
    if orbits == [] {
    } else {
      OrbitsAreGroups(orbits[..|orbits| - 1], ns[..|ns| - 1]);
    }
  }

  lemma FirstIsPrefix(orbits: seq<seq<Word>>)
    requires orbits != []
    ensures orbits[0] <= Flatten(orbits)
    ensures |Flatten(orbits)| == |orbits[0]| + |Flatten(orbits[1..])|
  {
    assert orbits == [orbits[0]] + orbits[1..];
    FlattenConcat([orbits[0]], orbits[1..]);
    assert [orbits[0]][..0] == [];
    assert Flatten([orbits[0]]) == orbits[0];
  }

  /** A multiple of the orbit length is not in the middle of the packet trailer. */
  lemma NotInsideTrailer(m: nat, n: nat, groups: nat)
    ensures !(48 * groups < m * OrbitWords(n) < 48 * groups + 8)
  {
    var k := m * (n + 3);
    assert m * OrbitWords(n) == 48 * k;
  }

  lemma DividesExactlyWhen(total: nat, d: nat)
    requires d > 0
    ensures total % d == 0 <==> total / d * d == total
    ensures forall m: nat :: m * d == total ==> total % d == 0 && m == total / d
  {
    assert total == d * (total / d) + total % d;
    forall m: nat | m * d == total ensures total % d == 0 && m == total / d {
      DivisionIs(total, d, m, 0);
    }
  }

  lemma MultiOrbitLands(w: seq<Word>, d: nat, total: nat, n: nat, groups: nat, m: nat)
    requires |w| == total + 8 && w[total] == DEADBEEF && NoStrayMarker(w, d)
    requires d == OrbitWords(n) && total == 48 * groups && total > 0
    ensures Lands(w, d, 0, m) <==> m * d == total
  {
    NotInsideTrailer(m, n, groups);
    if m == 0 {
      assert m * d == 0;
    }
  }

  lemma PassesOf(w: seq<Word>, d: nat, total: nat, n: nat, groups: nat)
    requires |w| == total + 8 && w[total] == DEADBEEF && NoStrayMarker(w, d)
    requires d == OrbitWords(n) && total == 48 * groups && total > 0
    ensures PassCount(w, d, 0) == Exactly(total, d)
  {
    hide Lands, PassCount, NoStrayMarker;
    LongOrbit(n);
    forall m: nat ensures Lands(w, d, 0, m) <==> m * d == total {
      MultiOrbitLands(w, d, total, n, groups, m);
    }
    HaltsExactlyWhen(w, d, 0);
    DividesExactlyWhen(total, d);
    if total % d == 0 {
      assert Lands(w, d, 0, total / d);
    }
  }

  lemma LongOrbit(n: nat)
    ensures OrbitWords(n) >= 144
  {}

  /** The quotient, if the division is exact. */
  function Exactly(total: nat, d: nat): Option<nat>
    requires d > 0
  {
    if total % d == 0 then Some(total / d) else None
  }

  /** A pass finds the orbit `o` of `n` blocks, and its records are what it writes. */
  ghost predicate ReadsOrbit(w: seq<Word>, o: seq<Word>, n: nat, doZS: bool) {
    && FindTrailer(w, 0) == Some(n) && |o| == OrbitWords(n)
    && CrossingsOf(w, n) == CrossingsOf(o, n) && |CrossingsOf(w, n)| == n
    && var rs := Records(w, 0, n, CrossingsOf(w, n), 0, doZS);
       |rs| == n && Decode(EncodeAll(rs)) == Some(rs)
       && forall k :: 0 <= k < n ==> rs[k] == Meaning(BlockAt(o, k), CrossingsOf(o, n)[k], doZS)
  }

  /** The loop comes to an end on a packet of well-formed orbits, none of whose words at the visited
      positions looks like a packet trailer, exactly when the length of the first orbit divides the
      length of all. It then made as many passes, and what it wrote are the records of the first orbit. */
  lemma MultiOrbitHaltsExactlyWhen(w: seq<Word>, orbits: seq<seq<Word>>, ns: seq<nat>, doZS: bool)
    requires MultiOrbit(w, orbits, ns, doZS) && NoStrayMarker(w, OrbitWords(ns[0]))
    ensures PassCount(w, OrbitWords(ns[0]), 0) == Exactly(|Flatten(orbits)|, OrbitWords(ns[0]))
    ensures ReadsOrbit(w, orbits[0], ns[0], doZS)
  {
    MultiOrbitParts(w, orbits, ns, doZS);
    hide *;
    LongOrbit(ns[0]);
    OrbitRead(w, orbits[0], ns[0], doZS);
    OrbitsAreGroups(orbits, ns);
    PassesOf(w, OrbitWords(ns[0]), |Flatten(orbits)|, ns[0], Groups(ns));
  }

  lemma OrbitRead(w: seq<Word>, o: seq<Word>, n: nat, doZS: bool)
    requires WellFormedOrbit(o, n, doZS) && o <= w
    ensures ReadsOrbit(w, o, n, doZS)
  {
    FirstOrbit(o, w, n, doZS);
  }

  lemma MultiOrbitParts(w: seq<Word>, orbits: seq<seq<Word>>, ns: seq<nat>, doZS: bool)
    requires MultiOrbit(w, orbits, ns, doZS)
    ensures orbits != [] && |ns| == |orbits|
    ensures (forall i :: 0 <= i < |orbits| ==> |orbits[i]| == OrbitWords(ns[i]))
    ensures WellFormedOrbit(orbits[0], ns[0], doZS) && orbits[0] <= w && |orbits[0]| <= |Flatten(orbits)|
    ensures |w| == |Flatten(orbits)| + 8 && w[|Flatten(orbits)|] == DEADBEEF
  {
    assert forall i :: 0 <= i < |orbits| ==> WellFormedOrbit(orbits[i], ns[i], doZS);
    FirstIsPrefix(orbits);
    assert w[..|Flatten(orbits)|] == Flatten(orbits);
  }

  lemma {:induction false} GroupsOfThree(ns: seq<nat>)
    ensures Groups(ns) >= 3 * |ns|
    decreases |ns|
  {
    if ns == [] {
    } else {
      GroupsOfThree(ns[..|ns| - 1]);
    }
  }

  /** The frame-size test turns no such packet away. */
  lemma MultiOrbitPassesFrameTest(w: seq<Word>, orbits: seq<seq<Word>>, ns: seq<nat>, doZS: bool)
    requires MultiOrbit(w, orbits, ns, doZS) && 4 * |w| < 0x1_0000_0000
    ensures FrameIsMultiple(4 * |w|, |orbits|)
  {
    MultiOrbitParts(w, orbits, ns, doZS);
    hide *;
    OrbitsAreGroups(orbits, ns);
    GroupsOfThree(ns);
    WholeBlocksPass(4 * |w|, |orbits|, Groups(ns) - 3 * |ns|);
  }

  lemma OnePassExactlyWhen(w: seq<Word>, orbits: seq<seq<Word>>, ns: seq<nat>, doZS: bool)
    requires MultiOrbit(w, orbits, ns, doZS)
    ensures |Flatten(orbits)| == OrbitWords(ns[0]) <==> |orbits| == 1
  {
    MultiOrbitParts(w, orbits, ns, doZS);
    FirstIsPrefix(orbits);
    if |orbits| > 1 {
      FirstIsPrefix(orbits[1..]);
      assert |orbits[1]| == OrbitWords(ns[1]);
    }
  }

  /** When the loop halts, the end it reports is where the records end exactly if there is one orbit, or
      nothing to write. */
  lemma MultiOrbitEndIsRightExactlyWhen(w: seq<Word>, orbits: seq<seq<Word>>, ns: seq<nat>, doZS: bool)
    requires MultiOrbit(w, orbits, ns, doZS) && NoStrayMarker(w, OrbitWords(ns[0]))
    requires PassCount(w, OrbitWords(ns[0]), 0).Some?
    ensures HEADER + BLOCK * ns[0] + TRAILER <= |w|
    ensures var rs := Records(w, 0, ns[0], CrossingsOf(w, ns[0]), 0, doZS);
            PassCount(w, OrbitWords(ns[0]), 0).value * ClosedForm(MuonCount(rs), ns[0]) == |EncodeAll(rs)|
            <==> |orbits| == 1 || ns[0] == 0
  {
    var m, bxs := PassCount(w, OrbitWords(ns[0]), 0).value, CrossingsOf(w, ns[0]);
    OnePassExactlyWhen(w, orbits, ns, doZS);
    MultiOrbitParts(w, orbits, ns, doZS);
    hide MultiOrbit, NoStrayMarker, PassCount, Flatten, Crossings, Decode, EncodeAll, Meaning,
         MuonCount, WellFormedOrbit;
    MultiOrbitHaltsExactlyWhen(w, orbits, ns, doZS);
    QuotientIsOneExactlyWhen(|Flatten(orbits)|, OrbitWords(ns[0]));
    RecordsPair(w, 0, ns[0], bxs, 0, doZS);
    hide Records, Exactly;
    EndIsRightExactlyWhen(w, ns[0], bxs, doZS, m);
  }

  lemma QuotientIsOneExactlyWhen(total: nat, d: nat)
    requires d > 0 && total >= d
    ensures Exactly(total, d).Some? ==>
              Exactly(total, d).value >= 1 && (Exactly(total, d).value == 1 <==> total == d)
  {
    DividesExactlyWhen(total, d);
    MultiplesApart(d, total / d - 1);
    assert d * (total / d - 1) == total / d * d - d;
  }

  // ---- Three packets -------------------------------------------------------------------------------

  function Zeros(n: nat): seq<Word> { seq(n, _ => 0) }

  /** An orbit whose map has no bits beyond the first word. */
  function OrbitOf(blocks: seq<Word>, bits: Word): seq<Word> {
    Zeros(HEADER) + blocks + TrailerOf(bits)
  }

  function TrailerOf(bits: Word): seq<Word> { [BEEFDEAD] + Zeros(7) + ([bits] + Zeros(111)) + Zeros(16) }

  /** A block with one muon, on the first link. */
  function MuonBlock(orbit: Word, muon: Word): Block { [orbit] + Zeros(15) + [muon] + Zeros(31) }

  function PacketOf(orbits: seq<seq<Word>>): seq<Word> { Flatten(orbits) + [DEADBEEF] + Zeros(7) }

  lemma {:induction false} NoBits(offset: nat, n: nat)
    requires offset + n <= 0x1_0000_0000
    ensures SetBits(0, offset, n) == []
    decreases n
  {
    if n == 0 {
    } else {
      NoBits(offset + 1, n - 1);
    }
  }

  lemma {:induction false} NoCrossings(n: nat, k: nat)
    requires k + n <= MAP_WORDS
    ensures Crossings(Zeros(n), k) == [] && PopcountSum(Zeros(n)) == 0
    decreases n
  {
    if n == 0 {
    } else {
      NoBits(32 * k, 32);
      assert Zeros(n)[1..] == Zeros(n - 1);
      NoCrossings(n - 1, k + 1);
    }
  }

  lemma MapOf(bits: Word)
    ensures Crossings([bits] + Zeros(111), 0) == SetBits(bits, 0, 32)
    ensures PopcountSum([bits] + Zeros(111)) == Popcount(bits)
  {
    assert ([bits] + Zeros(111))[1..] == Zeros(111);
    NoCrossings(111, 1);
  }

  lemma OrbitOfParts(blocks: seq<Word>, bits: Word, n: nat)
    requires |blocks| == BLOCK * n
    ensures var o := OrbitOf(blocks, bits);
      && |o| == OrbitWords(n) && o[HEADER + BLOCK * n] == BEEFDEAD
      && CrossingsOf(o, n) == SetBits(bits, 0, 32)
      && PopcountSum(o[HEADER + BLOCK * n + 8..HEADER + BLOCK * n + 8 + MAP_WORDS]) == Popcount(bits)
      && forall j :: 0 <= j < n ==> BlockAt(o, j) == blocks[BLOCK * j..BLOCK * j + BLOCK]
  {
    var o := OrbitOf(blocks, bits);
    TrailerParts(bits);
    MapOf(bits);
    hide TrailerOf, Zeros, Crossings, PopcountSum, SetBits;
    assert |Zeros(HEADER)| == HEADER by { ZerosLength(HEADER); }
    InTail(Zeros(HEADER) + blocks, TrailerOf(bits), 0, 1);
    InTail(Zeros(HEADER) + blocks, TrailerOf(bits), 8, 8 + MAP_WORDS);
    forall j | 0 <= j < n ensures BlockAt(o, j) == blocks[BLOCK * j..BLOCK * j + BLOCK] {
      assert BLOCK * j + BLOCK <= BLOCK * n;
      InMiddle(Zeros(HEADER), blocks, TrailerOf(bits), BLOCK * j, BLOCK * j + BLOCK);
    }
  }

  lemma ZerosLength(n: nat)
    ensures |Zeros(n)| == n
  {}

  lemma TrailerParts(bits: Word)
    ensures |TrailerOf(bits)| == TRAILER && TrailerOf(bits)[0] == BEEFDEAD
    ensures TrailerOf(bits)[8..8 + MAP_WORDS] == [bits] + Zeros(111)
  {}

  lemma InTail(head: seq<Word>, tail: seq<Word>, lo: nat, hi: nat)
    requires lo < hi <= |tail|
    ensures (head + tail)[|head| + lo..|head| + hi] == tail[lo..hi] && (head + tail)[|head| + lo] == tail[lo]
  {}

  lemma InMiddle(head: seq<Word>, middle: seq<Word>, tail: seq<Word>, lo: nat, hi: nat)
    requires lo <= hi <= |middle|
    ensures (head + middle + tail)[|head| + lo..|head| + hi] == middle[lo..hi]
  {}

  lemma {:induction false} FirstLinkKept(b: Block, doZS: bool, n: nat)
    requires 1 <= n <= 8 && Keep(b[MU1F], doZS)
    ensures KeptCount(b, MU1F, doZS, n) >= 1
    decreases n
  {
    if n == 1 {
    } else {
      FirstLinkKept(b, doZS, n - 1);
    }
  }

  lemma EmptyOrbit(doZS: bool)
    ensures WellFormedOrbit(OrbitOf([], 0), 0, doZS) && |OrbitOf([], 0)| == 144
  {
    hide OrbitOf, Crossings, PopcountSum;
    OrbitOfParts([], 0, 0);
  }

  lemma OneBlockOrbit(orbit: Word, muon: Word, doZS: bool)
    requires orbit != BEEFDEAD && Pt(muon) > 0
    ensures var o := OrbitOf(MuonBlock(orbit, muon), 1);
            WellFormedOrbit(o, 1, doZS) && BlockAt(o, 0) == MuonBlock(orbit, muon) && CrossingsOf(o, 1) == [0]
            && |o| == 192 && o[0] == 0 && o[144] == 0
  {
    var b := MuonBlock(orbit, muon);
    var o := OrbitOf(b, 1);
    assert b[0] == orbit && b[MU1F] == muon;
    OneBlockZeros(b);
    hide OrbitOf, MuonBlock, Crossings, SetBits, PopcountSum, KeptCount;
    OrbitOfParts(b, 1, 1);
    assert b[BLOCK * 0..BLOCK * 0 + BLOCK] == b;
    assert o[HEADER] == BlockAt(o, 0)[0];
    FirstLinkKept(b, doZS, 8);
    FirstCrossing();
  }

  lemma OneBlockZeros(b: Block)
    ensures |OrbitOf(b, 1)| == 192 && OrbitOf(b, 1)[0] == 0 && OrbitOf(b, 1)[144] == 0
  {}

  lemma FirstCrossing()
    ensures SetBits(1, 0, 32) == [0] && SetBits(3, 0, 32) == [0, 1]
  {
    NoBits(1, 31);
    NoBits(2, 30);
    assert SetBits(3, 0, 32) == [0] + SetBits(1, 1, 31);
    assert SetBits(1, 1, 31) == [1] + SetBits(0, 2, 30);
  }

  lemma PacketIsMulti(orbits: seq<seq<Word>>, ns: seq<nat>, doZS: bool)
    requires orbits != [] && |ns| == |orbits|
    requires forall i :: 0 <= i < |orbits| ==> WellFormedOrbit(orbits[i], ns[i], doZS)
    ensures MultiOrbit(PacketOf(orbits), orbits, ns, doZS)
  {
    hide WellFormedOrbit, Flatten;
    assert PacketOf(orbits)[..|Flatten(orbits)|] == Flatten(orbits);
  }

  lemma TwoAreMulti(a: seq<Word>, b: seq<Word>, n: nat, m: nat, doZS: bool)
    requires WellFormedOrbit(a, n, doZS) && WellFormedOrbit(b, m, doZS)
    ensures MultiOrbit(PacketOf([a, b]), [a, b], [n, m], doZS)
  {
    hide *;
    PacketIsMulti([a, b], [n, m], doZS);
  }

  lemma FlattenTwo(a: seq<Word>, b: seq<Word>)
    ensures Flatten([a, b]) == a + b
  {
    FirstIsPrefix([a]);
    assert [a, b] == [a] + [b];
    FlattenAppend([a], b);
    assert [a][1..] == [];
  }

  lemma TwoOrbitWords(a: seq<Word>, b: seq<Word>, k: nat)
    requires k < |a| + |b|
    ensures |PacketOf([a, b])| == |a| + |b| + 8
    ensures PacketOf([a, b])[k] == if k < |a| then a[k] else b[k - |a|]
  {
    FlattenTwo(a, b);
  }

  /** Two well-formed orbits, the first without muons: the frame-size test lets the packet through, and
      the loop never ends. */
  lemma EmptyFirstOrbitHangs(doZS: bool)
    ensures var orbits := [OrbitOf([], 0), OrbitOf(MuonBlock(1, 1024), 1)];
            var w := PacketOf(orbits);
      && |w| == 344 && MultiOrbit(w, orbits, [0, 1], doZS) && FrameIsMultiple(4 * |w|, 2)
      && FindTrailer(w, 0) == Some(0) && |CrossingsOf(w, 0)| == 0 && PassCount(w, OrbitWords(0), 0) == None
  {
    var a, b := OrbitOf([], 0), OrbitOf(MuonBlock(1, 1024), 1);
    var w := PacketOf([a, b]);
    hide *;
    EmptyOrbit(doZS);
    Momenta();
    OneBlockOrbit(1, 1024, doZS);
    TwoAreMulti(a, b, 0, 1, doZS);
    HangingParts(a, b);
    Hangs(w, a, b, doZS);
  }

  lemma Hangs(w: seq<Word>, a: seq<Word>, b: seq<Word>, doZS: bool)
    requires MultiOrbit(w, [a, b], [0, 1], doZS) && NoStrayMarker(w, OrbitWords(0))
    requires |w| == 344 && |Flatten([a, b])| == 336 && Exactly(336, OrbitWords(0)) == None
    ensures FrameIsMultiple(4 * |w|, 2) && PassCount(w, OrbitWords(0), 0) == None
    ensures FindTrailer(w, 0) == Some(0) && |w| >= OrbitWords(0) && |CrossingsOf(w, 0)| == 0
  {
    hide *;
    LongOrbit(0);
    MultiOrbitHaltsExactlyWhen(w, [a, b], [0, 1], doZS);
    MultiOrbitPassesFrameTest(w, [a, b], [0, 1], doZS);
    NoRecords(w, a, doZS);
  }

  lemma NoRecords(w: seq<Word>, o: seq<Word>, doZS: bool)
    requires ReadsOrbit(w, o, 0, doZS)
    ensures FindTrailer(w, 0) == Some(0) && |w| >= OrbitWords(0) && |CrossingsOf(w, 0)| == 0
  {
    hide Records, Decode, EncodeAll, Meaning, Crossings, FindTrailer;
  }

  lemma HangingParts(a: seq<Word>, b: seq<Word>)
    requires |a| == 144 && |b| == 192 && b[0] == 0 && b[144] == 0
    ensures |PacketOf([a, b])| == 344 && |Flatten([a, b])| == 336
    ensures NoStrayMarker(PacketOf([a, b]), OrbitWords(0)) && Exactly(336, OrbitWords(0)) == None
  {
    FlattenTwo(a, b);
    TwoOrbitWords(a, b, 144);
    TwoOrbitWords(a, b, 288);
    hide PacketOf, Flatten, NoStrayMarker;
    StrayAtMostTwo(PacketOf([a, b]));
  }

  lemma StrayAtMostTwo(w: seq<Word>)
    requires |w| == 344 && w[144] != DEADBEEF && w[288] != DEADBEEF
    ensures NoStrayMarker(w, OrbitWords(0))
  {
    forall m: nat | m >= 1 && m * 144 + 8 < |w| ensures w[m * 144] != DEADBEEF {
      assert m == 1 || m == 2;
    }
  }

  /** Two well-formed orbits of one block and one muon each: the loop halts after two passes, but no
      record of the second orbit is written, and the reported end is beyond the records of the first. */
  lemma SecondOrbitIsLost()
    ensures var orbits := [OrbitOf(MuonBlock(1, 1024), 1), OrbitOf(MuonBlock(2, 2048), 1)];
            var w := PacketOf(orbits);
      && |w| == 392 && MultiOrbit(w, orbits, [1, 1], true) && FrameIsMultiple(4 * |w|, 2)
      && PassCount(w, OrbitWords(1), 0) == Some(2) && FindTrailer(w, 0) == Some(1)
      && var rs := Records(w, 0, 1, CrossingsOf(w, 1), 0, true);
         rs == [Meaning(MuonBlock(1, 1024), 0, true)] && rs[0].orbit == 1
         && 2 * ClosedForm(MuonCount(rs), 1) != |EncodeAll(rs)|
  {
    var a, b := OrbitOf(MuonBlock(1, 1024), 1), OrbitOf(MuonBlock(2, 2048), 1);
    var w := PacketOf([a, b]);
    hide *;
    Momenta();
    OneBlockOrbit(1, 1024, true);
    OneBlockOrbit(2, 2048, true);
    TwoAreMulti(a, b, 1, 1, true);
    LostOrbitParts(a, b);
    MeaningOrbit(MuonBlock(1, 1024), 1, 1024);
    MultiOrbitHaltsExactlyWhen(w, [a, b], [1, 1], true);
    MultiOrbitPassesFrameTest(w, [a, b], [1, 1], true);
    MultiOrbitEndIsRightExactlyWhen(w, [a, b], [1, 1], true);
    OnlyRecord(w, a, MuonBlock(1, 1024));
  }

  lemma Momenta()
    ensures Pt(1024) == 1 && Pt(2048) == 2
  {}

  lemma LostOrbitParts(a: seq<Word>, b: seq<Word>)
    requires |a| == 192 && |b| == 192 && b[0] == 0
    ensures |PacketOf([a, b])| == 392 && |Flatten([a, b])| == 384
    ensures NoStrayMarker(PacketOf([a, b]), OrbitWords(1))
    ensures Exactly(384, OrbitWords(1)) == Some(2)
  {
    FlattenTwo(a, b);
    TwoOrbitWords(a, b, 192);
    hide PacketOf, Flatten, NoStrayMarker;
    StrayAtMostOne(PacketOf([a, b]));
  }

  lemma MeaningOrbit(b: Block, orbit: Word, muon: Word)
    requires b == MuonBlock(orbit, muon)
    ensures Meaning(b, 0, true).orbit == orbit
  {}

  lemma OnlyRecord(w: seq<Word>, o: seq<Word>, b: Block)
    requires ReadsOrbit(w, o, 1, true) && BlockAt(o, 0) == b && CrossingsOf(o, 1) == [0]
    ensures FindTrailer(w, 0) == Some(1) && |CrossingsOf(w, 1)| == 1 && |w| >= OrbitWords(1)
    ensures Records(w, 0, 1, CrossingsOf(w, 1), 0, true) == [Meaning(b, 0, true)]
  {
    hide Records, Meaning, Crossings, Decode, EncodeAll, FindTrailer;
  }

  lemma StrayAtMostOne(w: seq<Word>)
    requires |w| == 392 && w[192] != DEADBEEF
    ensures NoStrayMarker(w, OrbitWords(1))
  {
    forall m: nat | m >= 1 && m * 192 + 8 < |w| ensures w[m * 192] != DEADBEEF {
      assert m == 1;
    }
  }

  lemma {:induction false} NoneKept(b: Block, group: nat, n: nat)
    requires group <= 40 && n <= 8 && forall k :: group <= k < group + n ==> b[k] == 0
    ensures KeptCount(b, group, true, n) == 0
    decreases n
  {
    if n == 0 {
    } else {
      NoneKept(b, group, n - 1);
    }
  }

  /** The packet of one orbit whose first block, for crossing 0, is empty, and whose second block, for
      crossing 1, has a muon. */
  function ShiftedPacket(): seq<Word> { OrbitOf(Zeros(BLOCK) + MuonBlock(1, 1024), 3) + [DEADBEEF] + Zeros(7) }

  lemma ShiftedOrbitParts()
    ensures var o := OrbitOf(Zeros(BLOCK) + MuonBlock(1, 1024), 3);
      && |o| == OrbitWords(2) && CrossingsOf(o, 2) == [0, 1] && o[HEADER + BLOCK * 2] == BEEFDEAD
      && BlockAt(o, 0) == Zeros(BLOCK) && BlockAt(o, 1) == MuonBlock(1, 1024) && MuonBlock(1, 1024)[0] == 1
  {
    var blocks := Zeros(BLOCK) + MuonBlock(1, 1024);
    assert |MuonBlock(1, 1024)| == BLOCK;
    assert blocks[BLOCK * 0..BLOCK * 0 + BLOCK] == Zeros(BLOCK);
    assert blocks[BLOCK * 1..BLOCK * 1 + BLOCK] == MuonBlock(1, 1024);
    hide OrbitOf, Crossings, SetBits;
    OrbitOfParts(blocks, 3, 2);
    FirstCrossing();
  }

  lemma TwoBlocksFound(o: seq<Word>, w: seq<Word>)
    requires |o| == OrbitWords(2) && o <= w && o[HEADER + BLOCK * 2] == BEEFDEAD
    requires BlockAt(o, 0)[0] != BEEFDEAD && BlockAt(o, 1)[0] != BEEFDEAD
    ensures FindTrailer(w, 0) == Some(2) && CrossingsOf(w, 2) == CrossingsOf(o, 2)
    ensures BlockAt(w, 0) == BlockAt(o, 0) && BlockAt(w, 1) == BlockAt(o, 1)
  {
    hide Crossings, FindTrailer;
    SamePrefix(o, w, HEADER, HEADER + BLOCK);
    SamePrefix(o, w, HEADER + BLOCK, HEADER + BLOCK + BLOCK);
    SamePrefix(o, w, HEADER + BLOCK * 2 + 8, HEADER + BLOCK * 2 + 8 + MAP_WORDS);
    TrailerAt(w, 0, 2);
  }

  lemma ShiftedPacketParts()
    ensures var w := ShiftedPacket();
      && |w| == OrbitWords(2) + 8 && FindTrailer(w, 0) == Some(2) && CrossingsOf(w, 2) == [0, 1]
      && BlockAt(w, 0) == Zeros(BLOCK) && BlockAt(w, 1) == MuonBlock(1, 1024) && w[OrbitWords(2)] == DEADBEEF
  {
    var o, w := OrbitOf(Zeros(BLOCK) + MuonBlock(1, 1024), 3), ShiftedPacket();
    assert Zeros(BLOCK)[0] == 0;
    hide OrbitOf, MuonBlock, Crossings, FindTrailer, Zeros;
    ShiftedOrbitParts();
    ZerosLength(7);
    ZerosLength(BLOCK);
    TwoBlocksFound(o, w);
  }

  /** A block without muons shifts the rest: the muon of crossing 1 is recorded under crossing 0, and the
      reported end lies behind the only record. */
  lemma EmptyBlockShifts()
    ensures var w := ShiftedPacket();
      && FrameIsMultiple(4 * |w|, 1) && FindTrailer(w, 0) == Some(2) && CrossingsOf(w, 2) == [0, 1]
      && PassCount(w, OrbitWords(2), 0) == Some(1) && BlockAt(w, 1) == MuonBlock(1, 1024)
      && var rs := Records(w, 0, 2, [0, 1], 0, true);
         rs == [Meaning(MuonBlock(1, 1024), 0, true)] && |EncodeAll(rs)| != ClosedForm(MuonCount(rs), 2)
  {
    var w := ShiftedPacket();
    hide *;
    ShiftedPacketParts();
    EmptyThenFull();
    OnePass(w);
    WholeBlocksPass(4 * |w|, 1, 2);
    RecordsShift(w, MuonBlock(1, 1024));
  }

  lemma OnePass(w: seq<Word>)
    requires |w| == OrbitWords(2) + 8 && w[OrbitWords(2)] == DEADBEEF
    ensures |w| == 248 && PassCount(w, OrbitWords(2), 0) == Some(1)
  {}

  lemma EmptyThenFull()
    ensures |Zeros(BLOCK)| == BLOCK && NoMuons(Zeros(BLOCK), true) && !NoMuons(MuonBlock(1, 1024), true)
  {
    var b := MuonBlock(1, 1024);
    assert b[MU1F] == 1024;
    hide MuonBlock, KeptCount;
    NoneKept(Zeros(BLOCK), MU1F, 8);
    NoneKept(Zeros(BLOCK), MU2F, 8);
    FirstLinkKept(b, true, 8);
  }

  lemma RecordsShift(w: seq<Word>, b: Block)
    requires |w| >= OrbitWords(2) && BlockAt(w, 1) == b && NoMuons(BlockAt(w, 0), true) && !NoMuons(b, true)
    ensures var rs := Records(w, 0, 2, [0, 1], 0, true);
            rs == [Meaning(b, 0, true)] && |EncodeAll(rs)| != ClosedForm(MuonCount(rs), 2)
  {
    hide NoMuons, Meaning, EncodeAll, MuonCount;
    assert Records(w, 2, 2, [0, 1], 1, true) == [];
    assert Records(w, 1, 2, [0, 1], 0, true) == [Meaning(BlockAt(w, 1), 0, true)];
    assert FullBlocks(w, 2, 2, true) == [] && FullBlocks(w, 1, 2, true) == [BlockAt(w, 1)];
    ClosedFormExactlyWhen(w, 2, [0, 1], true);
  }
}
